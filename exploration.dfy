/** The exploration loop `explorarSalas`: a cursor walks the room tree from
    the root, driven by the player's one-character choices, and every room it
    enters is written into a fixed 100-slot visit log.

    The player's input is a finite sequence of tokens: each is the character a
    `scanf(" %c")` call returned (white space already skipped) or a failed
    read.  The loop is specified by the function `Walk`, and the method
    `Explore` runs it the way the C code does, over an array of tokens and an
    array for the log. */
module Exploration {
  import opened Rooms

  /** Number of slots of the `visitadas` array. */
  const Capacity: nat := 100

  /** What one read of the player's choice produced. */
  datatype Token = Key(c: char) | ReadFailed

  /** How the loop reads a token. */
  datatype Choice = Go(dir: Dir) | Leave | Invalid | Unreadable

  /** Why the loop stopped.  `InputExhausted` only says that the finite token
      sequence ran out while the player was still being prompted. */
  datatype Reason = Leaf | Quit | EmptyMap | InputExhausted

  /** What a session leaves behind: the visit log and why it ended. */
  datatype Session = Session(log: seq<string>, reason: Reason)

  /** The state the loop stops in: the walk from the root to the cursor, the
      visit log, the tokens not read, and why it stopped. */
  datatype Stop = Stop(path: seq<Dir>, log: seq<string>, rest: seq<Token>, reason: Reason)

  /** One entry of the menu printed before each read. */
  datatype Offer = OfferLeft | OfferRight | OfferQuit

  /** The option a token selects: `e`/`E` go left, `d`/`D` go right, `s`/`S`
      quit, a failed read and every other character select nothing. */
  function Classify(tok: Token): (ch: Choice)
    ensures ch == Unreadable <==> tok == ReadFailed
    ensures ch == Leave <==> tok == Key('s') || tok == Key('S')
    ensures ch == Go(Left) <==> tok == Key('e') || tok == Key('E')
    ensures ch == Go(Right) <==> tok == Key('d') || tok == Key('D')
  {
    match tok
    case ReadFailed => Unreadable
    case Key(c) =>
      if c == 's' || c == 'S' then Leave
      else if c == 'e' || c == 'E' then Go(Left)
      else if c == 'd' || c == 'D' then Go(Right)
      else Invalid
  }

  /** The menu shown at room `here`: left and quit are always offered, right
      only when the room has a right child. */
  function Prompt(here: Tree): (menu: seq<Offer>)
    ensures OfferLeft in menu && OfferQuit in menu
    ensures OfferRight in menu <==> here.Node? && here.right.Node?
    ensures menu[0] == OfferLeft && menu[|menu| - 1] == OfferQuit
    ensures |menu| == if here.Node? && here.right.Node? then 3 else 2
  {
    [OfferLeft] + (if here.Node? && here.right.Node? then [OfferRight] else []) + [OfferQuit]
  }

  /** The loop of `explorarSalas` from the cursor at path `p` with visit log
      `log`: stop on a leaf before reading; otherwise read one token, quit on
      `s`/`S`, move and log the new room when the chosen child exists, and
      carry on unchanged on anything else. */
  function Walk(t: Tree, p: seq<Dir>, log: seq<string>, input: seq<Token>): (s: Stop)
    requires At(t, p).Node?
    ensures At(t, s.path).Node?
    ensures log <= s.log && |s.rest| <= |input|
    ensures s.reason != EmptyMap
    decreases |input|
  {
    var here := At(t, p);
    if IsLeaf(here) then Stop(p, log, input, Leaf)
    else if input == [] then Stop(p, log, input, InputExhausted)
    else
      match Classify(input[0])
      case Leave => Stop(p, log, input[1..], Quit)
      case Go(d) =>
        if Child(here, d).Node? then
          AtSnoc(t, p, d);
          Walk(t, p + [d], log + [Child(here, d).name], input[1..])
        else
          Walk(t, p, log, input[1..])
      case Invalid => Walk(t, p, log, input[1..])
      case Unreadable => Walk(t, p, log, input[1..])
  }

  /** A whole session over the tree `root`: with no root nothing is explored;
      otherwise the root is logged first and the loop runs from it. */
  function Run(root: Tree, input: seq<Token>): (r: Session)
    ensures root.Nil? <==> r.reason == EmptyMap
    ensures root.Nil? ==> r.log == []
    ensures root.Node? ==> |r.log| >= 1 && r.log[0] == root.name
  {
    if root.Nil? then Session([], EmptyMap)
    else
      var s := Walk(root, [], [root.name], input);
      Session(s.log, s.reason)
  }

  /** explorarSalas.  The cursor `current` and the log `visited[..count]` are
      updated exactly as in C; the session they produce is `Run`.  Every write
      `visited[count]` is in bounds as long as the session logs no more rooms
      than the array has slots, which holds whenever the tree is at most
      `Capacity` rooms high (`LogWithinHeight`). */
  method Explore(root: Tree, input: array<Token>) returns (visited: array<string>, count: nat, reason: Reason)
    requires |Run(root, input[..]).log| <= Capacity
    ensures visited.Length == Capacity && count <= visited.Length
    ensures Session(visited[..count], reason) == Run(root, input[..])
  {
    visited := new string[Capacity];
    count := 0;
    if root.Nil? {
      reason := EmptyMap;
      return;
    }
    var current := root;
    ghost var path: seq<Dir> := [];
    visited[count] := current.name;
    count := count + 1;
    assert visited[..count] == [root.name];
    var i := 0;
    assert input[..] == input[0..];
    ghost var final := Walk(root, [], [root.name], input[..]);
    assert final.log == Run(root, input[..]).log;
    while true
      invariant 0 <= i <= input.Length
      invariant current == At(root, path) && current.Node?
      invariant count == |path| + 1 && count <= |final.log| <= Capacity
      invariant Walk(root, path, visited[..count], input[i..]) == final
      decreases input.Length - i
    {
      if current.left.Nil? && current.right.Nil? {
        reason := Leaf;
        break;
      }
      if i == input.Length {
        reason := InputExhausted;
        break;
      }
      assert input[i..][1..] == input[i + 1..];
      var choice := Classify(input[i]);
      i := i + 1;
      match choice
      case Leave =>
        reason := Quit;
        break;
      case Go(d) =>
        var next := Child(current, d);
        if next.Node? {
          AtSnoc(root, path, d);
          assert Walk(root, path + [d], visited[..count] + [next.name], input[i..]) == final;
          ghost var before := visited[..count];
          current := next;
          path := path + [d];
          visited[count] := current.name;
          count := count + 1;
          assert visited[..count] == before + [current.name];
        }
      case Invalid =>
      case Unreadable =>
    }
  }

  /** Lower-case an ASCII letter; leave every other token alone. */
  function Fold(tok: Token): (f: Token) {
    match tok
    case Key(c) => if 'A' <= c <= 'Z' then Key((c as int + 32) as char) else tok
    case ReadFailed => tok
  }

  /** Lower-case every token of an input. */
  function FoldAll(input: seq<Token>): (r: seq<Token>)
    ensures |r| == |input|
    ensures forall k :: 0 <= k < |input| ==> r[k] == Fold(input[k])
  {
    seq(|input|, k requires 0 <= k < |input| => Fold(input[k]))
  }

  // ----- Properties of the loop -----

  /** A token that selects nothing -- a failed read, an unknown character, or
      a direction with no child -- leaves the cursor and the log as they were
      and the loop goes on with the next token. */
  lemma NoEffectTokenIsSkipped(t: Tree, p: seq<Dir>, log: seq<string>, tok: Token, rest: seq<Token>)
    requires At(t, p).Node? && !IsLeaf(At(t, p))
    requires Classify(tok) == Invalid || Classify(tok) == Unreadable ||
             (Classify(tok).Go? && Child(At(t, p), Classify(tok).dir).Nil?)
    ensures Walk(t, p, log, [tok] + rest) == Walk(t, p, log, rest)
  {
  }

  /** The visit log is the list of names along the walk from the root to the
      cursor: the loop appends a room only when it really moves there. */
  lemma {:induction false} WalkLogIsPath(t: Tree, p: seq<Dir>, log: seq<string>, input: seq<Token>)
    requires At(t, p).Node? && log == PathNames(t, p)
    ensures Walk(t, p, log, input).log == PathNames(t, Walk(t, p, log, input).path)
    decreases |input|
  {
    var here := At(t, p);
    if !IsLeaf(here) && input != [] {
      match Classify(input[0])
      case Leave =>
      case Go(d) =>
        if Child(here, d).Node? {
          AtSnoc(t, p, d);
          PathNamesSnoc(t, p, d);
          WalkLogIsPath(t, p + [d], log + [Child(here, d).name], input[1..]);
        } else {
          WalkLogIsPath(t, p, log, input[1..]);
        }
      case Invalid => WalkLogIsPath(t, p, log, input[1..]);
      case Unreadable => WalkLogIsPath(t, p, log, input[1..]);
    }
  }

  /** The log of a session is a real walk from the root: entry 0 is the
      root's name, entry `i` names the room `i` steps down the walk, and each
      room of the walk is the left or right child of the one before it. */
  lemma RunLogIsRootPath(root: Tree, input: seq<Token>)
    requires root.Node?
    ensures var path := Walk(root, [], [root.name], input).path;
            var log := Run(root, input).log;
            At(root, path).Node? && log == PathNames(root, path) &&
            (forall i :: 0 <= i < |log| ==> At(root, path[..i]).Node? && log[i] == At(root, path[..i]).name) &&
            (forall i :: 0 <= i < |path| ==> At(root, path[..i + 1]) == Child(At(root, path[..i]), path[i]))
  {
    var path := Walk(root, [], [root.name], input).path;
    var log := Run(root, input).log;
    assert PathNames(root, []) == [root.name];
    WalkLogIsPath(root, [], [root.name], input);
    forall i | 0 <= i < |log|
      ensures At(root, path[..i]).Node? && log[i] == At(root, path[..i]).name
    {
      PathNamesAt(root, path, i);
    }
    forall i | 0 <= i < |path|
      ensures At(root, path[..i + 1]) == Child(At(root, path[..i]), path[i])
    {
      assert path[..i + 1] == path[..i] + [path[i]];
      AtSnoc(root, path[..i], path[i]);
    }
  }

  /** The log never holds more entries than there are rooms on the tree's
      longest root-to-leaf walk. */
  lemma LogWithinHeight(root: Tree, input: seq<Token>)
    ensures |Run(root, input).log| <= Height(root)
  {
    if root.Node? {
      RunLogIsRootPath(root, input);
      DepthBound(root, Walk(root, [], [root.name], input).path);
    }
  }

  /** The loop reads a prefix of its input and leaves the rest unread. */
  lemma {:induction false} WalkReadsPrefix(t: Tree, p: seq<Dir>, log: seq<string>, input: seq<Token>)
    requires At(t, p).Node?
    ensures var s := Walk(t, p, log, input);
            input[|input| - |s.rest|..] == s.rest
    decreases |input|
  {
    var here := At(t, p);
    if !IsLeaf(here) && input != [] {
      var s := Walk(t, p, log, input);
      match Classify(input[0])
      case Leave =>
      case Go(d) =>
        if Child(here, d).Node? {
          AtSnoc(t, p, d);
          WalkReadsPrefix(t, p + [d], log + [Child(here, d).name], input[1..]);
        } else {
          WalkReadsPrefix(t, p, log, input[1..]);
        }
        assert input[1..][|input| - 1 - |s.rest|..] == input[|input| - |s.rest|..];
      case Invalid =>
        WalkReadsPrefix(t, p, log, input[1..]);
        assert input[1..][|input| - 1 - |s.rest|..] == input[|input| - |s.rest|..];
      case Unreadable =>
        WalkReadsPrefix(t, p, log, input[1..]);
        assert input[1..][|input| - 1 - |s.rest|..] == input[|input| - |s.rest|..];
    }
  }

  /** The loop stops on a leaf, and only there, before reading anything
      more; it stops for lack of input only once every token is read. */
  lemma {:induction false} WalkStopsOnLeaf(t: Tree, p: seq<Dir>, log: seq<string>, input: seq<Token>)
    requires At(t, p).Node?
    ensures var s := Walk(t, p, log, input);
            (s.reason == Leaf <==> IsLeaf(At(t, s.path))) &&
            (s.reason == InputExhausted ==> s.rest == [] && !IsLeaf(At(t, s.path))) &&
            (IsLeaf(At(t, p)) ==> s == Stop(p, log, input, Leaf))
    decreases |input|
  {
    var here := At(t, p);
    if !IsLeaf(here) && input != [] {
      match Classify(input[0])
      case Leave =>
      case Go(d) =>
        if Child(here, d).Node? {
          AtSnoc(t, p, d);
          WalkStopsOnLeaf(t, p + [d], log + [Child(here, d).name], input[1..]);
        } else {
          WalkStopsOnLeaf(t, p, log, input[1..]);
        }
      case Invalid => WalkStopsOnLeaf(t, p, log, input[1..]);
      case Unreadable => WalkStopsOnLeaf(t, p, log, input[1..]);
    }
  }

  /** Away from a leaf the loop stops only on `s`/`S`: the player quits on
      the last token read, and no earlier token read asked to quit. */
  lemma {:induction false} WalkStopsOnQuit(t: Tree, p: seq<Dir>, log: seq<string>, input: seq<Token>)
    requires At(t, p).Node?
    ensures var s := Walk(t, p, log, input);
            var used := |input| - |s.rest|;
            (s.reason == Quit ==> used >= 1 && Classify(input[used - 1]) == Leave) &&
            (forall k :: 0 <= k < used - (if s.reason == Quit then 1 else 0) ==> Classify(input[k]) != Leave)
    decreases |input|
  {
    var here := At(t, p);
    if !IsLeaf(here) && input != [] {
      match Classify(input[0])
      case Leave =>
      case Go(d) =>
        if Child(here, d).Node? {
          AtSnoc(t, p, d);
          WalkStopsOnQuit(t, p + [d], log + [Child(here, d).name], input[1..]);
        } else {
          WalkStopsOnQuit(t, p, log, input[1..]);
        }
        SkipShift(input);
      case Invalid =>
        WalkStopsOnQuit(t, p, log, input[1..]);
        SkipShift(input);
      case Unreadable =>
        WalkStopsOnQuit(t, p, log, input[1..]);
        SkipShift(input);
    }
  }

  /** Token `k + 1` of an input is token `k` of its tail. */
  lemma SkipShift(input: seq<Token>)
    requires input != []
    ensures forall k :: 0 <= k < |input| - 1 ==> input[1..][k] == input[k + 1]
  {
  }

  /** Upper- and lower-case letters select the same option. */
  lemma ClassifyIgnoresCase(tok: Token)
    ensures Classify(Fold(tok)) == Classify(tok)
  {
  }

  /** The loop reads its input case-insensitively: lower-casing every token
      changes neither the walk, the log nor the reason for stopping. */
  lemma {:induction false} WalkIgnoresCase(t: Tree, p: seq<Dir>, log: seq<string>, input: seq<Token>)
    requires At(t, p).Node?
    ensures var s := Walk(t, p, log, input);
            var f := Walk(t, p, log, FoldAll(input));
            f.path == s.path && f.log == s.log && f.reason == s.reason && f.rest == FoldAll(s.rest)
    decreases |input|
  {
    var here := At(t, p);
    if !IsLeaf(here) && input != [] {
      ClassifyIgnoresCase(input[0]);
      assert FoldAll(input)[1..] == FoldAll(input[1..]);
      match Classify(input[0])
      case Leave =>
      case Go(d) =>
        if Child(here, d).Node? {
          AtSnoc(t, p, d);
          WalkIgnoresCase(t, p + [d], log + [Child(here, d).name], input[1..]);
        } else {
          WalkIgnoresCase(t, p, log, input[1..]);
        }
      case Invalid => WalkIgnoresCase(t, p, log, input[1..]);
      case Unreadable => WalkIgnoresCase(t, p, log, input[1..]);
    }
  }

  /** A whole session is case-insensitive. */
  lemma RunIgnoresCase(root: Tree, input: seq<Token>)
    ensures Run(root, FoldAll(input)) == Run(root, input)
  {
    if root.Node? {
      WalkIgnoresCase(root, [], [root.name], input);
    }
  }
}
