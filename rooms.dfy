/** The room tree of the mansion: the `Sala` struct and the operations that
    create a room and attach a child to a room.

    A C `Sala *` is either NULL or points to a record holding a name and two
    child pointers.  Every room owns its children exclusively and the graph is
    a finite tree, so the whole structure is an inductive value here: `Nil`
    plays the NULL pointer and `Node` the record.  A room is identified by the
    path of directions that leads to it from the root. */
module Rooms {

  /** A room, or the absence of one (a NULL pointer). */
  datatype Tree = Nil | Node(name: string, left: Tree, right: Tree)

  /** The two directions a player can take from a room. */
  datatype Dir = Left | Right

  /** A room with no way out: both child pointers are NULL. */
  predicate IsLeaf(t: Tree): (leaf: bool)
    ensures leaf <==> t.Node? && Size(t) == 1
  {
    t.Node? && t.left.Nil? && t.right.Nil?
  }

  /** The child pointer of `t` in direction `d` (NULL when `t` is NULL). */
  function Child(t: Tree, d: Dir): (c: Tree) {
    match t
    case Nil => Nil
    case Node(_, l, r) => if d == Left then l else r
  }

  /** The room reached from `t` by following the directions `p`, or `Nil`
      when the walk leaves the tree. */
  function At(t: Tree, p: seq<Dir>): (r: Tree)
    decreases p
  {
    if p == [] then t
    else match t
      case Nil => Nil
      case Node(_, l, r) => At(if p[0] == Left then l else r, p[1..])
  }

  /** Number of rooms in the tree. */
  function Size(t: Tree): (n: nat) {
    match t
    case Nil => 0
    case Node(_, l, r) => Size(l) + Size(r) + 1
  }

  /** Number of rooms on the longest walk from the root down to a leaf. */
  function Height(t: Tree): (h: nat) {
    match t
    case Nil => 0
    case Node(_, l, r) => 1 + (if Height(l) < Height(r) then Height(r) else Height(l))
  }

  /** The names of the rooms met on the walk `p` from the root `t`, the root
      first and the room `At(t, p)` last. */
  function PathNames(t: Tree, p: seq<Dir>): (names: seq<string>)
    requires At(t, p).Node?
    ensures |names| == |p| + 1
    decreases p
  {
    if p == [] then [t.name] else [t.name] + PathNames(Child(t, p[0]), p[1..])
  }

  /** criarSala: a fresh room carrying the given name and no children. */
  function CreateRoom(name: string): (room: Tree)
    ensures room.Node? && room.name == name
    ensures IsLeaf(room) && Size(room) == 1
  {
    Node(name, Nil, Nil)
  }

  /** The assignment `x->esquerda = child` (for `d == Left`) or
      `x->direita = child` (for `d == Right`), where `x` is the room reached
      from the root `t` by the walk `p`.  The walk must reach a room: C would
      dereference NULL otherwise.  Whatever child was there is replaced. */
  function Attach(t: Tree, p: seq<Dir>, d: Dir, child: Tree): (r: Tree)
    requires At(t, p).Node?
    ensures r.Node? && r.name == t.name
    decreases p
  {
    if p == [] then
      if d == Left then t.(left := child) else t.(right := child)
    else if p[0] == Left then
      t.(left := Attach(t.left, p[1..], d, child))
    else
      t.(right := Attach(t.right, p[1..], d, child))
  }

  /** Following one more direction from the end of a walk takes the child of
      the room the walk reached. */
  lemma {:induction false} AtSnoc(t: Tree, p: seq<Dir>, d: Dir)
    ensures At(t, p + [d]) == Child(At(t, p), d)
    decreases p
  {
    if p != [] {
      assert (p + [d])[1..] == p[1..] + [d];
      AtSnoc(Child(t, p[0]), p[1..], d);
    }
  }

  /** A walk that reaches a room passes only through rooms. */
  lemma {:induction false} AtPrefix(t: Tree, p: seq<Dir>, k: nat)
    requires At(t, p).Node? && k <= |p|
    ensures At(t, p[..k]).Node?
    decreases p
  {
    if k > 0 {
      assert p[..k][1..] == p[1..][..k - 1];
      AtPrefix(Child(t, p[0]), p[1..], k - 1);
    }
  }

  /** A walk that reaches a room visits no more rooms than the tree is high. */
  lemma {:induction false} DepthBound(t: Tree, p: seq<Dir>)
    requires At(t, p).Node?
    ensures |p| + 1 <= Height(t)
    decreases p
  {
    if p != [] {
      DepthBound(Child(t, p[0]), p[1..]);
    }
  }

  /** Extending a walk by one step to an existing child appends that child's
      name to the names met along the walk. */
  lemma {:induction false} PathNamesSnoc(t: Tree, p: seq<Dir>, d: Dir)
    requires At(t, p + [d]).Node?
    ensures At(t, p).Node?
    ensures PathNames(t, p + [d]) == PathNames(t, p) + [At(t, p + [d]).name]
    decreases p
  {
    AtSnoc(t, p, d);
    if p == [] {
      assert At(t, []) == t;
    } else {
      assert (p + [d])[1..] == p[1..] + [d];
      PathNamesSnoc(Child(t, p[0]), p[1..], d);
    }
  }

  /** Entry `i` of the names along a walk is the name of the room reached by
      the first `i` steps of the walk. */
  lemma {:induction false} PathNamesAt(t: Tree, p: seq<Dir>, i: nat)
    requires At(t, p).Node? && i <= |p|
    ensures At(t, p[..i]).Node? && PathNames(t, p)[i] == At(t, p[..i]).name
    decreases p
  {
    AtPrefix(t, p, i);
    if i > 0 {
      assert p[..i][1..] == p[1..][..i - 1];
      PathNamesAt(Child(t, p[0]), p[1..], i - 1);
    }
  }

  /** Attaching `child` under the room at `p` puts `child` at `p + [d]`,
      keeps the name of every room on the walk `p`, and leaves every other
      part of the tree as it was. */
  lemma {:induction false} AttachSpec(t: Tree, p: seq<Dir>, d: Dir, child: Tree, q: seq<Dir>)
    requires At(t, p).Node?
    ensures At(Attach(t, p, d, child), p + [d]) == child
    ensures q <= p ==> At(Attach(t, p, d, child), q).Node? && At(t, q).Node? &&
                       At(Attach(t, p, d, child), q).name == At(t, q).name
    ensures !(q <= p) && !(p + [d] <= q) ==> At(Attach(t, p, d, child), q) == At(t, q)
    decreases p
  {
    var r := Attach(t, p, d, child);
    if p == [] {
      if q != [] && q[0] != d {
        assert [d] <= q <==> q[0] == d;
      } else if q != [] {
        assert [d] <= q;
      }
    } else {
      var c := p[0];
      assert (p + [d])[1..] == p[1..] + [d];
      AttachSpec(Child(t, c), p[1..], d, child, if q == [] then [] else q[1..]);
      if q != [] && q[0] == c {
        assert q <= p <==> q[1..] <= p[1..];
        assert p + [d] <= q <==> p[1..] + [d] <= q[1..];
      }
    }
  }
}
