/** liberarSala: the recursive teardown of the room tree.

    The order in which rooms are released is what the model keeps: each room
    is named by its walk from the root, and `Release` lists those walks in the
    order the C code frees the rooms -- the left subtree, then the right
    subtree, then the room itself (its name and its record). */
module Teardown {
  import opened Rooms

  /** Put `d` in front of every walk of `ps`: walks of a child's subtree seen
      from its parent. */
  function Under(d: Dir, ps: seq<seq<Dir>>): (r: seq<seq<Dir>>)
    ensures |r| == |ps|
    ensures forall i :: 0 <= i < |ps| ==> r[i] == [d] + ps[i]
  {
    seq(|ps|, i requires 0 <= i < |ps| => [d] + ps[i])
  }

  /** The rooms of `t` in the order `liberarSala(t)` frees them, each named
      by its walk from `t`.  A NULL tree frees nothing. */
  function Release(t: Tree): (order: seq<seq<Dir>>)
    ensures t.Nil? ==> order == []
    ensures t.Node? ==> order != [] && order[|order| - 1] == []
  {
    match t
    case Nil => []
    case Node(_, l, r) => Under(Left, Release(l)) + Under(Right, Release(r)) + [[]]
  }

  /** One room is released per room of the tree. */
  lemma {:induction false} ReleaseCount(t: Tree)
    ensures |Release(t)| == Size(t)
  {
    if t.Node? {
      ReleaseCount(t.left);
      ReleaseCount(t.right);
    }
  }

  /** Every walk released leads to a room of the tree, and every room of the
      tree is released. */
  lemma {:induction false} ReleaseComplete(t: Tree, p: seq<Dir>)
    ensures p in Release(t) <==> At(t, p).Node?
    decreases p
  {
    if t.Node? {
      var order := Release(t);
      var ls, rs := Under(Left, Release(t.left)), Under(Right, Release(t.right));
      assert order == ls + rs + [[]];
      if p != [] {
        var q := p[1..];
        assert p == [p[0]] + q;
        ReleaseComplete(Child(t, p[0]), q);
        if p[0] == Left {
          assert p in ls <==> q in Release(t.left);
          assert p !in rs;
        } else {
          assert p in rs <==> q in Release(t.right);
          assert p !in ls;
        }
      }
    }
  }

  /** No walk occurs twice in `s`. */
  predicate Distinct(s: seq<seq<Dir>>) {
    forall i, j :: 0 <= i < j < |s| ==> s[i] != s[j]
  }

  /** No walk of `s` is a proper prefix of a walk that comes after it. */
  predicate DeepestFirst(s: seq<seq<Dir>>) {
    forall i, j :: 0 <= i < j < |s| ==> !(s[i] < s[j])
  }

  /** Prefixing every walk with the same direction keeps them distinct and
      keeps their order deepest first. */
  lemma UnderKeepsOrder(d: Dir, ps: seq<seq<Dir>>)
    requires Distinct(ps) && DeepestFirst(ps)
    ensures Distinct(Under(d, ps)) && DeepestFirst(Under(d, ps))
  {
    var us := Under(d, ps);
    forall i, j | 0 <= i < j < |us|
      ensures us[i] != us[j] && !(us[i] < us[j])
    {
      assert us[i][1..] == ps[i] && us[j][1..] == ps[j];
    }
  }

  /** The walks released from the left subtree, those from the right subtree
      and the root walk `[]`, put one after the other, stay distinct and
      deepest first. */
  lemma JoinKeepsOrder(ls: seq<seq<Dir>>, rs: seq<seq<Dir>>)
    requires Distinct(ls) && DeepestFirst(ls) && Distinct(rs) && DeepestFirst(rs)
    requires forall i :: 0 <= i < |ls| ==> |ls[i]| > 0 && ls[i][0] == Left
    requires forall i :: 0 <= i < |rs| ==> |rs[i]| > 0 && rs[i][0] == Right
    ensures Distinct(ls + rs + [[]]) && DeepestFirst(ls + rs + [[]])
  {
  }

  /** Each room is released exactly once, and only after every room below
      it (post-order): no walk released earlier is a proper prefix of, that
      is an ancestor of, one released later. */
  lemma {:induction false} ReleaseOnceChildrenFirst(t: Tree)
    ensures forall i, j :: 0 <= i < j < |Release(t)| ==> Release(t)[i] != Release(t)[j]
    ensures forall i, j :: 0 <= i < j < |Release(t)| ==> !(Release(t)[i] < Release(t)[j])
  {
    if t.Node? {
      ReleaseOnceChildrenFirst(t.left);
      ReleaseOnceChildrenFirst(t.right);
      UnderKeepsOrder(Left, Release(t.left));
      UnderKeepsOrder(Right, Release(t.right));
      JoinKeepsOrder(Under(Left, Release(t.left)), Under(Right, Release(t.right)));
    }
  }
}
