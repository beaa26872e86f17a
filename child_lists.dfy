/** Pure operations on a DOM child list: the ordered sequence of a node's
    children. Each DOM call the include utility makes (insertBefore,
    removeChild) changes one or two such lists; these functions say how. */
module ChildLists {

  /** Identity of a node of the page: an element, a text node, or a node
      created while an include is processed. */
  type NodeId = nat

  /** No node occurs twice in the list. */
  predicate Distinct(s: seq<NodeId>) {
    forall i, j :: 0 <= i < j < |s| ==> s[i] != s[j]
  }

  /** Position of the first occurrence of `x` in `s`. */
  function IndexOf(s: seq<NodeId>, x: NodeId): (i: nat)
    requires x in s
    ensures i < |s| && s[i] == x && x !in s[..i]
  {
    if s[0] == x then 0
    else
      var j := IndexOf(s[1..], x);
      assert s[..j + 1] == [s[0]] + s[1..][..j];
      1 + j
  }

  /** A position that holds `x` with no `x` before it is where IndexOf finds `x`. */
  lemma IndexOfAt(s: seq<NodeId>, x: NodeId, i: nat)
    requires i < |s| && s[i] == x && x !in s[..i]
    ensures IndexOf(s, x) == i
  {
  }

  /** `s` with the first `x` taken out: what removeChild does to the
      parent's child list. */
  function Without(s: seq<NodeId>, x: NodeId): (r: seq<NodeId>)
    requires x in s
    ensures multiset(r) == multiset(s) - multiset{x}
  {
    var i := IndexOf(s, x);
    assert s == s[..i] + [x] + s[i + 1..];
    s[..i] + s[i + 1..]
  }

  /** `s` with `x` placed immediately before the first `ref`: what
      insertBefore(x, ref) does to the new parent's child list. */
  function PlacedBefore(s: seq<NodeId>, x: NodeId, ref: NodeId): (r: seq<NodeId>)
    requires ref in s
    ensures multiset(r) == multiset(s) + multiset{x}
    ensures ref in r
  {
    var i := IndexOf(s, ref);
    assert s == s[..i] + s[i..];
    s[..i] + [x] + s[i..]
  }

  /** `s` with its first `x` replaced by the whole of `f`, in order: the
      prefix before `x`, then `f`, then the suffix after `x`. */
  function Spliced(s: seq<NodeId>, x: NodeId, f: seq<NodeId>): (r: seq<NodeId>)
    requires x in s
    ensures multiset(r) == multiset(s) - multiset{x} + multiset(f)
  {
    var i := IndexOf(s, x);
    assert s == s[..i] + [x] + s[i + 1..];
    s[..i] + f + s[i + 1..]
  }

  /** `s` after inserting every node of `f`, first to last, immediately
      before `x`, one insertBefore at a time. */
  function MoveEachBefore(s: seq<NodeId>, f: seq<NodeId>, x: NodeId): (r: seq<NodeId>)
    requires x in s
    ensures multiset(r) == multiset(s) + multiset(f)
    ensures x in r
    decreases f
  {
    if f == [] then s
    else
      assert f == [f[0]] + f[1..];
      MoveEachBefore(PlacedBefore(s, f[0], x), f[1..], x)
  }

  /** Taking out the `x` that follows a prefix free of `x` joins the prefix
      and the suffix. */
  lemma WithoutAt(a: seq<NodeId>, b: seq<NodeId>, x: NodeId)
    requires x !in a
    ensures Without(a + [x] + b, x) == a + b
  {
    var s := a + [x] + b;
    assert s[..|a|] == a && s[|a| + 1..] == b;
    IndexOfAt(s, x, |a|);
  }

  /** Splicing `f` in place of the `x` that follows a prefix free of `x`
      keeps that prefix, then `f`, then everything after `x`. */
  lemma SplicedAt(a: seq<NodeId>, b: seq<NodeId>, x: NodeId, f: seq<NodeId>)
    requires x !in a
    ensures Spliced(a + [x] + b, x, f) == a + f + b
  {
    var s := a + [x] + b;
    assert s[..|a|] == a && s[|a| + 1..] == b;
    IndexOfAt(s, x, |a|);
  }

  /** removeChild keeps every other node of the list. */
  lemma InWithout(s: seq<NodeId>, x: NodeId, y: NodeId)
    requires x in s && y != x
    ensures y in Without(s, x) <==> y in s
  {
    assert multiset(Without(s, x))[y] == multiset(s)[y];
  }

  /** removeChild of the first child leaves the rest of the list. */
  lemma WithoutFirst(s: seq<NodeId>)
    requires s != []
    ensures Without(s, s[0]) == s[1..]
  {
    IndexOfAt(s, s[0], 0);
  }

  /** insertBefore keeps every node of the list and adds the inserted one. */
  lemma InPlacedBefore(s: seq<NodeId>, x: NodeId, ref: NodeId, y: NodeId)
    requires ref in s
    ensures y in PlacedBefore(s, x, ref) <==> y in s || y == x
  {
    assert multiset(PlacedBefore(s, x, ref))[y] == multiset(s)[y] + multiset{x}[y];
  }

  /** Two duplicate-free lists with no node in common join into a
      duplicate-free list. */
  lemma DistinctConcat(a: seq<NodeId>, b: seq<NodeId>)
    requires Distinct(a) && Distinct(b) && forall y :: y in a ==> y !in b
    ensures Distinct(a + b)
  {
    forall i, j | 0 <= i < j < |a + b|
      ensures (a + b)[i] != (a + b)[j]
    {
      if i < |a| <= j {
        assert (a + b)[i] in a && (a + b)[j] in b;
      }
    }
  }

  /** In a duplicate-free list the part before `i`, the node at `i` and
      the part after it share no node. */
  lemma DistinctAround(s: seq<NodeId>, i: nat)
    requires Distinct(s) && i < |s|
    ensures Distinct(s[..i]) && Distinct(s[i + 1..])
    ensures s[i] !in s[..i] && s[i] !in s[i + 1..]
    ensures forall y :: y in s[..i] ==> y !in s[i + 1..]
  {
    forall y | y in s[..i]
      ensures y !in s[i + 1..]
    {
      var k :| 0 <= k < i && s[k] == y;
    }
  }

  /** removeChild keeps a child list free of duplicates, and the removed
      node is gone from it. */
  lemma WithoutDistinct(s: seq<NodeId>, x: NodeId)
    requires x in s && Distinct(s)
    ensures Distinct(Without(s, x)) && x !in Without(s, x)
  {
    var i := IndexOf(s, x);
    DistinctAround(s, i);
    DistinctConcat(s[..i], s[i + 1..]);
  }

  /** insertBefore of a node not yet in the list keeps it free of
      duplicates. */
  lemma PlacedDistinct(s: seq<NodeId>, x: NodeId, ref: NodeId)
    requires ref in s && Distinct(s) && x !in s
    ensures Distinct(PlacedBefore(s, x, ref))
  {
    var i := IndexOf(s, ref);
    DistinctAround(s, i);
    assert s[i..] == [s[i]] + s[i + 1..];
    DistinctConcat([s[i]], s[i + 1..]);
    DistinctConcat([x], s[i..]);
    DistinctConcat(s[..i], [x] + s[i..]);
    assert s[..i] + [x] + s[i..] == s[..i] + ([x] + s[i..]);
  }

  /** Replacing a node of a duplicate-free list by new, duplicate-free
      nodes leaves no duplicate and no trace of the replaced node. */
  lemma SplicedDistinct(s: seq<NodeId>, x: NodeId, f: seq<NodeId>)
    requires x in s && Distinct(s) && Distinct(f) && x !in f
    requires forall y :: y in f ==> y !in s
    ensures Distinct(Spliced(s, x, f)) && x !in Spliced(s, x, f)
  {
    var i := IndexOf(s, x);
    DistinctAround(s, i);
    DistinctConcat(f, s[i + 1..]);
    DistinctConcat(s[..i], f + s[i + 1..]);
    assert s[..i] + f + s[i + 1..] == s[..i] + (f + s[i + 1..]);
  }

  /** insertBefore of a new node is undone by removeChild of it, and the
      reference node ends up one place later with the new node just in
      front of it. */
  lemma PlacedThenRemoved(s: seq<NodeId>, x: NodeId, ref: NodeId)
    requires ref in s && x != ref && x !in s
    ensures IndexOf(PlacedBefore(s, x, ref), ref) == IndexOf(s, ref) + 1
    ensures PlacedBefore(s, x, ref)[IndexOf(s, ref)] == x
    ensures Without(PlacedBefore(s, x, ref), x) == s
  {
    var i := IndexOf(s, ref);
    var r := s[..i] + [x] + s[i..];
    assert r[..i + 1] == s[..i] + [x];
    IndexOfAt(r, ref, i + 1);
    assert r[..i] == s[..i];
    IndexOfAt(r, x, i);
    assert r[i + 1..] == s[i..];
    assert s == s[..i] + s[i..];
  }

  /** Placing `n` before the first `x` of `a + [x] + b` puts it right
      after `a`. */
  lemma PlacedBeforeFirst(a: seq<NodeId>, b: seq<NodeId>, n: NodeId, x: NodeId)
    requires x !in a
    ensures PlacedBefore(a + [x] + b, n, x) == a + [n] + [x] + b
  {
    var s := a + [x] + b;
    assert s[..|a|] == a && s[|a|..] == [x] + b;
    IndexOfAt(s, x, |a|);
  }

  /** Appending the head of `f` and then its tail appends `f`. */
  lemma HeadThenTail(a: seq<NodeId>, f: seq<NodeId>)
    requires f != []
    ensures (a + [f[0]]) + f[1..] == a + f
  {
  }

  /** Moving `f` node by node in front of `x` lays it out, in order,
      between the nodes before `x` and `x` itself. */
  lemma {:induction false} MoveEachShape(a: seq<NodeId>, b: seq<NodeId>, f: seq<NodeId>, x: NodeId)
    requires x !in a && x !in f
    ensures MoveEachBefore(a + [x] + b, f, x) == a + f + [x] + b
    decreases f
  {
    if f != [] {
      HeadThenTail(a, f);
      PlacedBeforeFirst(a, b, f[0], x);
      MoveEachShape(a + [f[0]], b, f[1..], x);
    }
  }

  /** The step-by-step semantics of the move loop followed by the removal
      of `x` is exactly the splice of `f` in place of `x`. */
  lemma MoveEachThenRemove(s: seq<NodeId>, f: seq<NodeId>, x: NodeId)
    requires x in s && x !in f
    ensures Without(MoveEachBefore(s, f, x), x) == Spliced(s, x, f)
  {
    var i := IndexOf(s, x);
    var a, b := s[..i], s[i + 1..];
    assert s == a + [x] + b;
    MoveEachShape(a, b, f, x);
    WithoutAt(a + f, b, x);
    SplicedAt(a, b, x, f);
  }
}
