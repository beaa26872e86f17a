/** The part of the browser's document tree that the include utility
    touches: every node's ordered child list and its parent link, and the
    four DOM calls it makes on them (createElement, the innerHTML setter,
    insertBefore and removeChild). */
module Dom {
  import opened ChildLists

  /** Every node created so far has an id below `nextId`. */
  ghost predicate IdsBelow(childNodes: map<NodeId, seq<NodeId>>, nextId: nat) {
    forall n :: n in childNodes ==> n < nextId
  }

  /** A node with a parent is in its parent's child list. */
  ghost predicate ParentsHoldChildren(childNodes: map<NodeId, seq<NodeId>>, parentNode: map<NodeId, NodeId>) {
    forall n :: n in parentNode ==>
      n in childNodes && parentNode[n] in childNodes && n in childNodes[parentNode[n]]
  }

  /** A node in a child list has the owner of that list as its parent. */
  ghost predicate ChildrenLinkParents(childNodes: map<NodeId, seq<NodeId>>, parentNode: map<NodeId, NodeId>) {
    forall p, n :: p in childNodes && n in childNodes[p] ==> n in parentNode && parentNode[n] == p
  }

  /** No child list holds a node twice. */
  ghost predicate ListsDistinct(childNodes: map<NodeId, seq<NodeId>>) {
    forall p :: p in childNodes ==> Distinct(childNodes[p])
  }

  /** Child lists (`childNodes`) and parent links (`parentNode`) describe
      the same edges, no child list holds a node twice, and every node
      created so far has an id below `nextId`. */
  ghost predicate Consistent(childNodes: map<NodeId, seq<NodeId>>, parentNode: map<NodeId, NodeId>, nextId: nat) {
    && IdsBelow(childNodes, nextId)
    && ParentsHoldChildren(childNodes, parentNode)
    && ChildrenLinkParents(childNodes, parentNode)
    && ListsDistinct(childNodes)
  }

  /** A node with no children for each of `ns`. */
  function Leaves(ns: seq<NodeId>): map<NodeId, seq<NodeId>> {
    map n | n in ns :: []
  }

  /** A parent link from each of `ns` to `p`. */
  function LinksTo(ns: seq<NodeId>, p: NodeId): map<NodeId, NodeId> {
    map n | n in ns :: p
  }

  /** The ids `first`, `first + 1`, ..., in that order: the nodes the
      parser creates for `count` top-level nodes. */
  function NewIds(first: nat, count: nat): (ids: seq<NodeId>)
    ensures |ids| == count
    ensures forall i :: 0 <= i < count ==> ids[i] == first + i
    ensures Distinct(ids)
    ensures forall n :: n in ids <==> first <= n < first + count
    decreases count
  {
    if count == 0 then [] else NewIds(first, count - 1) + [first + count - 1]
  }

  /** A node in a child list has the owner of that list as its parent. */
  lemma ChildHasParent(childNodes: map<NodeId, seq<NodeId>>, parentNode: map<NodeId, NodeId>, nextId: nat,
                       p: NodeId, n: NodeId)
    requires Consistent(childNodes, parentNode, nextId)
    requires p in childNodes && n in childNodes[p]
    ensures n in parentNode && parentNode[n] == p && n in childNodes
  {
  }

  /** A node with a parent is in its parent's child list. */
  lemma ParentHasChild(childNodes: map<NodeId, seq<NodeId>>, parentNode: map<NodeId, NodeId>, nextId: nat,
                       n: NodeId)
    requires Consistent(childNodes, parentNode, nextId)
    requires n in parentNode
    ensures parentNode[n] in childNodes && n in childNodes[parentNode[n]]
  {
  }

  /** Setting a key twice keeps only the second value. */
  lemma SetTwice(m: map<NodeId, seq<NodeId>>, k: NodeId, a: seq<NodeId>, b: seq<NodeId>)
    ensures m[k := a][k := b] == m[k := b]
  {
  }

  /** Unlinking a node and then linking it again keeps only the new link. */
  lemma RelinkAfterUnlink(m: map<NodeId, NodeId>, n: NodeId, p: NodeId)
    ensures (m - {n})[n := p] == m[n := p]
  {
  }

  /** createElement keeps the tree consistent. */
  lemma CreatedConsistent(childNodes: map<NodeId, seq<NodeId>>, parentNode: map<NodeId, NodeId>, nextId: nat)
    requires Consistent(childNodes, parentNode, nextId)
    ensures nextId !in childNodes && nextId !in parentNode
    ensures Consistent(childNodes[nextId := []], parentNode, nextId + 1)
  {
  }

  /** After parsing, every node in a child list links back to the node
      whose list it is in. */
  lemma ParsedChildLinks(childNodes: map<NodeId, seq<NodeId>>, parentNode: map<NodeId, NodeId>, nextId: nat,
                         container: NodeId, parsed: seq<NodeId>)
    requires Consistent(childNodes, parentNode, nextId)
    requires container in childNodes
    requires forall n :: n in parsed ==> n >= nextId
    ensures ChildrenLinkParents(childNodes[container := parsed] + Leaves(parsed), parentNode + LinksTo(parsed, container))
  {
    var cn := childNodes[container := parsed] + Leaves(parsed);
    var pn := parentNode + LinksTo(parsed, container);
    forall p, n | p in cn && n in cn[p]
      ensures n in pn && pn[n] == p
    {
      if p !in parsed && p != container {
        assert n in childNodes[p];
        assert n in parentNode && parentNode[n] == p;
        assert n in childNodes;
      }
    }
  }

  /** After parsing, every parent link points at a list that holds the
      child. */
  lemma ParsedParentLinks(childNodes: map<NodeId, seq<NodeId>>, parentNode: map<NodeId, NodeId>, nextId: nat,
                          container: NodeId, parsed: seq<NodeId>)
    requires Consistent(childNodes, parentNode, nextId)
    requires container in childNodes && childNodes[container] == []
    requires forall n :: n in parsed ==> n >= nextId
    ensures ParentsHoldChildren(childNodes[container := parsed] + Leaves(parsed), parentNode + LinksTo(parsed, container))
  {
    var cn := childNodes[container := parsed] + Leaves(parsed);
    var pn := parentNode + LinksTo(parsed, container);
    forall n | n in pn
      ensures n in cn && pn[n] in cn && n in cn[pn[n]]
    {
      if n !in parsed {
        assert parentNode[n] != container;
      }
    }
  }

  /** After parsing, no child list holds a node twice. */
  lemma ParsedListsDistinct(childNodes: map<NodeId, seq<NodeId>>, container: NodeId, parsed: seq<NodeId>)
    requires ListsDistinct(childNodes) && Distinct(parsed)
    ensures ListsDistinct(childNodes[container := parsed] + Leaves(parsed))
  {
  }

  /** Parsing new top-level nodes, with ids from `nextId` up to `newNext`,
      into a childless element keeps the tree consistent. */
  lemma ParsedConsistent(childNodes: map<NodeId, seq<NodeId>>, parentNode: map<NodeId, NodeId>, nextId: nat,
                         container: NodeId, parsed: seq<NodeId>, newNext: nat)
    requires Consistent(childNodes, parentNode, nextId)
    requires container in childNodes && childNodes[container] == []
    requires Distinct(parsed) && nextId <= newNext
    requires forall n :: n in parsed ==> nextId <= n < newNext
    ensures Consistent(childNodes[container := parsed] + Leaves(parsed),
                       parentNode + LinksTo(parsed, container),
                       newNext)
  {
    ParsedChildLinks(childNodes, parentNode, nextId, container, parsed);
    ParsedParentLinks(childNodes, parentNode, nextId, container, parsed);
    ParsedListsDistinct(childNodes, container, parsed);
  }

  /** removeChild of a child keeps the tree consistent. */
  lemma RemovedConsistent(childNodes: map<NodeId, seq<NodeId>>, parentNode: map<NodeId, NodeId>, nextId: nat,
                          parent: NodeId, child: NodeId)
    requires Consistent(childNodes, parentNode, nextId)
    requires parent in childNodes && child in childNodes[parent]
    ensures Consistent(childNodes[parent := Without(childNodes[parent], child)], parentNode - {child}, nextId)
  {
    var s := childNodes[parent];
    WithoutDistinct(s, child);
    var cn := childNodes[parent := Without(s, child)];
    var pn := parentNode - {child};
    forall p, n | p in cn && n in cn[p]
      ensures n in pn && pn[n] == p
    {
      ChildHasParent(childNodes, parentNode, nextId, parent, child);
      if p == parent {
        InWithout(s, child, n);
      }
      ChildHasParent(childNodes, parentNode, nextId, p, n);
    }
    forall n | n in pn
      ensures n in cn[pn[n]]
    {
      if pn[n] == parent {
        InWithout(s, child, n);
      }
    }
  }

  /** insertBefore of a node that has no parent, in front of a child of
      `parent`, keeps the tree consistent. */
  lemma PlacedConsistent(childNodes: map<NodeId, seq<NodeId>>, parentNode: map<NodeId, NodeId>, nextId: nat,
                         parent: NodeId, node: NodeId, child: NodeId)
    requires Consistent(childNodes, parentNode, nextId)
    requires parent in childNodes && child in childNodes[parent]
    requires node in childNodes && node !in parentNode
    ensures node !in childNodes[parent]
    ensures Consistent(childNodes[parent := PlacedBefore(childNodes[parent], node, child)],
                       parentNode[node := parent], nextId)
  {
    var s := childNodes[parent];
    PlacedDistinct(s, node, child);
    var cn := childNodes[parent := PlacedBefore(s, node, child)];
    var pn := parentNode[node := parent];
    forall p, n | p in cn && n in cn[p]
      ensures n in pn && pn[n] == p
    {
      if p == parent {
        InPlacedBefore(s, node, child, n);
      } else {
        assert n in childNodes[p];
      }
    }
    forall n | n in pn
      ensures n in cn && pn[n] in cn && n in cn[pn[n]]
    {
      if pn[n] == parent {
        InPlacedBefore(s, node, child, n);
      }
    }
  }

  class Tree {
    /** The ordered children of every node the page has created, attached
        to the document or not. */
    var childNodes: map<NodeId, seq<NodeId>>
    /** The parent of every node that has one; a node missing here has a
        null parentNode. */
    var parentNode: map<NodeId, NodeId>
    /** Every node created so far has an id below this one. */
    var nextId: nat

    ghost predicate Valid()
      reads this
    {
      Consistent(childNodes, parentNode, nextId)
    }

    /** document.createElement: a new node with no parent and no children. */
    method CreateElement() returns (n: NodeId)
      requires Valid()
      modifies this
      ensures Valid()
      ensures n !in old(childNodes)
      ensures childNodes == old(childNodes)[n := []]
      ensures parentNode == old(parentNode)
    {
      CreatedConsistent(childNodes, parentNode, nextId);
      n := nextId;
      childNodes := childNodes[n := []];
      nextId := nextId + 1;
    }

    /** The innerHTML setter on an element with no children: the markup
        parses into `topLevel` new top-level nodes, which become the
        element's children in document order. What is inside each of them
        is not modelled, so they are new nodes without children. */
    method ParseInto(container: NodeId, topLevel: nat) returns (parsed: seq<NodeId>)
      requires Valid()
      requires container in childNodes && childNodes[container] == []
      modifies this
      ensures Valid()
      ensures |parsed| == topLevel && Distinct(parsed)
      ensures forall n :: n in parsed ==> n !in old(childNodes)
      ensures childNodes == old(childNodes)[container := parsed] + Leaves(parsed)
      ensures parentNode == old(parentNode) + LinksTo(parsed, container)
    {
      parsed := NewIds(nextId, topLevel);
      ParsedConsistent(childNodes, parentNode, nextId, container, parsed, nextId + topLevel);
      childNodes := childNodes[container := parsed] + Leaves(parsed);
      parentNode := parentNode + LinksTo(parsed, container);
      nextId := nextId + topLevel;
    }

    /** parent.removeChild(child), for a `child` of `parent`: the child
        leaves its parent's list and loses its parent link; nothing else
        changes. */
    method RemoveChild(parent: NodeId, child: NodeId)
      requires Valid()
      requires parent in childNodes && child in childNodes[parent]
      modifies this
      ensures Valid()
      ensures childNodes == old(childNodes)[parent := Without(old(childNodes[parent]), child)]
      ensures parentNode == old(parentNode) - {child}
      ensures nextId == old(nextId)
    {
      RemovedConsistent(childNodes, parentNode, nextId, parent, child);
      childNodes := childNodes[parent := Without(childNodes[parent], child)];
      parentNode := parentNode - {child};
    }

    /** parent.insertBefore(node, child) for a `node` that has no parent:
        `node` is placed immediately before `child`. */
    method PlaceBefore(parent: NodeId, node: NodeId, child: NodeId)
      requires Valid()
      requires parent in childNodes && child in childNodes[parent]
      requires node in childNodes && node !in parentNode
      modifies this
      ensures Valid()
      ensures nextId == old(nextId)
      ensures parentNode == old(parentNode)[node := parent]
      ensures childNodes == old(childNodes)[parent := PlacedBefore(old(childNodes[parent]), node, child)]
    {
      PlacedConsistent(childNodes, parentNode, nextId, parent, node, child);
      childNodes := childNodes[parent := PlacedBefore(childNodes[parent], node, child)];
      parentNode := parentNode[node := parent];
    }

    /** parent.insertBefore(node, child), for a `child` of `parent`: `node`
        is first taken out of the list of its current parent, if it has one,
        and then placed immediately before `child`. */
    method InsertBefore(parent: NodeId, node: NodeId, child: NodeId)
      requires Valid()
      requires parent in childNodes && child in childNodes[parent]
      requires node in childNodes && node != parent && node != child
      modifies this
      ensures Valid()
      ensures nextId == old(nextId)
      ensures parentNode == old(parentNode)[node := parent]
      ensures node !in old(parentNode) ==>
                childNodes == old(childNodes)[parent := PlacedBefore(old(childNodes[parent]), node, child)]
      ensures node in old(parentNode) && old(parentNode[node]) != parent ==>
                childNodes == old(childNodes)
                                [old(parentNode[node]) := Without(old(childNodes[parentNode[node]]), node)]
                                [parent := PlacedBefore(old(childNodes[parent]), node, child)]
      ensures node in old(parentNode) && old(parentNode[node]) == parent ==>
                childNodes == old(childNodes)
                                [parent := PlacedBefore(Without(old(childNodes[parent]), node), node, child)]
    {
      ghost var c0, p0 := childNodes, parentNode;
      if node in parentNode {
        var q := parentNode[node];
        ParentHasChild(childNodes, parentNode, nextId, node);
        if q == parent {
          InWithout(childNodes[parent], node, child);
        }
        RemoveChild(q, node);
        RelinkAfterUnlink(p0, node, parent);
        PlaceBefore(parent, node, child);
        if q == parent {
          SetTwice(c0, parent, Without(c0[parent], node), childNodes[parent]);
        }
      } else {
        PlaceBefore(parent, node, child);
      }
    }
  }
}
