/** The include utility itself: each element carrying a data-include
    attribute is replaced, in place, by the top-level nodes of the HTML
    fragment its path serves; when the fragment cannot be loaded the
    element is simply removed. */
module Includes {
  import opened ChildLists
  import opened Dom

  /** What fetch(path) and the read of the response text settle to: a
      rejection (network failure, or the body could not be read), or a
      response with its ok flag, its status text and, as `topLevel`, the
      number of top-level nodes its trimmed text parses into. */
  datatype FetchResult =
    | NetworkError(reason: string)
    | Response(ok: bool, statusText: string, topLevel: nat)

  /** What reaches the second continuation: the markup, or the error the
      catch handler receives. */
  datatype Body = Markup(topLevel: nat) | Thrown(message: string)

  /** The first continuation: a response that is not ok is turned into an
      error naming the path and the status text; an ok one hands its text
      on. */
  function ReadBody(path: string, response: FetchResult): (b: Body)
    ensures b.Markup? <==> response.Response? && response.ok
    ensures b.Markup? ==> b.topLevel == response.topLevel
    ensures response.Response? && !response.ok ==>
              b.message == "Failed to load " + path + ": " + response.statusText
  {
    match response
    case NetworkError(reason) => Thrown(reason)
    case Response(ok, statusText, topLevel) =>
      if !ok then Thrown("Failed to load " + path + ": " + statusText)
      else Markup(topLevel)
  }

  /** The parent links of `fragment[..k + 1]` are those of `fragment[..k]`
      with the one of `fragment[k]` added. */
  lemma LinksToStep(m: map<NodeId, NodeId>, fragment: seq<NodeId>, k: nat, p: NodeId)
    requires k < |fragment|
    ensures (m + LinksTo(fragment[..k], p))[fragment[k] := p] == m + LinksTo(fragment[..k + 1], p)
  {
    assert fragment[..k + 1] == fragment[..k] + [fragment[k]];
  }

  /** Setting two distinct keys twice keeps only the second values. */
  lemma ReplaceBoth(m: map<NodeId, seq<NodeId>>, a: NodeId, b: NodeId,
                    x: seq<NodeId>, y: seq<NodeId>, x2: seq<NodeId>, y2: seq<NodeId>)
    requires a != b
    ensures m[a := x][b := y][a := x2][b := y2] == m[a := x2][b := y2]
  {
  }

  /** One iteration of the while loop over tempDiv.firstChild in
      `MoveChildrenBefore`: parent.insertBefore(container.firstChild,
      element). */
  method MoveFirstChild(doc: Tree, container: NodeId, parent: NodeId, element: NodeId)
    requires doc.Valid()
    requires parent in doc.childNodes && element in doc.childNodes[parent]
    requires container in doc.childNodes && container != parent
    requires doc.childNodes[container] != [] && parent !in doc.childNodes[container]
    modifies doc
    ensures doc.Valid()
    ensures doc.childNodes == old(doc.childNodes)[container := old(doc.childNodes[container][1..])]
              [parent := PlacedBefore(old(doc.childNodes[parent]), old(doc.childNodes[container][0]), element)]
    ensures doc.parentNode == old(doc.parentNode)[old(doc.childNodes[container][0]) := parent]
    ensures doc.nextId == old(doc.nextId)
  {
    var node := doc.childNodes[container][0];
    ChildHasParent(doc.childNodes, doc.parentNode, doc.nextId, container, node);
    ChildHasParent(doc.childNodes, doc.parentNode, doc.nextId, parent, element);
    WithoutFirst(doc.childNodes[container]);
    doc.InsertBefore(parent, node, element);
  }

  /** The state of the move loop after `k` of the `fragment` nodes have
      moved: `container` (tempDiv) holds the rest, and what `parent` still
      has to receive leads to the same final list. `c0` and `p0` are the
      child lists and parent links before the loop. */
  ghost predicate Moving(c0: map<NodeId, seq<NodeId>>, p0: map<NodeId, NodeId>,
                         cn: map<NodeId, seq<NodeId>>, pn: map<NodeId, NodeId>,
                         container: NodeId, parent: NodeId, element: NodeId, fragment: seq<NodeId>, k: nat)
  {
    && parent in c0 && element in c0[parent] && parent !in fragment
    && k <= |fragment| && container in cn && parent in cn && element in cn[parent]
    && cn[container] == fragment[k..]
    && cn == c0[container := fragment[k..]][parent := cn[parent]]
    && MoveEachBefore(cn[parent], fragment[k..], element) == MoveEachBefore(c0[parent], fragment, element)
    && pn == p0 + LinksTo(fragment[..k], parent)
  }

  /** Before the first iteration nothing has moved. */
  lemma MovingStart(c0: map<NodeId, seq<NodeId>>, p0: map<NodeId, NodeId>,
                    container: NodeId, parent: NodeId, element: NodeId)
    requires container in c0 && parent in c0 && element in c0[parent] && parent !in c0[container]
    ensures Moving(c0, p0, c0, p0, container, parent, element, c0[container], 0)
  {
    var fragment := c0[container];
    assert fragment[0..] == fragment;
    assert LinksTo(fragment[..0], parent) == map[];
    assert p0 + map[] == p0;
  }

  /** One iteration moves the next fragment node. */
  lemma MovingStep(c0: map<NodeId, seq<NodeId>>, p0: map<NodeId, NodeId>,
                   cn: map<NodeId, seq<NodeId>>, pn: map<NodeId, NodeId>,
                   container: NodeId, parent: NodeId, element: NodeId, fragment: seq<NodeId>, k: nat)
    requires Moving(c0, p0, cn, pn, container, parent, element, fragment, k)
    requires container != parent && cn[container] != []
    ensures Moving(c0, p0,
                   cn[container := cn[container][1..]][parent := PlacedBefore(cn[parent], cn[container][0], element)],
                   pn[cn[container][0] := parent],
                   container, parent, element, fragment, k + 1)
  {
    assert fragment[k..][0] == fragment[k] && fragment[k..][1..] == fragment[k + 1..];
    ReplaceBoth(c0, container, parent, fragment[k..], cn[parent],
                fragment[k + 1..], PlacedBefore(cn[parent], cn[container][0], element));
    LinksToStep(p0, fragment, k, parent);
  }

  /** When the container is empty, every fragment node has moved. */
  lemma MovingDone(c0: map<NodeId, seq<NodeId>>, p0: map<NodeId, NodeId>,
                   cn: map<NodeId, seq<NodeId>>, pn: map<NodeId, NodeId>,
                   container: NodeId, parent: NodeId, element: NodeId, fragment: seq<NodeId>, k: nat)
    requires Moving(c0, p0, cn, pn, container, parent, element, fragment, k)
    requires cn[container] == []
    ensures cn == c0[container := []][parent := MoveEachBefore(c0[parent], fragment, element)]
    ensures pn == p0 + LinksTo(fragment, parent)
  {
    assert k == |fragment|;
    assert fragment[..k] == fragment;
  }

  /** The while loop over tempDiv.firstChild: every child of `container`
      is moved, first to last, in front of `element` in `parent`'s list,
      and `container` ends up empty. */
  method MoveChildrenBefore(doc: Tree, container: NodeId, parent: NodeId, element: NodeId)
    requires doc.Valid()
    requires parent in doc.childNodes && element in doc.childNodes[parent]
    requires container in doc.childNodes && container != parent
    requires parent !in doc.childNodes[container]
    modifies doc
    ensures doc.Valid()
    ensures container in doc.childNodes && doc.childNodes[container] == []
    ensures doc.childNodes == old(doc.childNodes)[container := []]
              [parent := MoveEachBefore(old(doc.childNodes[parent]), old(doc.childNodes[container]), element)]
    ensures doc.parentNode == old(doc.parentNode) + LinksTo(old(doc.childNodes[container]), parent)
    ensures doc.nextId == old(doc.nextId)
  {
    ghost var c0, p0 := doc.childNodes, doc.parentNode;
    ghost var fragment := c0[container];
    ghost var k := 0;
    MovingStart(c0, p0, container, parent, element);
    while doc.childNodes[container] != []
      invariant doc.Valid() && doc.nextId == old(doc.nextId)
      invariant Moving(c0, p0, doc.childNodes, doc.parentNode, container, parent, element, fragment, k)
      decreases |fragment| - k
    {
      ghost var cn, pn := doc.childNodes, doc.parentNode;
      MoveFirstChild(doc, container, parent, element);
      MovingStep(c0, p0, cn, pn, container, parent, element, fragment, k);
      k := k + 1;
    }
    MovingDone(c0, p0, doc.childNodes, doc.parentNode, container, parent, element, fragment, k);
  }

  /** Nodes that existed before keep their child lists and their parent
      links (`c0`, `p0` before; `cn`, `pn` after). */
  ghost predicate Untouched(c0: map<NodeId, seq<NodeId>>, p0: map<NodeId, NodeId>,
                            cn: map<NodeId, seq<NodeId>>, pn: map<NodeId, NodeId>)
  {
    && (forall q :: q in c0 ==> q in cn && cn[q] == c0[q])
    && (forall n :: n in c0 ==> (n in pn <==> n in p0))
    && (forall n :: n in p0 ==> n in pn && pn[n] == p0[n])
    && (forall n :: n in pn ==> n in p0 || n !in c0)
  }

  /** `element` was taken out of its parent's list and nothing else
      changed. */
  ghost predicate Removed(c0: map<NodeId, seq<NodeId>>, p0: map<NodeId, NodeId>,
                          cn: map<NodeId, seq<NodeId>>, pn: map<NodeId, NodeId>, element: NodeId)
  {
    && element in p0 && p0[element] in c0 && element in c0[p0[element]]
    && cn == c0[p0[element] := Without(c0[p0[element]], element)]
    && pn == p0 - {element}
  }

  /** `element` was replaced, in its parent's list, by the new nodes
      `inserted`: the parent's list is the prefix before `element`, then
      `inserted` in order, then the suffix after it; every other existing
      list is as it was; the new nodes are children of that parent and
      have no children; any other new node (the temporary container) is
      empty and detached; every other parent link is as it was. */
  ghost predicate Replaced(c0: map<NodeId, seq<NodeId>>, p0: map<NodeId, NodeId>,
                           cn: map<NodeId, seq<NodeId>>, pn: map<NodeId, NodeId>,
                           element: NodeId, inserted: seq<NodeId>)
  {
    && element in c0 && element in p0 && p0[element] in c0 && element in c0[p0[element]]
    && p0[element] in cn
    && cn[p0[element]] == Spliced(c0[p0[element]], element, inserted)
    && (forall q :: q in c0 && q != p0[element] ==> q in cn && cn[q] == c0[q])
    && (forall q :: q in cn && q !in c0 ==> cn[q] == [])
    && (forall n :: n in inserted ==> n !in c0 && n in cn && n in pn && pn[n] == p0[element])
    && (forall n :: n in p0 && n != element ==> n in pn && pn[n] == p0[n])
    && (forall n :: n in pn ==> (n in p0 && n != element) || n in inserted)
  }

  /** createElement of the temporary container `t` (child lists `c1`)
      and parsing `parsed` into it (`c2`, `p2`) leave the nodes that
      existed before (`c0`, `p0`) untouched. */
  lemma ParsedFresh(c0: map<NodeId, seq<NodeId>>, p0: map<NodeId, NodeId>,
                    c1: map<NodeId, seq<NodeId>>, c2: map<NodeId, seq<NodeId>>, p2: map<NodeId, NodeId>,
                    t: NodeId, parsed: seq<NodeId>)
    requires t !in c0 && c1 == c0[t := []] && forall n :: n in p0 ==> n in c0
    requires forall n :: n in parsed ==> n !in c1
    requires c2 == c1[t := parsed] + Leaves(parsed) && p2 == p0 + LinksTo(parsed, t)
    ensures c2 == c0[t := parsed] + Leaves(parsed)
    ensures t in c2 && c2[t] == parsed
    ensures forall q :: q in c0 ==> q != t && q !in parsed
    ensures Untouched(c0, p0, c2, p2)
  {
    SetTwice(c0, t, [], parsed);
  }

  /** Moving the fragment `f` before `element` and then removing `element`
      (`c3`, then `c4`) replaces `element` by `f` in `parent`'s list. */
  lemma MovedThenRemoved(c2: map<NodeId, seq<NodeId>>, c3: map<NodeId, seq<NodeId>>, c4: map<NodeId, seq<NodeId>>,
                         t: NodeId, parent: NodeId, element: NodeId, f: seq<NodeId>)
    requires parent in c2 && element in c2[parent] && element !in f
    requires c3 == c2[t := []][parent := MoveEachBefore(c2[parent], f, element)]
    requires c4 == c3[parent := Without(c3[parent], element)]
    ensures c4 == c2[t := []][parent := Spliced(c2[parent], element, f)]
  {
    MoveEachThenRemove(c2[parent], f, element);
    SetTwice(c2[t := []], parent, c3[parent], Without(c3[parent], element));
  }

  /** Emptying `t` again and updating `parent` after parsing amounts to
      updating `parent`, adding an empty `t` and adding the parsed leaves. */
  lemma ClosedLists(c0: map<NodeId, seq<NodeId>>, t: NodeId, parsed: seq<NodeId>, parent: NodeId, s: seq<NodeId>)
    requires parent in c0 && t !in c0 && t !in parsed
    requires forall n :: n in parsed ==> n !in c0
    ensures (c0[t := parsed] + Leaves(parsed))[t := []][parent := s] == c0[parent := s][t := []] + Leaves(parsed)
  {
    var lhs := (c0[t := parsed] + Leaves(parsed))[t := []][parent := s];
    var rhs := c0[parent := s][t := []] + Leaves(parsed);
    assert lhs.Keys == rhs.Keys;
    forall q | q in lhs
      ensures lhs[q] == rhs[q]
    {
    }
  }

  /** The parent links along the same path (`p2` after parsing, `p3`
      after the moves, `p4` after the removal). */
  lemma LinksAfterSplice(p0: map<NodeId, NodeId>, p2: map<NodeId, NodeId>, p3: map<NodeId, NodeId>,
                         p4: map<NodeId, NodeId>, t: NodeId, parsed: seq<NodeId>, parent: NodeId, element: NodeId)
    requires element !in parsed
    requires p2 == p0 + LinksTo(parsed, t)
    requires p3 == p2 + LinksTo(parsed, parent)
    requires p4 == p3 - {element}
    ensures p4 == (p0 - {element}) + LinksTo(parsed, parent)
  {
  }

  /** Replacing `element` by new, childless nodes `inserted`, with the
      temporary container `t` left empty and detached, is `Replaced`. */
  lemma ReplacedByClosedForm(c0: map<NodeId, seq<NodeId>>, p0: map<NodeId, NodeId>,
                             t: NodeId, inserted: seq<NodeId>, element: NodeId)
    requires element in p0 && p0[element] in c0 && element in c0[p0[element]]
    requires t !in c0 && t !in inserted
    requires forall n :: n in inserted ==> n !in c0
    requires forall n :: n in p0 ==> n in c0
    ensures Replaced(c0, p0,
                     c0[p0[element] := Spliced(c0[p0[element]], element, inserted)][t := []] + Leaves(inserted),
                     (p0 - {element}) + LinksTo(inserted, p0[element]),
                     element, inserted)
  {
  }

  /** A placeholder removed by the catch handler is detached. */
  method DropPlaceholder(doc: Tree, element: NodeId)
    requires doc.Valid() && element in doc.childNodes
    modifies doc
    ensures doc.Valid()
    ensures element !in doc.parentNode
    ensures element in old(doc.parentNode) ==>
              Removed(old(doc.childNodes), old(doc.parentNode), doc.childNodes, doc.parentNode, element)
    ensures element !in old(doc.parentNode) ==> unchanged(doc)
  {
    if element in doc.parentNode {
      ParentHasChild(doc.childNodes, doc.parentNode, doc.nextId, element);
      doc.RemoveChild(doc.parentNode[element], element);
    }
  }

  /** The second continuation, given markup with `topLevel` top-level
      nodes: a temporary container is created and filled, its children are
      moved in front of `element`, and `element` is removed. With no parent
      the DOM calls throw (`failed`) before any existing node changes. */
  method ReplaceWithMarkup(doc: Tree, element: NodeId, topLevel: nat) returns (inserted: seq<NodeId>, failed: bool)
    requires doc.Valid() && element in doc.childNodes
    modifies doc
    ensures doc.Valid()
    ensures failed <==> element !in old(doc.parentNode)
    ensures failed ==> inserted == [] && Untouched(old(doc.childNodes), old(doc.parentNode), doc.childNodes, doc.parentNode)
    ensures !failed ==> |inserted| == topLevel && Distinct(inserted)
    ensures !failed ==> Replaced(old(doc.childNodes), old(doc.parentNode), doc.childNodes, doc.parentNode, element, inserted)
  {
    ghost var c0, p0, next0 := doc.childNodes, doc.parentNode, doc.nextId;
    var tempDiv := doc.CreateElement();
    ghost var c1 := doc.childNodes;
    var parsed := doc.ParseInto(tempDiv, topLevel);
    ghost var c2, p2 := doc.childNodes, doc.parentNode;
    ParsedFresh(c0, p0, c1, c2, p2, tempDiv, parsed);
    if element in doc.parentNode {
      var parent := doc.parentNode[element];
      ParentHasChild(c0, p0, next0, element);
      MoveChildrenBefore(doc, tempDiv, parent, element);
      ghost var c3, p3 := doc.childNodes, doc.parentNode;
      doc.RemoveChild(parent, element);
      MovedThenRemoved(c2, c3, doc.childNodes, tempDiv, parent, element, parsed);
      ClosedLists(c0, tempDiv, parsed, parent, Spliced(c0[parent], element, parsed));
      LinksAfterSplice(p0, p2, p3, doc.parentNode, tempDiv, parsed, parent, element);
      ReplacedByClosedForm(c0, p0, tempDiv, parsed, element);
      inserted, failed := parsed, false;
    } else {
      inserted, failed := [], true;
    }
  }

  /** What one load leaves behind for its `fragment`, seen from the nodes
      `c0` and links `p0` before it and the links `pn` after: with an ok
      response and an attached placeholder, `response.topLevel` new nodes
      that are children of the placeholder's parent; otherwise nothing. */
  ghost predicate FragmentPlaced(c0: map<NodeId, seq<NodeId>>, p0: map<NodeId, NodeId>, pn: map<NodeId, NodeId>,
                                 element: NodeId, response: FetchResult, fragment: seq<NodeId>)
  {
    if response.Response? && response.ok && element in p0 then
      && |fragment| == response.topLevel
      && (forall n :: n in fragment ==> n !in c0 && n in pn && pn[n] == p0[element])
    else
      fragment == []
  }

  /** What the driver needs from any of loadInclude's four outcomes
      (lists `c0`, links `p0` before; `cn`, `pn` after): other links are
      kept, detached nodes stay detached, the fragment is placed, the
      placeholder's parent list has the fragment spliced in where the
      placeholder stood, and every other existing list is kept. */
  lemma LoadOutcome(c0: map<NodeId, seq<NodeId>>, p0: map<NodeId, NodeId>, next0: nat,
                    cn: map<NodeId, seq<NodeId>>, pn: map<NodeId, NodeId>,
                    element: NodeId, response: FetchResult, inserted: seq<NodeId>)
    requires Consistent(c0, p0, next0) && element in c0
    requires response.Response? && response.ok && element in p0 ==>
               |inserted| == response.topLevel && Replaced(c0, p0, cn, pn, element, inserted)
    requires !(response.Response? && response.ok && element in p0) ==> inserted == []
    requires response.Response? && response.ok && element !in p0 ==> Untouched(c0, p0, cn, pn)
    requires !(response.Response? && response.ok) && element in p0 ==> Removed(c0, p0, cn, pn, element)
    requires !(response.Response? && response.ok) && element !in p0 ==> cn == c0 && pn == p0
    ensures c0.Keys <= cn.Keys
    ensures forall n :: n in c0 && n !in p0 ==> n !in pn
    ensures forall n :: n in p0 && n != element ==> n in pn && pn[n] == p0[n]
    ensures FragmentPlaced(c0, p0, pn, element, response, inserted)
    ensures element in p0 ==>
              && p0[element] in c0 && element in c0[p0[element]] && p0[element] in cn
              && cn[p0[element]] == Spliced(c0[p0[element]], element, inserted)
    ensures forall q :: q in c0 && (element !in p0 || q != p0[element]) ==> q in cn && cn[q] == c0[q]
  {
    if element in p0 {
      ParentHasChild(c0, p0, next0, element);
      var s := c0[p0[element]];
      assert Spliced(s, element, []) == Without(s, element);
    }
  }

  /** loadInclude(element, path) once `response` has settled: the
      placeholder is always gone afterwards. With an ok response it is
      replaced by the fragment's top-level nodes; otherwise the catch
      handler removes it if it has a parent, and changes nothing if it has
      none. */
  method LoadInclude(doc: Tree, element: NodeId, path: string, response: FetchResult) returns (inserted: seq<NodeId>)
    requires doc.Valid() && element in doc.childNodes
    modifies doc
    ensures doc.Valid()
    ensures element !in doc.parentNode
    ensures old(doc.childNodes).Keys <= doc.childNodes.Keys
    ensures forall n :: n in old(doc.childNodes) && n !in old(doc.parentNode) ==> n !in doc.parentNode
    ensures forall n :: n in old(doc.parentNode) && n != element ==>
              n in doc.parentNode && doc.parentNode[n] == old(doc.parentNode[n])
    ensures FragmentPlaced(old(doc.childNodes), old(doc.parentNode), doc.parentNode, element, response, inserted)
    ensures element in old(doc.parentNode) ==>
              && old(doc.parentNode)[element] in old(doc.childNodes)
              && element in old(doc.childNodes)[old(doc.parentNode)[element]]
              && old(doc.parentNode)[element] in doc.childNodes
              && doc.childNodes[old(doc.parentNode)[element]]
                 == Spliced(old(doc.childNodes)[old(doc.parentNode)[element]], element, inserted)
    ensures forall q :: q in old(doc.childNodes) && (element !in old(doc.parentNode) || q != old(doc.parentNode)[element]) ==>
              q in doc.childNodes && doc.childNodes[q] == old(doc.childNodes)[q]
    ensures response.Response? && response.ok && element in old(doc.parentNode) ==>
              |inserted| == response.topLevel && Distinct(inserted) &&
              Replaced(old(doc.childNodes), old(doc.parentNode), doc.childNodes, doc.parentNode, element, inserted)
    ensures !(response.Response? && response.ok && element in old(doc.parentNode)) ==> inserted == []
    ensures response.Response? && response.ok && element !in old(doc.parentNode) ==>
              Untouched(old(doc.childNodes), old(doc.parentNode), doc.childNodes, doc.parentNode)
    ensures !(response.Response? && response.ok) && element in old(doc.parentNode) ==>
              Removed(old(doc.childNodes), old(doc.parentNode), doc.childNodes, doc.parentNode, element)
    ensures !(response.Response? && response.ok) && element !in old(doc.parentNode) ==> unchanged(doc)
  {
    ghost var c0, p0, next0 := doc.childNodes, doc.parentNode, doc.nextId;
    var body := ReadBody(path, response);
    match body
    case Thrown(_) =>
      DropPlaceholder(doc, element);
      inserted := [];
      LoadOutcome(c0, p0, next0, doc.childNodes, doc.parentNode, element, response, inserted);
    case Markup(topLevel) =>
      var failed;
      inserted, failed := ReplaceWithMarkup(doc, element, topLevel);
      if failed {
        DropPlaceholder(doc, element);
      }
      LoadOutcome(c0, p0, next0, doc.childNodes, doc.parentNode, element, response, inserted);
  }

  /** After a replacement the placeholder is gone from its parent's list,
      that list has no duplicates, and it is one node shorter plus the
      fragment's length. */
  lemma ReplacedDropsPlaceholder(c0: map<NodeId, seq<NodeId>>, p0: map<NodeId, NodeId>,
                                 cn: map<NodeId, seq<NodeId>>, pn: map<NodeId, NodeId>,
                                 element: NodeId, inserted: seq<NodeId>)
    requires Replaced(c0, p0, cn, pn, element, inserted)
    requires Distinct(c0[p0[element]]) && Distinct(inserted)
    requires forall n :: n in c0[p0[element]] ==> n in c0
    ensures element !in cn[p0[element]] && Distinct(cn[p0[element]])
    ensures |cn[p0[element]]| == |c0[p0[element]]| - 1 + |inserted|
  {
    var s := c0[p0[element]];
    assert element !in inserted;
    SplicedDistinct(s, element, inserted);
    assert |multiset(Spliced(s, element, inserted))| == |multiset(s) - multiset{element} + multiset(inserted)|;
  }

  /** getAttribute('data-include') of each element of the snapshot, in
      snapshot order: the path each load is started with. */
  function IncludePaths(elements: seq<NodeId>, dataInclude: map<NodeId, string>): (paths: seq<string>)
    requires forall e :: e in elements ==> e in dataInclude
    ensures |paths| == |elements|
    ensures forall i :: 0 <= i < |elements| ==> paths[i] == dataInclude[elements[i]]
  {
    if elements == [] then []
    else [dataInclude[elements[0]]] + IncludePaths(elements[1..], dataInclude)
  }

  /** `order` lists the positions 0 .. n - 1 of the snapshot, each once, in
      the order in which their fetches settle. */
  predicate IsCompletionOrder(order: seq<nat>, n: nat) {
    && |order| == n
    && (forall j :: 0 <= j < |order| ==> order[j] < n)
    && (forall i :: 0 <= i < n ==> i in order)
    && (forall j, j' :: 0 <= j < j' < |order| ==> order[j] != order[j'])
  }

  /** The positions whose continuations have run after `j` of them. */
  function Done(order: seq<nat>, j: nat): set<nat>
    requires j <= |order|
  {
    set m | 0 <= m < j :: order[m]
  }

  /** The next position of a completion order has not run yet, and running
      it adds just that position. */
  lemma NextNotDone(order: seq<nat>, n: nat, j: nat)
    requires IsCompletionOrder(order, n) && j < |order|
    ensures order[j] !in Done(order, j)
    ensures Done(order, j + 1) == Done(order, j) + {order[j]}
  {
    forall m | 0 <= m < j
      ensures order[m] != order[j]
    {
    }
  }

  /** The positions 0 .. n - 1 of a snapshot of `n` elements. */
  function Positions(n: nat): (r: set<nat>)
    ensures forall i: nat :: i in r <==> i < n
  {
    if n == 0 then {} else Positions(n - 1) + {n - 1}
  }

  /** Once the whole completion order has run, every position has, and
      no other. */
  lemma AllDone(order: seq<nat>, n: nat)
    requires IsCompletionOrder(order, n)
    ensures Done(order, |order|) == Positions(n)
  {
    forall i | 0 <= i < n
      ensures i in Done(order, |order|)
    {
      assert i in order;
      var m :| 0 <= m < |order| && order[m] == i;
    }
  }

  /** What stands in a child list in place of node `x` once the positions
      in `done` have been loaded: the fragment of a loaded placeholder
      (empty when its load failed), or else `x` itself. */
  function Slot(x: NodeId, includes: seq<NodeId>, fragments: seq<seq<NodeId>>, done: set<nat>): seq<NodeId>
    requires |fragments| == |includes|
  {
    if x in includes && IndexOf(includes, x) in done then fragments[IndexOf(includes, x)] else [x]
  }

  /** The child list `s` with every loaded placeholder replaced by its
      fragment, in place. */
  function Expanded(s: seq<NodeId>, includes: seq<NodeId>, fragments: seq<seq<NodeId>>, done: set<nat>): seq<NodeId>
    requires |fragments| == |includes|
  {
    if s == [] then []
    else Slot(s[0], includes, fragments, done) + Expanded(s[1..], includes, fragments, done)
  }

  /** Every node of an expanded list is a node of the old list or a node
      of a loaded fragment, and every node of the old list that is not a
      loaded placeholder stays. */
  lemma {:induction false} ExpandedNodes(s: seq<NodeId>, includes: seq<NodeId>, fragments: seq<seq<NodeId>>,
                                         done: set<nat>, n: NodeId)
    requires |fragments| == |includes|
    ensures n in Expanded(s, includes, fragments, done) ==>
              n in s || exists i :: 0 <= i < |includes| && i in done && n in fragments[i]
    ensures n in s && !(n in includes && IndexOf(includes, n) in done) ==> n in Expanded(s, includes, fragments, done)
  {
    if s != [] {
      ExpandedNodes(s[1..], includes, fragments, done, n);
    }
  }

  /** Before any load every list is as it was. */
  lemma {:induction false} ExpandedNone(s: seq<NodeId>, includes: seq<NodeId>, fragments: seq<seq<NodeId>>)
    requires |fragments| == |includes|
    ensures Expanded(s, includes, fragments, {}) == s
  {
    if s != [] {
      ExpandedNone(s[1..], includes, fragments);
    }
  }

  /** A list that starts with `x` expands to the slot of `x` followed by
      the expansion of the rest. */
  lemma ExpandedCons(x: NodeId, b: seq<NodeId>, includes: seq<NodeId>, fragments: seq<seq<NodeId>>,
                     done: set<nat>, slot: seq<NodeId>)
    requires |fragments| == |includes| && slot == Slot(x, includes, fragments, done)
    ensures Expanded([x] + b, includes, fragments, done) == slot + Expanded(b, includes, fragments, done)
  {
    assert ([x] + b)[0] == x && ([x] + b)[1..] == b;
  }

  /** Expanding a list part by part expands the whole list. */
  lemma {:induction false} ExpandedConcat(a: seq<NodeId>, b: seq<NodeId>, includes: seq<NodeId>,
                                          fragments: seq<seq<NodeId>>, done: set<nat>)
    requires |fragments| == |includes|
    ensures Expanded(a + b, includes, fragments, done)
            == Expanded(a, includes, fragments, done) + Expanded(b, includes, fragments, done)
  {
    if a != [] {
      var x, rest := a[0], a[1..];
      assert a == [x] + rest && a + b == [x] + (rest + b);
      ExpandedCons(x, rest, includes, fragments, done, Slot(x, includes, fragments, done));
      ExpandedCons(x, rest + b, includes, fragments, done, Slot(x, includes, fragments, done));
      ExpandedConcat(rest, b, includes, fragments, done);
      var sx := Slot(x, includes, fragments, done);
      var er, eb := Expanded(rest, includes, fragments, done), Expanded(b, includes, fragments, done);
      assert sx + (er + eb) == (sx + er) + eb;
    } else {
      assert a + b == b;
    }
  }

  /** Loading position `k` changes nothing in a list that does not hold
      its placeholder. */
  lemma {:induction false} ExpandedElsewhere(s: seq<NodeId>, includes: seq<NodeId>, fragments: seq<seq<NodeId>>,
                                             done: set<nat>, k: nat, inserted: seq<NodeId>)
    requires |fragments| == |includes| && k < |includes| && includes[k] !in s
    ensures Expanded(s, includes, fragments[k := inserted], done + {k}) == Expanded(s, includes, fragments, done)
  {
    if s != [] {
      if s[0] in includes {
        assert IndexOf(includes, s[0]) != k;
      }
      ExpandedElsewhere(s[1..], includes, fragments, done, k, inserted);
    }
  }

  /** In a list without duplicates, the position of its `k`-th node is `k`. */
  lemma IndexOfDistinct(s: seq<NodeId>, k: nat)
    requires Distinct(s) && k < |s|
    ensures IndexOf(s, s[k]) == k
  {
    DistinctAround(s, k);
    IndexOfAt(s, s[k], k);
  }

  /** The expansion of a list around one node `x`: the prefix's, then
      the slot of `x`, then the suffix's. */
  lemma ExpandedAround(a: seq<NodeId>, x: NodeId, b: seq<NodeId>, includes: seq<NodeId>,
                       fragments: seq<seq<NodeId>>, done: set<nat>, slot: seq<NodeId>)
    requires |fragments| == |includes| && slot == Slot(x, includes, fragments, done)
    ensures Expanded(a + ([x] + b), includes, fragments, done)
            == Expanded(a, includes, fragments, done) + slot + Expanded(b, includes, fragments, done)
  {
    ExpandedConcat(a, [x] + b, includes, fragments, done);
    ExpandedCons(x, b, includes, fragments, done, slot);
    var ea, eb := Expanded(a, includes, fragments, done), Expanded(b, includes, fragments, done);
    assert ea + (slot + eb) == ea + slot + eb;
  }

  /** Loading position `k` splices its fragment into the expanded list
      where its placeholder stands, between the prefix `a` and the suffix
      `b`, neither of which holds the placeholder. */
  lemma ExpandedSpliceAt(s: seq<NodeId>, a: seq<NodeId>, b: seq<NodeId>, includes: seq<NodeId>,
                         fragments: seq<seq<NodeId>>, done: set<nat>, k: nat, inserted: seq<NodeId>)
    requires |fragments| == |includes| && Distinct(includes) && k < |includes| && k !in done
    requires s == a + ([includes[k]] + b) && includes[k] !in a && includes[k] !in b
    requires forall i :: 0 <= i < |includes| && i in done ==> includes[k] !in fragments[i]
    ensures includes[k] in Expanded(s, includes, fragments, done)
    ensures Spliced(Expanded(s, includes, fragments, done), includes[k], inserted)
            == Expanded(s, includes, fragments[k := inserted], done + {k})
  {
    var e := includes[k];
    var fragments2 := fragments[k := inserted];
    IndexOfDistinct(includes, k);
    assert Slot(e, includes, fragments, done) == [e];
    assert Slot(e, includes, fragments2, done + {k}) == inserted;
    var ea, eb := Expanded(a, includes, fragments, done), Expanded(b, includes, fragments, done);
    ExpandedNodes(a, includes, fragments, done, e);
    ExpandedAround(a, e, b, includes, fragments, done, [e]);
    ExpandedElsewhere(a, includes, fragments, done, k, inserted);
    ExpandedElsewhere(b, includes, fragments, done, k, inserted);
    ExpandedAround(a, e, b, includes, fragments2, done + {k}, inserted);
    SplicedAt(ea, eb, e, inserted);
  }

  /** A list without duplicates that holds `x` is a prefix, then `x`,
      then a suffix, neither of which holds `x`. */
  lemma SplitAround(s: seq<NodeId>, x: NodeId) returns (a: seq<NodeId>, b: seq<NodeId>)
    requires x in s && Distinct(s)
    ensures s == a + ([x] + b) && x !in a && x !in b
  {
    var i := IndexOf(s, x);
    a, b := s[..i], s[i + 1..];
    DistinctAround(s, i);
    assert s == a + ([x] + b);
  }

  /** Loading position `k`, whose placeholder occurs once in the list `s`,
      splices its fragment into the expanded list where the placeholder
      stands. */
  lemma ExpandedSplice(s: seq<NodeId>, includes: seq<NodeId>, fragments: seq<seq<NodeId>>,
                       done: set<nat>, k: nat, inserted: seq<NodeId>)
    requires |fragments| == |includes| && Distinct(includes) && k < |includes| && k !in done
    requires includes[k] in s && Distinct(s)
    requires forall i :: 0 <= i < |includes| && i in done ==> includes[k] !in fragments[i]
    ensures includes[k] in Expanded(s, includes, fragments, done)
    ensures Spliced(Expanded(s, includes, fragments, done), includes[k], inserted)
            == Expanded(s, includes, fragments[k := inserted], done + {k})
  {
    var a, b := SplitAround(s, includes[k]);
    ExpandedSpliceAt(s, a, b, includes, fragments, done, k, inserted);
  }

  /** Every existing child list (`c0` before any load) is, after the loads
      of `done` (`cn`), its old list with those placeholders expanded. */
  ghost predicate ListsExpanded(c0: map<NodeId, seq<NodeId>>, cn: map<NodeId, seq<NodeId>>,
                                includes: seq<NodeId>, fragments: seq<seq<NodeId>>, done: set<nat>)
  {
    && |fragments| == |includes|
    && c0.Keys <= cn.Keys
    && (forall q :: q in c0 ==> cn[q] == Expanded(c0[q], includes, fragments, done))
  }

  /** One load, of position `k`, keeps `ListsExpanded`. It relies on what
      loadInclude promises about lists (`cb` before it, `cn` after):
      the placeholder's parent list has the fragment spliced in, and every
      other list is kept. */
  lemma ListsStep(c0: map<NodeId, seq<NodeId>>, p0: map<NodeId, NodeId>, next0: nat,
                  cb: map<NodeId, seq<NodeId>>, pb: map<NodeId, NodeId>, cn: map<NodeId, seq<NodeId>>,
                  includes: seq<NodeId>, responses: seq<FetchResult>, fragments: seq<seq<NodeId>>,
                  done: set<nat>, k: nat, inserted: seq<NodeId>)
    requires Consistent(c0, p0, next0)
    requires ListsExpanded(c0, cb, includes, fragments, done)
    requires LoadsDone(c0, p0, pb, includes, responses, done, fragments)
    requires Distinct(includes) && (forall e :: e in includes ==> e in c0)
    requires k < |includes| && k !in done
    requires includes[k] in pb ==>
               && pb[includes[k]] in cb && includes[k] in cb[pb[includes[k]]]
               && pb[includes[k]] in cn
               && cn[pb[includes[k]]] == Spliced(cb[pb[includes[k]]], includes[k], inserted)
    requires forall q :: q in cb && (includes[k] !in pb || q != pb[includes[k]]) ==> q in cn && cn[q] == cb[q]
    ensures ListsExpanded(c0, cn, includes, fragments[k := inserted], done + {k})
  {
    var e := includes[k];
    FragmentsAvoid(c0, p0, pb, includes, responses, done, fragments, e);
    forall q | q in c0
      ensures q in cn && cn[q] == Expanded(c0[q], includes, fragments[k := inserted], done + {k})
    {
      if e in c0[q] {
        ChildHasParent(c0, p0, next0, q, e);
        assert ListsDistinct(c0);
        ExpandedSplice(c0[q], includes, fragments, done, k, inserted);
      } else {
        ExpandedElsewhere(c0[q], includes, fragments, done, k, inserted);
      }
    }
  }

  /** No loaded fragment holds a node that existed before the loads. */
  lemma FragmentsAvoid(c0: map<NodeId, seq<NodeId>>, p0: map<NodeId, NodeId>, pn: map<NodeId, NodeId>,
                       includes: seq<NodeId>, responses: seq<FetchResult>, done: set<nat>,
                       fragments: seq<seq<NodeId>>, x: NodeId)
    requires LoadsDone(c0, p0, pn, includes, responses, done, fragments) && x in c0
    ensures forall i :: 0 <= i < |includes| && i in done ==> x !in fragments[i]
  {
    forall i | 0 <= i < |includes| && i in done
      ensures x !in fragments[i]
    {
      assert FragmentPlaced(c0, p0, pn, includes[i], responses[i], fragments[i]);
    }
  }

  /** After all loads, a node whose parent existed before is an old
      child of that parent that is not a placeholder, or a node of some
      loaded fragment. */
  lemma AttachedAfter(c0: map<NodeId, seq<NodeId>>, p0: map<NodeId, NodeId>, next0: nat,
                      cn: map<NodeId, seq<NodeId>>, pn: map<NodeId, NodeId>, nextn: nat,
                      includes: seq<NodeId>, fragments: seq<seq<NodeId>>)
    requires Consistent(c0, p0, next0) && Consistent(cn, pn, nextn)
    requires ListsExpanded(c0, cn, includes, fragments, Positions(|includes|))
    requires forall e :: e in includes ==> e !in pn
    ensures forall n :: n in pn && pn[n] in c0 ==>
              (n in p0 && n !in includes) || exists i :: 0 <= i < |includes| && n in fragments[i]
  {
    forall n | n in pn && pn[n] in c0 && !(exists i :: 0 <= i < |includes| && n in fragments[i])
      ensures n in p0 && n !in includes
    {
      ParentHasChild(cn, pn, nextn, n);
      ExpandedNodes(c0[pn[n]], includes, fragments, Positions(|includes|), n);
      ChildHasParent(c0, p0, next0, pn[n], n);
    }
  }

  /** The state of the driver after the loads of the positions in `done`
      have run, against the nodes `c0` and links `p0` before any of them:
      nodes outside the snapshot keep their links, nodes that had no parent
      still have none, placeholders not yet loaded keep their links, loaded
      placeholders are detached, and each loaded
      position's fragment is as `FragmentPlaced` says. */
  ghost predicate LoadsDone(c0: map<NodeId, seq<NodeId>>, p0: map<NodeId, NodeId>, pn: map<NodeId, NodeId>,
                            includes: seq<NodeId>, responses: seq<FetchResult>,
                            done: set<nat>, fragments: seq<seq<NodeId>>)
  {
    && |responses| == |includes| && |fragments| == |includes|
    && (forall n :: n in p0 && n !in includes ==> n in pn && pn[n] == p0[n])
    && (forall n :: n in c0 && n !in p0 ==> n !in pn)
    && (forall i :: 0 <= i < |includes| && i !in done ==>
          (includes[i] in pn <==> includes[i] in p0) && (includes[i] in p0 ==> pn[includes[i]] == p0[includes[i]]))
    && (forall i :: i in done ==> i < |includes|)
    && (forall i :: 0 <= i < |includes| && i in done ==>
          includes[i] !in pn && FragmentPlaced(c0, p0, pn, includes[i], responses[i], fragments[i]))
  }

  /** One load, of position `k`, moves the driver from `pn` to `pn2`. It
      relies on what loadInclude promises: other links are kept, detached
      nodes (of `cb`, the nodes before it) stay detached, its placeholder
      ends detached, and its fragment `inserted` is placed. */
  lemma LoadsStep(c0: map<NodeId, seq<NodeId>>, p0: map<NodeId, NodeId>, cb: map<NodeId, seq<NodeId>>,
                  pn: map<NodeId, NodeId>, pn2: map<NodeId, NodeId>,
                  includes: seq<NodeId>, responses: seq<FetchResult>, done: set<nat>, fragments: seq<seq<NodeId>>,
                  k: nat, inserted: seq<NodeId>)
    requires LoadsDone(c0, p0, pn, includes, responses, done, fragments)
    requires Distinct(includes) && (forall e :: e in includes ==> e in c0) && c0.Keys <= cb.Keys
    requires k < |includes| && k !in done
    requires forall n :: n in pn && n != includes[k] ==> n in pn2 && pn2[n] == pn[n]
    requires forall n :: n in cb && n !in pn ==> n !in pn2
    requires includes[k] !in pn2
    requires FragmentPlaced(cb, pn, pn2, includes[k], responses[k], inserted)
    ensures LoadsDone(c0, p0, pn2, includes, responses, done + {k}, fragments[k := inserted])
  {
    var e := includes[k];
    var fragments2 := fragments[k := inserted];
    forall n | n in p0 && n !in includes
      ensures n in pn2 && pn2[n] == p0[n]
    {
      assert n != e;
    }
    forall i | 0 <= i < |includes| && i !in done + {k}
      ensures (includes[i] in pn2 <==> includes[i] in p0)
      ensures includes[i] in p0 ==> pn2[includes[i]] == p0[includes[i]]
    {
      assert includes[i] != e;
      assert includes[i] in c0;
    }
    forall i | 0 <= i < |includes| && i in done + {k}
      ensures includes[i] !in pn2 && FragmentPlaced(c0, p0, pn2, includes[i], responses[i], fragments2[i])
    {
      if i != k {
        assert includes[i] in c0;
        var r := responses[i];
        if r.Response? && r.ok && includes[i] in p0 {
          forall n | n in fragments[i]
            ensures n in pn2 && pn2[n] == p0[includes[i]]
          {
            assert n != e;
          }
        }
      }
    }
  }

  /** The continuation of position `k` runs: `includes[k]` is loaded with
      `requested[k]` and `responses[k]`, and its fragment is recorded. The
      driver's account, against the lists `c0` and links `p0` before any
      load, grows from the positions `done` to `done + {k}`. */
  method SettleNext(doc: Tree, includes: seq<NodeId>, requested: seq<string>, responses: seq<FetchResult>,
                    fragments: seq<seq<NodeId>>, k: nat,
                    ghost c0: map<NodeId, seq<NodeId>>, ghost p0: map<NodeId, NodeId>, ghost next0: nat,
                    ghost done: set<nat>)
    returns (fragments2: seq<seq<NodeId>>)
    requires doc.Valid() && Consistent(c0, p0, next0)
    requires Distinct(includes) && (forall e :: e in includes ==> e in c0)
    requires |requested| == |includes| && k < |includes| && k !in done
    requires ListsExpanded(c0, doc.childNodes, includes, fragments, done)
    requires LoadsDone(c0, p0, doc.parentNode, includes, responses, done, fragments)
    modifies doc
    ensures doc.Valid()
    ensures ListsExpanded(c0, doc.childNodes, includes, fragments2, done + {k})
    ensures LoadsDone(c0, p0, doc.parentNode, includes, responses, done + {k}, fragments2)
  {
    ghost var cb, pb := doc.childNodes, doc.parentNode;
    var inserted := LoadInclude(doc, includes[k], requested[k], responses[k]);
    LoadsStep(c0, p0, cb, pb, doc.parentNode, includes, responses, done, fragments, k, inserted);
    ListsStep(c0, p0, next0, cb, pb, doc.childNodes, includes, responses, fragments, done, k, inserted);
    fragments2 := fragments[k := inserted];
  }

  /** The loads started by initializeIncludes, run to completion: the
      continuation for position `completion[j]` runs j-th. Afterwards every
      existing list is its old list with every placeholder expanded, and
      the links are as `LoadsDone` says for all positions. */
  method LoadAll(doc: Tree, includes: seq<NodeId>, requested: seq<string>,
                 responses: seq<FetchResult>, completion: seq<nat>)
    returns (fragments: seq<seq<NodeId>>)
    requires doc.Valid() && Distinct(includes)
    requires forall e :: e in includes ==> e in doc.childNodes
    requires |requested| == |includes| && |responses| == |includes|
    requires IsCompletionOrder(completion, |includes|)
    modifies doc
    ensures doc.Valid()
    ensures ListsExpanded(old(doc.childNodes), doc.childNodes, includes, fragments, Positions(|includes|))
    ensures LoadsDone(old(doc.childNodes), old(doc.parentNode), doc.parentNode, includes, responses,
                      Positions(|includes|), fragments)
  {
    fragments := seq(|includes|, _ => []);
    ghost var c0, p0, next0 := doc.childNodes, doc.parentNode, doc.nextId;
    assert Consistent(c0, p0, next0);
    forall q | q in c0
      ensures c0[q] == Expanded(c0[q], includes, fragments, {})
    {
      ExpandedNone(c0[q], includes, fragments);
    }
    assert Done(completion, 0) == {};
    var j := 0;
    while j < |completion|
      invariant 0 <= j <= |completion| && |fragments| == |includes|
      invariant doc.Valid()
      invariant ListsExpanded(c0, doc.childNodes, includes, fragments, Done(completion, j))
      invariant LoadsDone(c0, p0, doc.parentNode, includes, responses, Done(completion, j), fragments)
    {
      NextNotDone(completion, |includes|, j);
      fragments := SettleNext(doc, includes, requested, responses, fragments, completion[j],
                              c0, p0, next0, Done(completion, j));
      j := j + 1;
    }
    AllDone(completion, |includes|);
  }

  /** initializeIncludes: every element of the snapshot `includes` (the
      elements carrying data-include when the page is ready) is loaded
      with the path its attribute names; `responses[i]` is what the fetch
      for `includes[i]` settles to, and the continuations run one at a time
      in `completion` order. `requested` lists the paths fetched, in
      snapshot order, and `fragments[i]` the nodes spliced in for
      `includes[i]`. Afterwards every existing child list is its old list
      with each placeholder replaced, in place, by its fragment (nothing,
      when its load failed); no element of the snapshot is attached; an ok
      response for an attached element has put its fragment under that
      element's parent; every other node keeps its parent, or stays without
      one; and the only
      new children of existing nodes are fragment nodes. With an empty
      snapshot nothing is fetched and nothing changes. */
  method InitializeIncludes(doc: Tree, includes: seq<NodeId>, dataInclude: map<NodeId, string>,
                            responses: seq<FetchResult>, completion: seq<nat>)
    returns (requested: seq<string>, fragments: seq<seq<NodeId>>)
    requires doc.Valid() && Distinct(includes)
    requires forall e :: e in includes ==> e in doc.childNodes && e in dataInclude
    requires |responses| == |includes|
    requires IsCompletionOrder(completion, |includes|)
    modifies doc
    ensures doc.Valid()
    ensures |requested| == |includes| && |fragments| == |includes|
    ensures forall i :: 0 <= i < |includes| ==> requested[i] == dataInclude[includes[i]]
    ensures |includes| == 0 ==> unchanged(doc)
    ensures forall e :: e in includes ==> e !in doc.parentNode
    ensures forall n :: n in old(doc.parentNode) && n !in includes ==>
              n in doc.parentNode && doc.parentNode[n] == old(doc.parentNode[n])
    ensures forall n :: n in old(doc.childNodes) && n !in old(doc.parentNode) ==> n !in doc.parentNode
    ensures forall i :: 0 <= i < |includes| ==>
              FragmentPlaced(old(doc.childNodes), old(doc.parentNode), doc.parentNode,
                             includes[i], responses[i], fragments[i])
    ensures forall q :: q in old(doc.childNodes) ==>
              q in doc.childNodes &&
              doc.childNodes[q] == Expanded(old(doc.childNodes[q]), includes, fragments, Positions(|includes|))
    ensures forall n :: n in doc.parentNode && doc.parentNode[n] in old(doc.childNodes) ==>
              (n in old(doc.parentNode) && n !in includes) || exists i :: 0 <= i < |includes| && n in fragments[i]
  {
    if |includes| == 0 {
      requested, fragments := [], [];
      forall q | q in doc.childNodes
        ensures doc.childNodes[q] == Expanded(doc.childNodes[q], includes, fragments, Positions(0))
      {
        ExpandedNone(doc.childNodes[q], includes, fragments);
      }
      return;
    }
    ghost var c0, p0, next0 := doc.childNodes, doc.parentNode, doc.nextId;
    assert Consistent(c0, p0, next0);
    requested := IncludePaths(includes, dataInclude);
    fragments := LoadAll(doc, includes, requested, responses, completion);
    AttachedAfter(c0, p0, next0, doc.childNodes, doc.parentNode, doc.nextId, includes, fragments);
  }
}
