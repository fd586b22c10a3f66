/** The nodes of core/common/json_parser.cpp as linked objects, and json_append. */
module JsonHeap {
  import opened Options
  import opened JsonDoc
  import opened JsonTree

  class JsonValue {
    var parent: JsonValue?
    var nextSibling: JsonValue?
    var firstChild: JsonValue?
    var lastChild: JsonValue?
    var name: Option<Text>
    var kind: Kind

    /** `json_alloc`: zeroed memory, then name and type are set. */
    constructor (name: Option<Text>, kind: Kind)
      ensures Unlinked() && this.name == name && this.kind == kind
    {
      parent, nextSibling, firstChild, lastChild := null, null, null, null;
      this.name, this.kind := name, kind;
    }

    ghost predicate Unlinked()
      reads this
    {
      parent == null && nextSibling == null && firstChild == null && lastChild == null
    }
  }

  /** The fields of one object. */
  datatype Links = Links(parent: JsonValue?, next: JsonValue?, first: JsonValue?, last: JsonValue?,
                         name: Option<Text>, kind: Kind)

  ghost function LinksOf(v: JsonValue): Links
    reads v
  {
    Links(v.parent, v.nextSibling, v.firstChild, v.lastChild, v.name, v.kind)
  }

  /** The object of a node number. */
  ghost function Ref(order: seq<JsonValue>, k: Option<nat>): JsonValue? {
    if k.Some? && k.value < |order| then order[k.value] else null
  }

  ghost predicate Distinct(order: seq<JsonValue>) {
    forall i, j :: 0 <= i < j < |order| ==> order[i] != order[j]
  }

  /** The fields that the k-th node asks for. */
  ghost function LinksDue(order: seq<JsonValue>, nodes: seq<Node>, k: nat): Links
    requires k < |nodes|
  {
    Links(Ref(order, nodes[k].parent), Ref(order, NextSibling(nodes, k)),
          Ref(order, FirstChild(nodes, k)), Ref(order, LastChild(nodes, k)), nodes[k].name, nodes[k].kind)
  }

  ghost predicate Linked(order: seq<JsonValue>, nodes: seq<Node>, k: nat)
    requires k < |order| == |nodes|
    reads order
  {
    LinksOf(order[k]) == LinksDue(order, nodes, k)
  }

  /** The objects of `order` form the tree of `nodes`. */
  ghost predicate Shape(order: seq<JsonValue>, nodes: seq<Node>)
    reads order
  {
    && |order| == |nodes| && Distinct(order)
    && forall k :: 0 <= k < |order| ==> Linked(order, nodes, k)
  }

  /** All links stay inside the list. */
  lemma LinksInside(nodes: seq<Node>, k: nat)
    requires k < |nodes|
    ensures FirstChild(nodes, k).Some? ==> FirstChild(nodes, k).value < |nodes|
    ensures LastChild(nodes, k).Some? ==>
              LastChild(nodes, k).value < |nodes| && nodes[LastChild(nodes, k).value].parent == Some(k)
    ensures FirstChild(nodes, k).Some? <==> LastChild(nodes, k).Some?
  {
    var c := Children(nodes, k);
    ChildrenAscend(nodes, k);
    if c != [] {
      assert c[0] in c && c[|c| - 1] in c;
    }
  }

  lemma {:induction false} NextInside(nodes: seq<Node>, j: nat)
    requires j < |nodes|
    ensures NextSibling(nodes, j).Some? ==> j < NextSibling(nodes, j).value < |nodes|
    decreases |nodes|
  {
    var last := |nodes| - 1;
    if j < last {
      NextInside(nodes[..last], j);
    }
  }

  lemma {:induction false} NoChildrenYet(nodes: seq<Node>, k: nat)
    requires forall j :: 0 <= j < |nodes| ==> nodes[j].parent != Some(k)
    ensures Children(nodes, k) == []
  {
    if nodes != [] {
      NoChildrenYet(nodes[..|nodes| - 1], k);
    }
  }

  /** The fields of object k once rhs has become the last child of object t. */
  ghost function Relinked(due: Links, k: nat, t: nat, last: Option<nat>, rhs: JsonValue): Links {
    due.(next := if last == Some(k) then rhs else due.next,
         first := if k == t && last.None? then rhs else due.first,
         last := if k == t then rhs else due.last)
  }

  /** What appending a child n to node t does to the fields of the k-th object. */
  lemma LinksDueAfterAppend(order: seq<JsonValue>, d: Doc, rhs: JsonValue, n: Node, t: nat, k: nat)
    requires Valid(d) && |order| == |d.nodes| && k < |order| && t < |order| && n.parent == Some(t)
    ensures LinksDue(order + [rhs], d.nodes + [n], k)
         == Relinked(LinksDue(order, d.nodes, k), k, t, LastChild(d.nodes, t), rhs)
  {
    FirstAfterAppend(d.nodes, n, k);
    NextAfterAppend(d.nodes, n, k);
    LinksInside(d.nodes, k);
    NextInside(d.nodes, k);
  }

  lemma LinksDueOfNew(order: seq<JsonValue>, d: Doc, rhs: JsonValue, n: Node)
    requires Valid(d) && |order| == |d.nodes| && n.parent.Some? && n.parent.value < |order|
    ensures LinksDue(order + [rhs], d.nodes + [n], |order|)
         == Links(order[n.parent.value], null, null, null, n.name, n.kind)
  {
    NoChildrenYet(d.nodes, |d.nodes|);
    FirstAfterAppend(d.nodes, n, |order|);
  }

  /** The assignments of json_append. */
  method LinkLast(lhs: JsonValue, rhs: JsonValue)
    requires lhs != rhs && lhs.lastChild != lhs && lhs.lastChild != rhs
    modifies lhs, rhs, if lhs.lastChild == null then {} else {lhs.lastChild}
    ensures LinksOf(rhs) == old(LinksOf(rhs)).(parent := lhs)
    ensures old(lhs.lastChild) == null ==> LinksOf(lhs) == old(LinksOf(lhs)).(first := rhs, last := rhs)
    ensures old(lhs.lastChild) != null ==> LinksOf(lhs) == old(LinksOf(lhs)).(last := rhs)
    ensures old(lhs.lastChild) != null ==> LinksOf(old(lhs.lastChild)) == old(LinksOf(lhs.lastChild)).(next := rhs)
  {
    rhs.parent := lhs;
    if lhs.lastChild != null {
      lhs.lastChild.nextSibling := rhs;
      lhs.lastChild := rhs;
    } else {
      lhs.firstChild := rhs;
      lhs.lastChild := rhs;
    }
  }

  method LinkAmong(lhs: JsonValue, rhs: JsonValue, ghost order: seq<JsonValue>, ghost due: seq<Links>,
                   ghost t: nat, ghost last: Option<nat>)
    requires Have(order, due) && Distinct(order) && t < |order| && lhs == order[t] && rhs !in order
    requires due[t].last == Ref(order, last) && (last.Some? ==> last.value < |order| && last.value != t)
    modifies rhs, order
    ensures LinksOf(rhs) == old(LinksOf(rhs)).(parent := lhs)
    ensures forall k :: 0 <= k < |order| ==> LinksOf(order[k]) == Relinked(due[k], k, t, last, rhs)
  {
    assert LinksOf(lhs) == due[t];
    ghost var tail := lhs.lastChild;
    LinkLast(lhs, rhs);
    forall k | 0 <= k < |order|
      ensures LinksOf(order[k]) == Relinked(due[k], k, t, last, rhs)
    {
      assert old(LinksOf(order[k])) == due[k];
      if k != t && last != Some(k) {
        assert order[k] != lhs && order[k] != rhs && order[k] != tail;
        assert LinksOf(order[k]) == old(LinksOf(order[k]));
      }
    }
  }

  /** The fields that all objects should have. */
  ghost predicate AreDue(due: seq<Links>, order: seq<JsonValue>, nodes: seq<Node>) {
    |due| == |order| == |nodes| && forall k :: 0 <= k < |due| ==> due[k] == LinksDue(order, nodes, k)
  }

  ghost predicate Have(order: seq<JsonValue>, due: seq<Links>)
    reads order
  {
    |due| == |order| && forall k :: 0 <= k < |order| ==> LinksOf(order[k]) == due[k]
  }

  lemma ShapeIsDue(order: seq<JsonValue>, nodes: seq<Node>) returns (due: seq<Links>)
    requires Shape(order, nodes)
    ensures AreDue(due, order, nodes) && Have(order, due) && Distinct(order)
  {
    due := seq(|order|, k requires 0 <= k < |order| => LinksDue(order, nodes, k));
    forall k | 0 <= k < |order| ensures LinksOf(order[k]) == due[k] {
      assert Linked(order, nodes, k);
    }
  }

  lemma DueIsShape(order: seq<JsonValue>, nodes: seq<Node>, due: seq<Links>)
    requires AreDue(due, order, nodes) && Have(order, due) && Distinct(order)
    ensures Shape(order, nodes)
  {
    forall k | 0 <= k < |order| ensures Linked(order, nodes, k) {
      assert LinksOf(order[k]) == due[k];
    }
  }

  lemma DueAfterAppend(order: seq<JsonValue>, d: Doc, rhs: JsonValue, n: Node, t: nat, due: seq<Links>)
    returns (due': seq<Links>)
    requires Valid(d) && t < |order| && n.parent == Some(t) && AreDue(due, order, d.nodes)
    ensures AreDue(due', order + [rhs], d.nodes + [n])
    ensures |due'| == |order| + 1
    ensures forall k :: 0 <= k < |order| ==> due'[k] == Relinked(due[k], k, t, LastChild(d.nodes, t), rhs)
    ensures due'[|order|] == Links(order[t], null, null, null, n.name, n.kind)
  {
    due' := seq(|order| + 1, k requires 0 <= k < |order| + 1 => LinksDue(order + [rhs], d.nodes + [n], k));
    forall k | 0 <= k < |order|
      ensures due'[k] == Relinked(due[k], k, t, LastChild(d.nodes, t), rhs)
    {
      LinksDueAfterAppend(order, d, rhs, n, t, k);
    }
    LinksDueOfNew(order, d, rhs, n);
  }

  lemma LastOfDue(order: seq<JsonValue>, d: Doc, t: nat, due: seq<Links>)
    requires Valid(d) && t < |order| && AreDue(due, order, d.nodes)
    ensures var last := LastChild(d.nodes, t);
            due[t].last == Ref(order, last) && (last.Some? ==> last.value < |order| && last.value != t)
  {
    LinksInside(d.nodes, t);
  }

  lemma HaveMore(order: seq<JsonValue>, rhs: JsonValue, due: seq<Links>, due': seq<Links>, t: nat, last: Option<nat>)
    requires |due| == |order| && |due'| == |order| + 1
    requires forall k :: 0 <= k < |order| ==> LinksOf(order[k]) == Relinked(due[k], k, t, last, rhs)
    requires forall k :: 0 <= k < |order| ==> due'[k] == Relinked(due[k], k, t, last, rhs)
    requires LinksOf(rhs) == due'[|order|]
    ensures Have(order + [rhs], due')
  {
    forall k | 0 <= k < |order| + 1 ensures LinksOf((order + [rhs])[k]) == due'[k] {
      if k < |order| {
        assert LinksOf(order[k]) == Relinked(due[k], k, t, last, rhs);
      }
    }
  }

  /** `json_append(lhs, rhs)`: rhs becomes the last child of lhs. */
  method JsonAppend(lhs: JsonValue, rhs: JsonValue, ghost order: seq<JsonValue>, ghost d: Doc, ghost t: nat)
    requires Valid(d) && t < |order| && Shape(order, d.nodes) && lhs == order[t]
    requires rhs !in order && rhs.Unlinked()
    modifies rhs, order
    ensures Shape(order + [rhs], d.nodes + [Node(Some(t), old(rhs.name), old(rhs.kind))])
  {
    ghost var n, last := Node(Some(t), rhs.name, rhs.kind), LastChild(d.nodes, t);
    ghost var due := ShapeIsDue(order, d.nodes);
    LastOfDue(order, d, t, due);
    LinkAmong(lhs, rhs, order, due, t, last);
    ghost var due' := DueAfterAppend(order, d, rhs, n, t, due);
    HaveMore(order, rhs, due, due', t, last);
    DueIsShape(order + [rhs], d.nodes + [n], due');
  }
}
