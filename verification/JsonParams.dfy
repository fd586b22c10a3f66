/** createParamsList and getValuePath of core/common/json_parser.cpp: every leaf of the tree
    with its dotted name. */
module JsonParams {
  import opened Options
  import opened JsonStrings
  import opened JsonText
  import opened JsonDoc
  import opened JsonTree
  import opened JsonAccept
  import opened JsonHeap

  const DOT: Byte := 0x2E

  /** The nodes of a parsed document. */
  ghost predicate IsTree(nodes: seq<Node>) {
    PreOrder(nodes) && forall k :: 0 <= k < |nodes| ==> ParentFirst(nodes, k)
  }

  /** A node's parent is an earlier container; only the first node has none. */
  ghost predicate ParentFirst(nodes: seq<Node>, k: nat)
    requires k < |nodes|
  {
    match nodes[k].parent
    case None => k == 0
    case Some(p) => p < k && IsContainer(nodes[p].kind)
  }

  ghost predicate Listed(kind: Kind) {
    !IsContainer(kind) && !kind.NullValue?
  }

  // ----- names

  /** The text that C++ reads at a name: it ends at the first NUL, which `\\u0000` may have
      put into the middle. */
  function CString(bytes: seq<Byte>): (r: seq<Byte>)
    ensures r <= bytes && 0 !in r && (r == bytes || bytes[|r|] == 0)
  {
    if bytes == [] || bytes[0] == 0 then [] else [bytes[0]] + CString(bytes[1..])
  }

  /** The name of node k, empty when it has none. */
  ghost function NameOf(nodes: seq<Node>, k: nat): seq<Byte>
    requires k < |nodes|
  {
    if nodes[k].name.Some? then CString(nodes[k].name.value.bytes) else []
  }

  /** Node k and its ancestors but the root have a name. */
  ghost predicate NamedUp(nodes: seq<Node>, k: nat)
    requires IsTree(nodes) && k < |nodes|
  {
    assert ParentFirst(nodes, k);
    nodes[k].parent.Some? ==> nodes[k].name.Some? && NamedUp(nodes, nodes[k].parent.value)
  }

  /** The dotted path collected by walking parent links up from node k, in front of path. */
  ghost function PathUp(nodes: seq<Node>, k: nat, path: seq<Byte>): seq<Byte>
    requires IsTree(nodes) && k < |nodes|
  {
    assert ParentFirst(nodes, k);
    if nodes[k].parent.None? then path
    else PathUp(nodes, nodes[k].parent.value, NameOf(nodes, k) + [DOT] + path)
  }

  /** The name a leaf is listed under. */
  ghost function FullName(nodes: seq<Node>, k: nat): seq<Byte>
    requires IsTree(nodes) && k < |nodes|
  {
    assert ParentFirst(nodes, k);
    (if nodes[k].parent.Some? then PathUp(nodes, nodes[k].parent.value, []) else []) + NameOf(nodes, k)
  }

  lemma {:induction false} PathUpSplit(nodes: seq<Node>, k: nat, path: seq<Byte>)
    requires IsTree(nodes) && k < |nodes|
    ensures PathUp(nodes, k, path) == PathUp(nodes, k, []) + path
  {
    assert ParentFirst(nodes, k);
    if nodes[k].parent.Some? {
      var p, step := nodes[k].parent.value, NameOf(nodes, k) + [DOT];
      PathUpSplit(nodes, p, step + path);
      PathUpSplit(nodes, p, step);
      assert step + [] == step;
      Assoc(PathUp(nodes, p, []), step, path);
    }
  }

  /** The path met on the way down to node k: with a final dot for a container. */
  ghost function PathAt(nodes: seq<Node>, k: nat): seq<Byte>
    requires IsTree(nodes) && k < |nodes|
  {
    if IsContainer(nodes[k].kind) then PathUp(nodes, k, []) else FullName(nodes, k)
  }

  lemma PathBelow(nodes: seq<Node>, c: nat, k: nat)
    requires IsTree(nodes) && c < |nodes| && nodes[c].parent == Some(k)
    ensures k < c && IsContainer(nodes[k].kind) && Below(nodes, c, PathAt(nodes, k)) == PathAt(nodes, c)
  {
    var step := NameOf(nodes, c) + [DOT];
    assert ParentFirst(nodes, c) && step + [] == step;
    PathUpSplit(nodes, k, step);
  }

  // ----- the listing

  /** A listed leaf and the name it is listed under. */
  datatype Param = Param(path: seq<Byte>, node: nat)

  /** createParamsList from node k on, with the path met on the way down. */
  ghost function Descend(nodes: seq<Node>, k: nat, path: seq<Byte>): seq<Param>
    requires IsTree(nodes) && k < |nodes|
    decreases |nodes| - k, 0
  {
    if IsContainer(nodes[k].kind) then
      FirstAbove(nodes, k);
      DescendAlong(nodes, FirstChild(nodes, k), path)
    else if nodes[k].kind.NullValue? then []
    else [Param(path, k)]
  }

  /** The same for a child and its later siblings, below the path of their parent. */
  ghost function DescendAlong(nodes: seq<Node>, c: Option<nat>, path: seq<Byte>): seq<Param>
    requires IsTree(nodes) && (c.Some? ==> c.value < |nodes|)
    decreases if c.Some? then |nodes| - c.value else 0, 1
  {
    if c.None? then []
    else
      NextAbove(nodes, c.value);
      Descend(nodes, c.value, Below(nodes, c.value, path)) + DescendAlong(nodes, NextSibling(nodes, c.value), path)
  }

  ghost function Below(nodes: seq<Node>, c: nat, path: seq<Byte>): seq<Byte>
    requires c < |nodes|
  {
    if IsContainer(nodes[c].kind) then path + (NameOf(nodes, c) + [DOT]) else path + NameOf(nodes, c)
  }

  lemma FirstAbove(nodes: seq<Node>, k: nat)
    requires IsTree(nodes) && k < |nodes|
    ensures FirstChild(nodes, k).Some? ==>
              var c := FirstChild(nodes, k).value;
              k < c < |nodes| && nodes[c].parent == Some(k) && forall j :: 0 <= j < c ==> nodes[j].parent != Some(k)
    ensures FirstChild(nodes, k).None? ==> forall j :: 0 <= j < |nodes| ==> nodes[j].parent != Some(k)
  {
    var c := Children(nodes, k);
    ChildrenAscend(nodes, k);
    if c != [] {
      assert c[0] in c && ParentFirst(nodes, c[0]);
    }
    forall j: nat | j < |nodes| && nodes[j].parent == Some(k) ensures c != [] && c[0] <= j {
      assert j in c;
    }
  }

  lemma {:induction false} NextAbove(nodes: seq<Node>, j: nat)
    requires j < |nodes|
    ensures NextSibling(nodes, j).Some? ==>
              var m := NextSibling(nodes, j).value;
              j < m < |nodes| && nodes[j].parent.Some? && nodes[m].parent == nodes[j].parent
    ensures forall i :: j < i < (if NextSibling(nodes, j).Some? then NextSibling(nodes, j).value else |nodes|)
              ==> nodes[j].parent.None? || nodes[i].parent != nodes[j].parent
    decreases |nodes|
  {
    if j < |nodes| - 1 {
      NextAbove(nodes[..|nodes| - 1], j);
    }
  }

  // ----- every leaf once, in source order

  /** The listed leaves among nodes lo..hi-1. */
  ghost function Leaves(nodes: seq<Node>, lo: nat, hi: nat): seq<nat>
    requires lo <= hi <= |nodes|
    decreases hi - lo
  {
    if lo == hi then [] else (if Listed(nodes[lo].kind) then [lo] else []) + Leaves(nodes, lo + 1, hi)
  }

  lemma {:induction false} LeavesSplit(nodes: seq<Node>, lo: nat, mid: nat, hi: nat)
    requires lo <= mid <= hi <= |nodes|
    ensures Leaves(nodes, lo, hi) == Leaves(nodes, lo, mid) + Leaves(nodes, mid, hi)
    decreases mid - lo
  {
    if lo < mid {
      LeavesSplit(nodes, lo + 1, mid, hi);
      var a := if Listed(nodes[lo].kind) then [lo] else [];
      assert a + (Leaves(nodes, lo + 1, mid) + Leaves(nodes, mid, hi)) == a + Leaves(nodes, lo + 1, mid) + Leaves(nodes, mid, hi);
    }
  }

  /** Leaves gives every listed leaf of the range exactly once, in ascending order. */
  lemma {:induction false} LeavesAreAll(nodes: seq<Node>, lo: nat, hi: nat)
    requires lo <= hi <= |nodes|
    ensures forall k: nat :: k in Leaves(nodes, lo, hi) <==> lo <= k < hi && Listed(nodes[k].kind)
    ensures forall i, j :: 0 <= i < j < |Leaves(nodes, lo, hi)| ==> Leaves(nodes, lo, hi)[i] < Leaves(nodes, lo, hi)[j]
    decreases hi - lo
  {
    if lo < hi {
      LeavesAreAll(nodes, lo + 1, hi);
      var rest := Leaves(nodes, lo + 1, hi);
      forall i | 0 <= i < |rest| ensures rest[i] > lo {
        assert rest[i] in rest;
      }
    }
  }

  /** The end of the run of nodes inside k. */
  ghost function EndOf(nodes: seq<Node>, k: nat, j: nat): (e: nat)
    requires k < j <= |nodes|
    ensures j <= e <= |nodes|
    ensures forall i :: j <= i < e ==> Inside(nodes, i, k)
    ensures e < |nodes| ==> !Inside(nodes, e, k)
    decreases |nodes| - j
  {
    if j < |nodes| && Inside(nodes, j, k) then EndOf(nodes, k, j + 1) else j
  }

  ghost function Nodes(ps: seq<Param>): seq<nat> {
    if ps == [] then [] else [ps[0].node] + Nodes(ps[1..])
  }

  lemma {:induction false} NodesAppend(a: seq<Param>, b: seq<Param>)
    ensures Nodes(a + b) == Nodes(a) + Nodes(b)
  {
    if a == [] {
      assert a + b == b;
    } else {
      NodesAppend(a[1..], b);
      assert (a + b)[1..] == a[1..] + b;
      assert [a[0].node] + (Nodes(a[1..]) + Nodes(b)) == [a[0].node] + Nodes(a[1..]) + Nodes(b);
    }
  }

  lemma EndIsUnique(nodes: seq<Node>, k: nat, e: nat)
    requires k < e <= |nodes| && (forall i :: k < i < e ==> Inside(nodes, i, k)) && (e < |nodes| ==> !Inside(nodes, e, k))
    ensures EndOf(nodes, k, k + 1) == e
  {
    var f: nat := EndOf(nodes, k, k + 1);
    assert f < e ==> Inside(nodes, f, k);
    assert e < f ==> Inside(nodes, e, k);
  }

  /** A container's first child follows it; without children its run is itself alone. */
  lemma FirstChildFollows(nodes: seq<Node>, k: nat)
    requires IsTree(nodes) && k < |nodes|
    ensures if FirstChild(nodes, k).Some? then FirstChild(nodes, k).value == k + 1 else EndOf(nodes, k, k + 1) == k + 1
  {
    FirstAbove(nodes, k);
    assert k + 1 < |nodes| ==> ParentFirst(nodes, k + 1);
    var f := FirstChild(nodes, k);
    if f.Some? {
      assert Between(nodes, k + 1, f.value);
      NoGap(nodes, k, f.value);
    } else {
      NoRun(nodes, k);
    }
  }

  lemma NoGap(nodes: seq<Node>, k: nat, f: nat)
    requires k < f < |nodes| && nodes[f].parent == Some(k) && Between(nodes, k + 1, f)
    requires nodes[k + 1].parent.Some? ==> nodes[k + 1].parent.value < k + 1
    requires forall j :: 0 <= j < f ==> nodes[j].parent != Some(k)
    ensures f == k + 1
  {
  }

  lemma NoRun(nodes: seq<Node>, k: nat)
    requires k < |nodes| && (forall j :: 0 <= j < |nodes| ==> nodes[j].parent != Some(k))
    requires k + 1 < |nodes| && nodes[k + 1].parent.Some? ==> nodes[k + 1].parent.value < k + 1
    ensures EndOf(nodes, k, k + 1) == k + 1
  {
  }

  /** The run of a child ends where its next sibling starts, or where its parent's run ends. */
  lemma ChildRunEnds(nodes: seq<Node>, k: nat, c: nat)
    requires IsTree(nodes) && k < c < |nodes| && nodes[c].parent == Some(k)
    ensures c < EndOf(nodes, k, k + 1)
    ensures EndOf(nodes, c, c + 1) == match NextSibling(nodes, c) case Some(m) => m case None => EndOf(nodes, k, k + 1)
  {
    var e := EndOf(nodes, k, k + 1);
    var m := NextSibling(nodes, c);
    NextAbove(nodes, c);
    assert Between(nodes, e, c);
    ChildBeforeEnd(nodes, k, c);
    if m.Some? {
      assert Between(nodes, e, m.value);
      ChildBeforeEnd(nodes, k, m.value);
    }
    var stop := if m.Some? then m.value else e;
    forall i | c < i < stop ensures Inside(nodes, i, c) {
      assert Between(nodes, c, i) && Inside(nodes, i, k);
      InsideSibling(nodes, k, c, i);
    }
    EndIsUnique(nodes, c, stop);
  }

  lemma InsideSibling(nodes: seq<Node>, k: nat, c: nat, i: nat)
    requires k < c < i < |nodes| && nodes[c].parent == Some(k) && nodes[i].parent != Some(k)
    requires Between(nodes, c, i) && Inside(nodes, i, k)
    ensures Inside(nodes, i, c)
  {
  }

  lemma ChildBeforeEnd(nodes: seq<Node>, k: nat, c: nat)
    requires k < c < |nodes| && nodes[c].parent == Some(k)
    requires Between(nodes, EndOf(nodes, k, k + 1), c)
    ensures c < EndOf(nodes, k, k + 1)
  {
    assert Inside(nodes, c, k);
  }

  lemma LeafHasNoRun(nodes: seq<Node>, k: nat)
    requires IsTree(nodes) && k < |nodes| && !IsContainer(nodes[k].kind)
    ensures EndOf(nodes, k, k + 1) == k + 1
  {
    FirstChildFollows(nodes, k);
    FirstAbove(nodes, k);
    forall i: nat | i < |nodes| ensures nodes[i].parent != Some(k) {
      assert ParentFirst(nodes, i);
    }
  }

  /** The walk from node k lists the leaves of its run, each once and in source order. */
  lemma {:induction false} DescendLeaves(nodes: seq<Node>, k: nat, path: seq<Byte>)
    requires IsTree(nodes) && k < |nodes|
    ensures Nodes(Descend(nodes, k, path)) == Leaves(nodes, k, EndOf(nodes, k, k + 1))
    decreases |nodes| - k, 0
  {
    if IsContainer(nodes[k].kind) {
      FirstAbove(nodes, k);
      FirstChildFollows(nodes, k);
      if FirstChild(nodes, k).Some? {
        AlongLeaves(nodes, k, k + 1, path);
      }
    } else {
      LeafHasNoRun(nodes, k);
      assert Leaves(nodes, k + 1, k + 1) == [];
    }
  }

  lemma {:induction false} AlongLeaves(nodes: seq<Node>, k: nat, c: nat, path: seq<Byte>)
    requires IsTree(nodes) && k < c < |nodes| && nodes[c].parent == Some(k)
    ensures c < EndOf(nodes, k, k + 1)
    ensures Nodes(DescendAlong(nodes, Some(c), path)) == Leaves(nodes, c, EndOf(nodes, k, k + 1))
    decreases |nodes| - c, 1
  {
    NextAbove(nodes, c);
    ChildRunEnds(nodes, k, c);
    var here, m := Descend(nodes, c, Below(nodes, c, path)), NextSibling(nodes, c);
    DescendLeaves(nodes, c, Below(nodes, c, path));
    NodesAppend(here, DescendAlong(nodes, m, path));
    if m.Some? {
      AlongLeaves(nodes, k, m.value, path);
      LeavesSplit(nodes, c, m.value, EndOf(nodes, k, k + 1));
    }
  }

  ghost predicate WellNamed(nodes: seq<Node>, ps: seq<Param>)
    requires IsTree(nodes)
  {
    forall i :: 0 <= i < |ps| ==> ps[i].node < |nodes| && ps[i].path == FullName(nodes, ps[i].node)
  }

  /** The path built on the way down is the one found by walking up. */
  lemma {:induction false} DescendNames(nodes: seq<Node>, k: nat)
    requires IsTree(nodes) && k < |nodes|
    ensures WellNamed(nodes, Descend(nodes, k, PathAt(nodes, k)))
    decreases |nodes| - k, 0
  {
    if IsContainer(nodes[k].kind) {
      FirstAbove(nodes, k);
      if FirstChild(nodes, k).Some? {
        AlongNames(nodes, k, FirstChild(nodes, k).value);
      }
    }
  }

  lemma {:induction false} AlongNames(nodes: seq<Node>, k: nat, c: nat)
    requires IsTree(nodes) && k < c < |nodes| && nodes[c].parent == Some(k)
    ensures WellNamed(nodes, DescendAlong(nodes, Some(c), PathAt(nodes, k)))
    decreases |nodes| - c, 1
  {
    NextAbove(nodes, c);
    PathBelow(nodes, c, k);
    DescendNames(nodes, c);
    if NextSibling(nodes, c).Some? {
      AlongNames(nodes, k, NextSibling(nodes, c).value);
    }
  }

  /** From the root, every non-null leaf is listed exactly once, in source order, under the
      names from the root down to it. */
  lemma ListsEveryLeaf(nodes: seq<Node>)
    requires IsTree(nodes) && nodes != []
    ensures var ps := Descend(nodes, 0, PathAt(nodes, 0));
            Nodes(ps) == Leaves(nodes, 0, |nodes|) && WellNamed(nodes, ps)
  {
    DescendLeaves(nodes, 0, PathAt(nodes, 0));
    DescendNames(nodes, 0);
    forall i | 0 < i < |nodes| ensures Inside(nodes, i, 0) {
      assert ParentFirst(nodes, i);
    }
    EndIsUnique(nodes, 0, |nodes|);
  }

  /** Listed are exactly the strings, numbers and truth values. */
  lemma ListedExactly(nodes: seq<Node>, k: nat)
    requires IsTree(nodes) && nodes != []
    ensures k in Nodes(Descend(nodes, 0, PathAt(nodes, 0))) <==>
            && k < |nodes| && nodes[k].kind != Object && nodes[k].kind != Array && nodes[k].kind != NullValue
  {
    ListsEveryLeaf(nodes);
    LeavesAreAll(nodes, 0, |nodes|);
  }

  /** The name of a node is that of its parent, a dot, and its own; the root has no part in it. */
  lemma DottedName(nodes: seq<Node>, k: nat)
    requires IsTree(nodes) && k < |nodes| && nodes[k].parent.Some?
    ensures var p := nodes[k].parent.value;
            p < k && FullName(nodes, k) ==
            (if nodes[p].parent.Some? then FullName(nodes, p) + [0x2E] else []) + NameOf(nodes, k)
  {
    assert ParentFirst(nodes, k);
    var p := nodes[k].parent.value;
    assert ParentFirst(nodes, p);
    if nodes[p].parent.Some? {
      var step := NameOf(nodes, p) + [DOT];
      assert step + [] == step;
      PathUpSplit(nodes, nodes[p].parent.value, step);
      assert PathUp(nodes, nodes[p].parent.value, []) + step == FullName(nodes, p) + [0x2E];
    }
  }

  lemma ValidParentsFirst(d: Doc, k: nat)
    requires Valid(d) && k < |d.nodes|
    ensures ParentFirst(d.nodes, k)
  {
  }

  lemma {:induction false} RootIsContainer(ts: seq<Token>)
    requires Fold(ts).Some? && ts != []
    ensures var nodes := Fold(ts).value.nodes;
            nodes != [] && IsContainer(nodes[0].kind) && nodes[0].parent.None?
  {
    var front := ts[..|ts| - 1];
    if front != [] {
      RootIsContainer(front);
      StepExtends(Fold(front).value, ts[|ts| - 1]);
    }
  }

  /** What the parser builds is a tree, and its root is a container. */
  lemma ParsedIsTree(ts: seq<Token>)
    requires Fold(ts).Some?
    ensures var nodes := Fold(ts).value.nodes;
            IsTree(nodes) && (ts != [] ==> nodes != [] && IsContainer(nodes[0].kind) && nodes[0].parent.None?)
  {
    FoldPreOrder(ts);
    forall k | 0 <= k < |Fold(ts).value.nodes| ensures ParentFirst(Fold(ts).value.nodes, k) {
      ValidParentsFirst(Fold(ts).value, k);
    }
    if ts != [] {
      RootIsContainer(ts);
    }
  }

  // ----- the methods

  /** All listed leaves have names up to the root. */
  ghost predicate LeavesNamed(nodes: seq<Node>)
    requires IsTree(nodes)
  {
    forall k :: 0 <= k < |nodes| ==> LeafNamed(nodes, k)
  }

  ghost predicate LeafNamed(nodes: seq<Node>, k: nat)
    requires IsTree(nodes) && k < |nodes|
  {
    Listed(nodes[k].kind) ==> nodes[k].parent.Some? && NamedUp(nodes, k)
  }

  ghost predicate Stands(order: seq<JsonValue>, nodes: seq<Node>, it: JsonValue?, c: Option<nat>)
    reads order
  {
    Shape(order, nodes) && it == Ref(order, c) && (c.Some? ==> c.value < |nodes|)
  }

  /** Names and objects of listed leaves. */
  ghost function Found(order: seq<JsonValue>, ps: seq<Param>): seq<(seq<Byte>, JsonValue?)> {
    seq(|ps|, i requires 0 <= i < |ps| => (ps[i].path, Ref(order, Some(ps[i].node))))
  }

  lemma FoundAppend(order: seq<JsonValue>, a: seq<Param>, b: seq<Param>)
    ensures Found(order, a + b) == Found(order, a) + Found(order, b)
  {
  }

  lemma Moves(order: seq<JsonValue>, nodes: seq<Node>, it: JsonValue, c: nat)
    requires Stands(order, nodes, it, Some(c)) && ParentFirst(nodes, c)
    ensures it.kind == nodes[c].kind && it.name == nodes[c].name
    ensures Stands(order, nodes, it.parent, nodes[c].parent)
    ensures Stands(order, nodes, it.firstChild, FirstChild(nodes, c))
    ensures Stands(order, nodes, it.nextSibling, NextSibling(nodes, c))
  {
    assert Linked(order, nodes, c);
    LinksInside(nodes, c);
    NextInside(nodes, c);
  }

  lemma LeafIsListed(order: seq<JsonValue>, nodes: seq<Node>, k: nat)
    requires IsTree(nodes) && k < |nodes| && Listed(nodes[k].kind)
    ensures Found(order, Descend(nodes, k, PathAt(nodes, k))) == [(FullName(nodes, k), Ref(order, Some(k)))]
  {
  }

  lemma NullIsNotListed(order: seq<JsonValue>, nodes: seq<Node>, k: nat, before: seq<(seq<Byte>, JsonValue?)>)
    requires IsTree(nodes) && k < |nodes| && nodes[k].kind.NullValue?
    ensures before + Found(order, Descend(nodes, k, PathAt(nodes, k))) == before
  {
  }

  /** Before the first child nothing is listed. */
  lemma ListingStarts(order: seq<JsonValue>, nodes: seq<Node>, k: nat, before: seq<(seq<Byte>, JsonValue?)>)
    requires IsTree(nodes) && k < |nodes| && IsContainer(nodes[k].kind)
    ensures var c, path := FirstChild(nodes, k), PathAt(nodes, k);
            && (c.Some? ==> k < c.value < |nodes| && nodes[c.value].parent == Some(k))
            && [] + DescendAlong(nodes, c, path) == Descend(nodes, k, path)
            && before + Found(order, []) == before
  {
    FirstAbove(nodes, k);
  }

  lemma ListingEnds(nodes: seq<Node>, k: nat, done: seq<Param>)
    requires IsTree(nodes) && k < |nodes|
    ensures done + DescendAlong(nodes, None, PathAt(nodes, k)) == done
  {
  }

  /** One child more in the listing of a container. */
  lemma ListedMore(order: seq<JsonValue>, nodes: seq<Node>, k: nat, c: nat, done: seq<Param>,
                   before: seq<(seq<Byte>, JsonValue?)>)
    requires IsTree(nodes) && c < |nodes| && nodes[c].parent == Some(k)
    ensures k < c && var ps, m, path := Descend(nodes, c, PathAt(nodes, c)), NextSibling(nodes, c), PathAt(nodes, k);
            && (m.Some? ==> m.value < |nodes|)
            && done + DescendAlong(nodes, Some(c), path) == done + ps + DescendAlong(nodes, m, path)
            && before + Found(order, done) + Found(order, ps) == before + Found(order, done + ps)
  {
    NextAbove(nodes, c);
    PathBelow(nodes, c, k);
    var ps := Descend(nodes, c, PathAt(nodes, c));
    FoundAppend(order, done, ps);
    Assoc(before, Found(order, done), Found(order, ps));
    Assoc(done, ps, DescendAlong(nodes, NextSibling(nodes, c), PathAt(nodes, k)));
  }

  class ParamList {
    /** m_jsonValues */
    var jsonValues: seq<(seq<Byte>, JsonValue?)>

    constructor ()
      ensures jsonValues == []
    {
      jsonValues := [];
    }

    /** `getValuePath`: the names on the way up, each followed by a dot. */
    method GetValuePath(value: JsonValue, ghost order: seq<JsonValue>, ghost nodes: seq<Node>, ghost k: nat)
      returns (path: seq<Byte>)
      requires IsTree(nodes) && Stands(order, nodes, value, Some(k)) && NamedUp(nodes, k)
      ensures path == PathUp(nodes, k, [])
    {
      var temp := value;
      ghost var j := k;
      path := [];
      assert ParentFirst(nodes, j);
      Moves(order, nodes, temp, j);
      while temp.parent != null
        invariant Stands(order, nodes, temp, Some(j)) && Stands(order, nodes, temp.parent, nodes[j].parent)
        invariant NamedUp(nodes, j) && PathUp(nodes, j, path) == PathUp(nodes, k, [])
        decreases j
      {
        assert ParentFirst(nodes, j);
        Moves(order, nodes, temp, j);
        path := CString(temp.name.value.bytes) + [DOT] + path;
        temp, j := temp.parent, nodes[j].parent.value;
        assert ParentFirst(nodes, j);
        Moves(order, nodes, temp, j);
      }
    }

    /** `createParamsList` */
    method CreateParamsList(value: JsonValue, ghost order: seq<JsonValue>, ghost nodes: seq<Node>, ghost k: nat)
      requires IsTree(nodes) && Stands(order, nodes, value, Some(k)) && LeavesNamed(nodes)
      modifies this
      ensures jsonValues == old(jsonValues) + Found(order, Descend(nodes, k, PathAt(nodes, k)))
      decreases |nodes| - k, 1
    {
      assert ParentFirst(nodes, k);
      Moves(order, nodes, value, k);
      match value.kind
      case NullValue => NullIsNotListed(order, nodes, k, jsonValues);
      case Object => ListChildren(value, order, nodes, k);
      case Array => ListChildren(value, order, nodes, k);
      case _ =>
        ListLeaf(value, order, nodes, k);
        LeafIsListed(order, nodes, k);
    }

    method ListLeaf(value: JsonValue, ghost order: seq<JsonValue>, ghost nodes: seq<Node>, ghost k: nat)
      requires IsTree(nodes) && Stands(order, nodes, value, Some(k)) && LeavesNamed(nodes) && Listed(nodes[k].kind)
      modifies this
      ensures jsonValues == old(jsonValues) + [(FullName(nodes, k), value)]
    {
      assert ParentFirst(nodes, k) && LeafNamed(nodes, k);
      Moves(order, nodes, value, k);
      var path := GetValuePath(value.parent, order, nodes, nodes[k].parent.value);
      jsonValues := jsonValues + [(path + CString(value.name.value.bytes), value)];
    }

    /** The loop over the children. */
    method ListChildren(value: JsonValue, ghost order: seq<JsonValue>, ghost nodes: seq<Node>, ghost k: nat)
      requires IsTree(nodes) && Stands(order, nodes, value, Some(k)) && LeavesNamed(nodes)
      requires IsContainer(nodes[k].kind)
      modifies this
      ensures jsonValues == old(jsonValues) + Found(order, Descend(nodes, k, PathAt(nodes, k)))
      decreases |nodes| - k, 0
    {
      assert ParentFirst(nodes, k);
      Moves(order, nodes, value, k);
      var it := value.firstChild;
      ghost var c := FirstChild(nodes, k);
      ghost var done: seq<Param> := [];
      ListingStarts(order, nodes, k, jsonValues);
      while it != null
        invariant Stands(order, nodes, it, c) && (c.Some? ==> k < c.value && nodes[c.value].parent == Some(k))
        invariant done + DescendAlong(nodes, c, PathAt(nodes, k)) == Descend(nodes, k, PathAt(nodes, k))
        invariant jsonValues == old(jsonValues) + Found(order, done)
        decreases if c.Some? then |nodes| - c.value else 0
      {
        ghost var ps := Descend(nodes, c.value, PathAt(nodes, c.value));
        it := ListChild(it, order, nodes, k, c.value, done, old(jsonValues));
        done, c := done + ps, NextSibling(nodes, c.value);
      }
      ListingEnds(nodes, k, done);
    }

    /** One turn of the loop. */
    method ListChild(child: JsonValue, ghost order: seq<JsonValue>, ghost nodes: seq<Node>, ghost k: nat, ghost c: nat,
                     ghost done: seq<Param>, ghost before: seq<(seq<Byte>, JsonValue?)>) returns (next: JsonValue?)
      requires IsTree(nodes) && Stands(order, nodes, child, Some(c)) && LeavesNamed(nodes)
      requires nodes[c].parent == Some(k) && jsonValues == before + Found(order, done)
      modifies this
      ensures k < c && Stands(order, nodes, next, NextSibling(nodes, c))
      ensures var m, ps, path := NextSibling(nodes, c), Descend(nodes, c, PathAt(nodes, c)), PathAt(nodes, k);
              && (m.Some? ==> c < m.value && nodes[m.value].parent == Some(k))
              && done + DescendAlong(nodes, Some(c), path) == done + ps + DescendAlong(nodes, m, path)
              && jsonValues == before + Found(order, done + ps)
      decreases |nodes| - c, 2
    {
      assert ParentFirst(nodes, c);
      Moves(order, nodes, child, c);
      NextAbove(nodes, c);
      ListedMore(order, nodes, k, c, done, before);
      CreateParamsList(child, order, nodes, c);
      next := child.nextSibling;
    }
  }
}
