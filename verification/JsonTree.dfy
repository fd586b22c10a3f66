/** The links of the tree: parent, first and last child, next sibling. */
module JsonTree {
  import opened Options
  import opened JsonText
  import opened JsonDoc

  // ----- parents follow the bracket nesting

  /** The innermost bracket still open before position i, found by scanning backwards and
      counting closing brackets. */
  ghost function OpenerBack(ts: seq<Token>, i: nat, depth: nat): (r: Option<nat>)
    requires i <= |ts|
    ensures r.Some? ==> r.value < i && ts[r.value].Open?
  {
    if i == 0 then None
    else
      match ts[i - 1]
      case Close(_) => OpenerBack(ts, i - 1, depth + 1)
      case Open(_) => if depth == 0 then Some(i - 1) else OpenerBack(ts, i - 1, depth - 1)
      case _ => OpenerBack(ts, i - 1, depth)
  }

  lemma {:induction false} OpenerOneMore(ts: seq<Token>, i: nat, depth: nat)
    requires i <= |ts|
    ensures OpenerBack(ts, i, depth + 1) ==
            match OpenerBack(ts, i, depth) case None => None case Some(a) => OpenerBack(ts, a, 0)
  {
    if i != 0 {
      match ts[i - 1]
      case Close(_) => OpenerOneMore(ts, i - 1, depth + 1);
      case Open(_) => if depth != 0 { OpenerOneMore(ts, i - 1, depth - 1); }
      case _ => OpenerOneMore(ts, i - 1, depth);
    }
  }

  ghost predicate Extends(d: Doc, e: Doc) {
    |d.nodes| <= |e.nodes| && forall k :: 0 <= k < |d.nodes| ==> e.nodes[k] == d.nodes[k]
  }

  lemma StepExtends(d: Doc, t: Token)
    requires Valid(d) && Step(d, t).Some?
    ensures Extends(d, Step(d, t).value) && |Step(d, t).value.nodes| <= |d.nodes| + 1
    ensures |Step(d, t).value.nodes| > |d.nodes| ==> Step(d, t).value.nodes[|d.nodes|].parent == d.top
  {
  }

  lemma {:induction false} FoldPrefix(ts: seq<Token>, i: nat)
    requires i <= |ts| && Fold(ts).Some?
    ensures Fold(ts[..i]).Some?
  {
    if i < |ts| {
      FoldPrefix(ts[..|ts| - 1], i);
      assert ts[..|ts| - 1][..i] == ts[..i];
    } else {
      assert ts[..i] == ts;
    }
  }

  /** The document after i of the tokens. */
  ghost function DocAt(ts: seq<Token>, i: nat): (d: Doc)
    requires i <= |ts| && Fold(ts).Some?
    ensures Valid(d)
  {
    FoldPrefix(ts, i);
    Fold(ts[..i]).value
  }

  lemma DocNext(ts: seq<Token>, i: nat)
    requires i < |ts| && Fold(ts).Some?
    ensures Step(DocAt(ts, i), ts[i]) == Some(DocAt(ts, i + 1))
  {
    FoldPrefix(ts, i + 1);
    var now := ts[..i + 1];
    assert now[..i] == ts[..i] && now[|now| - 1] == ts[i];
  }

  lemma {:induction false} DocExtends(ts: seq<Token>, i: nat, j: nat)
    requires i <= j <= |ts| && Fold(ts).Some?
    ensures Extends(DocAt(ts, i), DocAt(ts, j))
  {
    if i < j {
      DocExtends(ts, i, j - 1);
      NextExtends(ts, j - 1);
      ExtendsTwice(DocAt(ts, i), DocAt(ts, j - 1), DocAt(ts, j));
    }
  }

  lemma NextExtends(ts: seq<Token>, i: nat)
    requires i < |ts| && Fold(ts).Some?
    ensures Extends(DocAt(ts, i), DocAt(ts, i + 1))
  {
    DocNext(ts, i);
    StepExtends(DocAt(ts, i), ts[i]);
  }

  lemma ExtendsTwice(d: Doc, e: Doc, f: Doc)
    requires Extends(d, e) && Extends(e, f)
    ensures Extends(d, f)
  {
    forall k | 0 <= k < |d.nodes| ensures f.nodes[k] == d.nodes[k] {
      assert e.nodes[k] == d.nodes[k];
    }
  }

  lemma DocAtEnd(ts: seq<Token>)
    requires Fold(ts).Some?
    ensures DocAt(ts, |ts|) == Fold(ts).value
  {
    assert ts[..|ts|] == ts;
  }

  /** How many nodes the first i tokens create. */
  ghost function Created(ts: seq<Token>, i: nat): nat
    requires i <= |ts| && Fold(ts).Some?
  {
    |DocAt(ts, i).nodes|
  }

  /** The node that the innermost open bracket before token i has created. */
  ghost function Enclosing(ts: seq<Token>, i: nat): Option<nat>
    requires i <= |ts| && Fold(ts).Some?
  {
    match OpenerBack(ts, i, 0)
    case None => None
    case Some(a) => Some(Created(ts, a))
  }

  /** The parser's top pointer is the node of the innermost open bracket. */
  lemma {:induction false} TopIsEnclosing(ts: seq<Token>, i: nat)
    requires i <= |ts| && Fold(ts).Some?
    ensures DocAt(ts, i).top == Enclosing(ts, i)
    decreases i, 1
  {
    if i != 0 {
      var d, t := DocAt(ts, i - 1), ts[i - 1];
      TopIsEnclosing(ts, i - 1);
      DocNext(ts, i - 1);
      StepTop(d, t);
      OpenerStep(ts, i - 1);
      if t.Close? {
        var o := OpenerBack(ts, i - 1, 0).value;
        NodeIsEnclosed(ts, o, i - 1);
        assert OpenerBack(ts, i, 0) == OpenerBack(ts, o, 0);
        assert Enclosing(ts, i) == Enclosing(ts, o);
      } else if t.Open? {
        assert Enclosing(ts, i) == Some(Created(ts, i - 1));
      } else {
        assert Enclosing(ts, i) == Enclosing(ts, i - 1);
      }
    }
  }

  lemma StepTop(d: Doc, t: Token)
    requires Valid(d) && Step(d, t).Some?
    ensures t.Open? ==> Step(d, t).value.top == Some(|d.nodes|)
    ensures t.Close? ==> d.top.Some? && Step(d, t).value.top == d.nodes[d.top.value].parent
    ensures !t.Open? && !t.Close? ==> Step(d, t).value.top == d.top
  {
  }

  lemma OpenerStep(ts: seq<Token>, i: nat)
    requires i < |ts|
    ensures ts[i].Open? ==> OpenerBack(ts, i + 1, 0) == Some(i)
    ensures !ts[i].Open? && !ts[i].Close? ==> OpenerBack(ts, i + 1, 0) == OpenerBack(ts, i, 0)
    ensures ts[i].Close? && OpenerBack(ts, i, 0).Some?
            ==> OpenerBack(ts, i + 1, 0) == OpenerBack(ts, OpenerBack(ts, i, 0).value, 0)
  {
    OpenerOneMore(ts, i, 0);
  }

  /** The node that token i creates has the enclosing node as its parent, at any time j later. */
  lemma {:induction false} NodeIsEnclosed(ts: seq<Token>, i: nat, j: nat)
    requires i < j <= |ts| && Fold(ts).Some?
    requires Created(ts, i + 1) > Created(ts, i) || ts[i].Open?
    ensures Created(ts, i + 1) == Created(ts, i) + 1 <= Created(ts, j)
    ensures DocAt(ts, j).nodes[Created(ts, i)].parent == Enclosing(ts, i)
    decreases i, 2
  {
    var d, e, f := DocAt(ts, i), DocAt(ts, i + 1), DocAt(ts, j);
    TopIsEnclosing(ts, i);
    DocNext(ts, i);
    StepCreates(d, ts[i], e);
    DocExtends(ts, i + 1, j);
    assert f.nodes[|d.nodes|] == e.nodes[|d.nodes|];
  }

  lemma StepCreates(d: Doc, t: Token, e: Doc)
    requires Valid(d) && Step(d, t) == Some(e) && (|e.nodes| > |d.nodes| || t.Open?)
    ensures |e.nodes| == |d.nodes| + 1 && e.nodes[|d.nodes|].parent == d.top
  {
  }

  /** A node's parent link names the node of the bracket that encloses its token. */
  lemma ParentIsEnclosing(ts: seq<Token>, i: nat)
    requires i < |ts| && Fold(ts).Some? && Created(ts, i + 1) > Created(ts, i)
    ensures Created(ts, i) < |Fold(ts).value.nodes|
    ensures Fold(ts).value.nodes[Created(ts, i)].parent == Enclosing(ts, i)
  {
    NodeIsEnclosed(ts, i, |ts|);
    DocAtEnd(ts);
  }

  // ----- children in source order

  /** The nodes whose parent is k, in ascending, that is source, order. */
  ghost function Children(nodes: seq<Node>, k: nat): (r: seq<nat>) {
    if nodes == [] then []
    else
      var last := |nodes| - 1;
      Children(nodes[..last], k) + (if nodes[last].parent == Some(k) then [last] else [])
  }

  lemma {:induction false} ChildrenAscend(nodes: seq<Node>, k: nat)
    ensures forall j: nat :: j in Children(nodes, k) <==> j < |nodes| && nodes[j].parent == Some(k)
    ensures forall i, j :: 0 <= i < j < |Children(nodes, k)| ==> Children(nodes, k)[i] < Children(nodes, k)[j]
  {
    if nodes != [] {
      var last := |nodes| - 1;
      var front := nodes[..last];
      ChildrenAscend(front, k);
      forall i | 0 <= i < |Children(front, k)| ensures Children(front, k)[i] < last {
        assert Children(front, k)[i] in Children(front, k);
      }
    }
  }

  lemma ChildrenAppend(nodes: seq<Node>, n: Node, k: nat)
    ensures Children(nodes + [n], k) == Children(nodes, k) + (if n.parent == Some(k) then [|nodes|] else [])
  {
    assert (nodes + [n])[..|nodes|] == nodes;
  }

  ghost function FirstChild(nodes: seq<Node>, k: nat): Option<nat> {
    var c := Children(nodes, k);
    if c == [] then None else Some(c[0])
  }

  ghost function LastChild(nodes: seq<Node>, k: nat): Option<nat> {
    var c := Children(nodes, k);
    if c == [] then None else Some(c[|c| - 1])
  }

  /** The next node with the same parent. */
  ghost function NextSibling(nodes: seq<Node>, j: nat): (r: Option<nat>)
    requires j < |nodes|
    decreases |nodes|
  {
    var last := |nodes| - 1;
    if j == last then None
    else
      match NextSibling(nodes[..last], j)
      case Some(m) => Some(m)
      case None => if nodes[last].parent.Some? && nodes[last].parent == nodes[j].parent then Some(last) else None
  }

  /** Following next_sibling from first_child meets every child once, in source order, and
      ends at last_child. */
  lemma {:induction false} SiblingChain(nodes: seq<Node>, k: nat, i: nat)
    requires i < |Children(nodes, k)|
    ensures var c := Children(nodes, k);
            c[i] < |nodes| && NextSibling(nodes, c[i]) == if i + 1 < |c| then Some(c[i + 1]) else None
    decreases |nodes|
  {
    var c := Children(nodes, k);
    ChildrenAscend(nodes, k);
    assert c[i] in c;
    var last := |nodes| - 1;
    var front := nodes[..last];
    var f := Children(front, k);
    if i < |f| {
      ChildrenAscend(front, k);
      assert f[i] in f;
      SiblingChain(front, k, i);
    }
  }

  lemma FirstAfterAppend(nodes: seq<Node>, n: Node, k: nat)
    ensures FirstChild(nodes + [n], k) ==
            if n.parent == Some(k) && FirstChild(nodes, k).None? then Some(|nodes|) else FirstChild(nodes, k)
    ensures LastChild(nodes + [n], k) == if n.parent == Some(k) then Some(|nodes|) else LastChild(nodes, k)
  {
    ChildrenAppend(nodes, n, k);
  }

  lemma NextAfterAppend(nodes: seq<Node>, n: Node, j: nat)
    requires j < |nodes|
    ensures NextSibling(nodes + [n], j) ==
            if n.parent.Some? && LastChild(nodes, n.parent.value) == Some(j) then Some(|nodes|)
            else NextSibling(nodes, j)
  {
    assert (nodes + [n])[..|nodes|] == nodes;
    if n.parent.Some? {
      var c := Children(nodes, n.parent.value);
      ChildrenAscend(nodes, n.parent.value);
      if nodes[j].parent == n.parent {
        assert j in c;
        var i :| 0 <= i < |c| && c[i] == j;
        SiblingChain(nodes, n.parent.value, i);
      } else if c != [] {
        assert c[|c| - 1] in c;
      }
    }
  }
}
