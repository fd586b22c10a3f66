/** The nodes of the document read off its tokens: which token makes which node, and the name
    and value that it has. */
module JsonNodes {
  import opened Options
  import opened JsonText
  import opened JsonDoc
  import opened JsonTree

  // ----- names

  /** Token i stands directly inside an object. */
  ghost predicate InObject(ts: seq<Token>, i: nat)
    requires i <= |ts|
  {
    var o := OpenerBack(ts, i, 0);
    o.Some? && ts[o.value] == Open(true)
  }

  /** The last string token before i, unless a value or an opening bracket stands between. */
  ghost function StringBefore(ts: seq<Token>, i: nat): (r: Option<nat>)
    requires i <= |ts|
    ensures r.Some? ==> r.value < i && ts[r.value].Str?
  {
    if i == 0 then None
    else
      match ts[i - 1]
      case Str(_, _) => Some(i - 1)
      case Colon => StringBefore(ts, i - 1)
      case Comma => StringBefore(ts, i - 1)
      case Close(_) => StringBefore(ts, i - 1)
      case _ => None
  }

  /** A string is a name when it stands directly in an object and is not itself named. */
  ghost predicate IsName(ts: seq<Token>, i: nat)
    requires i < |ts|
    decreases i, 1
  {
    ts[i].Str? && InObject(ts, i) && NameBefore(ts, i).None?
  }

  /** The name that waits for token i. */
  ghost function NameBefore(ts: seq<Token>, i: nat): (r: Option<nat>)
    requires i <= |ts|
    ensures r.Some? ==> r.value < i && ts[r.value].Str?
    decreases i, 0
  {
    var b := StringBefore(ts, i);
    if b.Some? && IsName(ts, b.value) then b else None
  }

  /** The token makes a node. */
  ghost predicate MakesNode(ts: seq<Token>, i: nat)
    requires i < |ts|
  {
    match ts[i]
    case Close(_) => false
    case Colon => false
    case Comma => false
    case Str(_, _) => !IsName(ts, i)
    case _ => true
  }

  ghost function TextOf(t: Token): Text
    requires t.Str?
  {
    Text(t.at, t.bytes)
  }

  ghost function NameText(ts: seq<Token>, i: nat): Option<Text>
    requires i <= |ts|
  {
    var n := NameBefore(ts, i);
    if n.Some? then Some(TextOf(ts[n.value])) else None
  }

  lemma ObjectIsEnclosing(ts: seq<Token>, i: nat)
    requires i <= |ts| && Fold(ts).Some?
    ensures DocAt(ts, i).top.Some? <==> OpenerBack(ts, i, 0).Some?
    ensures InObject(ts, i) <==> DocAt(ts, i).top.Some? && DocAt(ts, i).nodes[DocAt(ts, i).top.value].kind == Object
    ensures DocAt(ts, i).top.Some? ==> IsContainer(DocAt(ts, i).nodes[DocAt(ts, i).top.value].kind)
  {
    TopIsEnclosing(ts, i);
    var o := OpenerBack(ts, i, 0);
    if o.Some? {
      var a := o.value;
      DocNext(ts, a);
      DocExtends(ts, a + 1, i);
      OpenMakes(DocAt(ts, a), ts[a], DocAt(ts, a + 1));
      assert DocAt(ts, i).nodes[Created(ts, a)] == DocAt(ts, a + 1).nodes[Created(ts, a)];
    }
  }

  lemma OpenMakes(d: Doc, t: Token, e: Doc)
    requires Valid(d) && t.Open? && Step(d, t) == Some(e)
    ensures |e.nodes| == |d.nodes| + 1 && e.nodes[|d.nodes|].kind == if t.curly then Object else Array
  {
  }

  /** The parser's waiting name is the one read off the tokens. */
  lemma {:induction false} NameWaits(ts: seq<Token>, i: nat)
    requires i <= |ts| && Fold(ts).Some?
    ensures DocAt(ts, i).name == NameText(ts, i)
  {
    if i != 0 {
      NameWaits(ts, i - 1);
      DocNext(ts, i - 1);
      ObjectIsEnclosing(ts, i - 1);
      NameStep(ts, i - 1, DocAt(ts, i - 1), DocAt(ts, i));
    }
  }

  lemma NameStep(ts: seq<Token>, i: nat, d: Doc, e: Doc)
    requires i < |ts| && Valid(d) && Step(d, ts[i]) == Some(e) && d.name == NameText(ts, i)
    requires InObject(ts, i) <==> d.top.Some? && d.nodes[d.top.value].kind == Object
    ensures e.name == NameText(ts, i + 1)
    ensures |e.nodes| == |d.nodes| + if MakesNode(ts, i) then 1 else 0
    ensures MakesNode(ts, i) ==> e.nodes[|d.nodes|].name == NameText(ts, i)
  {
    match ts[i]
    case Str(_, _) =>
      assert StringBefore(ts, i + 1) == Some(i);
      assert IsName(ts, i) <==> InObject(ts, i) && d.name.None?;
    case _ =>
  }

  /** The kind of the node that a token makes, with its value. */
  ghost predicate KindFits(t: Token, kind: Kind) {
    match t
    case Open(curly) => if curly then kind.Object? else kind.Array?
    case Null => kind.NullValue?
    case Bool(b) => kind == BoolValue(b)
    case Int(number) => kind == IntValue(number)
    case Float => kind.FloatValue?
    case Str(at, bytes) => kind == StringValue(Text(at, bytes))
    case _ => false
  }

  lemma KindStep(d: Doc, t: Token, e: Doc)
    requires Valid(d) && Step(d, t) == Some(e) && |e.nodes| > |d.nodes|
    ensures |e.nodes| == |d.nodes| + 1 && KindFits(t, e.nodes[|d.nodes|].kind)
  {
  }

  /** Node by node: every token but closing brackets, marks and names makes the next node, of
      its own kind and with its own value, under the name that stands before it, inside the
      node of the bracket around it. */
  lemma NodeOfToken(ts: seq<Token>, i: nat)
    requires i < |ts| && Fold(ts).Some?
    ensures Created(ts, i + 1) == Created(ts, i) + if MakesNode(ts, i) then 1 else 0
    ensures MakesNode(ts, i) ==>
              var nodes, k := Fold(ts).value.nodes, Created(ts, i);
              k < |nodes| && KindFits(ts[i], nodes[k].kind) && nodes[k].name == NameText(ts, i)
              && nodes[k].parent == Enclosing(ts, i)
  {
    NodesGrow(ts, i);
    if MakesNode(ts, i) {
      NodeMade(ts, i);
    }
  }

  lemma NodesGrow(ts: seq<Token>, i: nat)
    requires i < |ts| && Fold(ts).Some?
    ensures Created(ts, i + 1) == Created(ts, i) + if MakesNode(ts, i) then 1 else 0
    ensures MakesNode(ts, i) ==> DocAt(ts, i + 1).nodes[Created(ts, i)].name == NameText(ts, i)
  {
    NameWaits(ts, i);
    ObjectIsEnclosing(ts, i);
    DocNext(ts, i);
    NameStep(ts, i, DocAt(ts, i), DocAt(ts, i + 1));
  }

  lemma NodeMade(ts: seq<Token>, i: nat)
    requires i < |ts| && Fold(ts).Some? && MakesNode(ts, i)
    ensures var nodes, k := Fold(ts).value.nodes, Created(ts, i);
            && k < |nodes| && KindFits(ts[i], nodes[k].kind) && nodes[k].name == NameText(ts, i)
            && nodes[k].parent == Enclosing(ts, i)
  {
    var k, e := Created(ts, i), DocAt(ts, i + 1);
    NodesGrow(ts, i);
    DocNext(ts, i);
    KindStep(DocAt(ts, i), ts[i], e);
    DocExtends(ts, i + 1, |ts|);
    DocAtEnd(ts);
    assert Fold(ts).value.nodes[k] == e.nodes[k];
    ParentIsEnclosing(ts, i);
  }
}
