/** The document that json_parse builds, as a list of nodes in source order, and the grammar
    of bracket tokens that it accepts. */
module JsonDoc {
  import opened Options
  import opened JsonStrings
  import opened JsonText

  datatype Text = Text(at: nat, bytes: seq<Byte>)

  datatype Kind =
    | Object | Array | NullValue | BoolValue(b: bool) | IntValue(number: int) | FloatValue | StringValue(text: Text)

  datatype Node = Node(parent: Option<nat>, name: Option<Text>, kind: Kind)

  /** top is the innermost open container, name a name still waiting for its value. */
  datatype Doc = Doc(nodes: seq<Node>, top: Option<nat>, name: Option<Text>)

  const EMPTY := Doc([], None, None)

  predicate IsContainer(kind: Kind) {
    kind.Object? || kind.Array?
  }

  /** Parents come first and are containers; only the first node has none. */
  ghost predicate Valid(d: Doc) {
    && (d.top.Some? ==> d.top.value < |d.nodes| && IsContainer(d.nodes[d.top.value].kind))
    && forall k :: 0 <= k < |d.nodes| ==>
         match d.nodes[k].parent
         case None => k == 0
         case Some(p) => p < k && IsContainer(d.nodes[p].kind)
  }

  function Append(d: Doc, kind: Kind): Doc {
    d.(nodes := d.nodes + [Node(d.top, d.name, kind)], name := None)
  }

  /** One token, None where the parser reports an error. */
  function Step(d: Doc, t: Token): (r: Option<Doc>)
    requires Valid(d)
    ensures r.Some? ==> Valid(r.value)
  {
    match t
    case Open(curly) =>
      if d.top.None? && d.nodes != [] then None
      else Some(Append(d, if curly then Object else Array).(top := Some(|d.nodes|)))
    case Close(curly) =>
      if d.top.None? || d.nodes[d.top.value].kind != (if curly then Object else Array) then None
      else Some(d.(top := d.nodes[d.top.value].parent))
    case Colon => if d.top.None? || !d.nodes[d.top.value].kind.Object? then None else Some(d)
    case Comma => if d.top.None? then None else Some(d)
    case Str(at, bytes) =>
      if d.top.None? then None
      else if d.name.None? && d.nodes[d.top.value].kind.Object? then Some(d.(name := Some(Text(at, bytes))))
      else Some(Append(d, StringValue(Text(at, bytes))))
    case Null => if d.top.None? then None else Some(Append(d, NullValue))
    case Bool(b) => if d.top.None? then None else Some(Append(d, BoolValue(b)))
    case Int(number) => if d.top.None? then None else Some(Append(d, IntValue(number)))
    case Float => if d.top.None? then None else Some(Append(d, FloatValue))
  }

  function Fold(ts: seq<Token>): (r: Option<Doc>)
    ensures r.Some? ==> Valid(r.value)
  {
    if ts == [] then Some(EMPTY)
    else
      match Fold(ts[..|ts| - 1])
      case None => None
      case Some(d) => Step(d, ts[|ts| - 1])
  }

  datatype Outcome = Done(tokens: seq<Token>) | Failed | Ran

  /** The parser on the text from i on, after it has read the tokens ts. */
  function ParseFrom(s: seq<Byte>, i: nat, ts: seq<Token>): Outcome
    requires Fold(ts).Some?
    decreases |s| - i
  {
    var d := Fold(ts).value;
    if At(s, i) == 0 then
      if d.top.None? then Done(ts) else Failed
    else
      match TokenAt(s, i)
      case NoToken => Failed
      case Runaway => if d.top.None? then Failed else Ran
      case Tok(t, next) =>
        if Fold(ts + [t]).None? then Failed else ParseFrom(s, SkipSpace(s, next), ts + [t])
  }

  function Parse(s: seq<Byte>): Outcome {
    ParseFrom(s, 0, [])
  }

  /** One turn of the loop. */
  lemma ParseToken(text: seq<Byte>, it: nat, ts: seq<Token>, d: Doc)
    requires Fold(ts) == Some(d) && At(text, it) != 0
    ensures TokenAt(text, it).NoToken? ==> ParseFrom(text, it, ts) == Failed
    ensures TokenAt(text, it).Runaway? ==> ParseFrom(text, it, ts) == if d.top.None? then Failed else Ran
    ensures TokenAt(text, it).Tok? ==>
              var l := TokenAt(text, it);
              && Fold(ts + [l.token]) == Step(d, l.token)
              && ParseFrom(text, it, ts) == if Step(d, l.token).None? then Failed
                                            else ParseFrom(text, SkipSpace(text, l.next), ts + [l.token])
  {
    if TokenAt(text, it).Tok? {
      var ts' := ts + [TokenAt(text, it).token];
      assert ts'[..|ts|] == ts;
    }
  }

  // ----- the grammar of accepted token lists

  predicate IsAtom(t: Token, curly: bool) {
    !t.Open? && !t.Close? && (t == Colon ==> curly)
  }

  /** One outermost pair of brackets of the same kind around a balanced content. */
  ghost predicate Group(ts: seq<Token>)
    decreases |ts|, 0
  {
    && |ts| >= 2 && ts[0].Open? && ts[|ts| - 1] == Close(ts[0].curly)
    && Forest(ts[1..|ts| - 1], ts[0].curly)
  }

  /** Groups and other tokens in any order; colons only directly inside an object. */
  ghost predicate Forest(ts: seq<Token>, curly: bool)
    decreases |ts|, 1
  {
    || ts == []
    || (IsAtom(ts[0], curly) && Forest(ts[1..], curly))
    || exists j :: 0 < j <= |ts| && Group(ts[..j]) && Forest(ts[j..], curly)
  }

  // ----- the stack of open brackets

  /** Kinds of the open containers, outermost first, by walking parent links up. */
  ghost function Chain(d: Doc, k: Option<nat>): seq<bool>
    requires Valid(d) && (k.Some? ==> k.value < |d.nodes|)
    decreases if k.Some? then k.value + 1 else 0
  {
    if k.None? then []
    else Chain(d, d.nodes[k.value].parent) + [d.nodes[k.value].kind.Object?]
  }

  /** The same from the tokens alone: nothing may follow the last closing bracket. */
  function Push(st: seq<bool>, t: Token): Option<seq<bool>> {
    if st == [] then None
    else
      match t
      case Open(curly) => Some(st + [curly])
      case Close(curly) => if st[|st| - 1] == curly then Some(st[..|st| - 1]) else None
      case Colon => if st[|st| - 1] then Some(st) else None
      case _ => Some(st)
  }

  function Stack(st: seq<bool>, ts: seq<Token>): Option<seq<bool>>
    decreases |ts|
  {
    if ts == [] then Some(st)
    else
      match Push(st, ts[0])
      case None => None
      case Some(st') => Stack(st', ts[1..])
  }

  lemma {:induction false} StackSnoc(st: seq<bool>, ts: seq<Token>, t: Token)
    ensures Stack(st, ts + [t]) == match Stack(st, ts) case None => None case Some(st') => Push(st', t)
    decreases |ts|
  {
    if ts == [] {
      assert [] + [t] == [t] && [t][1..] == [];
    } else {
      assert (ts + [t])[1..] == ts[1..] + [t];
      match Push(st, ts[0])
      case None =>
      case Some(st') => StackSnoc(st', ts[1..], t);
    }
  }

  lemma {:induction false} StackAppend(st: seq<bool>, a: seq<Token>, b: seq<Token>)
    ensures Stack(st, a + b) == match Stack(st, a) case None => None case Some(st') => Stack(st', b)
    decreases |a|
  {
    if a == [] {
      assert [] + b == b;
    } else {
      assert (a + b)[1..] == a[1..] + b;
      match Push(st, a[0])
      case None =>
      case Some(st') => StackAppend(st', a[1..], b);
    }
  }

  /** A balanced content leaves the stack as it was. */
  lemma {:induction false} ForestKeepsStack(ts: seq<Token>, st: seq<bool>)
    requires st != [] && Forest(ts, st[|st| - 1])
    ensures Stack(st, ts) == Some(st)
    decreases |ts|, 1
  {
    if ts == [] {
    } else if IsAtom(ts[0], st[|st| - 1]) && Forest(ts[1..], st[|st| - 1]) {
      ForestKeepsStack(ts[1..], st);
    } else {
      var j :| 0 < j <= |ts| && Group(ts[..j]) && Forest(ts[j..], st[|st| - 1]);
      GroupKeepsStack(ts[..j], st);
      ForestKeepsStack(ts[j..], st);
      StackAppend(st, ts[..j], ts[j..]);
      assert ts[..j] + ts[j..] == ts;
    }
  }

  lemma {:induction false} GroupKeepsStack(ts: seq<Token>, st: seq<bool>)
    requires st != [] && Group(ts)
    ensures Stack(st, ts) == Some(st)
    decreases |ts|, 0
  {
    GroupInside(ts, st + [ts[0].curly], st);
  }

  /** Behind its opening bracket a group pops exactly that bracket. */
  lemma {:induction false} GroupInside(ts: seq<Token>, inner: seq<bool>, st: seq<bool>)
    requires Group(ts) && inner == st + [ts[0].curly]
    ensures Stack(inner, ts[1..]) == Some(st)
    decreases |ts| - 1, 2
  {
    var inside := ts[1..|ts| - 1];
    ForestKeepsStack(inside, inner);
    assert ts[1..] == inside + [Close(ts[0].curly)];
    StackSnoc(inner, inside, Close(ts[0].curly));
    assert inner[..|inner| - 1] == st;
  }

  /** ts[j] closes the innermost bracket of st after a balanced content, and the rest of ts
      empties the stack that remains. */
  ghost predicate ClosesAt(st: seq<bool>, ts: seq<Token>, j: nat) {
    && st != [] && j < |ts| && Forest(ts[..j], st[|st| - 1]) && ts[j] == Close(st[|st| - 1])
    && Stack(st[..|st| - 1], ts[j + 1..]) == Some([])
  }

  /** A run that empties the stack closes its innermost bracket after a balanced content. */
  lemma {:induction false} FindClose(st: seq<bool>, ts: seq<Token>) returns (j: nat)
    requires st != [] && Stack(st, ts) == Some([])
    ensures ClosesAt(st, ts, j)
    decreases |ts|
  {
    match ts[0]
    case Close(_) =>
      j := 0;
      assert ts[..0] == [];
    case Open(kind) =>
      var i := FindClose(st + [kind], ts[1..]);
      CloseGroup(st, ts, i);
      var k := FindClose(st, ts[i + 2..]);
      j := i + 2 + k;
      AfterGroup(st, ts, i, k);
    case _ =>
      AtomKeepsStack(st, ts);
      var i := FindClose(st, ts[1..]);
      j := i + 1;
      AfterAtom(st, ts, i);
  }

  lemma AtomKeepsStack(st: seq<bool>, ts: seq<Token>)
    requires st != [] && ts != [] && !ts[0].Open? && !ts[0].Close? && Stack(st, ts).Some?
    ensures IsAtom(ts[0], st[|st| - 1]) && Stack(st, ts) == Stack(st, ts[1..])
  {
  }

  lemma AfterAtom(st: seq<bool>, ts: seq<Token>, i: nat)
    requires st != [] && ts != [] && IsAtom(ts[0], st[|st| - 1]) && ClosesAt(st, ts[1..], i)
    ensures ClosesAt(st, ts, i + 1)
  {
    JoinAtom(ts, i, st[|st| - 1]);
  }

  lemma AfterGroup(st: seq<bool>, ts: seq<Token>, i: nat, k: nat)
    requires st != [] && i + 2 <= |ts| && ts[0].Open? && ClosesAt(st + [ts[0].curly], ts[1..], i)
    requires ClosesAt(st, ts[i + 2..], k)
    ensures ClosesAt(st, ts, i + 2 + k)
  {
    JoinGroup(ts, i, k, st[|st| - 1]);
  }

  lemma CloseGroup(st: seq<bool>, ts: seq<Token>, i: nat)
    requires ts != [] && ts[0].Open? && ClosesAt(st + [ts[0].curly], ts[1..], i)
    ensures i + 2 <= |ts| && Stack(st, ts[i + 2..]) == Some([])
  {
    assert (st + [ts[0].curly])[..|st|] == st && ts[1..][i + 1..] == ts[i + 2..];
  }

  lemma JoinAtom(ts: seq<Token>, i: nat, curly: bool)
    requires i + 1 < |ts| && IsAtom(ts[0], curly) && Forest(ts[1..][..i], curly)
    ensures Forest(ts[..i + 1], curly) && ts[i + 1..] == ts[1..][i..] && ts[i + 2..] == ts[1..][i + 1..]
  {
    assert ts[..i + 1][1..] == ts[1..][..i];
  }

  lemma GroupSlices(ts: seq<Token>, i: nat, k: nat)
    requires i + 2 + k < |ts|
    ensures var all := ts[..i + 2 + k];
            && all[..i + 2] == ts[..i + 2] && ts[..i + 2][1..i + 1] == ts[1..][..i]
            && all[i + 2..] == ts[i + 2..][..k] && ts[i + 2..][k + 1..] == ts[i + 2 + k + 1..]
  {
  }

  lemma JoinGroup(ts: seq<Token>, i: nat, k: nat, curly: bool)
    requires i + 2 + k < |ts| && ts[0].Open? && ts[1..][i] == Close(ts[0].curly)
    requires Forest(ts[1..][..i], ts[0].curly) && Forest(ts[i + 2..][..k], curly)
    ensures Forest(ts[..i + 2 + k], curly) && ts[i + 2..][k + 1..] == ts[i + 2 + k + 1..]
  {
    var all := ts[..i + 2 + k];
    var group := all[..i + 2];
    GroupSlices(ts, i, k);
    assert Group(group);
  }

  // ----- the parser accepts exactly the groups

  /** Appending a node leaves the open chain alone. */
  lemma {:induction false} ChainAppend(d: Doc, kind: Kind, k: Option<nat>)
    requires Valid(d) && (k.Some? ==> k.value < |d.nodes|) && (d.top.None? ==> d.nodes == [])
    ensures Valid(Append(d, kind)) && Chain(Append(d, kind), k) == Chain(d, k)
    decreases if k.Some? then k.value + 1 else 0
  {
    if k.Some? {
      ChainAppend(d, kind, d.nodes[k.value].parent);
    }
  }

  lemma {:induction false} ChainDependsOnNodes(d: Doc, e: Doc, k: Option<nat>)
    requires Valid(d) && Valid(e) && d.nodes == e.nodes && (k.Some? ==> k.value < |d.nodes|)
    ensures Chain(d, k) == Chain(e, k)
    decreases if k.Some? then k.value + 1 else 0
  {
    if k.Some? {
      ChainDependsOnNodes(d, e, d.nodes[k.value].parent);
    }
  }

  ghost function Opened(d: Doc): seq<bool>
    requires Valid(d)
  {
    Chain(d, d.top)
  }

  lemma OpenedIsEmpty(d: Doc)
    requires Valid(d)
    ensures Opened(d) == [] <==> d.top.None?
    ensures d.top.Some? ==> Opened(d)[|Opened(d)| - 1] == d.nodes[d.top.value].kind.Object?
  {
  }

  /** Once there is a root, the parser steps exactly as the bracket stack does. */
  lemma StepIsPush(d: Doc, t: Token)
    requires Valid(d) && d.nodes != []
    ensures Step(d, t).Some? <==> Push(Opened(d), t).Some?
    ensures Step(d, t).Some? ==> Step(d, t).value.nodes != [] && Opened(Step(d, t).value) == Push(Opened(d), t).value
  {
    OpenedIsEmpty(d);
    if Step(d, t).Some? {
      var e := Step(d, t).value;
      if e.nodes == d.nodes {
        ChainDependsOnNodes(d, e, e.top);
        if t.Close? {
          assert Opened(d) == Chain(d, d.nodes[d.top.value].parent) + [t.curly];
        }
      } else {
        ChainAppend(d, e.nodes[|d.nodes|].kind, d.top);
        ChainDependsOnNodes(Append(d, e.nodes[|d.nodes|].kind), e, d.top);
      }
    }
  }

  lemma FirstStep(t: Token)
    ensures Step(EMPTY, t).Some? <==> t.Open?
    ensures t.Open? ==> Step(EMPTY, t).value.nodes != [] && Opened(Step(EMPTY, t).value) == [t.curly]
  {
  }

  lemma {:induction false} FoldIsStack(ts: seq<Token>)
    requires ts != []
    ensures Fold(ts).Some? <==> ts[0].Open? && Stack([ts[0].curly], ts[1..]).Some?
    ensures Fold(ts).Some? ==> Fold(ts).value.nodes != []
                               && Stack([ts[0].curly], ts[1..]) == Some(Opened(Fold(ts).value))
  {
    var front, t := ts[..|ts| - 1], ts[|ts| - 1];
    if front == [] {
      assert ts[1..] == [];
      FirstStep(t);
    } else {
      FoldIsStack(front);
      assert ts[1..] == front[1..] + [t];
      if front[0].Open? {
        StackSnoc([front[0].curly], front[1..], t);
      }
      if Fold(front).Some? {
        StepIsPush(Fold(front).value, t);
      }
    }
  }

  /** A non-empty token list is a complete document exactly when its brackets form one
      balanced, kind-matched outermost pair, with colons only directly inside objects. */
  lemma AcceptedIsGroup(ts: seq<Token>)
    requires ts != []
    ensures (Fold(ts).Some? && Fold(ts).value.top.None?) <==> Group(ts)
  {
    FoldIsStack(ts);
    if Fold(ts).Some? {
      OpenedIsEmpty(Fold(ts).value);
    }
    if ts[0].Open? && Stack([ts[0].curly], ts[1..]) == Some([]) {
      var j := FindClose([ts[0].curly], ts[1..]);
      assert ts[1..][j + 1..] == [];
      assert ts[1..|ts| - 1] == ts[1..][..j];
    }
    if Group(ts) {
      GroupInside(ts, [ts[0].curly], []);
    }
  }
}
