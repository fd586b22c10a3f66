/** Parsing what JsonPrint writes gives back the value, node by node. */
module JsonRoundTrip {
  import opened Options
  import opened JsonStrings
  import opened JsonText
  import opened JsonDoc
  import opened JsonTree
  import opened JsonAccept
  import opened JsonTokens
  import opened JsonPrint
  import JsonHeap
  import JsonParser

  // ----- the value itself, as a list of entries in document order

  datatype Content =
    | AnObject | AnArray | ANull | ABool(b: bool) | AnInt(number: int) | AFloat | AString(bytes: seq<Byte>)

  datatype Entry = Entry(parent: Option<nat>, name: Option<seq<Byte>>, content: Content)

  function NameBytes(name: Option<Name>): Option<seq<Byte>> {
    if name.Some? then Some(name.value.quoted.bytes) else None
  }

  function ContentOf(v: Value): Content {
    match v
    case Container(curly, _, _, _) => if curly then AnObject else AnArray
    case String(q, _) => AString(q.bytes)
    case Integer(minus, magnitude, _) => AnInt(Signed(minus, magnitude))
    case Real(_, _) => AFloat
    case Truth(b, _) => ABool(b)
    case Nothing(_) => ANull
  }

  /** The entries of a value that stands at position k. */
  function Entries(v: Value, parent: Option<nat>, name: Option<seq<Byte>>, k: nat): seq<Entry>
    decreases v, 1
  {
    [Entry(parent, name, ContentOf(v))] + (if v.Container? then ItemEntries(v.items, k, k + 1) else [])
  }

  function ItemEntries(items: Items, parent: nat, k: nat): seq<Entry>
    decreases items, 0
  {
    match items
    case Nil => []
    case Item(name, value, _, rest) =>
      var es := Entries(value, Some(parent), NameBytes(name), k);
      es + ItemEntries(rest, parent, k + |es|)
  }

  /** A node without the places of its strings in the buffer. */
  function Bare(n: Node): Entry {
    Entry(n.parent, if n.name.Some? then Some(n.name.value.bytes) else None,
          match n.kind
          case Object => AnObject
          case Array => AnArray
          case NullValue => ANull
          case BoolValue(b) => ABool(b)
          case IntValue(number) => AnInt(number)
          case FloatValue => AFloat
          case StringValue(text) => AString(text.bytes))
  }

  function BareNodes(nodes: seq<Node>): (es: seq<Entry>)
    ensures |es| == |nodes|
  {
    seq(|nodes|, i requires 0 <= i < |nodes| => Bare(nodes[i]))
  }

  // ----- what a value adds to the document

  /** Only the nodes of these entries are new. */
  ghost predicate Grew(d: Doc, e: Doc, es: seq<Entry>) {
    e.top == d.top && e.name == None && BareNodes(e.nodes) == BareNodes(d.nodes) + es
  }

  ghost function NameIn(d: Doc): Option<seq<Byte>> {
    if d.name.Some? then Some(d.name.value.bytes) else None
  }

  lemma BareAppend(nodes: seq<Node>, n: Node)
    ensures BareNodes(nodes + [n]) == BareNodes(nodes) + [Bare(n)]
  {
  }

  /** A string here would be a value, not a name. */
  ghost predicate TakesValue(d: Doc, v: Value)
    requires Valid(d)
  {
    d.top.Some? && (v.String? ==> d.name.Some? || !d.nodes[d.top.value].kind.Object?)
  }

  lemma ScalarStep(d: Doc, v: Value, i: nat) returns (e: Doc)
    requires Valid(d) && !v.Container? && TakesValue(d, v)
    ensures Step(d, TokenOf(v, i)) == Some(e)
    ensures Grew(d, e, Entries(v, d.top, NameIn(d), |d.nodes|))
  {
    e := Step(d, TokenOf(v, i)).value;
    BareAppend(d.nodes, e.nodes[|d.nodes|]);
  }

  function Bracket(curly: bool): Kind {
    if curly then Object else Array
  }

  /** The document with a container just opened. */
  function Begun(d: Doc, curly: bool): Doc {
    Doc(d.nodes + [Node(d.top, d.name, Bracket(curly))], Some(|d.nodes|), None)
  }

  lemma OpenStep(d: Doc, curly: bool, e: Doc)
    requires Valid(d) && (d.top.Some? || d.nodes == [])
    requires e == Begun(d, curly)
    ensures Valid(e) && Step(d, Open(curly)) == Some(e)
    ensures BareNodes(e.nodes) == BareNodes(d.nodes) + [Entry(d.top, NameIn(d), if curly then AnObject else AnArray)]
  {
    BareAppend(d.nodes, Node(d.top, d.name, Bracket(curly)));
  }

  /** Entries tell parent and kind of a node. */
  lemma BareTells(nodes: seq<Node>, more: seq<Node>, es: seq<Entry>, k: nat)
    requires BareNodes(more) == BareNodes(nodes) + es && k < |nodes|
    ensures k < |more| && more[k].parent == nodes[k].parent && (more[k].kind == Object <==> nodes[k].kind == Object)
            && (more[k].kind == Array <==> nodes[k].kind == Array)
  {
    assert |BareNodes(more)| == |BareNodes(nodes)| + |es|;
    assert BareNodes(more)[k] == BareNodes(nodes)[k];
    assert Bare(more[k]) == Bare(nodes[k]);
  }

  /** The closing bracket of a container that has been opened in d and has grown to f. */
  lemma CloseStep(d: Doc, curly: bool, o: Doc, f: Doc, es: seq<Entry>) returns (e: Doc)
    requires Valid(d) && Valid(o) && Valid(f)
    requires o == Begun(d, curly) && Grew(o, f, es)
    ensures Step(f, Close(curly)) == Some(e) && Valid(e)
    ensures e.top == d.top && e.name == None && BareNodes(e.nodes) == BareNodes(o.nodes) + es
  {
    BareTells(o.nodes, f.nodes, es, |d.nodes|);
    e := f.(top := f.nodes[|d.nodes|].parent);
  }

  lemma GrewTwice(d: Doc, e: Doc, f: Doc, a: seq<Entry>, b: seq<Entry>)
    requires BareNodes(e.nodes) == BareNodes(d.nodes) + a && BareNodes(f.nodes) == BareNodes(e.nodes) + b
    ensures BareNodes(f.nodes) == BareNodes(d.nodes) + (a + b)
    ensures |e.nodes| == |d.nodes| + |a| && |f.nodes| == |e.nodes| + |b|
  {
    assert |BareNodes(e.nodes)| == |BareNodes(d.nodes)| + |a|;
    assert |BareNodes(f.nodes)| == |BareNodes(e.nodes)| + |b|;
  }

  lemma GrewKeepsTop(d: Doc, f: Doc, es: seq<Entry>, curly: bool)
    requires Valid(d) && Valid(f) && d.top.Some? && d.nodes[d.top.value].kind == Bracket(curly) && Grew(d, f, es)
    ensures f.nodes[f.top.value].kind == Bracket(curly) && |f.nodes| == |d.nodes| + |es|
  {
    BareTells(d.nodes, f.nodes, es, d.top.value);
    assert |BareNodes(f.nodes)| == |BareNodes(d.nodes)| + |es|;
  }

  /** A value may stand next: names are waiting in objects and only there. */
  lemma NamedTakesValue(d: Doc, name: Option<Name>, curly: bool, v: Value)
    requires Valid(d) && d.top.Some? && d.nodes[d.top.value].kind == Bracket(curly)
    requires GoodName(name, curly) && NameIn(d) == NameBytes(name)
    ensures TakesValue(d, v)
  {
  }

  lemma NameStep(d: Doc, at: nat, bytes: seq<Byte>)
    requires Valid(d) && d.top.Some? && d.nodes[d.top.value].kind.Object? && d.name.None?
    ensures Step(d, Str(at, bytes)) == Some(d.(name := Some(Text(at, bytes))))
  {
  }

  // ----- the steps over these tokens

  ghost function Steps(d: Doc, ts: seq<Token>): (r: Option<Doc>)
    requires Valid(d)
    ensures r.Some? ==> Valid(r.value)
    decreases |ts|
  {
    if ts == [] then Some(d)
    else match Step(d, ts[0]) case None => None case Some(e) => Steps(e, ts[1..])
  }

  lemma {:induction false} StepsJoin(d: Doc, a: seq<Token>, b: seq<Token>)
    requires Valid(d)
    ensures Steps(d, a + b) == match Steps(d, a) case None => None case Some(e) => Steps(e, b)
    decreases |a|
  {
    if a == [] {
      assert a + b == b;
    } else {
      assert (a + b)[0] == a[0] && (a + b)[1..] == a[1..] + b;
      match Step(d, a[0])
      case None =>
      case Some(e) => StepsJoin(e, a[1..], b);
    }
  }

  lemma StepsOne(d: Doc, t: Token)
    requires Valid(d)
    ensures Steps(d, [t]) == Step(d, t)
  {
    assert [t][1..] == [];
  }

  lemma StepsThree(d: Doc, a: seq<Token>, e: Doc, b: seq<Token>, f: Doc, c: seq<Token>, g: Doc)
    requires Valid(d) && Steps(d, a) == Some(e) && Valid(e) && Steps(e, b) == Some(f) && Valid(f) && Steps(f, c) == Some(g)
    ensures Steps(d, a + (b + c)) == Some(g)
  {
    StepsJoin(d, a, b + c);
    StepsJoin(e, b, c);
  }

  lemma {:induction false} FoldIsSteps(ts: seq<Token>)
    ensures Fold(ts) == Steps(EMPTY, ts)
  {
    if ts != [] {
      var front, last := ts[..|ts| - 1], ts[|ts| - 1];
      FoldIsSteps(front);
      StepsJoin(EMPTY, front, [last]);
      assert front + [last] == ts;
      if Fold(front).Some? {
        StepsOne(Fold(front).value, last);
      }
    }
  }

  lemma NameSteps(d: Doc, name: Option<Name>, i: nat, curly: bool) returns (e: Doc)
    requires Valid(d) && GoodName(name, curly)
    requires d.top.Some? && d.nodes[d.top.value].kind == Bracket(curly) && d.name.None?
    ensures Steps(d, NameTokens(name, i)) == Some(e) && Valid(e)
    ensures e.nodes == d.nodes && e.top == d.top && NameIn(e) == NameBytes(name)
  {
    e := d;
    if name.Some? {
      var t := Str(i + 1, name.value.quoted.bytes);
      e := d.(name := Some(Text(t.at, t.bytes)));
      NameStep(d, t.at, t.bytes);
      StepsOne(d, t);
      StepsOne(e, Colon);
      StepsJoin(d, [t], [Colon]);
      assert [t] + [Colon] == NameTokens(name, i);
    }
  }

  lemma ContainerTokensAre(v: Value, i: nat, p: nat)
    requires v.Container? && p == i + |Opening(v)|
    ensures Tokens(v, i) == [Open(v.curly)] + (ItemTokens(v.items, p) + [Close(v.curly)])
  {
  }

  lemma ContainerGrew(d: Doc, e: Doc, v: Value, es: seq<Entry>)
    requires v.Container? && es == ItemEntries(v.items, |d.nodes|, |d.nodes| + 1)
    requires BareNodes(e.nodes) == BareNodes(Begun(d, v.curly).nodes) + es
    ensures BareNodes(e.nodes) == BareNodes(d.nodes) + Entries(v, d.top, NameIn(d), |d.nodes|)
  {
    BareAppend(d.nodes, Node(d.top, d.name, Bracket(v.curly)));
    GrewTwice(d, Begun(d, v.curly), e, [Entry(d.top, NameIn(d), ContentOf(v))], es);
  }

  lemma {:induction false} ContainerSteps(d: Doc, v: Value, i: nat) returns (e: Doc)
    requires Valid(d) && v.Container? && Proper(v) && (d.top.Some? || d.nodes == [])
    ensures Steps(d, Tokens(v, i)) == Some(e) && Grew(d, e, Entries(v, d.top, NameIn(d), |d.nodes|))
    decreases v, 0
  {
    var o, p := Begun(d, v.curly), i + |Opening(v)|;
    var es := ItemEntries(v.items, |d.nodes|, |d.nodes| + 1);
    OpenStep(d, v.curly, o);
    var f := ItemsSteps(o, v.items, p, v.curly);
    e := CloseStep(d, v.curly, o, f, es);
    StepsOne(d, Open(v.curly));
    StepsOne(f, Close(v.curly));
    ContainerTokensAre(v, i, p);
    StepsThree(d, [Open(v.curly)], o, ItemTokens(v.items, p), f, [Close(v.curly)], e);
    ContainerGrew(d, e, v, es);
  }

  lemma {:induction false} ValueSteps(d: Doc, v: Value, i: nat) returns (e: Doc)
    requires Valid(d) && Proper(v) && TakesValue(d, v)
    ensures Steps(d, Tokens(v, i)) == Some(e) && Grew(d, e, Entries(v, d.top, NameIn(d), |d.nodes|))
    decreases v, 1
  {
    if v.Container? {
      e := ContainerSteps(d, v, i);
    } else {
      e := ScalarStep(d, v, i);
      StepsOne(d, TokenOf(v, i));
    }
  }

  /** The name and value of the first item. */
  lemma {:induction false} ItemSteps(d: Doc, items: Items, i: nat, p: nat, curly: bool) returns (n: Doc, e: Doc)
    requires Valid(d) && items.Item? && GoodName(items.name, curly) && Proper(items.value)
    requires d.top.Some? && d.nodes[d.top.value].kind == Bracket(curly) && d.name.None?
    ensures Steps(d, NameTokens(items.name, i)) == Some(n) && Valid(n) && Steps(n, Tokens(items.value, p)) == Some(e)
    ensures Valid(e) && Grew(d, e, Entries(items.value, d.top, NameBytes(items.name), |d.nodes|))
    decreases items, 2
  {
    n := NameSteps(d, items.name, i, curly);
    NamedTakesValue(n, items.name, curly, items.value);
    e := ValueSteps(n, items.value, p);
  }

  lemma ItemsGrew(d: Doc, f: Doc, e: Doc, items: Items)
    requires Valid(d) && Valid(f) && items.Item? && d.top.Some?
    requires Grew(d, f, Entries(items.value, d.top, NameBytes(items.name), |d.nodes|))
    requires Grew(f, e, ItemEntries(items.rest, d.top.value, |f.nodes|))
    ensures Grew(d, e, ItemEntries(items, d.top.value, |d.nodes|))
  {
    var es := Entries(items.value, d.top, NameBytes(items.name), |d.nodes|);
    GrewTwice(d, f, e, es, ItemEntries(items.rest, d.top.value, |f.nodes|));
  }

  lemma ItemTokensUnfold(items: Items, i: nat)
    requires items.Item?
    ensures var p := i + |PrintName(items.name)|;
            var q := p + |PrintValue(items.value)|;
            ItemTokens(items, i) == NameTokens(items.name, i) + (Tokens(items.value, p) + TailTokens(items, q))
  {
  }

  lemma ItemTokensAre(items: Items, i: nat, p: nat, q: nat)
    requires items.Item? && p == i + |PrintName(items.name)| && q == p + |PrintValue(items.value)|
    ensures ItemTokens(items, i) == NameTokens(items.name, i) + (Tokens(items.value, p) + TailTokens(items, q))
  {
    ItemTokensUnfold(items, i);
  }

  lemma {:induction false} ItemsSteps(d: Doc, items: Items, i: nat, curly: bool) returns (e: Doc)
    requires Valid(d) && ProperItems(items, curly)
    requires d.top.Some? && d.nodes[d.top.value].kind == Bracket(curly) && d.name.None?
    ensures Steps(d, ItemTokens(items, i)) == Some(e) && Valid(e)
    ensures Grew(d, e, ItemEntries(items, d.top.value, |d.nodes|))
    decreases items, 3
  {
    e := d;
    if items.Nil? {
      assert BareNodes(d.nodes) + [] == BareNodes(d.nodes);
    } else {
      var p := i + |PrintName(items.name)|;
      var q := p + |PrintValue(items.value)|;
      var es := Entries(items.value, d.top, NameBytes(items.name), |d.nodes|);
      var n, f := ItemSteps(d, items, i, p, curly);
      GrewKeepsTop(d, f, es, curly);
      e := TailSteps(f, items, q, curly);
      ItemTokensAre(items, i, p, q);
      StepsThree(d, NameTokens(items.name, i), n, Tokens(items.value, p), f, TailTokens(items, q), e);
      ItemsGrew(d, f, e, items);
    }
  }

  /** A comma inside a container changes nothing. */
  lemma CommaSteps(d: Doc, tail: seq<Token>, ts: seq<Token>)
    requires Valid(d) && d.top.Some? && (tail == ts || tail == [Comma] + ts)
    ensures Steps(d, tail) == Steps(d, ts)
  {
    if tail == [Comma] + ts {
      StepsOne(d, Comma);
      StepsJoin(d, [Comma], ts);
    }
  }

  lemma TailTokensAre(items: Items, q: nat, k: nat)
    requires items.Item? && k == q + 1 + |items.comma|
    ensures var ts := ItemTokens(items.rest, k);
            TailTokens(items, q) == ts || TailTokens(items, q) == [Comma] + ts
  {
  }

  lemma {:induction false} TailSteps(d: Doc, items: Items, q: nat, curly: bool) returns (e: Doc)
    requires Valid(d) && items.Item? && ProperItems(items.rest, curly)
    requires d.top.Some? && d.nodes[d.top.value].kind == Bracket(curly) && d.name.None?
    ensures Steps(d, TailTokens(items, q)) == Some(e) && Valid(e)
    ensures Grew(d, e, ItemEntries(items.rest, d.top.value, |d.nodes|))
    decreases items, 0
  {
    var k := q + 1 + |items.comma|;
    e := ItemsSteps(d, items.rest, k, curly);
    TailTokensAre(items, q, k);
    CommaSteps(d, TailTokens(items, q), ItemTokens(items.rest, k));
  }

  // ----- whole texts

  /** What is read up to the end of the text is written there. */
  lemma {:induction false} ReadsIsWritten(r: Reach, s: seq<Byte>, i: nat, ts: seq<Token>, j: nat)
    requires Reads(r, i, ts, j) && At(s, j) == 0 && forall k, t, l :: r(k, t, l) ==> Stands(s, k, t, l)
    ensures Consists(s, i, ts)
    decreases |ts|
  {
    if ts != [] {
      var k: nat :| r(i, ts[0], k) && Reads(r, k, ts[1..], j);
      ReadsIsWritten(r, s, k, ts[1..], j);
      var n: nat :| Spelled(s, i, n, ts[0]) && BlanksTo(s, n, k);
      assert ConsistsFrom(s, n, k, ts);
    }
  }

  lemma PrintedIsWritten(s: seq<Byte>, v: Value)
    requires Proper(v) && v.Container? && Holds(s, 0, PrintValue(v)) && At(s, |PrintValue(v)|) == 0
    ensures Consists(s, 0, Tokens(v, 0))
  {
    var r: Reach := (i: nat, t: Token, j: nat) => Stands(s, i, t, j);
    ContainerReads(r, s, 0, v, |PrintValue(v)|);
    ReadsIsWritten(r, s, 0, Tokens(v, 0), |PrintValue(v)|);
  }

  /** A printed container is parsed to exactly its entries, whatever stands behind the NUL
      that ends the text. */
  lemma PrintedParses(s: seq<Byte>, v: Value)
    requires Proper(v) && v.Container? && Holds(s, 0, PrintValue(v)) && At(s, |PrintValue(v)|) == 0
    ensures Parse(s) == Done(Tokens(v, 0)) && Fold(Tokens(v, 0)).Some?
    ensures BareNodes(Fold(Tokens(v, 0)).value.nodes) == Entries(v, None, None, 0)
  {
    var ts := Tokens(v, 0);
    PrintedIsWritten(s, v);
    LexesExactly(s, 0, ts);
    var e := ContainerSteps(EMPTY, v, 0);
    FoldIsSteps(ts);
    assert [] + ts == ts;
    ParseComplete(s, 0, [], ts);
    assert BareNodes(EMPTY.nodes) + Entries(v, None, None, 0) == Entries(v, None, None, 0);
  }

  // ----- the tree that the links make up

  /** Node k and the nodes below it are this value: its kind and value, and, along its children
      in the order of the sibling links, the names and values of its items. */
  ghost predicate Depicts(nodes: seq<Node>, k: nat, v: Value)
    decreases v, 1
  {
    && k < |nodes| && Bare(nodes[k]).content == ContentOf(v)
    && if v.Container? then DepictsItems(nodes, Children(nodes, k), v.items) else Children(nodes, k) == []
  }

  ghost predicate DepictsItems(nodes: seq<Node>, ks: seq<nat>, items: Items)
    decreases items, 0
  {
    match items
    case Nil => ks == []
    case Item(name, value, _, rest) =>
      && ks != [] && ks[0] < |nodes| && Bare(nodes[ks[0]]).name == NameBytes(name)
      && Depicts(nodes, ks[0], value) && DepictsItems(nodes, ks[1..], rest)
  }

  /** How many entries a value has. */
  function Count(v: Value): nat
    decreases v, 1
  {
    1 + if v.Container? then CountItems(v.items) else 0
  }

  function CountItems(items: Items): nat
    decreases items, 0
  {
    if items.Nil? then 0 else Count(items.value) + CountItems(items.rest)
  }

  /** Where the values of items start when the first starts at k. */
  function Starts(items: Items, k: nat): seq<nat> {
    if items.Nil? then [] else [k] + Starts(items.rest, k + Count(items.value))
  }

  lemma {:induction false} EntriesCount(v: Value, parent: Option<nat>, name: Option<seq<Byte>>, k: nat)
    ensures |Entries(v, parent, name, k)| == Count(v)
    decreases v, 1
  {
    if v.Container? {
      ItemsCount(v.items, k, k + 1);
    }
  }

  lemma {:induction false} ItemsCount(items: Items, parent: nat, k: nat)
    ensures |ItemEntries(items, parent, k)| == CountItems(items)
    decreases items, 0
  {
    if items.Item? {
      EntriesCount(items.value, Some(parent), NameBytes(items.name), k);
      ItemsCount(items.rest, parent, k + Count(items.value));
    }
  }

  /** The nodes from k on have these entries. */
  ghost predicate Segment(nodes: seq<Node>, k: nat, es: seq<Entry>) {
    k + |es| <= |nodes| && forall j :: 0 <= j < |es| ==> Bare(nodes[k + j]) == es[j]
  }

  lemma SegmentSplit(nodes: seq<Node>, k: nat, a: seq<Entry>, b: seq<Entry>)
    requires Segment(nodes, k, a + b)
    ensures Segment(nodes, k, a) && Segment(nodes, k + |a|, b)
  {
    assert forall j :: 0 <= j < |a| ==> (a + b)[j] == a[j];
    forall j | 0 <= j < |b| ensures Bare(nodes[k + |a| + j]) == b[j] {
      assert (a + b)[|a| + j] == b[j];
      assert Bare(nodes[k + (|a| + j)]) == (a + b)[|a| + j];
    }
  }

  /** A node from lo to hi whose parent is not in between has one of these positions. */
  ghost predicate ParentsAt(nodes: seq<Node>, lo: nat, hi: nat, parent: nat, starts: seq<nat>) {
    hi <= |nodes| && forall j :: lo <= j < hi ==> ParentAt(nodes, lo, j, parent, j in starts)
  }

  ghost predicate ParentAt(nodes: seq<Node>, lo: nat, j: nat, parent: nat, start: bool)
    requires j < |nodes|
  {
    nodes[j].parent.Some? && if start then nodes[j].parent.value == parent else lo <= nodes[j].parent.value < j
  }

  /** Below a value's first node every parent is inside the value. */
  lemma {:induction false} ValueParents(nodes: seq<Node>, k: nat, v: Value, parent: Option<nat>, name: Option<seq<Byte>>)
    requires Segment(nodes, k, Entries(v, parent, name, k))
    ensures k + Count(v) <= |nodes| && nodes[k].parent == parent
    ensures forall j :: k < j < k + Count(v) ==> nodes[j].parent.Some? && k <= nodes[j].parent.value < j
    decreases v, 1
  {
    EntriesCount(v, parent, name, k);
    if v.Container? {
      ContainerSplit(nodes, k, v, parent, name);
      ItemParents(nodes, k + 1, v.items, k);
      forall j | k < j < k + Count(v) ensures nodes[j].parent.Some? && k <= nodes[j].parent.value < j {
        assert ParentAt(nodes, k + 1, j, k, j in Starts(v.items, k + 1));
      }
    } else {
      SegmentFirst(nodes, k, Entry(parent, name, ContentOf(v)), []);
    }
  }

  lemma {:induction false} ItemParents(nodes: seq<Node>, k: nat, items: Items, parent: nat)
    requires Segment(nodes, k, ItemEntries(items, parent, k)) && parent < k
    ensures ParentsAt(nodes, k, k + CountItems(items), parent, Starts(items, k))
    ensures forall i :: i in Starts(items, k) ==> k <= i < k + CountItems(items)
    decreases items, 0
  {
    if items.Item? {
      var es, n := Entries(items.value, Some(parent), NameBytes(items.name), k), Count(items.value);
      var more := ItemEntries(items.rest, parent, k + |es|);
      EntriesCount(items.value, Some(parent), NameBytes(items.name), k);
      SegmentSplit(nodes, k, es, more);
      ValueParents(nodes, k, items.value, Some(parent), NameBytes(items.name));
      ItemParents(nodes, k + n, items.rest, parent);
      var starts := Starts(items, k);
      forall j | k <= j < k + CountItems(items) ensures ParentAt(nodes, k, j, parent, j in starts) {
        if j >= k + n {
          assert ParentAt(nodes, k + n, j, parent, j in Starts(items.rest, k + n));
        }
      }
    }
  }

  lemma {:induction false} StartsAscend(items: Items, k: nat)
    ensures Ascend(Starts(items, k)) && forall i :: i in Starts(items, k) ==> i >= k
    decreases items
  {
    if items.Item? {
      var n := Count(items.value);
      StartsAscend(items.rest, k + n);
      var rest := Starts(items.rest, k + n);
      forall i, j | 0 <= i < j < |Starts(items, k)| ensures Starts(items, k)[i] < Starts(items, k)[j] {
        assert rest[j - 1] in rest;
      }
    }
  }

  ghost predicate Ascend(s: seq<nat>) {
    forall i, j :: 0 <= i < j < |s| ==> s[i] < s[j]
  }

  lemma SomeMember(b: seq<nat>)
    requires b != []
    ensures exists x :: x in b
  {
    assert b[0] in b;
  }

  /** Ascending sequences of the same numbers are equal. */
  lemma {:induction false} AscendingIsUnique(a: seq<nat>, b: seq<nat>)
    requires Ascend(a) && Ascend(b) && forall x :: x in a <==> x in b
    ensures a == b
    decreases |a|
  {
    if a == [] {
      if b != [] {
        SomeMember(b);
      }
    } else {
      assert a[0] in a && a[0] in b;
      assert b[0] in b && b[0] in a;
      assert a[0] == b[0];
      forall x ensures x in a[1..] <==> x in b[1..] {
        InRest(a, x);
        InRest(b, x);
      }
      AscendingIsUnique(a[1..], b[1..]);
      assert a == [a[0]] + a[1..] && b == [b[0]] + b[1..];
    }
  }

  lemma InRest(a: seq<nat>, x: nat)
    requires Ascend(a) && a != []
    ensures x in a[1..] <==> x in a && x != a[0]
  {
    assert a == [a[0]] + a[1..];
  }

  /** Nodes outside of k..end have no parent in there. */
  ghost predicate Apart(nodes: seq<Node>, k: nat, end: nat) {
    forall j :: 0 <= j < |nodes| && !(k < j < end) ==> !(nodes[j].parent.Some? && k <= nodes[j].parent.value < end)
  }

  lemma SegmentFirst(nodes: seq<Node>, k: nat, first: Entry, es: seq<Entry>)
    requires Segment(nodes, k, [first] + es)
    ensures k < |nodes| && Bare(nodes[k]) == first && Segment(nodes, k + 1, es)
  {
    SegmentSplit(nodes, k, [first], es);
    assert Bare(nodes[k + 0]) == [first][0];
  }

  lemma ContainerSplit(nodes: seq<Node>, k: nat, v: Value, parent: Option<nat>, name: Option<seq<Byte>>)
    requires v.Container? && Segment(nodes, k, Entries(v, parent, name, k))
    ensures k < |nodes| && Bare(nodes[k]) == Entry(parent, name, ContentOf(v))
    ensures Segment(nodes, k + 1, ItemEntries(v.items, k, k + 1))
  {
    SegmentFirst(nodes, k, Entry(parent, name, ContentOf(v)), ItemEntries(v.items, k, k + 1));
  }

  /** The children of a container are where its items start. */
  lemma ChildrenAreStarts(nodes: seq<Node>, k: nat, items: Items)
    requires Segment(nodes, k + 1, ItemEntries(items, k, k + 1)) && Apart(nodes, k, k + 1 + CountItems(items))
    ensures Children(nodes, k) == Starts(items, k + 1)
  {
    var starts := Starts(items, k + 1);
    ItemParents(nodes, k + 1, items, k);
    ChildrenAscend(nodes, k);
    StartsAscend(items, k + 1);
    forall j: nat ensures j in Children(nodes, k) <==> j in starts {
      ChildIsStart(nodes, k, k + 1 + CountItems(items), starts, j);
    }
    AscendingIsUnique(Children(nodes, k), starts);
  }

  lemma ChildIsStart(nodes: seq<Node>, k: nat, end: nat, starts: seq<nat>, j: nat)
    requires k < end <= |nodes| && ParentsAt(nodes, k + 1, end, k, starts) && Apart(nodes, k, end)
    requires forall i :: i in starts ==> k < i < end
    ensures j < |nodes| && nodes[j].parent == Some(k) <==> j in starts
  {
    if k < j < end {
      assert ParentAt(nodes, k + 1, j, k, j in starts);
    }
  }

  lemma {:induction false} SegmentDepicts(nodes: seq<Node>, k: nat, v: Value, parent: Option<nat>, name: Option<seq<Byte>>)
    requires Segment(nodes, k, Entries(v, parent, name, k)) && Apart(nodes, k, k + Count(v))
    ensures Depicts(nodes, k, v) && Bare(nodes[k]).name == name
    decreases v, 1
  {
    EntriesCount(v, parent, name, k);
    if v.Container? {
      ContainerSplit(nodes, k, v, parent, name);
      ItemsCount(v.items, k, k + 1);
      ChildrenAreStarts(nodes, k, v.items);
      ItemsDepicted(nodes, k, k + 1, v.items, k + Count(v));
    } else {
      SegmentFirst(nodes, k, Entry(parent, name, ContentOf(v)), []);
      ChildrenAscend(nodes, k);
      if Children(nodes, k) != [] {
        SomeMember(Children(nodes, k));
      }
    }
  }

  /** Every node between a container and k is inside the container. */
  ghost predicate InsideUpTo(nodes: seq<Node>, parent: nat, k: nat) {
    k <= |nodes| && forall j :: parent < j < k ==> nodes[j].parent.Some? && parent <= nodes[j].parent.value < j
  }

  lemma InsideMore(nodes: seq<Node>, parent: nat, k: nat, v: Value, name: Option<seq<Byte>>)
    requires InsideUpTo(nodes, parent, k) && parent < k && Segment(nodes, k, Entries(v, Some(parent), name, k))
    ensures InsideUpTo(nodes, parent, k + Count(v)) && nodes[k].parent == Some(parent)
  {
    ValueParents(nodes, k, v, Some(parent), name);
  }

  /** Items that end where their container ends. */
  lemma {:induction false} ItemsDepicted(nodes: seq<Node>, parent: nat, k: nat, items: Items, end: nat)
    requires Segment(nodes, k, ItemEntries(items, parent, k)) && parent < k && end == k + CountItems(items)
    requires Apart(nodes, parent, end) && InsideUpTo(nodes, parent, k)
    ensures DepictsItems(nodes, Starts(items, k), items)
    decreases items, 0
  {
    if items.Item? {
      var name, n := NameBytes(items.name), Count(items.value);
      ItemsSplit(nodes, k, items, parent);
      InsideMore(nodes, parent, k, items.value, name);
      ItemParents(nodes, k + n, items.rest, parent);
      ValueApart(nodes, parent, k, k + n, end, Starts(items.rest, k + n));
      SegmentDepicts(nodes, k, items.value, Some(parent), name);
      ItemsDepicted(nodes, parent, k + n, items.rest, end);
      assert Starts(items, k)[1..] == Starts(items.rest, k + n);
    }
  }

  lemma ItemsSplit(nodes: seq<Node>, k: nat, items: Items, parent: nat)
    requires items.Item? && Segment(nodes, k, ItemEntries(items, parent, k))
    ensures Segment(nodes, k, Entries(items.value, Some(parent), NameBytes(items.name), k))
    ensures Segment(nodes, k + Count(items.value), ItemEntries(items.rest, parent, k + Count(items.value)))
    ensures k + CountItems(items) <= |nodes|
  {
    var es := Entries(items.value, Some(parent), NameBytes(items.name), k);
    EntriesCount(items.value, Some(parent), NameBytes(items.name), k);
    ItemsCount(items.rest, parent, k + Count(items.value));
    SegmentSplit(nodes, k, es, ItemEntries(items.rest, parent, k + Count(items.value)));
  }

  lemma ValueApart(nodes: seq<Node>, parent: nat, k: nat, next: nat, end: nat, starts: seq<nat>)
    requires parent < k < next <= end <= |nodes| && Apart(nodes, parent, end) && nodes[k].parent == Some(parent)
    requires InsideUpTo(nodes, parent, k) && ParentsAt(nodes, next, end, parent, starts)
    ensures Apart(nodes, k, next)
  {
    forall j | 0 <= j < |nodes| && !(k < j < next)
      ensures !(nodes[j].parent.Some? && k <= nodes[j].parent.value < next)
    {
      if next <= j < end {
        assert ParentAt(nodes, next, j, parent, j in starts);
      }
    }
  }

  /** A printed container is parsed to a tree that is this value: along the first-child and
      sibling links stand all its items, in order, with their names and values. */
  lemma PrintedIsDepicted(s: seq<Byte>, v: Value)
    requires Proper(v) && v.Container? && Holds(s, 0, PrintValue(v)) && At(s, |PrintValue(v)|) == 0
    ensures Parse(s) == Done(Tokens(v, 0)) && Fold(Tokens(v, 0)).Some?
    ensures var nodes := Fold(Tokens(v, 0)).value.nodes; |nodes| == Count(v) && Depicts(nodes, 0, v)
  {
    PrintedParses(s, v);
    var nodes := Fold(Tokens(v, 0)).value.nodes;
    EntriesCount(v, None, None, 0);
    assert |BareNodes(nodes)| == |nodes|;
    forall j | 0 <= j < |nodes| ensures Bare(nodes[0 + j]) == Entries(v, None, None, 0)[j] {
      assert BareNodes(nodes)[j] == Bare(nodes[j]);
    }
    assert Segment(nodes, 0, Entries(v, None, None, 0));
    ValueParents(nodes, 0, v, None, None);
    SegmentDepicts(nodes, 0, v, None, None);
  }

  /** So JsonParse succeeds on it, and its objects are linked as that tree. */
  lemma PrintedSucceeds(text: seq<Byte>, buf: seq<Byte>, status: JsonParser.Status, root: JsonHeap.JsonValue?,
                        order: seq<JsonHeap.JsonValue>, v: Value)
    requires JsonParser.Result(text, buf, status, root, order)
    requires Proper(v) && v.Container? && Holds(text, 0, PrintValue(v)) && At(text, |PrintValue(v)|) == 0
    ensures status == JsonParser.Success && |order| == Count(v) && root == order[0]
    ensures exists nodes :: JsonHeap.Shape(order, nodes) && Depicts(nodes, 0, v)
  {
    PrintedIsDepicted(text, v);
    var nodes := Fold(Tokens(v, 0)).value.nodes;
    assert JsonHeap.Shape(order, nodes) && Depicts(nodes, 0, v);
  }

  // ----- texts that are refused

  /** Only a bracket can start a document; the empty text is none. */
  lemma OnlyBracketsStart(s: seq<Byte>)
    requires At(s, 0) != 0 && At(s, 0) != 0x7B && At(s, 0) != 0x5B
    ensures Parse(s) == Failed
  {
    JsonParser.OnlyOpenWithoutTop(s, 0, [], EMPTY);
  }

  /** Unlike RFC 8259, the parser refuses a scalar as a whole text, and blanks in front. */
  lemma ScalarRootIsRefused(s: seq<Byte>, v: Value)
    requires Proper(v) && !v.Container? && Holds(s, 0, PrintValue(v))
    ensures Parse(s) == Failed
  {
    ValueStarts(v);
    HoldsSplit(s, 0, PrintScalar(v), v.after);
    ScalarStarts(v);
    FirstOfHeld(s, 0, PrintScalar(v));
    OnlyBracketsStart(s);
  }

  lemma ScalarStarts(v: Value)
    requires Proper(v) && !v.Container?
    ensures PrintScalar(v) != [] && PrintScalar(v)[0] != 0 && PrintScalar(v)[0] != 0x7B && PrintScalar(v)[0] != 0x5B
  {
    if v.Integer? {
      DigitsValue(v.magnitude);
    }
  }

  lemma LeadingBlankIsRefused(s: seq<Byte>, w: Blanks, v: Value)
    requires Proper(v) && AllBlank(w) && Holds(s, 0, w + PrintValue(v)) && (v.Container? ==> At(s, |w + PrintValue(v)|) == 0)
    ensures Parse(s).Done? <==> w == [] && v.Container?
  {
    HoldsSplit(s, 0, w, PrintValue(v));
    if w != [] {
      FirstOfHeld(s, 0, w);
      OnlyBracketsStart(s);
    } else if v.Container? {
      PrintedParses(s, v);
    } else {
      ScalarRootIsRefused(s, v);
    }
  }
}
