/** The parser loop of core/common/json_parser.cpp over a mutable buffer and linked nodes. */
module JsonParser {
  import opened Options
  import opened JsonStrings
  import opened JsonText
  import opened JsonDoc
  import opened JsonTree
  import opened JsonHeap

  // ----- numbers and white space

  method SkipSpaceLoop(buf: array<Byte>, ghost text: seq<Byte>, it0: nat) returns (it: nat)
    requires it0 < buf.Length && EndsInNul(text) && Unread(buf[..], text, it0)
    ensures it0 <= it < buf.Length && it == SkipSpace(text, it0)
  {
    it := it0;
    while IsSpace(buf[it])
      invariant it0 <= it < buf.Length && SkipSpace(text, it0) == SkipSpace(text, it)
      decreases buf.Length - it
    {
      it := it + 1;
    }
  }

  method Atoi(buf: array<Byte>, ghost text: seq<Byte>, first: nat, last: nat) returns (p: nat, out: int)
    requires first <= last <= buf.Length && Unread(buf[..], text, first)
    ensures p == DigitsEnd(text, SignEnd(text, first, last), last)
    ensures forall k :: SignEnd(text, first, last) <= k < p ==> IsDigit(text[k])
    ensures var value: int := Decimal(text, SignEnd(text, first, last), p);
            out == if first < last && text[first] == 0x2D then -value else value
  {
    var sign := 1;
    p := first;
    if p != last {
      if buf[p] == 0x2D {
        sign := -1;
        p := p + 1;
      } else if buf[p] == 0x2B {
        p := p + 1;
      }
    }
    ghost var start := p;
    var result: nat := 0;
    while p != last && IsDigit(buf[p])
      invariant start <= p <= last && DigitsEnd(text, start, last) == DigitsEnd(text, p, last)
      invariant forall k :: start <= k < p ==> IsDigit(text[k])
      invariant result == Decimal(text, start, p)
      decreases last - p
    {
      var digit: nat := buf[p] - 0x30;
      result := 10 * result + digit;
      p := p + 1;
    }
    out := result * sign;
  }

  /** A number token.  The scan for its end stops only at a delimiter; where the text ends
      first the C++ reads on, and the model reports Runaway. */
  method LexNumber(buf: array<Byte>, ghost text: seq<Byte>, it0: nat) returns (l: Lexed)
    requires it0 < buf.Length && Unread(buf[..], text, it0) && !IsDelimiter(text[it0])
    ensures l == NumberAt(text, it0)
  {
    var it := it0;
    var float := false;
    while it < buf.Length && !IsDelimiter(buf[it])
      invariant it0 <= it <= buf.Length && NumberEnd(text, it0) == NumberEnd(text, it)
      invariant float <==> LooksFloat(text, it0, it)
    {
      if buf[it] == 0x2E || buf[it] == 0x65 || buf[it] == 0x45 {
        float := true;
      }
      it := it + 1;
    }
    if it == buf.Length {
      return Runaway;
    }
    if float {
      var end := AtofEnd(buf, text, it0, it);
      return if end == it then Tok(Float, it) else NoToken;
    }
    var p, value := Atoi(buf, text, it0, it);
    SignAtStart(text, it0, it);
    return if p == it then Tok(Int(value), it) else NoToken;
  }

  lemma SignAtStart(text: seq<Byte>, i: nat, j: nat)
    requires i <= j <= |text| && i < |text| && !IsDelimiter(text[i]) && j == NumberEnd(text, i)
    ensures i < j
  {
  }

  /** Where atof stops; its floating-point value is not modelled. */
  method AtofEnd(buf: array<Byte>, ghost text: seq<Byte>, first: nat, last: nat) returns (p: nat)
    requires first <= last <= buf.Length && Unread(buf[..], text, first)
    ensures p == FloatEnd(text, first, last)
  {
    p := ScanSign(buf, text, first, first, last);
    p := ScanDigits(buf, text, first, p, last);
    if p != last && buf[p] == 0x2E {
      p := ScanDigits(buf, text, first, p + 1, last);
    }
    if p != last && (buf[p] == 0x65 || buf[p] == 0x45) {
      p := ScanSign(buf, text, first, p + 1, last);
      p := ScanDigits(buf, text, first, p, last);
    }
  }

  method ScanSign(buf: array<Byte>, ghost text: seq<Byte>, ghost from: nat, first: nat, last: nat) returns (p: nat)
    requires from <= first <= last <= buf.Length && Unread(buf[..], text, from)
    ensures p == SignEnd(text, first, last)
  {
    p := if first != last && (buf[first] == 0x2D || buf[first] == 0x2B) then first + 1 else first;
  }

  method ScanDigits(buf: array<Byte>, ghost text: seq<Byte>, ghost from: nat, first: nat, last: nat) returns (p: nat)
    requires from <= first <= last <= buf.Length && Unread(buf[..], text, from)
    ensures p == DigitsEnd(text, first, last)
  {
    p := first;
    while p != last && IsDigit(buf[p])
      invariant first <= p <= last && DigitsEnd(text, first, last) == DigitsEnd(text, p, last)
      decreases last - p
    {
      p := p + 1;
    }
  }

  // ----- one token

  /** The string stands decoded in the buffer, NUL-terminated, behind the read cursor. */
  ghost predicate InBuffer(t: Text, buf: seq<Byte>, it: nat) {
    && t.at + |t.bytes| < it <= |buf|
    && buf[t.at..t.at + |t.bytes|] == t.bytes && buf[t.at + |t.bytes|] == 0
  }

  /** Reads the token at it0; a string is decoded over itself. */
  method LexInPlace(buf: array<Byte>, ghost text: seq<Byte>, it0: nat) returns (l: Lexed)
    requires it0 < buf.Length && EndsInNul(text) && Unread(buf[..], text, it0) && buf[it0] != 0
    modifies buf
    ensures l == TokenAt(text, it0)
    ensures buf[..it0] == old(buf[..it0])
    ensures l.Tok? ==> it0 < l.next < |text| && Unread(buf[..], text, l.next)
    ensures l.Tok? && l.token.Str? && text[l.next] != 0 ==> InBuffer(Text(l.token.at, l.token.bytes), buf[..], l.next)
  {
    TokenBeforeEnd(text, it0);
    var c := buf[it0];
    if c == 0x7B || c == 0x5B {
      return Tok(Open(c == 0x7B), it0 + 1);
    } else if c == 0x7D || c == 0x5D {
      return Tok(Close(c == 0x7D), it0 + 1);
    } else if c == 0x3A {
      return Tok(Colon, it0 + 1);
    } else if c == 0x2C {
      return Tok(Comma, it0 + 1);
    } else if c == QUOTE {
      l := LexString(buf, text, it0);
    } else if c == 0x6E && Word(buf[..], it0, NULL) {
      return Tok(Null, it0 + 4);
    } else if c == 0x74 && Word(buf[..], it0, TRUE) {
      return Tok(Bool(true), it0 + 4);
    } else if c == 0x66 && Word(buf[..], it0, FALSE) {
      return Tok(Bool(false), it0 + 5);
    } else if c == 0x2D || IsDigit(c) {
      l := LexNumber(buf, text, it0);
    } else {
      return NoToken;
    }
  }

  method LexString(buf: array<Byte>, ghost text: seq<Byte>, it0: nat) returns (l: Lexed)
    requires it0 < buf.Length && EndsInNul(text) && Unread(buf[..], text, it0) && buf[it0] == QUOTE
    modifies buf
    ensures l == StringAt(text, it0)
    ensures buf[..it0] == old(buf[..it0])
    ensures l.Tok? ==> l.token.Str? && Unread(buf[..], text, l.next) && l.next < |text|
    ensures l.Tok? && text[l.next] != 0 ==> InBuffer(Text(l.token.at, l.token.bytes), buf[..], l.next)
  {
    ghost var before := buf[..];
    DecodeSuffix(before, text, it0 + 1);
    var error, it, last := DecodeInPlace(buf, it0 + 1);
    if error.Some? {
      return NoToken;
    }
    StringRead(before, buf[..], text, it0, it, last);
    l := Tok(Str(it0 + 1, buf[it0 + 1..last]), it);
  }

  lemma StringRead(before: seq<Byte>, after: seq<Byte>, text: seq<Byte>, it0: nat, it: nat, last: nat)
    requires EndsInNul(text) && Unread(before, text, it0) && |after| == |before|
    requires it0 < |text| && text[it0] == QUOTE && it0 + 1 <= last <= it <= |before|
    requires after[..it0 + 1] == before[..it0 + 1] && after[it..] == before[it..]
    requires var lit := Decode(text, it0 + 1);
             !lit.Invalid? && lit.next == it && after[it0 + 1..last] == lit.bytes
             && (lit.Closed? ==> last < it && after[last] == 0)
    ensures it < |text| && StringAt(text, it0) == Tok(Str(it0 + 1, after[it0 + 1..last]), it)
    ensures after[..it0] == before[..it0] && Unread(after, text, it)
    ensures text[it] != 0 ==> InBuffer(Text(it0 + 1, after[it0 + 1..last]), after, it)
  {
    DecodeBeforeEnd(text, it0 + 1);
    assert after[..it0] == after[..it0 + 1][..it0];
    assert before[..it0] == before[..it0 + 1][..it0];
    StillUnread(before, after, text, it0, it);
  }

  lemma StillUnread(before: seq<Byte>, after: seq<Byte>, text: seq<Byte>, i: nat, j: nat)
    requires Unread(before, text, i) && i <= j <= |before| == |after| && after[j..] == before[j..]
    ensures Unread(after, text, j)
  {
    forall k | j <= k < |text| ensures after[k] == text[k] {
      assert after[k] == after[j..][k - j] == before[j..][k - j];
    }
  }

  lemma TokenBeforeEnd(text: seq<Byte>, i: nat)
    requires EndsInNul(text) && i < |text| && text[i] != 0
    ensures TokenAt(text, i).Tok? ==> TokenAt(text, i).next < |text|
  {
    DecodeBeforeEnd(text, i + 1);
    WordBeforeEnd(text, i, NULL);
    WordBeforeEnd(text, i, TRUE);
    WordBeforeEnd(text, i, FALSE);
  }

  lemma WordBeforeEnd(text: seq<Byte>, i: nat, w: seq<Byte>)
    requires EndsInNul(text) && w != [] && w[|w| - 1] != 0
    ensures Word(text, i, w) ==> i + |w| < |text|
  {
    if Word(text, i, w) {
      assert At(text, i + (|w| - 1)) == w[|w| - 1];
    }
  }

  // ----- one token's effect on the tree

  /** The parser's pointers: innermost open container, root, and a name waiting for its value. */
  datatype Cursor = Cursor(top: JsonValue?, root: JsonValue?, name: Option<Text>)

  /** Nodes and pointers stand for the document d. */
  ghost predicate Stands(d: Doc, order: seq<JsonValue>, c: Cursor)
    reads order
  {
    Valid(d) && Shape(order, d.nodes) && c == Cursor(Ref(order, d.top), Ref(order, Some(0)), d.name)
  }

  lemma StandsTop(d: Doc, order: seq<JsonValue>, c: Cursor)
    requires Stands(d, order, c)
    ensures c.top == null <==> d.top.None?
    ensures c.root == null <==> d.nodes == []
    ensures d.top.Some? ==> c.top == order[d.top.value] && c.top.kind == d.nodes[d.top.value].kind
                            && c.top.parent == Ref(order, d.nodes[d.top.value].parent)
  {
    if d.top.Some? {
      assert Linked(order, d.nodes, d.top.value);
    }
  }

  /** A new value becomes the last child of top. */
  method Attach(c: Cursor, kind: Kind, ghost d: Doc, ghost order: seq<JsonValue>) returns (value: JsonValue)
    requires Stands(d, order, c) && c.top != null
    modifies order
    ensures fresh(value) && Stands(Append(d, kind), order + [value], c.(name := None))
  {
    StandsTop(d, order, c);
    ghost var t := d.top.value;
    value := new JsonValue(c.name, kind);
    JsonAppend(c.top, value, order, d, t);
    StandsAppended(d, kind, order, value, c);
  }

  lemma StandsAppended(d: Doc, kind: Kind, order: seq<JsonValue>, value: JsonValue, c: Cursor)
    requires Valid(d) && d.top.Some? && |order| == |d.nodes|
    requires Shape(order + [value], Append(d, kind).nodes)
    requires c.top == Ref(order, d.top) && c.root == Ref(order, Some(0))
    ensures Stands(Append(d, kind), order + [value], c.(name := None))
  {
    var more := order + [value];
    assert Valid(Append(d, kind));
    assert Ref(more, d.top) == order[d.top.value] && Ref(more, Some(0)) == Ref(order, Some(0));
  }

  /** The document with a new, open container. */
  function AppendOpen(d: Doc, kind: Kind): Doc {
    Append(d, kind).(top := Some(|d.nodes|))
  }

  /** The first value of all. */
  method MakeRoot(name: Option<Text>, kind: Kind, ghost d: Doc) returns (value: JsonValue)
    requires Valid(d) && d.nodes == [] && name == d.name && IsContainer(kind)
    ensures fresh(value) && Stands(AppendOpen(d, kind), [value], Cursor(value, value, None))
  {
    value := new JsonValue(name, kind);
    ghost var nodes := Append(d, kind).nodes;
    assert nodes[..0] == [];
    assert Children(nodes, 0) == Children([], 0) == [];
  }

  method AttachOpen(c: Cursor, kind: Kind, ghost d: Doc, ghost order: seq<JsonValue>) returns (value: JsonValue)
    requires Stands(d, order, c) && c.top != null && IsContainer(kind)
    modifies order
    ensures fresh(value) && Stands(AppendOpen(d, kind), order + [value], Cursor(value, c.root, None))
  {
    StandsTop(d, order, c);
    value := Attach(c, kind, d, order);
    StandsOpened(d, kind, order + [value], c.(name := None));
  }

  /** The value just made becomes the innermost open container. */
  lemma StandsOpened(d: Doc, kind: Kind, order: seq<JsonValue>, c: Cursor)
    requires Valid(d) && (d.top.None? ==> d.nodes == []) && IsContainer(kind) && Stands(Append(d, kind), order, c)
    ensures order != [] && Stands(AppendOpen(d, kind), order, c.(top := order[|order| - 1]))
  {
  }

  lemma StandsClosed(d: Doc, order: seq<JsonValue>, c: Cursor)
    requires Stands(d, order, c) && d.top.Some?
    ensures c.top != null && Valid(d.(top := d.nodes[d.top.value].parent))
    ensures Stands(d.(top := d.nodes[d.top.value].parent), order, c.(top := c.top.parent))
  {
    StandsTop(d, order, c);
  }

  /** The result of a token: either both sides refuse it, or the nodes, perhaps one more than
      before, stand for the next document. */
  twostate predicate Applied(d: Doc, t: Token, order0: seq<JsonValue>, new order: seq<JsonValue>, ok: bool, new c: Cursor)
    requires Valid(d)
    reads order
  {
    && (ok <==> Step(d, t).Some?)
    && (ok ==> Stands(Step(d, t).value, order, c) && Grown(order0, order))
  }

  /** New nodes are appended to the list. */
  twostate predicate Grown(order0: seq<JsonValue>, new order: seq<JsonValue>) {
    && |order0| <= |order|
    && forall k :: 0 <= k < |order| ==> if k < |order0| then order[k] == order0[k] else fresh(order[k])
  }

  method ApplyOpen(t: Token, c0: Cursor, ghost d: Doc, ghost order0: seq<JsonValue>)
    returns (ok: bool, c: Cursor, ghost order: seq<JsonValue>)
    requires Stands(d, order0, c0) && t.Open?
    modifies order0
    ensures Applied(d, t, order0, order, ok, c)
  {
    StandsTop(d, order0, c0);
    ok, c, order := true, c0, order0;
    var kind := if t.curly then Object else Array;
    assert Step(d, t) == if c0.top == null && c0.root != null then None else Some(AppendOpen(d, kind));
    if c0.top != null {
      var value := AttachOpen(c0, kind, d, order0);
      c, order := Cursor(value, c0.root, None), order0 + [value];
    } else if c0.root == null {
      var value := MakeRoot(c0.name, kind, d);
      c, order := Cursor(value, value, None), [value];
    } else {
      ok := false;
    }
  }

  method ApplyClose(t: Token, c0: Cursor, ghost d: Doc, ghost order: seq<JsonValue>) returns (ok: bool, c: Cursor)
    requires Stands(d, order, c0) && t.Close?
    ensures Applied(d, t, order, order, ok, c)
  {
    StandsTop(d, order, c0);
    c := c0;
    ok := c0.top != null && c0.top.kind == if t.curly then Object else Array;
    if ok {
      StandsClosed(d, order, c0);
      c := c0.(top := c0.top.parent);
    }
  }

  method ApplyMark(t: Token, c: Cursor, ghost d: Doc, ghost order: seq<JsonValue>) returns (ok: bool)
    requires Stands(d, order, c) && (t.Colon? || t.Comma?)
    ensures Applied(d, t, order, order, ok, c)
  {
    StandsTop(d, order, c);
    ok := c.top != null && (t.Colon? ==> c.top.kind == Object);
  }

  function ValueKind(t: Token): Kind
    requires !t.Open? && !t.Close? && !t.Colon? && !t.Comma?
  {
    match t
    case Null => NullValue
    case Bool(b) => BoolValue(b)
    case Int(number) => IntValue(number)
    case Float => FloatValue
    case Str(at, bytes) => StringValue(Text(at, bytes))
  }

  lemma StandsNamed(d: Doc, order: seq<JsonValue>, c: Cursor, name: Option<Text>)
    requires Stands(d, order, c)
    ensures Stands(d.(name := name), order, c.(name := name))
  {
  }

  /** A string in an object is a name unless a name is waiting; all else is a value. */
  method ApplyValue(t: Token, c0: Cursor, ghost d: Doc, ghost order0: seq<JsonValue>)
    returns (ok: bool, c: Cursor, ghost order: seq<JsonValue>)
    requires Stands(d, order0, c0) && !t.Open? && !t.Close? && !t.Colon? && !t.Comma?
    modifies order0
    ensures Applied(d, t, order0, order, ok, c)
  {
    StandsTop(d, order0, c0);
    ok, c, order := c0.top != null, c0, order0;
    if ok {
      if t.Str? && c0.name.None? && c0.top.kind == Object {
        c := c0.(name := Some(Text(t.at, t.bytes)));
        StandsNamed(d, order0, c0, c.name);
        assert Step(d, t) == Some(d.(name := c.name));
      } else {
        var value := Attach(c0, ValueKind(t), d, order0);
        assert Step(d, t) == Some(Append(d, ValueKind(t)));
        c, order := c0.(name := None), order0 + [value];
      }
    }
  }

  /** The switch over one token. */
  method Apply(t: Token, c0: Cursor, ghost d: Doc, ghost order0: seq<JsonValue>)
    returns (ok: bool, c: Cursor, ghost order: seq<JsonValue>)
    requires Stands(d, order0, c0)
    modifies order0
    ensures Applied(d, t, order0, order, ok, c)
  {
    c, order := c0, order0;
    match t
    case Open(_) => ok, c, order := ApplyOpen(t, c0, d, order0);
    case Close(_) => ok, c := ApplyClose(t, c0, d, order0);
    case Colon => ok := ApplyMark(t, c0, d, order0);
    case Comma => ok := ApplyMark(t, c0, d, order0);
    case _ => ok, c, order := ApplyValue(t, c0, d, order0);
  }

  // ----- the whole text

  ghost predicate TextsInBuffer(n: Node, buf: seq<Byte>, it: nat) {
    && (n.name.Some? ==> InBuffer(n.name.value, buf, it))
    && (n.kind.StringValue? ==> InBuffer(n.kind.text, buf, it))
  }

  /** Every name and string value of the document stands in the buffer. */
  ghost predicate AllInBuffer(d: Doc, buf: seq<Byte>, it: nat) {
    && (forall k :: 0 <= k < |d.nodes| ==> TextsInBuffer(d.nodes[k], buf, it))
    && (d.name.Some? ==> InBuffer(d.name.value, buf, it))
  }

  lemma StillInBuffer(t: Text, before: seq<Byte>, after: seq<Byte>, it0: nat, it: nat)
    requires InBuffer(t, before, it0) && it0 <= it <= |after| == |before| && after[..it0] == before[..it0]
    ensures InBuffer(t, after, it)
  {
    var e := t.at + |t.bytes|;
    forall k | 0 <= k < it0 ensures after[k] == before[k] {
      assert after[k] == after[..it0][k] == before[..it0][k];
    }
    assert after[t.at..e] == before[t.at..e];
  }

  /** Reading on and storing what a token brings keeps all texts in the buffer. */
  lemma AllStillInBuffer(d: Doc, before: seq<Byte>, after: seq<Byte>, it0: nat, it: nat)
    requires AllInBuffer(d, before, it0) && it0 <= it <= |after| == |before| && after[..it0] == before[..it0]
    ensures AllInBuffer(d, after, it)
  {
    forall k | 0 <= k < |d.nodes| ensures TextsInBuffer(d.nodes[k], after, it) {
      var n := d.nodes[k];
      if n.name.Some? { StillInBuffer(n.name.value, before, after, it0, it); }
      if n.kind.StringValue? { StillInBuffer(n.kind.text, before, after, it0, it); }
    }
    if d.name.Some? { StillInBuffer(d.name.value, before, after, it0, it); }
  }

  lemma StepInBuffer(d: Doc, t: Token, buf: seq<Byte>, it: nat)
    requires Valid(d) && Step(d, t).Some? && AllInBuffer(d, buf, it)
    requires t.Str? ==> InBuffer(Text(t.at, t.bytes), buf, it)
    ensures AllInBuffer(Step(d, t).value, buf, it)
  {
  }

  datatype Status = Running | Success | Error | Overrun

  /** Only an opening bracket can start a document. */
  lemma OnlyOpenWithoutTop(text: seq<Byte>, it: nat, ts: seq<Token>, d: Doc)
    requires Fold(ts) == Some(d) && d.top.None? && it < |text| && text[it] != 0 && text[it] != 0x7B && text[it] != 0x5B
    ensures ParseFrom(text, it, ts) == Failed
  {
    OpensNothing(text, it);
    if TokenAt(text, it).Tok? {
      StepWithoutTop(d, TokenAt(text, it).token);
    }
    ParseToken(text, it, ts, d);
  }

  lemma OpensNothing(text: seq<Byte>, it: nat)
    requires it < |text| && text[it] != 0 && text[it] != 0x7B && text[it] != 0x5B
    ensures TokenAt(text, it).Tok? ==> !TokenAt(text, it).token.Open?
  {
  }

  lemma StepWithoutTop(d: Doc, t: Token)
    requires Valid(d) && d.top.None? && !t.Open?
    ensures Step(d, t).None?
  {
  }

  /** Between two tokens. */
  ghost predicate Between(buf: seq<Byte>, text: seq<Byte>, it: nat, ts: seq<Token>, d: Doc) {
    && it < |text| && EndsInNul(text) && Unread(buf, text, it)
    && Fold(ts) == Some(d) && Parse(text) == ParseFrom(text, it, ts)
    && (AllInBuffer(d, buf, it) || (text[it] == 0 && d.top.Some?))
  }

  /** One turn of the loop: a token is read, applied, and white space skipped. */
  method OneToken(buf: array<Byte>, ghost text: seq<Byte>, it0: nat, c0: Cursor, ghost ts0: seq<Token>,
                  ghost d0: Doc, ghost order0: seq<JsonValue>)
    returns (status: Status, it: nat, c: Cursor, ghost ts: seq<Token>, ghost d: Doc, ghost order: seq<JsonValue>)
    requires Between(buf[..], text, it0, ts0, d0) && buf[it0] != 0 && Stands(d0, order0, c0)
    modifies buf, order0
    ensures status == Running || status == Error || status == Overrun
    ensures status == Error ==> Parse(text) == Failed
    ensures status == Overrun ==> Parse(text) == Ran
    ensures status != Running ==> forall k :: 0 <= k < |order| ==> order[k] in order0
    ensures status == Running ==> it0 < it && Between(buf[..], text, it, ts, d) && Stands(d, order, c)
    ensures status == Running ==> Grown(order0, order)
  {
    it, c, ts, d, order := it0, c0, ts0, d0, order0;
    StandsTop(d0, order0, c0);
    ghost var before := buf[..];
    var l;
    status, l := ReadToken(buf, text, it0, c0.top != null, ts0, d0);
    if status != Running {
      return;
    }
    var ok;
    ok, c, order := Apply(l.token, c0, d0, order0);
    if !ok {
      status, order := Error, order0;
      return;
    }
    it := SkipSpaceLoop(buf, text, l.next);
    ts, d := ts0 + [l.token], Step(d0, l.token).value;
    NextBetween(before, buf[..], text, it0, l.next, it, ts0, d0, l.token);
  }

  /** Reads a token; without an open container anything but an opening bracket is an error. */
  method ReadToken(buf: array<Byte>, ghost text: seq<Byte>, it0: nat, inside: bool, ghost ts: seq<Token>, ghost d: Doc)
    returns (status: Status, l: Lexed)
    requires Between(buf[..], text, it0, ts, d) && buf[it0] != 0 && (inside <==> d.top.Some?)
    modifies buf
    ensures status == Running || status == Error || status == Overrun
    ensures status == Error ==> Parse(text) == Failed
    ensures status == Overrun ==> Parse(text) == Ran
    ensures status == Running ==> l.Tok? && l == TokenAt(text, it0) && it0 < l.next < |text|
    ensures status == Running ==> Step(d, l.token).None? ==> Parse(text) == Failed
    ensures status == Running ==> buf[..it0] == old(buf[..it0]) && Unread(buf[..], text, l.next)
    ensures status == Running && l.token.Str? && text[l.next] != 0 ==>
              InBuffer(Text(l.token.at, l.token.bytes), buf[..], l.next)
  {
    status, l := Error, NoToken;
    if !inside && buf[it0] != 0x7B && buf[it0] != 0x5B {
      OnlyOpenWithoutTop(text, it0, ts, d);
      return;
    }
    ParseToken(text, it0, ts, d);
    l := LexInPlace(buf, text, it0);
    if l.Runaway? {
      OverrunHasTop(text, it0, d);
      status := Overrun;
    } else if l.Tok? {
      status := Running;
    }
  }

  /** A number is only read inside a container. */
  lemma OverrunHasTop(text: seq<Byte>, it: nat, d: Doc)
    requires At(text, it) != 0 && TokenAt(text, it).Runaway? && (d.top.None? ==> text[it] == 0x7B || text[it] == 0x5B)
    ensures d.top.Some?
  {
  }

  lemma NextBetween(before: seq<Byte>, after: seq<Byte>, text: seq<Byte>, it0: nat, next: nat, it: nat,
                    ts: seq<Token>, d: Doc, t: Token)
    requires Between(before, text, it0, ts, d) && text[it0] != 0 && |after| == |before|
    requires TokenAt(text, it0) == Tok(t, next) && Step(d, t).Some? && it == SkipSpace(text, next) && next <= it < |text|
    requires after[..it0] == before[..it0] && Unread(after, text, next)
    requires t.Str? && text[next] != 0 ==> InBuffer(Text(t.at, t.bytes), after, next)
    ensures Between(after, text, it, ts + [t], Step(d, t).value)
  {
    ParseToken(text, it0, ts, d);
    AllStillInBuffer(d, before, after, it0, it);
    if t.Str? {
      if text[next] != 0 {
        StillInBuffer(Text(t.at, t.bytes), after, after, next, it);
        StepInBuffer(d, t, after, it);
      }
    } else {
      StepInBuffer(d, t, after, it);
    }
  }

  /** What the parser hands back for a text. */
  ghost predicate Result(text: seq<Byte>, buf: seq<Byte>, status: Status, root: JsonValue?, order: seq<JsonValue>)
    reads order
  {
    match Parse(text)
    case Failed => status == Error && root == null
    case Ran => status == Overrun
    case Done(ts) =>
      && status == Success && Fold(ts).Some? && root == Ref(order, Some(0))
      && Shape(order, Fold(ts).value.nodes) && AllInBuffer(Fold(ts).value, buf, |buf|)
  }

  lemma ResultAtEnd(buf: seq<Byte>, text: seq<Byte>, it: nat, ts: seq<Token>, d: Doc, order: seq<JsonValue>, c: Cursor)
    requires Between(buf, text, it, ts, d) && text[it] == 0 && Stands(d, order, c)
    ensures c.top != null ==> Result(text, buf, Error, null, order)
    ensures c.top == null ==> Result(text, buf, Success, c.root, order)
  {
    StandsTop(d, order, c);
    if c.top == null {
      AllStillInBuffer(d, buf, buf, it, |buf|);
    }
  }

  lemma ResultAtStart(text: seq<Byte>)
    requires EndsInNul(text)
    ensures Between(text, text, 0, [], EMPTY) && Stands(EMPTY, [], Cursor(null, null, None))
  {
  }

  /** Parses the NUL-terminated text in buf, overwriting its strings. */
  method JsonParse(buf: array<Byte>) returns (status: Status, root: JsonValue?, ghost order: seq<JsonValue>)
    requires EndsInNul(buf[..])
    modifies buf
    ensures forall k :: 0 <= k < |order| ==> fresh(order[k])
    ensures Result(old(buf[..]), buf[..], status, root, order)
  {
    ghost var text := buf[..];
    ghost var ts: seq<Token>, d := [], EMPTY;
    var it, c := 0, Cursor(null, null, None);
    order, root, status := [], null, Running;
    ResultAtStart(text);
    while buf[it] != 0
      invariant status == Running && root == null && Between(buf[..], text, it, ts, d) && Stands(d, order, c)
      invariant forall k :: 0 <= k < |order| ==> fresh(order[k])
      decreases buf.Length - it
    {
      status, it, c, ts, d, order := OneToken(buf, text, it, c, ts, d, order);
      if status != Running {
        return;
      }
    }
    ResultAtEnd(buf[..], text, it, ts, d, order, c);
    if c.top != null {
      status := Error;
    } else {
      status, root := Success, c.root;
    }
  }
}
