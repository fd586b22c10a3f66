/** String literals of core/common/json_parser.cpp: a pure decoder into a fresh buffer, and
    the in-place decoding that overwrites the text it reads.  Bytes and code points are
    numbers; the code's `|` of a tag and a shifted code point never meets a common bit and
    is written as a sum, `>> 6` as `/ 64` and `& 0x3F` as `% 64`. */
module JsonStrings {
  import opened Options

  type Byte = n: nat | n < 256

  const QUOTE: Byte := 0x22
  const BACKSLASH: Byte := 0x5C
  const SPACE: Byte := 0x20

  // ----- UTF-8, section 3 of RFC 3629

  function Utf8(cp: nat): (r: seq<Byte>)
    requires cp <= 0xFFFF
    ensures 1 <= |r| <= 3
  {
    if cp <= 0x7F then [cp]
    else if cp <= 0x7FF then [0xC0 + cp / 64, 0x80 + cp % 64]
    else [0xE0 + cp / 4096, 0x80 + cp / 64 % 64, 0x80 + cp % 64]
  }

  /** The code point that a sequence of one to three bytes encodes; overlong forms and stray
      continuation bytes encode none.  Surrogates are read like any other code point; module
      JsonUtf8 has the sequences that RFC 3629 allows. */
  function Utf8Decode(b: seq<Byte>): Option<nat> {
    if |b| == 1 && b[0] < 0x80 then Some(b[0])
    else if |b| == 2 && 0xC2 <= b[0] < 0xE0 && 0x80 <= b[1] < 0xC0 then
      var lead: nat, c: nat := b[0] - 0xC0, b[1] - 0x80;
      Some(lead * 64 + c)
    else if |b| == 3 && 0xE0 <= b[0] < 0xF0 && 0x80 <= b[1] < 0xC0 && 0x80 <= b[2] < 0xC0
            && (b[0] == 0xE0 ==> b[1] >= 0xA0) then
      var lead: nat, c: nat, d: nat := b[0] - 0xE0, b[1] - 0x80, b[2] - 0x80;
      Some(lead * 4096 + c * 64 + d)
    else None
  }

  lemma Utf8RoundTrip(cp: nat)
    requires cp <= 0xFFFF
    ensures Utf8Decode(Utf8(cp)) == Some(cp)
  {
  }

  // ----- the pure decoder, section 7 of RFC 8259

  /** A byte of the text; the text is followed by NUL. */
  function At(s: seq<Byte>, i: nat): Byte {
    if i < |s| then s[i] else 0
  }

  function HexDigit(c: Byte): (d: Option<nat>)
    ensures d.Some? ==> d.value < 16 && c != 0
  {
    if 0x30 <= c <= 0x39 then Some(c - 0x30)
    else if 0x61 <= c <= 0x66 then Some(c - 0x61 + 10)
    else if 0x41 <= c <= 0x46 then Some(c - 0x41 + 10)
    else None
  }

  /** The number that n hexadecimal digits from i on denote. */
  function Hex(s: seq<Byte>, i: nat, n: nat): (r: Option<nat>)
    ensures r.Some? ==> forall k :: i <= k < i + n ==> At(s, k) != 0
  {
    if n == 0 then Some(0)
    else
      match (Hex(s, i, n - 1), HexDigit(At(s, i + n - 1)))
      case (Some(h), Some(d)) => Some(16 * h + d)
      case _ => None
  }

  function Simple(c: Byte): Option<Byte> {
    if c == 0x22 || c == 0x5C || c == 0x2F then Some(c)
    else if c == 0x62 then Some(0x08)
    else if c == 0x66 then Some(0x0C)
    else if c == 0x6E then Some(0x0A)
    else if c == 0x72 then Some(0x0D)
    else if c == 0x74 then Some(0x09)
    else None
  }

  datatype Error = ControlCharacter | BadCodepoint | BadEscape

  /** What one character or escape of the literal stands for, and how long it is. */
  datatype Unit = Bytes(bytes: seq<Byte>, length: nat) | Wrong(error: Error)

  function UnitAt(s: seq<Byte>, i: nat): (u: Unit)
    ensures u.Bytes? ==> |u.bytes| <= u.length && u.length >= 1
    ensures u.Bytes? ==> i + u.length <= |s| && forall k :: i <= k < i + u.length ==> At(s, k) != 0
  {
    var c, e := At(s, i), At(s, i + 1);
    if c < SPACE then Wrong(ControlCharacter)
    else if c != BACKSLASH then Bytes([c], 1)
    else if Simple(e).Some? then Bytes([Simple(e).value], 2)
    else if e != 0x75 then Wrong(BadEscape)
    else
      match Hex(s, i + 2, 4)
      case None => Wrong(BadCodepoint)
      case Some(cp) =>
        HexFour(s, i + 2);
        assert forall k :: i <= k < i + 6 ==> At(s, k) != 0;
        Bytes(Utf8(cp), 6)
  }

  lemma HexFour(s: seq<Byte>, i: nat)
    requires Hex(s, i, 4).Some?
    ensures Hex(s, i, 4).value <= 0xFFFF
  {
    assert Hex(s, i, 1).Some? && Hex(s, i, 1).value <= 0xF;
    assert Hex(s, i, 2).Some? && Hex(s, i, 2).value <= 0xFF;
    assert Hex(s, i, 3).Some? && Hex(s, i, 3).value <= 0xFFF;
  }

  /** The rest of a literal from position i on: its bytes and the position after its closing
      quote, or after its last character when the text ends first. */
  datatype Literal =
    | Closed(bytes: seq<Byte>, next: nat)
    | Unterminated(bytes: seq<Byte>, next: nat)
    | Invalid(error: Error)

  function Prepend(b: seq<Byte>, l: Literal): Literal {
    match l
    case Closed(bytes, next) => Closed(b + bytes, next)
    case Unterminated(bytes, next) => Unterminated(b + bytes, next)
    case Invalid(_) => l
  }

  function Decode(s: seq<Byte>, i: nat): (l: Literal)
    ensures i <= |s| && !l.Invalid? ==> i <= l.next <= |s|
    ensures l.Unterminated? ==> At(s, l.next) == 0
    decreases |s| - i
  {
    if At(s, i) == 0 then Unterminated([], i)
    else if s[i] == QUOTE then Closed([], i + 1)
    else
      match UnitAt(s, i)
      case Wrong(error) => Invalid(error)
      case Bytes(bytes, length) => Prepend(bytes, Decode(s, i + length))
  }

  // ----- an encoder, and the decoder as its inverse

  function HexChar(d: nat): Byte
    requires d < 16
  {
    if d < 10 then 0x30 + d else 0x61 + d - 10
  }

  /** Any byte as it may stand in a literal; control characters take the \\u form. */
  function EncodeByte(c: Byte): (r: seq<Byte>)
    ensures r != [] && forall k :: 0 <= k < |r| ==> r[k] >= SPACE
  {
    if c == QUOTE || c == BACKSLASH then [BACKSLASH, c]
    else if c < SPACE then [BACKSLASH, 0x75, 0x30, 0x30, HexChar(c / 16), HexChar(c % 16)]
    else [c]
  }

  function Encode(b: seq<Byte>): seq<Byte> {
    if b == [] then [] else EncodeByte(b[0]) + Encode(b[1..])
  }

  /** s has e at position i. */
  ghost predicate Holds(s: seq<Byte>, i: nat, e: seq<Byte>) {
    i + |e| <= |s| && s[i..i + |e|] == e
  }

  lemma HoldsSplit(s: seq<Byte>, i: nat, a: seq<Byte>, b: seq<Byte>)
    ensures Holds(s, i, a + b) <==> Holds(s, i, a) && Holds(s, i + |a|, b)
  {
    if Holds(s, i, a + b) {
      assert s[i..i + |a|] == (a + b)[..|a|];
      assert s[i + |a|..i + |a| + |b|] == (a + b)[|a|..];
    }
  }

  lemma HexOfControl(s: seq<Byte>, i: nat, c: Byte)
    requires c < SPACE && i + 4 <= |s|
    requires s[i] == 0x30 && s[i + 1] == 0x30 && s[i + 2] == HexChar(c / 16) && s[i + 3] == HexChar(c % 16)
    ensures Hex(s, i, 4) == Some(c)
  {
    assert Hex(s, i, 1) == Some(0);
    assert Hex(s, i, 2) == Some(0);
    assert Hex(s, i, 3) == Some(c / 16);
  }

  lemma DecodeByte(s: seq<Byte>, i: nat, c: Byte)
    requires Holds(s, i, EncodeByte(c))
    ensures s[i] != 0 && s[i] != QUOTE && UnitAt(s, i) == Bytes([c], |EncodeByte(c)|)
  {
    var e := EncodeByte(c);
    assert forall k :: 0 <= k < |e| ==> s[i + k] == e[k];
    if c < SPACE {
      HexOfControl(s, i + 2, c);
    }
  }

  lemma EncodeMore(b: seq<Byte>)
    requires b != []
    ensures Encode(b) + [QUOTE] == EncodeByte(b[0]) + (Encode(b[1..]) + [QUOTE])
    ensures |Encode(b)| == |EncodeByte(b[0])| + |Encode(b[1..])|
  {
  }

  lemma DecodeQuote(s: seq<Byte>, i: nat)
    requires Holds(s, i, [QUOTE])
    ensures Decode(s, i) == Closed([], i + 1)
  {
    assert s[i..i + 1][0] == QUOTE;
  }

  lemma PrependFirst(b: seq<Byte>, next: nat)
    requires b != []
    ensures Prepend([b[0]], Closed(b[1..], next)) == Closed(b, next)
  {
    assert [b[0]] + b[1..] == b;
  }

  /** Every byte string survives encoding and decoding, wherever the literal stands. */
  lemma {:induction false} DecodeEncode(s: seq<Byte>, i: nat, b: seq<Byte>)
    requires Holds(s, i, Encode(b) + [QUOTE])
    ensures Decode(s, i) == Closed(b, i + |Encode(b)| + 1)
    decreases |b|
  {
    if b == [] {
      assert Encode(b) + [QUOTE] == [QUOTE];
      DecodeQuote(s, i);
    } else {
      var e, rest := EncodeByte(b[0]), Encode(b[1..]);
      EncodeMore(b);
      HoldsSplit(s, i, e, rest + [QUOTE]);
      DecodeByte(s, i, b[0]);
      DecodeEncode(s, i + |e|, b[1..]);
      DecodeGoesOn(s, i);
      PrependFirst(b, i + |e| + |rest| + 1);
    }
  }

  lemma TwoUnits(s: seq<Byte>, a: seq<Byte>, b: seq<Byte>)
    requires |s| == 13 && s[12] == QUOTE && s[0] == s[6] == BACKSLASH
    requires UnitAt(s, 0) == Bytes(a, 6) && UnitAt(s, 6) == Bytes(b, 6)
    ensures Decode(s, 0) == Closed(a + b, 13)
  {
    assert Decode(s, 12) == Closed([], 13);
    assert Decode(s, 6) == Prepend(b, Decode(s, 12));
    assert b + [] == b;
  }

  /** A surrogate pair is not combined: each \\u unit is encoded alone, three bytes for each
      half, where RFC 3629 has one four-byte sequence.  JsonUtf8.DecodedIsWellFormed says
      exactly when the result is well-formed. */
  lemma SurrogatesStayApart()
    ensures var s: seq<Byte> := [0x5C, 0x75, 0x44, 0x38, 0x33, 0x44, 0x5C, 0x75, 0x44, 0x45, 0x30, 0x30, QUOTE];
            Decode(s, 0) == Closed([0xED, 0xA0, 0xBD, 0xED, 0xB8, 0x80], 13)
  {
    var s: seq<Byte> := [0x5C, 0x75, 0x44, 0x38, 0x33, 0x44, 0x5C, 0x75, 0x44, 0x45, 0x30, 0x30, QUOTE];
    assert Hex(s, 2, 1) == Some(0xD) && Hex(s, 2, 2) == Some(0xD8) && Hex(s, 2, 3) == Some(0xD83);
    assert Hex(s, 8, 1) == Some(0xD) && Hex(s, 8, 2) == Some(0xDE) && Hex(s, 8, 3) == Some(0xDE0);
    assert UnitAt(s, 0) == Bytes([0xED, 0xA0, 0xBD], 6);
    assert UnitAt(s, 6) == Bytes([0xED, 0xB8, 0x80], 6);
    TwoUnits(s, [0xED, 0xA0, 0xBD], [0xED, 0xB8, 0x80]);
  }

  // ----- decoding in place

  /** From the read cursor on, the buffer still holds the text. */
  ghost predicate Unread(buf: seq<Byte>, text: seq<Byte>, it: nat) {
    |buf| == |text| && forall k :: it <= k < |text| ==> buf[k] == text[k]
  }

  ghost predicate EndsInNul(text: seq<Byte>) {
    text != [] && text[|text| - 1] == 0
  }

  lemma {:induction false} HexPrefix(s: seq<Byte>, i: nat, m: nat, n: nat)
    requires m <= n && Hex(s, i, n).Some?
    ensures Hex(s, i, m).Some?
  {
    if m < n {
      HexPrefix(s, i, m, n - 1);
    }
  }

  lemma HexStops(s: seq<Byte>, i: nat, m: nat, n: nat)
    requires m <= n && Hex(s, i, m).None?
    ensures Hex(s, i, n).None?
  {
    if Hex(s, i, n).Some? {
      HexPrefix(s, i, m, n);
    }
  }

  method Hatoui(buf: array<Byte>, ghost text: seq<Byte>, first: nat, last: nat) returns (p: nat, out: nat)
    requires first <= last <= first + 8 && first < buf.Length && EndsInNul(text) && Unread(buf[..], text, first)
    ensures first <= p <= last && Hex(text, first, p - first) == Some(out)
    ensures p == last <==> Hex(text, first, last - first).Some?
  {
    out := 0;
    p := first;
    while p != last
      invariant first <= p <= last && p < buf.Length && Hex(text, first, p - first) == Some(out)
      decreases last - p
    {
      var digit := HexDigit(buf[p]);
      HexNext(text, first, p - first);
      if digit.None? {
        HexStops(text, first, p - first + 1, last - first);
        break;
      }
      out := 16 * out + digit.value;
      p := p + 1;
    }
  }

  lemma HexNext(s: seq<Byte>, i: nat, n: nat)
    requires Hex(s, i, n).Some? && i + n < |s|
    ensures var d := HexDigit(s[i + n]);
            Hex(s, i, n + 1) == if d.Some? then Some(16 * Hex(s, i, n).value + d.value) else None
  {
  }

  method StoreUtf8(buf: array<Byte>, at: nat, cp: nat) returns (last: nat)
    requires cp <= 0xFFFF && at + |Utf8(cp)| <= buf.Length
    modifies buf
    ensures last == at + |Utf8(cp)| - 1
    ensures buf[..] == old(buf[..])[..at] + Utf8(cp) + old(buf[..])[last + 1..]
  {
    last := at;
    if cp <= 0x7F {
      buf[last] := cp;
    } else if cp <= 0x7FF {
      buf[last] := 0xC0 + cp / 64;
      last := last + 1;
      buf[last] := 0x80 + cp % 64;
    } else {
      buf[last] := 0xE0 + cp / 4096;
      last := last + 1;
      buf[last] := 0x80 + cp / 64 % 64;
      last := last + 1;
      buf[last] := 0x80 + cp % 64;
    }
  }

  /** One character or escape: read at `it`, written at `last`. */
  method UnitInPlace(buf: array<Byte>, ghost text: seq<Byte>, it0: nat, last0: nat)
    returns (error: Option<Error>, it: nat, last: nat)
    requires last0 <= it0 < buf.Length && EndsInNul(text) && Unread(buf[..], text, it0)
    requires buf[it0] != 0
    modifies buf
    ensures match UnitAt(text, it0)
            case Wrong(e) => error == Some(e) && it == it0 && last == last0 && buf[..] == old(buf[..])
            case Bytes(bytes, length) =>
              error == None && it == it0 + length && last == last0 + |bytes| <= buf.Length
              && buf[..] == old(buf[..])[..last0] + bytes + old(buf[..])[last..]
  {
    error, it, last := None, it0, last0;
    var c := buf[it];
    if c < SPACE {
      error := Some(ControlCharacter);
    } else if c == BACKSLASH {
      assert it + 1 < |text|;
      var e := buf[it + 1];
      if Simple(e).Some? {
        buf[last] := Simple(e).value;
      } else if e == 0x75 {
        var p, cp := Hatoui(buf, text, it + 2, it + 6);
        if p != it + 6 {
          error := Some(BadCodepoint);
          return;
        }
        HexFour(text, it + 2);
        last := StoreUtf8(buf, last, cp);
        it := it + 4;
      } else {
        error := Some(BadEscape);
        return;
      }
      last := last + 1;
      it := it + 2;
    } else {
      buf[last] := buf[it];
      last := last + 1;
      it := it + 1;
    }
  }

  /** The literal that starts at `first`, decoded over itself: the write cursor stays behind
      the read cursor, and the text after the closing quote is untouched. */
  method DecodeInPlace(buf: array<Byte>, first: nat) returns (error: Option<Error>, it: nat, last: nat)
    requires first < buf.Length && EndsInNul(buf[..])
    modifies buf
    ensures first <= last <= it <= buf.Length
    ensures buf[..first] == old(buf[..first]) && buf[it..] == old(buf[it..])
    ensures match Decode(old(buf[..]), first)
            case Invalid(e) => error == Some(e)
            case Closed(bytes, next) =>
              error == None && it == next && last < it && buf[first..last] == bytes && buf[last] == 0
            case Unterminated(bytes, next) =>
              error == None && it == next < buf.Length && buf[it] == 0 && buf[first..last] == bytes
  {
    ghost var text := buf[..];
    error, it, last := None, first, first;
    ghost var done: seq<Byte> := [];
    Starting(text, first);
    while buf[it] != 0
      invariant error == None && InFlight(buf[..], text, first, last, it, done)
      decreases buf.Length - it
    {
      if buf[it] == QUOTE {
        Ending(buf[..], text, first, last, it, done);
        buf[last] := 0;
        it := it + 1;
        return;
      }
      error, it, last, done := NextUnit(buf, text, first, it, last, done);
      if error.Some? {
        return;
      }
    }
    Ending(buf[..], text, first, last, it, done);
  }

  method NextUnit(buf: array<Byte>, ghost text: seq<Byte>, ghost first: nat, it0: nat, last0: nat,
                  ghost done0: seq<Byte>)
    returns (error: Option<Error>, it: nat, last: nat, ghost done: seq<Byte>)
    requires InFlight(buf[..], text, first, last0, it0, done0) && EndsInNul(text)
    requires text[it0] != 0 && text[it0] != QUOTE
    modifies buf
    ensures error == None ==> it > it0 && InFlight(buf[..], text, first, last, it, done)
    ensures error.Some? ==> Decode(text, first) == Invalid(error.value)
    ensures error.Some? ==> buf[..] == old(buf[..]) && it == it0 && last == last0
  {
    ghost var before, u := buf[..], UnitAt(text, it0);
    UnitOrError(before, text, first, last0, it0, done0, u);
    error, it, last := UnitInPlace(buf, text, it0, last0);
    if u.Bytes? {
      done := done0 + u.bytes;
      ghost var after := buf[..];
      Advance(before, after, text, first, last0, it0, done0, u, last, it, done);
    } else {
      done := done0;
    }
  }

  lemma UnitOrError(buf: seq<Byte>, text: seq<Byte>, first: nat, last: nat, it: nat, done: seq<Byte>, u: Unit)
    requires InFlight(buf, text, first, last, it, done) && text[it] != 0 && text[it] != QUOTE && u == UnitAt(text, it)
    ensures u.Wrong? ==> Decode(text, first) == Invalid(u.error)
  {
    DecodeGoesOn(text, it);
  }

  /** Between two characters: `done` stands decoded in front of the write cursor, and the
      text from the read cursor on is still to be decoded. */
  ghost predicate InFlight(buf: seq<Byte>, text: seq<Byte>, first: nat, last: nat, it: nat, done: seq<Byte>) {
    && first <= last <= it < |buf| && Unread(buf, text, it)
    && buf[..first] == text[..first] && buf[first..last] == done
    && Decode(text, first) == Prepend(done, Decode(text, it))
  }

  lemma Starting(text: seq<Byte>, first: nat)
    requires first < |text|
    ensures InFlight(text, text, first, first, first, [])
  {
    var l := Decode(text, first);
    if !l.Invalid? {
      assert [] + l.bytes == l.bytes;
    }
  }

  lemma Ending(buf: seq<Byte>, text: seq<Byte>, first: nat, last: nat, it: nat, done: seq<Byte>)
    requires InFlight(buf, text, first, last, it, done)
    ensures buf[it] == text[it]
    ensures text[it] == 0 ==> Decode(text, first) == Unterminated(done, it)
    ensures text[it] == QUOTE ==> Decode(text, first) == Closed(done, it + 1)
    ensures buf[it..] == text[it..]
  {
    assert done + [] == done;
  }

  lemma DecodeGoesOn(text: seq<Byte>, it: nat)
    requires it < |text| && text[it] != 0 && text[it] != QUOTE
    ensures Decode(text, it) ==
            match UnitAt(text, it)
            case Wrong(error) => Invalid(error)
            case Bytes(bytes, length) => Prepend(bytes, Decode(text, it + length))
  {
  }

  lemma StaysInside(text: seq<Byte>, it: nat, u: Unit)
    requires EndsInNul(text) && u == UnitAt(text, it) && u.Bytes?
    ensures it + u.length < |text|
  {
    assert At(text, it + u.length - 1) != 0;
  }

  lemma Advance(before: seq<Byte>, after: seq<Byte>, text: seq<Byte>, first: nat, last: nat, it: nat,
                done: seq<Byte>, u: Unit, last': nat, it': nat, done': seq<Byte>)
    requires InFlight(before, text, first, last, it, done) && EndsInNul(text)
    requires text[it] != 0 && text[it] != QUOTE && u == UnitAt(text, it) && u.Bytes?
    requires last' == last + |u.bytes| && it' == it + u.length && done' == done + u.bytes
    requires after == before[..last] + u.bytes + before[last'..]
    ensures it' > it && InFlight(after, text, first, last', it', done')
  {
    StaysInside(text, it, u);
    Written(before, after, text, first, last, u.bytes, it + u.length);
    DecodeAfter(text, first, it, done, u);
  }

  lemma DecodeAfter(text: seq<Byte>, first: nat, it: nat, done: seq<Byte>, u: Unit)
    requires it < |text| && text[it] != 0 && text[it] != QUOTE && u == UnitAt(text, it) && u.Bytes?
    requires Decode(text, first) == Prepend(done, Decode(text, it))
    ensures Decode(text, first) == Prepend(done + u.bytes, Decode(text, it + u.length))
  {
    DecodeGoesOn(text, it);
    PrependTwice(done, u.bytes, Decode(text, it + u.length));
  }

  lemma Written(before: seq<Byte>, after: seq<Byte>, text: seq<Byte>, first: nat, last: nat, bytes: seq<Byte>, it: nat)
    requires first <= last <= last + |bytes| <= it <= |before| && Unread(before, text, it)
    requires after == before[..last] + bytes + before[last + |bytes|..]
    ensures |after| == |before| && Unread(after, text, it)
    ensures after[..first] == before[..first] && after[first..last + |bytes|] == before[first..last] + bytes
  {
  }

  lemma PrependTwice(a: seq<Byte>, b: seq<Byte>, l: Literal)
    ensures Prepend(a, Prepend(b, l)) == Prepend(a + b, l)
  {
    if !l.Invalid? {
      assert a + (b + l.bytes) == a + b + l.bytes;
    }
  }

  // ----- only the text ahead counts

  lemma {:induction false} HexSuffix(s: seq<Byte>, t: seq<Byte>, i: nat, n: nat)
    requires Unread(s, t, i)
    ensures Hex(s, i, n) == Hex(t, i, n)
  {
    if n != 0 {
      HexSuffix(s, t, i, n - 1);
      assert At(s, i + n - 1) == At(t, i + n - 1);
    }
  }

  lemma {:induction false} DecodeSuffix(s: seq<Byte>, t: seq<Byte>, i: nat)
    requires Unread(s, t, i)
    ensures Decode(s, i) == Decode(t, i)
    decreases |s| - i
  {
    if i < |s| && s[i] != 0 && s[i] != QUOTE {
      assert At(s, i) == At(t, i) && At(s, i + 1) == At(t, i + 1);
      HexSuffix(s, t, i + 2, 4);
      assert UnitAt(s, i) == UnitAt(t, i);
      DecodeGoesOn(s, i);
      DecodeGoesOn(t, i);
      if UnitAt(s, i).Bytes? {
        DecodeSuffix(s, t, i + UnitAt(s, i).length);
      }
    }
  }

  lemma {:induction false} DecodeBeforeEnd(s: seq<Byte>, i: nat)
    requires EndsInNul(s) && i < |s|
    ensures !Decode(s, i).Invalid? ==> Decode(s, i).next < |s|
    decreases |s| - i
  {
    if s[i] != 0 && s[i] != QUOTE && UnitAt(s, i).Bytes? {
      var n := UnitAt(s, i).length;
      assert At(s, i + n - 1) != 0;
      DecodeBeforeEnd(s, i + n);
    }
  }
}
