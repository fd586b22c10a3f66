/** How the tokens of a JSON text are written, byte by byte and without a scanner, and that the
    scanner of core/common/json_parser.cpp reads exactly these. */
module JsonSpelling {
  import opened Options
  import opened JsonStrings
  import opened JsonUtf8

  // ----- strings, section 7 of RFC 8259

  const LOWER: seq<Byte> := [0x30, 0x31, 0x32, 0x33, 0x34, 0x35, 0x36, 0x37, 0x38, 0x39, 0x61, 0x62, 0x63, 0x64, 0x65, 0x66]
  const UPPER: seq<Byte> := [0x30, 0x31, 0x32, 0x33, 0x34, 0x35, 0x36, 0x37, 0x38, 0x39, 0x41, 0x42, 0x43, 0x44, 0x45, 0x46]

  /** c is the hexadecimal digit d, in either case. */
  predicate IsHex(c: Byte, d: nat) {
    d < 16 && (c == LOWER[d] || c == UPPER[d])
  }

  /** c behind a backslash stands for b. */
  predicate ShortEscape(c: Byte, b: Byte) {
    || (c == 0x22 && b == 0x22) || (c == 0x5C && b == 0x5C) || (c == 0x2F && b == 0x2F)
    || (c == 0x62 && b == 0x08) || (c == 0x66 && b == 0x0C) || (c == 0x6E && b == 0x0A)
    || (c == 0x72 && b == 0x0D) || (c == 0x74 && b == 0x09)
  }

  /** Four hexadecimal digits and the number they denote. */
  ghost predicate FourHex(u: seq<Byte>, cp: nat) {
    exists a: nat, b: nat, c: nat, d: nat :: DigitsAre(u, a, b, c, d) && cp == 4096 * a + 256 * b + 16 * c + d
  }

  predicate DigitsAre(u: seq<Byte>, a: nat, b: nat, c: nat, d: nat) {
    |u| == 4 && IsHex(u[0], a) && IsHex(u[1], b) && IsHex(u[2], c) && IsHex(u[3], d)
  }

  /** One character or escape and what it stands for: itself, or the byte of a short escape, or
      the UTF-8 form of the code point. */
  ghost predicate Spelling(u: seq<Byte>, bytes: seq<Byte>) {
    || (|u| == 1 && u[0] >= 0x20 && u[0] != 0x22 && u[0] != 0x5C && bytes == u)
    || (|u| == 2 && u[0] == 0x5C && |bytes| == 1 && ShortEscape(u[1], bytes[0]))
    || (|u| == 6 && u[0] == 0x5C && u[1] == 0x75 && Utf8Decode(bytes).Some? && FourHex(u[2..], Utf8Decode(bytes).value))
  }

  /** The text between two quotes denotes these bytes. */
  ghost predicate Denotes(text: seq<Byte>, bytes: seq<Byte>)
    decreases |text|, 1
  {
    if text == [] then bytes == []
    else exists n: nat, m: nat :: 1 <= n <= |text| && m <= |bytes| && SplitAt(text, bytes, n, m)
  }

  ghost predicate SplitAt(text: seq<Byte>, bytes: seq<Byte>, n: nat, m: nat)
    requires 1 <= n <= |text| && m <= |bytes|
    decreases |text|, 0
  {
    Spelling(text[..n], bytes[..m]) && Denotes(text[n..], bytes[m..])
  }

  lemma HexDigitExactly(c: Byte, d: nat)
    ensures IsHex(c, d) <==> HexDigit(c) == Some(d)
  {
  }

  ghost predicate Scanned(s: seq<Byte>, i: nat, a: nat, b: nat, c: nat, d: nat) {
    && HexDigit(At(s, i)) == Some(a) && HexDigit(At(s, i + 1)) == Some(b)
    && HexDigit(At(s, i + 2)) == Some(c) && HexDigit(At(s, i + 3)) == Some(d)
  }

  lemma DigitsExactly(s: seq<Byte>, i: nat, a: nat, b: nat, c: nat, d: nat)
    requires i + 4 <= |s|
    ensures DigitsAre(s[i..i + 4], a, b, c, d) <==> Scanned(s, i, a, b, c, d)
  {
    HexDigitExactly(s[i], a);
    HexDigitExactly(s[i + 1], b);
    HexDigitExactly(s[i + 2], c);
    HexDigitExactly(s[i + 3], d);
  }

  lemma ScannedIsHex(s: seq<Byte>, i: nat, a: nat, b: nat, c: nat, d: nat)
    requires Scanned(s, i, a, b, c, d)
    ensures Hex(s, i, 4) == Some(4096 * a + 256 * b + 16 * c + d)
  {
    HexSteps(s, i);
  }

  lemma HexIsScanned(s: seq<Byte>, i: nat) returns (a: nat, b: nat, c: nat, d: nat)
    requires Hex(s, i, 4).Some?
    ensures Scanned(s, i, a, b, c, d)
  {
    HexSteps(s, i);
    a, b, c, d := HexDigit(At(s, i)).value, HexDigit(At(s, i + 1)).value, HexDigit(At(s, i + 2)).value, HexDigit(At(s, i + 3)).value;
  }

  lemma FourIsScanned(s: seq<Byte>, i: nat, cp: nat) returns (a: nat, b: nat, c: nat, d: nat)
    requires i + 4 <= |s| && FourHex(s[i..i + 4], cp)
    ensures Scanned(s, i, a, b, c, d) && cp == 4096 * a + 256 * b + 16 * c + d
  {
    a, b, c, d :| DigitsAre(s[i..i + 4], a, b, c, d) && cp == 4096 * a + 256 * b + 16 * c + d;
    DigitsExactly(s, i, a, b, c, d);
  }

  lemma FourFromHex(s: seq<Byte>, i: nat)
    requires i + 4 <= |s| && Hex(s, i, 4).Some?
    ensures FourHex(s[i..i + 4], Hex(s, i, 4).value)
  {
    var a, b, c, d := HexIsScanned(s, i);
    DigitsExactly(s, i, a, b, c, d);
    ScannedIsHex(s, i, a, b, c, d);
  }

  lemma HexFromFour(s: seq<Byte>, i: nat, cp: nat)
    requires i + 4 <= |s| && FourHex(s[i..i + 4], cp)
    ensures Hex(s, i, 4) == Some(cp)
  {
    var a, b, c, d := FourIsScanned(s, i, cp);
    ScannedIsHex(s, i, a, b, c, d);
  }

  lemma HexOfFour(s: seq<Byte>, i: nat, cp: nat)
    requires i + 4 <= |s|
    ensures FourHex(s[i..i + 4], cp) <==> Hex(s, i, 4) == Some(cp)
  {
    if Hex(s, i, 4) == Some(cp) {
      FourFromHex(s, i);
    }
    if FourHex(s[i..i + 4], cp) {
      HexFromFour(s, i, cp);
    }
  }

  lemma HexSteps(s: seq<Byte>, i: nat)
    ensures var a, b, c, d := HexDigit(At(s, i)), HexDigit(At(s, i + 1)), HexDigit(At(s, i + 2)), HexDigit(At(s, i + 3));
            Hex(s, i, 4) == if a.Some? && b.Some? && c.Some? && d.Some?
                            then Some(4096 * a.value + 256 * b.value + 16 * c.value + d.value) else None
  {
    var a, b, c, d := HexDigit(At(s, i)), HexDigit(At(s, i + 1)), HexDigit(At(s, i + 2)), HexDigit(At(s, i + 3));
    assert Hex(s, i, 0) == Some(0);
    assert Hex(s, i, 1) == a;
    assert Hex(s, i, 2) == if a.Some? && b.Some? then Some(16 * a.value + b.value) else None;
    assert Hex(s, i, 3) == if a.Some? && b.Some? && c.Some? then Some(256 * a.value + 16 * b.value + c.value) else None;
  }

  lemma SimpleExactly(c: Byte, b: Byte)
    ensures ShortEscape(c, b) <==> Simple(c) == Some(b)
  {
  }

  /** Only the stored bytes decode to a code point. */
  lemma Utf8Exactly(b: seq<Byte>, cp: nat)
    requires cp <= 0xFFFF
    ensures Utf8Decode(b) == Some(cp) <==> b == Utf8(cp)
  {
    Utf8RoundTrip(cp);
    if Utf8Decode(b) == Some(cp) && |b| == 2 {
      Digits64(b[0] - 0xC0, b[1] - 0x80);
    } else if Utf8Decode(b) == Some(cp) && |b| == 3 {
      var lead: nat, c: nat, d: nat := b[0] - 0xE0, b[1] - 0x80, b[2] - 0x80;
      Digits64(lead * 64 + c, d);
      Digits64(lead, c);
      assert cp / 4096 == lead;
    }
  }

  /** The decoder's unit is what is written there. */
  lemma UnitExactly(s: seq<Byte>, i: nat, bytes: seq<Byte>, n: nat)
    requires At(s, i) != 0 && At(s, i) != 0x22
    ensures UnitAt(s, i) == Bytes(bytes, n) <==> i + n <= |s| && Spelling(s[i..i + n], bytes)
  {
    if i + n <= |s| {
      var u := s[i..i + n];
      assert forall k: nat :: k < n ==> u[k] == At(s, i + k);
      if n == 2 && |bytes| == 1 {
        SimpleExactly(u[1], bytes[0]);
      } else if n == 6 && u[0] == 0x5C && u[1] == 0x75 {
        CodepointExactly(s, i, bytes);
      }
    }
    if UnitAt(s, i) == Bytes(bytes, n) && s[i] == 0x5C && n == 2 {
      SimpleExactly(s[i + 1], bytes[0]);
    }
  }

  lemma CodepointExactly(s: seq<Byte>, i: nat, bytes: seq<Byte>)
    requires i + 6 <= |s| && s[i] == 0x5C && s[i + 1] == 0x75
    ensures UnitAt(s, i) == Bytes(bytes, 6) <==>
            Utf8Decode(bytes).Some? && FourHex(s[i..i + 6][2..], Utf8Decode(bytes).value)
  {
    assert s[i..i + 6][2..] == s[i + 2..i + 6];
    var h := Hex(s, i + 2, 4);
    if h.Some? {
      HexFour(s, i + 2);
      HexOfFour(s, i + 2, h.value);
      Utf8Exactly(bytes, h.value);
    }
    if Utf8Decode(bytes).Some? {
      HexOfFour(s, i + 2, Utf8Decode(bytes).value);
    }
  }

  lemma SliceSplits(s: seq<Byte>, i: nat, n: nat, p: nat)
    requires i + n <= p <= |s|
    ensures s[i..p][..n] == s[i..i + n] && s[i..p][n..] == s[i + n..p]
  {
  }

  /** A written text is decoded to what it denotes, whatever follows it. */
  lemma {:induction false} DecodeOfWritten(s: seq<Byte>, i: nat, p: nat, bytes: seq<Byte>)
    requires i <= p <= |s| && Denotes(s[i..p], bytes)
    ensures Decode(s, i) == Prepend(bytes, Decode(s, p))
    decreases p - i
  {
    var text := s[i..p];
    if text == [] {
      PrependNothing(Decode(s, p));
    } else {
      var n: nat, m: nat :| 1 <= n <= |text| && m <= |bytes| && SplitAt(text, bytes, n, m);
      SliceSplits(s, i, n, p);
      SpellingStarts(s, i, n, bytes[..m]);
      UnitExactly(s, i, bytes[..m], n);
      DecodeOfWritten(s, i + n, p, bytes[m..]);
      DecodeOneMore(s, i, n, p, bytes[..m], bytes[m..]);
      assert bytes[..m] + bytes[m..] == bytes;
    }
  }

  lemma DecodeOneMore(s: seq<Byte>, i: nat, n: nat, p: nat, b: seq<Byte>, rest: seq<Byte>)
    requires At(s, i) != 0 && s[i] != 0x22 && UnitAt(s, i) == Bytes(b, n) && Decode(s, i + n) == Prepend(rest, Decode(s, p))
    ensures Decode(s, i) == Prepend(b + rest, Decode(s, p))
  {
    DecodeGoesOn(s, i);
    PrependTwice(b, rest, Decode(s, p));
  }

  lemma PrependNothing(l: Literal)
    ensures Prepend([], l) == l
  {
    if !l.Invalid? {
      assert [] + l.bytes == l.bytes;
    }
  }

  lemma SpellingStarts(s: seq<Byte>, i: nat, n: nat, bytes: seq<Byte>)
    requires i + n <= |s| && Spelling(s[i..i + n], bytes)
    ensures n >= 1 && s[i] == At(s, i) != 0 && s[i] != 0x22
  {
    assert s[i..i + n][0] == s[i];
  }

  /** Where the text of a literal ends: at its quote, or at the end of the text. */
  function TextEnd(l: Literal): int
    requires !l.Invalid?
  {
    if l.Closed? then l.next - 1 else l.next
  }

  /** What DecodedIsWritten claims. */
  ghost predicate IsWritten(s: seq<Byte>, i: nat, l: Literal) {
    && !l.Invalid? && i <= TextEnd(l) <= |s| && Denotes(s[i..TextEnd(l)], l.bytes)
    && At(s, TextEnd(l)) == if l.Closed? then 0x22 else 0
  }

  lemma WrittenMore(s: seq<Byte>, i: nat, n: nat, b: seq<Byte>, l: Literal)
    requires At(s, i) != 0 && At(s, i) != 0x22 && UnitAt(s, i) == Bytes(b, n) && IsWritten(s, i + n, l)
    ensures IsWritten(s, i, Prepend(b, l))
  {
    UnitExactly(s, i, b, n);
    OneMoreUnit(s, i, n, TextEnd(l), b, l.bytes);
  }

  lemma {:induction false} DecodedIsWritten(s: seq<Byte>, i: nat)
    requires i <= |s| && !Decode(s, i).Invalid?
    ensures IsWritten(s, i, Decode(s, i))
    decreases |s| - i
  {
    if At(s, i) != 0 && s[i] != 0x22 {
      var u := UnitAt(s, i);
      DecodeGoesOn(s, i);
      DecodedIsWritten(s, i + u.length);
      WrittenMore(s, i, u.length, u.bytes, Decode(s, i + u.length));
    } else {
      assert s[i..i] == [];
    }
  }

  lemma OneMoreUnit(s: seq<Byte>, i: nat, n: nat, p: nat, b: seq<Byte>, rest: seq<Byte>)
    requires 1 <= n && i + n <= p <= |s| && Spelling(s[i..i + n], b) && Denotes(s[i + n..p], rest)
    ensures Denotes(s[i..p], b + rest)
  {
    var text, bytes := s[i..p], b + rest;
    SliceSplits(s, i, n, p);
    assert bytes[..|b|] == b && bytes[|b|..] == rest;
    assert SplitAt(text, bytes, n, |b|);
  }

  /** A literal is decoded to these bytes exactly when its text denotes them. */
  lemma LiteralExactly(s: seq<Byte>, i: nat, bytes: seq<Byte>, n: nat)
    requires i <= |s|
    ensures Decode(s, i) == Closed(bytes, n) <==> i < n <= |s| && s[n - 1] == 0x22 && Denotes(s[i..n - 1], bytes)
    ensures Decode(s, i) == Unterminated(bytes, n) <==> i <= n <= |s| && At(s, n) == 0 && Denotes(s[i..n], bytes)
  {
    if !Decode(s, i).Invalid? {
      DecodedIsWritten(s, i);
    }
    if i < n <= |s| && s[n - 1] == 0x22 && Denotes(s[i..n - 1], bytes) {
      DecodeOfWritten(s, i, n - 1, bytes);
      assert bytes + [] == bytes;
    }
    if i <= n <= |s| && At(s, n) == 0 && Denotes(s[i..n], bytes) {
      DecodeOfWritten(s, i, n, bytes);
      assert bytes + [] == bytes;
    }
  }

  /** What is wrong at position p of a literal. */
  ghost predicate Fault(s: seq<Byte>, p: nat, e: Error) {
    match e
    case ControlCharacter => 0 < At(s, p) < 0x20
    case BadCodepoint => At(s, p) == 0x5C && At(s, p + 1) == 0x75 && exists j :: p + 2 <= j < p + 6 && NoHexAt(s, j)
    case BadEscape => At(s, p) == 0x5C && At(s, p + 1) != 0x75 && NoShortEscape(At(s, p + 1))
  }

  ghost predicate NoHexAt(s: seq<Byte>, j: nat) {
    forall d: nat :: !IsHex(At(s, j), d)
  }

  ghost predicate NoShortEscape(c: Byte) {
    forall b: Byte :: !ShortEscape(c, b)
  }

  lemma NoHexExactly(s: seq<Byte>, j: nat)
    ensures NoHexAt(s, j) <==> HexDigit(At(s, j)).None?
  {
    forall d: nat ensures IsHex(At(s, j), d) <==> HexDigit(At(s, j)) == Some(d) {
      HexDigitExactly(At(s, j), d);
    }
    if HexDigit(At(s, j)).Some? {
      assert IsHex(At(s, j), HexDigit(At(s, j)).value);
    }
  }

  lemma NoShortExactly(c: Byte)
    ensures NoShortEscape(c) <==> Simple(c).None?
  {
    if Simple(c).Some? {
      SimpleExactly(c, Simple(c).value);
    }
    forall b: Byte ensures ShortEscape(c, b) <==> Simple(c) == Some(b) {
      SimpleExactly(c, b);
    }
  }

  lemma NotFourHex(s: seq<Byte>, i: nat)
    ensures Hex(s, i, 4).None? <==> exists j :: i <= j < i + 4 && NoHexAt(s, j)
  {
    HexSteps(s, i);
    NoHexExactly(s, i);
    NoHexExactly(s, i + 1);
    NoHexExactly(s, i + 2);
    NoHexExactly(s, i + 3);
  }

  lemma FaultExactly(s: seq<Byte>, p: nat, e: Error)
    requires At(s, p) != 0 && At(s, p) != 0x22
    ensures UnitAt(s, p) == Wrong(e) <==> Fault(s, p, e)
  {
    NotFourHex(s, p + 2);
    NoShortExactly(At(s, p + 1));
  }

  /** A literal is refused with this error exactly when a text stands before such a fault. */
  ghost predicate FaultBehind(s: seq<Byte>, i: nat, p: nat, bytes: seq<Byte>, e: Error) {
    i <= p < |s| && Denotes(s[i..p], bytes) && Fault(s, p, e)
  }

  lemma RefusedExactly(s: seq<Byte>, i: nat, e: Error)
    requires i <= |s|
    ensures Decode(s, i) == Invalid(e) <==> exists p, bytes :: FaultBehind(s, i, p, bytes, e)
  {
    if p, bytes :| FaultBehind(s, i, p, bytes, e) {
      DecodeOfWritten(s, i, p, bytes);
      FaultExactly(s, p, e);
      DecodeGoesOn(s, p);
    }
    if Decode(s, i) == Invalid(e) {
      var p, bytes := FindFault(s, i, e);
    }
  }

  lemma {:induction false} FindFault(s: seq<Byte>, i: nat, e: Error) returns (p: nat, bytes: seq<Byte>)
    requires i <= |s| && Decode(s, i) == Invalid(e)
    ensures FaultBehind(s, i, p, bytes, e)
    decreases |s| - i
  {
    DecodeGoesOn(s, i);
    var u := UnitAt(s, i);
    if u.Wrong? {
      p, bytes := i, [];
      FaultExactly(s, i, e);
      assert s[i..i] == [];
    } else {
      var rest;
      p, rest := FindFault(s, i + u.length, e);
      UnitExactly(s, i, u.bytes, u.length);
      OneMoreUnit(s, i, u.length, p, u.bytes, rest);
      bytes := u.bytes + rest;
    }
  }
}
