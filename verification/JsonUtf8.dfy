/** When the decoded strings of core/common/json_parser.cpp are well-formed UTF-8. */
module JsonUtf8 {
  import opened Options
  import opened JsonStrings

  // ----- well-formed byte sequences, section 4 of RFC 3629

  predicate IsTail(c: Byte) {
    0x80 <= c <= 0xBF
  }

  /** The second byte that a lead byte of a three-byte sequence allows: no overlong forms and
      no surrogates. */
  predicate SecondOfThree(lead: Byte, c: Byte) {
    || (lead == 0xE0 && 0xA0 <= c <= 0xBF)
    || (0xE1 <= lead <= 0xEC && IsTail(c))
    || (lead == 0xED && 0x80 <= c <= 0x9F)
    || (0xEE <= lead <= 0xEF && IsTail(c))
  }

  predicate SecondOfFour(lead: Byte, c: Byte) {
    || (lead == 0xF0 && 0x90 <= c <= 0xBF)
    || (0xF1 <= lead <= 0xF3 && IsTail(c))
    || (lead == 0xF4 && 0x80 <= c <= 0x8F)
  }

  /** The length of the sequence at the front of b, 0 if there is none. */
  function Front(b: seq<Byte>): (n: nat)
    ensures n <= |b| && n <= 4
  {
    var lead, c := At(b, 0), At(b, 1);
    if b == [] then 0
    else if lead < 0x80 then 1
    else if 0xC2 <= lead <= 0xDF && IsTail(c) then 2
    else if SecondOfThree(lead, c) && IsTail(At(b, 2)) then 3
    else if SecondOfFour(lead, c) && IsTail(At(b, 2)) && IsTail(At(b, 3)) then 4
    else 0
  }

  ghost predicate WellFormed(b: seq<Byte>)
    decreases |b|
  {
    b == [] || (Front(b) > 0 && WellFormed(b[Front(b)..]))
  }

  predicate IsSurrogate(cp: nat) {
    0xD800 <= cp <= 0xDFFF
  }

  lemma FrontOfUtf8(cp: nat, rest: seq<Byte>)
    requires cp <= 0xFFFF
    ensures Front(Utf8(cp) + rest) == if IsSurrogate(cp) then 0 else |Utf8(cp)|
  {
    var u := Utf8(cp);
    assert forall k: nat :: k < |u| ==> At(u + rest, k) == u[k];
    if cp > 0x7FF {
      LeadAndSecond(cp);
    }
  }

  lemma LeadAndSecond(cp: nat)
    requires 0x7FF < cp <= 0xFFFF
    ensures SecondOfThree(0xE0 + cp / 4096, 0x80 + cp / 64 % 64) <==> !IsSurrogate(cp)
  {
    var q, m := cp / 4096, cp / 64 % 64;
    assert cp / 64 == 64 * q + m;
  }

  /** The bytes of a code point are well-formed exactly when it is not a surrogate. */
  lemma Utf8IsWellFormed(cp: nat)
    requires cp <= 0xFFFF
    ensures WellFormed(Utf8(cp)) <==> !IsSurrogate(cp)
  {
    FrontOfUtf8(cp, []);
    assert Utf8(cp) + [] == Utf8(cp);
    if !IsSurrogate(cp) {
      assert Utf8(cp)[|Utf8(cp)|..] == [];
    }
  }

  lemma Digits64(q: nat, r: nat)
    requires r < 64
    ensures (q * 64 + r) / 64 == q && (q * 64 + r) % 64 == r
  {
  }

  lemma Utf8OfTwo(b: seq<Byte>)
    requires |b| == 2 && Front(b) == 2
    ensures var cp := Utf8Decode(b).value; !IsSurrogate(cp) && cp <= 0xFFFF && Utf8(cp) == b
  {
    Digits64(b[0] - 0xC0, b[1] - 0x80);
  }

  lemma Utf8OfThree(b: seq<Byte>)
    requires |b| == 3 && Front(b) == 3
    ensures var cp := Utf8Decode(b).value; cp <= 0xFFFF && Utf8(cp) == b
  {
    var lead, c, d: nat := b[0] - 0xE0, b[1] - 0x80, b[2] - 0x80;
    var cp := lead * 4096 + c * 64 + d;
    Digits64(lead * 64 + c, d);
    Digits64(lead, c);
    assert cp / 4096 == lead;
  }

  /** One well-formed sequence of up to three bytes is the encoding of the code point it
      decodes to, and of no other. */
  lemma Utf8IsExact(b: seq<Byte>, cp: nat)
    requires 1 <= |b| <= 3
    ensures Front(b) == |b| && Utf8Decode(b) == Some(cp)
            <==> cp <= 0xFFFF && !IsSurrogate(cp) && Utf8(cp) == b
  {
    if cp <= 0xFFFF && Utf8(cp) == b {
      FrontOfUtf8(cp, []);
      assert Utf8(cp) + [] == b;
      Utf8RoundTrip(cp);
    } else if Front(b) == |b| && Utf8Decode(b) == Some(cp) {
      if |b| == 2 {
        Utf8OfTwo(b);
      } else if |b| == 3 {
        Utf8OfThree(b);
      }
    }
  }

  lemma SequenceFirst(a: seq<Byte>, b: seq<Byte>)
    requires Front(a + b) == |a| > 0
    ensures WellFormed(a + b) <==> WellFormed(b)
  {
    assert (a + b)[|a|..] == b;
  }

  lemma {:induction false} AsciiFirst(a: seq<Byte>, b: seq<Byte>)
    requires forall k :: 0 <= k < |a| ==> a[k] < 0x80
    ensures WellFormed(a + b) <==> WellFormed(b)
  {
    if a == [] {
      assert a + b == b;
    } else {
      assert a + b == [a[0]] + (a[1..] + b);
      SequenceFirst([a[0]], a[1..] + b);
      AsciiFirst(a[1..], b);
    }
  }

  // ----- the text of a literal and its decoded bytes

  /** The characters between the quotes of a literal that is closed. */
  ghost function RawText(s: seq<Byte>, i: nat): seq<Byte>
    requires Decode(s, i).Closed?
    decreases |s| - i
  {
    if s[i] == QUOTE then []
    else
      var u := UnitAt(s, i);
      s[i..i + u.length] + RawText(s, i + u.length)
  }

  /** No \\u escape of the literal denotes a surrogate. */
  ghost predicate NoSurrogates(s: seq<Byte>, i: nat)
    requires Decode(s, i).Closed?
    decreases |s| - i
  {
    s[i] == QUOTE ||
    var u := UnitAt(s, i);
    (IsCodepoint(s, i) ==> !IsSurrogate(Hex(s, i + 2, 4).value)) && NoSurrogates(s, i + u.length)
  }

  predicate IsCodepoint(s: seq<Byte>, i: nat) {
    At(s, i) == BACKSLASH && At(s, i + 1) == 0x75 && Hex(s, i + 2, 4).Some?
  }

  ghost function Bytes(s: seq<Byte>, i: nat): seq<Byte>
    requires Decode(s, i).Closed?
  {
    Decode(s, i).bytes
  }

  /** A literal before its closing quote: one unit, then the rest. */
  lemma OneUnit(s: seq<Byte>, i: nat)
    requires Decode(s, i).Closed? && s[i] != QUOTE
    ensures var u := UnitAt(s, i);
            && u.Bytes? && i + u.length <= |s| && Decode(s, i + u.length).Closed?
            && Decode(s, i).next == Decode(s, i + u.length).next
            && Bytes(s, i) == u.bytes + Bytes(s, i + u.length)
            && RawText(s, i) == s[i..i + u.length] + RawText(s, i + u.length)
            && (NoSurrogates(s, i) <==>
                (IsCodepoint(s, i) ==> !IsSurrogate(Hex(s, i + 2, 4).value)) && NoSurrogates(s, i + u.length))
  {
  }

  lemma EmptyText(s: seq<Byte>, i: nat)
    requires Decode(s, i).Closed? && s[i] == QUOTE
    ensures i < |s| && Decode(s, i) == Closed([], i + 1) && RawText(s, i) == s[i..i]
  {
  }

  lemma TextUnit(s: seq<Byte>, i: nat, next: nat)
    requires Decode(s, i).Closed? && s[i] != QUOTE && next == i + UnitAt(s, i).length
    ensures i < next <= |s| && Decode(s, next).Closed? && Decode(s, i).next == Decode(s, next).next
    ensures RawText(s, i) == s[i..next] + RawText(s, next)
  {
    OneUnit(s, i);
  }

  /** RawText is what stands before the closing quote. */
  lemma {:induction false} RawTextIsSlice(s: seq<Byte>, i: nat)
    requires Decode(s, i).Closed?
    ensures i < Decode(s, i).next <= |s| && RawText(s, i) == s[i..Decode(s, i).next - 1]
    decreases |s| - i
  {
    if s[i] == QUOTE {
      EmptyText(s, i);
    } else {
      var next, end := i + UnitAt(s, i).length, Decode(s, i).next - 1;
      TextUnit(s, i, next);
      RawTextIsSlice(s, next);
      SlicesJoin(s, i, next, end, RawText(s, next));
    }
  }

  lemma SlicesJoin(s: seq<Byte>, i: nat, j: nat, k: int, rest: seq<Byte>)
    requires i <= j <= k <= |s| && rest == s[j..k]
    ensures s[i..j] + rest == s[i..k]
  {
  }

  predicate IsRaw(s: seq<Byte>, i: nat) {
    At(s, i) >= 0x80
  }

  lemma RawUnit(s: seq<Byte>, i: nat)
    requires Decode(s, i).Closed? && IsRaw(s, i)
    ensures Decode(s, i + 1).Closed?
    ensures Bytes(s, i) == [s[i]] + Bytes(s, i + 1) && RawText(s, i) == [s[i]] + RawText(s, i + 1)
    ensures NoSurrogates(s, i) <==> NoSurrogates(s, i + 1)
  {
    OneUnit(s, i);
    assert s[i..i + 1] == [s[i]];
  }

  /** n raw bytes of a literal stand for themselves. */
  ghost predicate StandForThemselves(s: seq<Byte>, i: nat, n: nat)
    requires Decode(s, i).Closed?
  {
    && i + n <= |s| && Decode(s, i + n).Closed?
    && Bytes(s, i) == s[i..i + n] + Bytes(s, i + n) && RawText(s, i) == s[i..i + n] + RawText(s, i + n)
    && (NoSurrogates(s, i) <==> NoSurrogates(s, i + n))
  }

  lemma {:induction false} RawUnits(s: seq<Byte>, i: nat, n: nat)
    requires Decode(s, i).Closed? && forall k :: i <= k < i + n ==> IsRaw(s, k)
    ensures StandForThemselves(s, i, n)
    decreases n
  {
    if n == 0 {
      assert s[i..i] == [];
    } else {
      assert IsRaw(s, i);
      RawUnit(s, i);
      RawUnits(s, i + 1, n - 1);
      OneMore(s, i, n);
    }
  }

  lemma OneMore(s: seq<Byte>, i: nat, n: nat)
    requires Decode(s, i).Closed? && n > 0 && i < |s| && Decode(s, i + 1).Closed?
    requires Bytes(s, i) == [s[i]] + Bytes(s, i + 1) && RawText(s, i) == [s[i]] + RawText(s, i + 1)
    requires (NoSurrogates(s, i) <==> NoSurrogates(s, i + 1)) && StandForThemselves(s, i + 1, n - 1)
    ensures StandForThemselves(s, i, n)
  {
    var next := i + n;
    assert i + 1 + (n - 1) == next;
    Joined(s, i, next, Bytes(s, next));
    Joined(s, i, next, RawText(s, next));
  }

  lemma Joined(s: seq<Byte>, i: nat, next: nat, rest: seq<Byte>)
    requires i < next <= |s|
    ensures [s[i]] + (s[i + 1..next] + rest) == s[i..next] + rest
  {
  }

  /** What an escape stands for begins with no tail byte, as does the escape. */
  lemma FirstBytes(s: seq<Byte>, i: nat)
    requires Decode(s, i).Closed?
    ensures At(RawText(s, i), 0) == if s[i] == QUOTE then 0 else s[i]
    ensures IsRaw(s, i) ==> At(Bytes(s, i), 0) == s[i]
    ensures !IsRaw(s, i) ==> !IsTail(At(Bytes(s, i), 0)) && !IsTail(At(RawText(s, i), 0))
  {
    if s[i] != QUOTE {
      OneUnit(s, i);
      if !IsRaw(s, i) {
        EscapeIsAscii(s, i);
      }
    }
  }

  /** b is c behind one more byte, as far as Front looks. */
  predicate Shifted(b: seq<Byte>, c: seq<Byte>) {
    At(b, 1) == At(c, 0) && At(b, 2) == At(c, 1) && At(b, 3) == At(c, 2)
  }

  /** Where both are tail bytes they are the same raw byte. */
  ghost predicate Alike(c: Byte, d: Byte) {
    c == d || (!IsTail(c) && !IsTail(d))
  }

  lemma SecondIsAlike(s: seq<Byte>, i: nat)
    requires Decode(s, i).Closed? && IsRaw(s, i)
    ensures Decode(s, i + 1).Closed?
    ensures Shifted(Bytes(s, i), Bytes(s, i + 1)) && Shifted(RawText(s, i), RawText(s, i + 1))
    ensures Alike(At(Bytes(s, i), 1), At(RawText(s, i), 1))
    ensures IsTail(At(RawText(s, i), 1)) ==> IsRaw(s, i + 1)
  {
    RawUnit(s, i);
    FirstBytes(s, i + 1);
  }

  lemma ThirdIsAlike(s: seq<Byte>, i: nat)
    requires Decode(s, i).Closed? && IsRaw(s, i) && IsTail(At(RawText(s, i), 1))
    ensures Alike(At(Bytes(s, i), 2), At(RawText(s, i), 2))
    ensures IsTail(At(RawText(s, i), 2)) ==> IsRaw(s, i + 2)
  {
    SecondIsAlike(s, i);
    SecondIsAlike(s, i + 1);
  }

  lemma FourthIsAlike(s: seq<Byte>, i: nat)
    requires Decode(s, i).Closed? && IsRaw(s, i) && IsTail(At(RawText(s, i), 1)) && IsTail(At(RawText(s, i), 2))
    ensures Alike(At(Bytes(s, i), 3), At(RawText(s, i), 3))
    ensures IsTail(At(RawText(s, i), 3)) ==> IsRaw(s, i + 3)
  {
    SecondIsAlike(s, i);
    SecondIsAlike(s, i + 1);
    ThirdIsAlike(s, i + 1);
  }

  lemma FrontsAgree(b: seq<Byte>, c: seq<Byte>)
    requires b != [] && c != [] && At(b, 0) == At(c, 0) >= 0x80 && Alike(At(b, 1), At(c, 1))
    requires IsTail(At(c, 1)) ==> Alike(At(b, 2), At(c, 2))
    requires IsTail(At(c, 1)) && IsTail(At(c, 2)) ==> Alike(At(b, 3), At(c, 3))
    ensures Front(b) == Front(c)
    ensures Front(c) > 1 ==> IsTail(At(c, 1))
    ensures Front(c) > 2 ==> IsTail(At(c, 2))
    ensures Front(c) > 3 ==> IsTail(At(c, 3))
  {
  }

  /** At a raw lead byte the literal's text and its decoded bytes begin with the same sequence. */
  lemma SameFront(s: seq<Byte>, i: nat)
    requires Decode(s, i).Closed? && IsRaw(s, i)
    ensures Front(Bytes(s, i)) == Front(RawText(s, i))
    ensures forall k :: i <= k < i + Front(RawText(s, i)) ==> IsRaw(s, k)
  {
    var b, c := Bytes(s, i), RawText(s, i);
    FirstBytes(s, i);
    RawUnit(s, i);
    SecondIsAlike(s, i);
    if IsTail(At(c, 1)) {
      ThirdIsAlike(s, i);
      if IsTail(At(c, 2)) {
        FourthIsAlike(s, i);
      }
    }
    FrontsAgree(b, c);
  }

  /** The claim of DecodedIsWellFormed. */
  ghost predicate Agrees(s: seq<Byte>, i: nat)
    requires Decode(s, i).Closed?
  {
    WellFormed(Bytes(s, i)) <==> WellFormed(RawText(s, i)) && NoSurrogates(s, i)
  }

  lemma RawSequence(s: seq<Byte>, i: nat, n: nat)
    requires Decode(s, i).Closed? && IsRaw(s, i) && n == Front(RawText(s, i)) > 0
    ensures i + n <= |s| && Decode(s, i + n).Closed? && (Agrees(s, i) <==> Agrees(s, i + n))
  {
    SameFront(s, i);
    RawUnits(s, i, n);
    SequenceFirst(s[i..i + n], Bytes(s, i + n));
    SequenceFirst(s[i..i + n], RawText(s, i + n));
  }

  lemma NoSequence(s: seq<Byte>, i: nat)
    requires Decode(s, i).Closed? && IsRaw(s, i) && Front(RawText(s, i)) == 0
    ensures Agrees(s, i)
  {
    SameFront(s, i);
    FirstBytes(s, i);
  }

  lemma EscapeIsAscii(s: seq<Byte>, i: nat)
    requires At(s, i) != 0 && At(s, i) != QUOTE && !IsRaw(s, i) && UnitAt(s, i).Bytes?
    ensures var u := UnitAt(s, i);
            && (forall k :: i <= k < i + u.length ==> At(s, k) < 0x80)
            && if IsCodepoint(s, i) then Hex(s, i + 2, 4).value <= 0xFFFF && u.bytes == Utf8(Hex(s, i + 2, 4).value)
               else |u.bytes| == 1 && u.bytes[0] < 0x80
  {
    if IsCodepoint(s, i) {
      HexFour(s, i + 2);
      HexIsAscii(s, i + 2, 4);
    }
  }

  lemma {:induction false} HexIsAscii(s: seq<Byte>, i: nat, n: nat)
    requires Hex(s, i, n).Some?
    ensures forall k :: i <= k < i + n ==> At(s, k) < 0x80
  {
    if n > 0 {
      HexIsAscii(s, i, n - 1);
    }
  }

  lemma TextBehindAscii(s: seq<Byte>, i: nat, next: nat)
    requires Decode(s, i).Closed? && s[i] != QUOTE && !IsRaw(s, i) && next == i + UnitAt(s, i).length
    ensures next <= |s| && Decode(s, next).Closed?
    ensures WellFormed(RawText(s, i)) <==> WellFormed(RawText(s, next))
  {
    OneUnit(s, i);
    EscapeIsAscii(s, i);
    forall k | 0 <= k < next - i ensures s[i..next][k] < 0x80 {
      assert s[i..next][k] == At(s, i + k);
    }
    AsciiFirst(s[i..next], RawText(s, next));
  }

  lemma BytesBehindAscii(s: seq<Byte>, i: nat, next: nat)
    requires Decode(s, i).Closed? && s[i] != QUOTE && !IsRaw(s, i) && next == i + UnitAt(s, i).length
    ensures next <= |s| && Decode(s, next).Closed?
    ensures WellFormed(Bytes(s, i)) <==>
            WellFormed(Bytes(s, next)) && (IsCodepoint(s, i) ==> !IsSurrogate(Hex(s, i + 2, 4).value))
  {
    var u, rest := UnitAt(s, i), Bytes(s, next);
    OneUnit(s, i);
    EscapeIsAscii(s, i);
    if IsCodepoint(s, i) {
      CodepointFirst(Hex(s, i + 2, 4).value, rest);
    } else {
      AsciiFirst(u.bytes, rest);
    }
  }

  lemma CodepointFirst(cp: nat, rest: seq<Byte>)
    requires cp <= 0xFFFF
    ensures WellFormed(Utf8(cp) + rest) <==> WellFormed(rest) && !IsSurrogate(cp)
  {
    FrontOfUtf8(cp, rest);
    if !IsSurrogate(cp) {
      SequenceFirst(Utf8(cp), rest);
    }
  }

  lemma AsciiUnit(s: seq<Byte>, i: nat, next: nat)
    requires Decode(s, i).Closed? && s[i] != QUOTE && !IsRaw(s, i) && next == i + UnitAt(s, i).length
    ensures next <= |s| && Decode(s, next).Closed? && (Agrees(s, next) ==> Agrees(s, i))
  {
    TextBehindAscii(s, i, next);
    BytesBehindAscii(s, i, next);
    assert NoSurrogates(s, i) <==>
           (IsCodepoint(s, i) ==> !IsSurrogate(Hex(s, i + 2, 4).value)) && NoSurrogates(s, next) by {
      OneUnit(s, i);
    }
  }

  /** The decoded bytes of a literal are well-formed UTF-8 exactly when its text is and none of
      its \\u escapes denotes a surrogate: pairs of them are not combined. */
  lemma {:induction false} DecodedIsWellFormed(s: seq<Byte>, i: nat)
    requires Decode(s, i).Closed?
    ensures WellFormed(Bytes(s, i)) <==> WellFormed(RawText(s, i)) && NoSurrogates(s, i)
    decreases |s| - i
  {
    if s[i] != QUOTE {
      if !IsRaw(s, i) {
        var next := i + UnitAt(s, i).length;
        AsciiUnit(s, i, next);
        DecodedIsWellFormed(s, next);
      } else if Front(RawText(s, i)) > 0 {
        var n := Front(RawText(s, i));
        RawSequence(s, i, n);
        DecodedIsWellFormed(s, i + n);
      } else {
        NoSequence(s, i);
      }
    }
  }
}
