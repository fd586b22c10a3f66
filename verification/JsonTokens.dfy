/** How each token of a JSON text is written, and that the lexer finds exactly these. */
module JsonTokens {
  import opened JsonStrings
  import opened JsonText
  import opened JsonDoc
  import opened JsonSpelling
  import opened JsonAccept

  // ----- white space

  predicate Blank(c: Byte) {
    c == 0x20 || c == 0x09 || c == 0x0D || c == 0x0A
  }

  ghost predicate AllBlank(u: seq<Byte>) {
    forall k :: 0 <= k < |u| ==> Blank(u[k])
  }

  /** Blanks stand from i up to j and no further. */
  ghost predicate BlanksTo(s: seq<Byte>, i: nat, j: nat) {
    i <= j <= |s| && AllBlank(s[i..j]) && !Blank(At(s, j))
  }

  lemma {:induction false} SkipExactly(s: seq<Byte>, i: nat, j: nat)
    requires i <= |s|
    ensures SkipSpace(s, i) == j <==> BlanksTo(s, i, j)
    decreases |s| - i
  {
    if IsSpace(At(s, i)) {
      SkipExactly(s, i + 1, j);
      if i < j <= |s| {
        assert s[i..j] == [s[i]] + s[i + 1..j];
      }
    } else if i < j <= |s| {
      assert s[i..j][0] == s[i];
    }
  }

  // ----- numbers, section 6 of RFC 8259, with leading zeros and missing digits

  predicate Digit(c: Byte) {
    0x30 <= c <= 0x39
  }

  ghost predicate AllDigits(u: seq<Byte>) {
    forall k :: 0 <= k < |u| ==> Digit(u[k])
  }

  function DigitValue(c: Byte): int {
    c as int - 0x30
  }

  function Value(u: seq<Byte>): (v: int) {
    if u == [] then 0 else 10 * Value(u[..|u| - 1]) + DigitValue(u[|u| - 1])
  }

  /** A minus sign or none, then digits; not both missing. */
  ghost predicate Whole(u: seq<Byte>) {
    u != [] && AllDigits(if u[0] == 0x2D then u[1..] else u)
  }

  ghost predicate IntSpelling(u: seq<Byte>, number: int) {
    Whole(u) && number == if u[0] == 0x2D then -Value(u[1..]) else Value(u)
  }

  /** Nothing, or a point and digits. */
  ghost predicate Fraction(u: seq<Byte>) {
    u == [] || (u[0] == 0x2E && AllDigits(u[1..]))
  }

  /** Nothing, or an e, a sign or none, and digits. */
  ghost predicate Exponent(u: seq<Byte>) {
    u == [] ||
    ((u[0] == 0x65 || u[0] == 0x45) &&
     AllDigits(if |u| > 1 && (u[1] == 0x2D || u[1] == 0x2B) then u[2..] else u[1..]))
  }

  /** Cut at a and b, the text from i to n is a whole number, a fraction and an exponent, the
      last two not both empty. */
  ghost predicate CutAt(s: seq<Byte>, i: nat, a: nat, b: nat, n: nat) {
    i <= a <= b <= n <= |s| && a < n && Whole(s[i..a]) && Fraction(s[a..b]) && Exponent(s[b..n])
  }

  ghost predicate FloatSpelling(s: seq<Byte>, i: nat, n: nat) {
    exists a: nat, b: nat :: CutAt(s, i, a, b, n)
  }

  /** What ends a number. */
  predicate Delimits(c: Byte) {
    Blank(c) || c == 0x2C || c == 0x5D || c == 0x7D
  }

  // ----- tokens

  /** s has the token t from i up to n. */
  ghost predicate Spelled(s: seq<Byte>, i: nat, n: nat, t: Token) {
    i < n <= |s| &&
    var u := s[i..n];
    match t
    case Open(curly) => u == if curly then [0x7B] else [0x5B]
    case Close(curly) => u == if curly then [0x7D] else [0x5D]
    case Colon => u == [0x3A]
    case Comma => u == [0x2C]
    case Null => u == [0x6E, 0x75, 0x6C, 0x6C]
    case Bool(value) => u == if value then [0x74, 0x72, 0x75, 0x65] else [0x66, 0x61, 0x6C, 0x73, 0x65]
    case Int(number) => n < |s| && Delimits(s[n]) && IntSpelling(u, number)
    case Float => n < |s| && Delimits(s[n]) && FloatSpelling(s, i, n)
    case Str(at, bytes) =>
      && at == i + 1 && u[0] == 0x22
      && (|| (n >= i + 2 && s[n - 1] == 0x22 && Denotes(s[i + 1..n - 1], bytes))
          || (At(s, n) == 0 && Denotes(s[i + 1..n], bytes)))
  }

  lemma {:induction false} DigitsRun(s: seq<Byte>, i: nat, last: nat, j: nat)
    requires i <= j <= last <= |s|
    ensures DigitsEnd(s, i, last) == j <==> AllDigits(s[i..j]) && (j < last ==> !Digit(s[j]))
    decreases last - i
  {
    if i < last && IsDigit(s[i]) {
      if i < j {
        DigitsRun(s, i + 1, last, j);
        assert s[i..j] == [s[i]] + s[i + 1..j];
      }
    } else if i < j {
      assert s[i..j][0] == s[i];
    }
  }

  lemma {:induction false} DecimalIsValue(s: seq<Byte>, i: nat, j: nat)
    requires i <= j <= |s| && forall k :: i <= k < j ==> IsDigit(s[k])
    ensures Decimal(s, i, j) == Value(s[i..j])
    decreases j - i
  {
    if i < j {
      DecimalIsValue(s, i, j - 1);
      assert s[i..j][..j - i - 1] == s[i..j - 1];
    }
  }

  lemma {:induction false} NumberRun(s: seq<Byte>, i: nat, n: nat)
    requires i <= n <= |s|
    ensures NumberEnd(s, i) == n <==>
            (forall k :: i <= k < n ==> !Delimits(s[k])) && (n < |s| ==> Delimits(s[n]))
    decreases |s| - i
  {
    if i < |s| && !IsDelimiter(s[i]) && i < n {
      NumberRun(s, i + 1, n);
    }
  }

  ghost predicate Plain(u: seq<Byte>) {
    forall k :: 0 <= k < |u| ==> !Delimits(u[k])
  }

  lemma WholeIsPlain(u: seq<Byte>)
    requires Whole(u)
    ensures Plain(u) && forall k :: 0 <= k < |u| ==> u[k] != 0x2E && u[k] != 0x65 && u[k] != 0x45
  {
    var d := if u[0] == 0x2D then u[1..] else u;
    forall k | 0 <= k < |u| ensures u[k] == 0x2D || Digit(u[k]) {
      assert u[0] == 0x2D && k > 0 ==> u[k] == d[k - 1];
      assert u[0] != 0x2D ==> u[k] == d[k];
    }
  }

  lemma FractionIsPlain(u: seq<Byte>)
    requires Fraction(u)
    ensures Plain(u)
  {
    forall k | 0 < k < |u| ensures Digit(u[k]) {
      assert u[k] == u[1..][k - 1];
    }
  }

  lemma ExponentIsPlain(u: seq<Byte>)
    requires Exponent(u)
    ensures Plain(u)
  {
    if |u| > 1 && (u[1] == 0x2D || u[1] == 0x2B) {
      forall k | 2 <= k < |u| ensures Digit(u[k]) {
        assert u[k] == u[2..][k - 2];
      }
    } else {
      forall k | 1 <= k < |u| ensures Digit(u[k]) {
        assert u[k] == u[1..][k - 1];
      }
    }
  }

  /** An integer token is what Atoi reads up to the delimiter. */
  lemma IntExactly(s: seq<Byte>, i: nat, last: nat, number: int)
    requires i < last <= |s| && s[i] != 0x2B
    ensures var first := SignEnd(s, i, last);
            IntSpelling(s[i..last], number) <==>
            && DigitsEnd(s, first, last) == last
            && number == if s[i] == 0x2D then -Value(s[first..last]) else Value(s[first..last])
  {
    var u, first := s[i..last], SignEnd(s, i, last);
    assert u[0] == s[i] && u[1..] == s[i + 1..last];
    DigitsRun(s, first, last, last);
  }

  // ----- floats

  lemma WholeRun(s: seq<Byte>, i: nat, last: nat, a: nat)
    requires i < a <= last <= |s| && s[i] != 0x2B
    ensures DigitsEnd(s, SignEnd(s, i, last), last) == a <==> Whole(s[i..a]) && (a < last ==> !Digit(s[a]))
  {
    assert s[i..a][0] == s[i] && s[i..a][1..] == s[i + 1..a];
    DigitsRun(s, SignEnd(s, i, last), last, a);
  }

  /** The end of the fraction that starts at a. */
  function FractionEnd(s: seq<Byte>, a: nat, last: nat): (b: nat)
    requires a <= last <= |s|
    ensures a <= b <= last
  {
    if a < last && s[a] == 0x2E then DigitsEnd(s, a + 1, last) else a
  }

  function ExponentEnd(s: seq<Byte>, b: nat, last: nat): (e: nat)
    requires b <= last <= |s|
    ensures b <= e <= last
  {
    if b < last && (s[b] == 0x65 || s[b] == 0x45) then DigitsEnd(s, SignEnd(s, b + 1, last), last) else b
  }

  lemma FractionRun(s: seq<Byte>, a: nat, last: nat, b: nat)
    requires a <= b <= last <= |s|
    ensures Fraction(s[a..b]) && (b < last ==> s[b] == 0x65 || s[b] == 0x45) ==> FractionEnd(s, a, last) == b
    ensures FractionEnd(s, a, last) == b ==> Fraction(s[a..b])
  {
    if a < b {
      assert s[a..b][0] == s[a] && s[a..b][1..] == s[a + 1..b];
      DigitsRun(s, a + 1, last, b);
    }
  }

  lemma ExponentRun(s: seq<Byte>, b: nat, last: nat)
    requires b <= last <= |s|
    ensures ExponentEnd(s, b, last) == last <==> Exponent(s[b..last])
    ensures Exponent(s[b..last]) && b < last ==> s[b] == 0x65 || s[b] == 0x45
  {
    if b < last {
      var u := s[b..last];
      assert u[0] == s[b] && u[1..] == s[b + 1..last];
      if |u| > 1 {
        assert u[1] == s[b + 1] && u[2..] == s[b + 2..last];
      }
      DigitsRun(s, SignEnd(s, b + 1, last), last, last);
    }
  }

  lemma FloatEndIs(s: seq<Byte>, i: nat, last: nat)
    requires i <= last <= |s|
    ensures FloatEnd(s, i, last) == ExponentEnd(s, FractionEnd(s, DigitsEnd(s, SignEnd(s, i, last), last), last), last)
  {
  }

  lemma CutIsScanned(s: seq<Byte>, i: nat, a: nat, b: nat, last: nat)
    requires CutAt(s, i, a, b, last) && (s[i] == 0x2D || Digit(s[i]))
    ensures LooksFloat(s, i, last) && FloatEnd(s, i, last) == last
  {
    FloatEndIs(s, i, last);
    ExponentRun(s, b, last);
    FractionRun(s, a, last, b);
    assert a < b ==> s[a..b][0] == s[a];
    WholeRun(s, i, last, a);
  }

  lemma ScannedIsCut(s: seq<Byte>, i: nat, last: nat) returns (a: nat, b: nat)
    requires i < last <= |s| && (s[i] == 0x2D || Digit(s[i]))
    requires LooksFloat(s, i, last) && FloatEnd(s, i, last) == last
    ensures CutAt(s, i, a, b, last)
  {
    FloatEndIs(s, i, last);
    a := DigitsEnd(s, SignEnd(s, i, last), last);
    b := FractionEnd(s, a, last);
    FirstTaken(s, i, last);
    WholeRun(s, i, last, a);
    FractionRun(s, a, last, b);
    ExponentRun(s, b, last);
    if a == last {
      WholeIsNoFloat(s, i, last);
    }
  }

  lemma FirstTaken(s: seq<Byte>, i: nat, last: nat)
    requires i < last <= |s| && (s[i] == 0x2D || Digit(s[i]))
    ensures i < DigitsEnd(s, SignEnd(s, i, last), last)
  {
  }

  lemma WholeIsNoFloat(s: seq<Byte>, i: nat, last: nat)
    requires i <= last <= |s| && Whole(s[i..last])
    ensures !LooksFloat(s, i, last)
  {
    WholeIsPlain(s[i..last]);
    forall k | i <= k < last ensures s[k] != 0x2E && s[k] != 0x65 && s[k] != 0x45 {
      assert s[k] == s[i..last][k - i];
    }
  }

  /** A float token is what AtofEnd reads up to the delimiter. */
  lemma FloatExactly(s: seq<Byte>, i: nat, last: nat)
    requires i < last <= |s| && (s[i] == 0x2D || Digit(s[i]))
    ensures LooksFloat(s, i, last) && FloatEnd(s, i, last) == last <==> FloatSpelling(s, i, last)
  {
    if FloatSpelling(s, i, last) {
      var a: nat, b: nat :| CutAt(s, i, a, b, last);
      CutIsScanned(s, i, a, b, last);
    }
    if LooksFloat(s, i, last) && FloatEnd(s, i, last) == last {
      var a, b := ScannedIsCut(s, i, last);
    }
  }

  lemma FloatIsPlain(s: seq<Byte>, i: nat, n: nat)
    requires FloatSpelling(s, i, n)
    ensures forall k :: i <= k < n ==> !Delimits(s[k])
  {
    var a: nat, b: nat :| CutAt(s, i, a, b, n);
    WholeIsPlain(s[i..a]);
    FractionIsPlain(s[a..b]);
    ExponentIsPlain(s[b..n]);
    PlainSlice(s, i, a);
    PlainSlice(s, a, b);
    PlainSlice(s, b, n);
  }

  lemma PlainSlice(s: seq<Byte>, i: nat, j: nat)
    requires i <= j <= |s| && Plain(s[i..j])
    ensures forall k :: i <= k < j ==> !Delimits(s[k])
  {
    forall k | i <= k < j ensures !Delimits(s[k]) {
      assert s[k] == s[i..j][k - i];
    }
  }

  lemma IntIsPlain(s: seq<Byte>, i: nat, n: nat)
    requires i <= n <= |s| && Whole(s[i..n])
    ensures forall k :: i <= k < n ==> !Delimits(s[k])
  {
    WholeIsPlain(s[i..n]);
    PlainSlice(s, i, n);
  }

  // ----- every token

  predicate IsNumber(t: Token) {
    t.Int? || t.Float?
  }

  lemma NumberIsSpelled(s: seq<Byte>, i: nat, t: Token, n: nat)
    requires i < |s| && (s[i] == 0x2D || Digit(s[i])) && NumberAt(s, i) == Tok(t, n)
    ensures IsNumber(t) && Spelled(s, i, n, t)
  {
    NumberRun(s, i, n);
    if t.Float? {
      FloatExactly(s, i, n);
    } else {
      var first := SignEnd(s, i, n);
      IntExactly(s, i, n, t.number);
      DigitsAreDigits(s, first, n);
      DecimalIsValue(s, first, n);
    }
  }

  lemma NumberIsLexed(s: seq<Byte>, i: nat, t: Token, n: nat)
    requires i < |s| && (s[i] == 0x2D || Digit(s[i])) && IsNumber(t) && Spelled(s, i, n, t)
    ensures NumberAt(s, i) == Tok(t, n)
  {
    if t.Float? {
      FloatIsPlain(s, i, n);
      FloatExactly(s, i, n);
    } else {
      var first := SignEnd(s, i, n);
      IntIsPlain(s, i, n);
      IntExactly(s, i, n, t.number);
      DigitsAreDigits(s, first, n);
      DecimalIsValue(s, first, n);
      WholeIsNoFloat(s, i, n);
    }
    NumberRun(s, i, n);
  }

  lemma StringExactly(s: seq<Byte>, i: nat, t: Token, n: nat)
    requires i < |s| && s[i] == 0x22
    ensures StringAt(s, i) == Tok(t, n) <==> t.Str? && Spelled(s, i, n, t)
  {
    if t.Str? {
      LiteralExactly(s, i + 1, t.bytes, n);
    }
    if i < n <= |s| {
      assert s[i..n][0] == s[i];
    }
  }

  lemma SliceStarts(s: seq<Byte>, i: nat, n: nat, w: seq<Byte>)
    requires i < n <= |s| && s[i..n] == w
    ensures |w| == n - i && s[i] == w[0] && Word(s, i, w)
  {
    forall k | 0 <= k < |w| ensures At(s, i + k) == w[k] {
      assert s[i..n][k] == s[i + k];
    }
  }

  lemma WordIsSlice(s: seq<Byte>, i: nat, w: seq<Byte>)
    requires Word(s, i, w) && w != [] && forall k :: 0 <= k < |w| ==> w[k] != 0
    ensures i + |w| <= |s| && s[i..i + |w|] == w
  {
    assert At(s, i + (|w| - 1)) == w[|w| - 1];
    forall k | 0 <= k < |w| ensures s[i + k] == w[k] {
      assert At(s, i + k) == w[k];
    }
  }

  /** Tokens other than strings and numbers: one fixed text each. */
  function Fixed(t: Token): seq<Byte>
    requires !t.Str? && !IsNumber(t)
  {
    match t
    case Open(curly) => if curly then [0x7B] else [0x5B]
    case Close(curly) => if curly then [0x7D] else [0x5D]
    case Colon => [0x3A]
    case Comma => [0x2C]
    case Null => [0x6E, 0x75, 0x6C, 0x6C]
    case Bool(value) => if value then [0x74, 0x72, 0x75, 0x65] else [0x66, 0x61, 0x6C, 0x73, 0x65]
  }

  lemma FixedExactly(s: seq<Byte>, i: nat, t: Token, n: nat)
    requires At(s, i) != 0 && !t.Str? && !IsNumber(t)
    ensures TokenAt(s, i) == Tok(t, n) <==> i < n <= |s| && s[i..n] == Fixed(t)
  {
    if i < n <= |s| && s[i..n] == Fixed(t) {
      SliceStarts(s, i, n, Fixed(t));
    }
    if TokenAt(s, i) == Tok(t, n) {
      if t.Null? || t.Bool? {
        WordIsSlice(s, i, Fixed(t));
      } else {
        assert s[i..i + 1] == [s[i]];
      }
    }
  }

  /** The lexer finds a token exactly where it is written. */
  lemma TokenExactly(s: seq<Byte>, i: nat, t: Token, n: nat)
    requires At(s, i) != 0
    ensures TokenAt(s, i) == Tok(t, n) <==> Spelled(s, i, n, t)
  {
    if !t.Str? && !IsNumber(t) {
      FixedExactly(s, i, t, n);
    } else {
      if Spelled(s, i, n, t) {
        StartsAs(s, i, n, t);
      }
      if s[i] == 0x22 {
        StringExactly(s, i, t, n);
      } else if s[i] == 0x2D || Digit(s[i]) {
        NumberExactly(s, i, t, n);
      }
    }
  }

  lemma NumberExactly(s: seq<Byte>, i: nat, t: Token, n: nat)
    requires i < |s| && (s[i] == 0x2D || Digit(s[i]))
    ensures NumberAt(s, i) == Tok(t, n) <==> IsNumber(t) && Spelled(s, i, n, t)
  {
    if NumberAt(s, i) == Tok(t, n) {
      NumberIsSpelled(s, i, t, n);
    }
    if IsNumber(t) && Spelled(s, i, n, t) {
      NumberIsLexed(s, i, t, n);
    }
  }

  lemma StartsAs(s: seq<Byte>, i: nat, n: nat, t: Token)
    requires Spelled(s, i, n, t)
    ensures t.Str? ==> s[i] == 0x22
    ensures IsNumber(t) ==> s[i] == 0x2D || Digit(s[i])
  {
    assert s[i..n][0] == s[i];
    if t.Int? {
      WholeStarts(s[i..n]);
    } else if t.Float? {
      var a: nat, b: nat :| CutAt(s, i, a, b, n);
      assert s[i..a][0] == s[i];
      WholeStarts(s[i..a]);
    }
  }

  lemma WholeStarts(u: seq<Byte>)
    requires Whole(u)
    ensures u[0] == 0x2D || Digit(u[0])
  {
  }

  /** The scan for the end of a number runs past the text exactly when no delimiter follows. */
  lemma RunawayExactly(s: seq<Byte>, i: nat)
    requires At(s, i) != 0
    ensures TokenAt(s, i).Runaway? <==>
            (s[i] == 0x2D || Digit(s[i])) && forall k :: i <= k < |s| ==> !Delimits(s[k])
  {
    NumberRun(s, i, |s|);
    NumberRun(s, i, NumberEnd(s, i));
  }

  // ----- whole texts

  /** From i on the text consists of these tokens, each followed by blanks, up to its end. */
  ghost predicate Consists(s: seq<Byte>, i: nat, ts: seq<Token>)
    decreases |ts|, 1
  {
    if ts == [] then At(s, i) == 0
    else exists n: nat, j: nat :: Spelled(s, i, n, ts[0]) && ConsistsFrom(s, n, j, ts)
  }

  ghost predicate ConsistsFrom(s: seq<Byte>, n: nat, j: nat, ts: seq<Token>)
    requires ts != []
    decreases |ts|, 0
  {
    BlanksTo(s, n, j) && Consists(s, j, ts[1..])
  }

  lemma SpelledStarts(s: seq<Byte>, i: nat, n: nat, t: Token)
    requires Spelled(s, i, n, t)
    ensures At(s, i) != 0
  {
    if !t.Str? && !IsNumber(t) {
      assert s[i..n] == Fixed(t);
      SliceStarts(s, i, n, Fixed(t));
    } else {
      StartsAs(s, i, n, t);
    }
  }

  lemma FirstToken(s: seq<Byte>, i: nat, ts: seq<Token>) returns (n: nat, j: nat)
    requires ts != [] && Consists(s, i, ts)
    ensures Spelled(s, i, n, ts[0]) && ConsistsFrom(s, n, j, ts)
  {
    n, j :| Spelled(s, i, n, ts[0]) && ConsistsFrom(s, n, j, ts);
  }

  lemma {:induction false} LexesExactly(s: seq<Byte>, i: nat, ts: seq<Token>)
    requires i <= |s|
    ensures Lexes(s, i, ts) <==> Consists(s, i, ts)
    decreases |ts|
  {
    if ts != [] && Lexes(s, i, ts) {
      var n := TokenAt(s, i).next;
      TokenExactly(s, i, ts[0], n);
      SkipExactly(s, n, SkipSpace(s, n));
      LexesExactly(s, SkipSpace(s, n), ts[1..]);
      assert ConsistsFrom(s, n, SkipSpace(s, n), ts);
    }
    if ts != [] && Consists(s, i, ts) {
      var n, j := FirstToken(s, i, ts);
      SpelledStarts(s, i, n, ts[0]);
      TokenExactly(s, i, ts[0], n);
      SkipExactly(s, n, j);
      LexesExactly(s, j, ts[1..]);
    }
  }

  /** A text is accepted, with these tokens, exactly when they are written there one after the
      other, without a blank in front, and are one balanced, kind-matched outermost pair of
      brackets, or none. */
  lemma AcceptedExactly(s: seq<Byte>, ts: seq<Token>)
    ensures Parse(s) == Done(ts) <==> Consists(s, 0, ts) && (ts == [] || Group(ts))
  {
    AcceptedTexts(s, ts);
    LexesExactly(s, 0, ts);
  }

  // ----- texts that are read past their end

  /** From i to j the text consists of these tokens, each followed by blanks. */
  ghost predicate UpTo(s: seq<Byte>, i: nat, ts: seq<Token>, j: nat)
    decreases |ts|, 1
  {
    if ts == [] then i == j
    else exists n: nat, k: nat :: Spelled(s, i, n, ts[0]) && UpToFrom(s, n, k, ts, j)
  }

  ghost predicate UpToFrom(s: seq<Byte>, n: nat, k: nat, ts: seq<Token>, j: nat)
    requires ts != []
    decreases |ts|, 0
  {
    BlanksTo(s, n, k) && UpTo(s, k, ts[1..], j)
  }

  /** A number begins at j that nothing ends. */
  ghost predicate EndlessNumber(s: seq<Byte>, j: nat) {
    j < |s| && (s[j] == 0x2D || Digit(s[j])) && forall k :: j <= k < |s| ==> !Delimits(s[k])
  }

  /** Behind these tokens, inside a container, stands an endless number. */
  ghost predicate EndlessBehind(s: seq<Byte>, i: nat, done: seq<Token>, ts: seq<Token>, j: nat) {
    UpTo(s, i, ts, j) && EndlessNumber(s, j) && Fold(done + ts).Some? && Fold(done + ts).value.top.Some?
  }

  lemma {:induction false} RanFinds(s: seq<Byte>, i: nat, done: seq<Token>) returns (ts: seq<Token>, j: nat)
    requires i <= |s| && Fold(done).Some? && ParseFrom(s, i, done) == Ran
    ensures EndlessBehind(s, i, done, ts, j)
    decreases |s| - i
  {
    ParseToken(s, i, done, Fold(done).value);
    if TokenAt(s, i).Runaway? {
      ts, j := [], i;
      RunawayExactly(s, i);
      assert done + [] == done;
    } else {
      var t, n := TokenAt(s, i).token, TokenAt(s, i).next;
      var k := SkipSpace(s, n);
      TokenExactly(s, i, t, n);
      SkipExactly(s, n, k);
      var more;
      more, j := RanFinds(s, k, done + [t]);
      ts := [t] + more;
      Assoc(done, [t], more);
      OneMoreUpTo(s, i, n, k, t, more, j);
    }
  }

  lemma OneMoreUpTo(s: seq<Byte>, i: nat, n: nat, k: nat, t: Token, more: seq<Token>, j: nat)
    requires Spelled(s, i, n, t) && BlanksTo(s, n, k) && UpTo(s, k, more, j)
    ensures UpTo(s, i, [t] + more, j)
  {
    assert ([t] + more)[1..] == more;
    assert UpToFrom(s, n, k, [t] + more, j);
  }

  lemma FirstUpTo(s: seq<Byte>, i: nat, ts: seq<Token>, j: nat) returns (n: nat, k: nat)
    requires ts != [] && UpTo(s, i, ts, j)
    ensures Spelled(s, i, n, ts[0]) && UpToFrom(s, n, k, ts, j)
  {
    n, k :| Spelled(s, i, n, ts[0]) && UpToFrom(s, n, k, ts, j);
  }

  lemma {:induction false} EndlessRuns(s: seq<Byte>, i: nat, done: seq<Token>, ts: seq<Token>, j: nat)
    requires i <= |s| && Fold(done).Some? && EndlessBehind(s, i, done, ts, j)
    ensures ParseFrom(s, i, done) == Ran
    decreases |ts|
  {
    if ts == [] {
      assert done + [] == done;
      RunawayExactly(s, i);
      ParseToken(s, i, done, Fold(done).value);
    } else {
      var n, k := FirstUpTo(s, i, ts, j);
      var more := done + [ts[0]];
      SpelledStarts(s, i, n, ts[0]);
      TokenExactly(s, i, ts[0], n);
      SkipExactly(s, n, k);
      ParseToken(s, i, done, Fold(done).value);
      Assoc(done, [ts[0]], ts[1..]);
      assert [ts[0]] + ts[1..] == ts;
      FoldOfPrefix(more, ts[1..]);
      EndlessRuns(s, k, more, ts[1..], j);
    }
  }

  /** The parser reads past the end of a text exactly when, inside a container, a number begins
      that no delimiter ends. */
  lemma RanExactly(s: seq<Byte>)
    ensures Parse(s) == Ran <==> exists ts, j :: EndlessBehind(s, 0, [], ts, j)
  {
    if Parse(s) == Ran {
      var ts, j := RanFinds(s, 0, []);
    }
    if ts, j :| EndlessBehind(s, 0, [], ts, j) {
      EndlessRuns(s, 0, [], ts, j);
    }
  }
}
