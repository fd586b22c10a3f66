/** The text level of core/common/json_parser.cpp: which token stands at a position, and
    where the next one starts.  No token depends on what was read before it. */
module JsonText {
  import opened JsonStrings

  datatype Token =
    | Open(curly: bool)
    | Close(curly: bool)
    | Colon
    | Comma
    | Str(at: nat, bytes: seq<Byte>)
    | Null
    | Bool(value: bool)
    | Int(number: int)
    | Float

  /** Runaway: a number that no delimiter follows is scanned past the end of the text. */
  datatype Lexed = Tok(token: Token, next: nat) | NoToken | Runaway

  predicate IsSpace(c: Byte) {
    c == 0x20 || c == 0x09 || c == 0x0D || c == 0x0A
  }

  predicate IsDelimiter(c: Byte) {
    IsSpace(c) || c == 0x2C || c == 0x5D || c == 0x7D
  }

  predicate IsDigit(c: Byte) {
    0x30 <= c <= 0x39
  }

  function SkipSpace(s: seq<Byte>, i: nat): (j: nat)
    ensures i <= j && !IsSpace(At(s, j))
    decreases |s| - i
  {
    if IsSpace(At(s, i)) then SkipSpace(s, i + 1) else i
  }

  /** The first delimiter from i on, |s| if there is none. */
  function NumberEnd(s: seq<Byte>, i: nat): (j: nat)
    requires i <= |s|
    ensures i <= j <= |s|
    decreases |s| - i
  {
    if i == |s| || IsDelimiter(s[i]) then i else NumberEnd(s, i + 1)
  }

  function DigitsEnd(s: seq<Byte>, i: nat, last: nat): (j: nat)
    requires i <= last <= |s|
    ensures i <= j <= last
    decreases last - i
  {
    if i < last && IsDigit(s[i]) then DigitsEnd(s, i + 1, last) else i
  }

  function SignEnd(s: seq<Byte>, i: nat, last: nat): (j: nat)
    requires i <= last <= |s|
    ensures i <= j <= last
  {
    if i < last && (s[i] == 0x2D || s[i] == 0x2B) then i + 1 else i
  }

  /** Value of the decimal digits s[i..j]. */
  function Decimal(s: seq<Byte>, i: nat, j: nat): nat
    requires i <= j <= |s| && forall k :: i <= k < j ==> IsDigit(s[k])
  {
    if i == j then 0
    else
      assert IsDigit(s[j - 1]);
      var digit: nat := s[j - 1] - 0x30;
      10 * Decimal(s, i, j - 1) + digit
  }

  lemma DigitsAreDigits(s: seq<Byte>, i: nat, last: nat)
    requires i <= last <= |s|
    ensures forall k :: i <= k < DigitsEnd(s, i, last) ==> IsDigit(s[k])
    ensures DigitsEnd(s, i, last) < last ==> !IsDigit(s[DigitsEnd(s, i, last)])
    decreases last - i
  {
    if i < last && IsDigit(s[i]) {
      DigitsAreDigits(s, i + 1, last);
    }
  }

  /** Where the code's atof stops: sign, digits, fraction, exponent. */
  function FloatEnd(s: seq<Byte>, i: nat, last: nat): (j: nat)
    requires i <= last <= |s|
    ensures i <= j <= last
  {
    var whole := DigitsEnd(s, SignEnd(s, i, last), last);
    var fraction := if whole < last && s[whole] == 0x2E then DigitsEnd(s, whole + 1, last) else whole;
    if fraction < last && (s[fraction] == 0x65 || s[fraction] == 0x45)
    then DigitsEnd(s, SignEnd(s, fraction + 1, last), last)
    else fraction
  }

  predicate LooksFloat(s: seq<Byte>, i: nat, j: nat)
    requires i <= j <= |s|
  {
    exists k :: i <= k < j && (s[k] == 0x2E || s[k] == 0x65 || s[k] == 0x45)
  }

  function NumberAt(s: seq<Byte>, i: nat): (l: Lexed)
    requires i < |s| && !IsDelimiter(s[i])
    ensures l.Tok? ==> i < l.next <= |s|
  {
    var last := NumberEnd(s, i);
    if last == |s| then Runaway
    else if LooksFloat(s, i, last) then
      if FloatEnd(s, i, last) == last then Tok(Float, last) else NoToken
    else
      var first := SignEnd(s, i, last);
      DigitsAreDigits(s, first, last);
      if DigitsEnd(s, first, last) != last then NoToken
      else
        var value: int := Decimal(s, first, last);
        Tok(Int(if s[i] == 0x2D then -value else value), last)
  }

  predicate Word(s: seq<Byte>, i: nat, w: seq<Byte>) {
    forall k :: 0 <= k < |w| ==> At(s, i + k) == w[k]
  }

  const NULL: seq<Byte> := [0x6E, 0x75, 0x6C, 0x6C]
  const TRUE: seq<Byte> := [0x74, 0x72, 0x75, 0x65]
  const FALSE: seq<Byte> := [0x66, 0x61, 0x6C, 0x73, 0x65]

  function StringAt(s: seq<Byte>, i: nat): (l: Lexed)
    requires i < |s|
    ensures l.Tok? ==> i < l.next <= |s|
  {
    match Decode(s, i + 1)
    case Invalid(_) => NoToken
    case Closed(bytes, next) => Tok(Str(i + 1, bytes), next)
    case Unterminated(bytes, next) => Tok(Str(i + 1, bytes), next)
  }

  function TokenAt(s: seq<Byte>, i: nat): (l: Lexed)
    requires At(s, i) != 0
    ensures l.Tok? ==> i < l.next <= |s|
  {
    var c := s[i];
    if c == 0x7B || c == 0x5B then Tok(Open(c == 0x7B), i + 1)
    else if c == 0x7D || c == 0x5D then Tok(Close(c == 0x7D), i + 1)
    else if c == 0x3A then Tok(Colon, i + 1)
    else if c == 0x2C then Tok(Comma, i + 1)
    else if c == QUOTE then StringAt(s, i)
    else if c == 0x6E && Word(s, i, NULL) then WordToken(s, i, NULL, Null)
    else if c == 0x74 && Word(s, i, TRUE) then WordToken(s, i, TRUE, Bool(true))
    else if c == 0x66 && Word(s, i, FALSE) then WordToken(s, i, FALSE, Bool(false))
    else if c == 0x2D || IsDigit(c) then NumberAt(s, i)
    else NoToken
  }

  function WordToken(s: seq<Byte>, i: nat, w: seq<Byte>, t: Token): (l: Lexed)
    requires Word(s, i, w) && w != [] && forall k :: 0 <= k < |w| ==> w[k] != 0
    ensures l == Tok(t, i + |w|) && i < l.next <= |s|
  {
    assert At(s, i + (|w| - 1)) == w[|w| - 1];
    Tok(t, i + |w|)
  }
}
