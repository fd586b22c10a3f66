/** JSON values as they may be written, with any white space and any spelling of strings, and
    that parsing the written text gives the value back. */
module JsonPrint {
  import opened Options
  import opened JsonStrings
  import opened JsonText
  import opened JsonSpelling
  import opened JsonTokens

  type Blanks = seq<Byte>

  /** A string, by its text between the quotes and the bytes that this denotes. */
  datatype Quoted = Quoted(text: seq<Byte>, bytes: seq<Byte>)

  /** A value as it is written.  Every token is followed by blanks. */
  datatype Value =
    | Container(curly: bool, within: Blanks, items: Items, after: Blanks)
    | String(quoted: Quoted, after: Blanks)
    | Integer(minus: bool, magnitude: nat, after: Blanks)
    | Real(text: seq<Byte>, after: Blanks)
    | Truth(b: bool, after: Blanks)
    | Nothing(after: Blanks)

  /** Named members of an object, or elements of an array, with commas between them. */
  datatype Items =
    | Nil
    | Item(name: Option<Name>, value: Value, comma: Blanks, rest: Items)

  datatype Name = Name(quoted: Quoted, after: Blanks, colon: Blanks)

  // ----- what is written, sections 2 to 7 of RFC 8259

  function Digits(n: nat): seq<Byte> {
    if n < 10 then [0x30 + n] else Digits(n / 10) + [0x30 + n % 10]
  }

  function PrintString(q: Quoted): seq<Byte> {
    [0x22] + (q.text + [0x22])
  }

  function PrintName(name: Option<Name>): seq<Byte> {
    match name
    case None => []
    case Some(n) => (PrintString(n.quoted) + n.after) + ([0x3A] + n.colon)
  }

  function PrintScalar(v: Value): seq<Byte>
    requires !v.Container?
  {
    match v
    case String(q, _) => PrintString(q)
    case Integer(minus, magnitude, _) => (if minus then [0x2D] else []) + Digits(magnitude)
    case Real(text, _) => text
    case Truth(b, _) => if b then [0x74, 0x72, 0x75, 0x65] else [0x66, 0x61, 0x6C, 0x73, 0x65]
    case Nothing(_) => [0x6E, 0x75, 0x6C, 0x6C]
  }

  function Opening(v: Value): seq<Byte>
    requires v.Container?
  {
    [if v.curly then 0x7B else 0x5B] + v.within
  }

  function Closing(v: Value): seq<Byte>
    requires v.Container?
  {
    [if v.curly then 0x7D else 0x5D] + v.after
  }

  function PrintValue(v: Value): seq<Byte>
    decreases v, 1
  {
    if v.Container? then Opening(v) + (PrintItems(v.items) + Closing(v)) else PrintScalar(v) + v.after
  }

  function PrintItems(items: Items): seq<Byte>
    decreases items, 0
  {
    if items.Nil? then [] else PrintName(items.name) + (PrintValue(items.value) + PrintTail(items))
  }

  /** What stands behind a value: a comma and the next items, if there are any. */
  function PrintTail(items: Items): seq<Byte>
    requires items.Item?
    decreases items, -1
  {
    if items.rest.Nil? then [] else ([0x2C] + items.comma) + PrintItems(items.rest)
  }

  // ----- which of these are JSON

  ghost predicate GoodName(name: Option<Name>, curly: bool) {
    match name
    case None => !curly
    case Some(n) => curly && Denotes(n.quoted.text, n.quoted.bytes) && AllBlank(n.after) && AllBlank(n.colon)
  }

  /** Blanks are blanks, strings denote their bytes, and members have names where elements
      have none. */
  ghost predicate Proper(v: Value)
    decreases v, 1
  {
    match v
    case Container(curly, within, items, after) =>
      AllBlank(within) && ProperItems(items, curly) && AllBlank(after)
    case String(q, after) => Denotes(q.text, q.bytes) && AllBlank(after)
    case Real(text, after) => FloatSpelling(text, 0, |text|) && (text[0] == 0x2D || Digit(text[0])) && AllBlank(after)
    case _ => AllBlank(v.after)
  }

  ghost predicate ProperItems(items: Items, curly: bool)
    decreases items, 0
  {
    match items
    case Nil => true
    case Item(name, value, comma, rest) =>
      GoodName(name, curly) && Proper(value) && AllBlank(comma) && ProperItems(rest, curly)
  }

  // ----- numbers

  function Signed(minus: bool, n: int): int {
    if minus then -n else n
  }

  /** A printed decimal has the value that was printed. */
  lemma {:induction false} DigitsValue(n: nat)
    ensures Digits(n) != [] && AllDigits(Digits(n)) && JsonTokens.Value(Digits(n)) == n
  {
    if n >= 10 {
      DigitsValue(n / 10);
      var front := Digits(n / 10);
      assert Digits(n)[..|front|] == front;
    } else {
      assert Digits(n)[..0] == [];
    }
  }

  lemma IntegerIsSpelled(minus: bool, n: nat)
    ensures IntSpelling((if minus then [0x2D] else []) + Digits(n), Signed(minus, n))
  {
    DigitsValue(n);
    var u: seq<Byte> := (if minus then [0x2D] else []) + Digits(n);
    if minus {
      assert u[1..] == Digits(n);
    } else {
      assert u == Digits(n) && Digit(u[0]);
    }
  }

  lemma SliceOfHeld(text: seq<Byte>, s: seq<Byte>, i: nat, p: nat, q: nat)
    requires Holds(s, i, text) && p <= q <= |text|
    ensures i + q <= |s| && s[i + p..i + q] == text[p..q]
  {
    forall k | p <= k < q ensures s[i + k] == text[k] {
      assert s[i..i + |text|][k] == s[i + k];
    }
  }

  lemma FloatMoved(text: seq<Byte>, s: seq<Byte>, i: nat)
    requires FloatSpelling(text, 0, |text|) && Holds(s, i, text)
    ensures FloatSpelling(s, i, i + |text|)
  {
    var a: nat, b: nat :| CutAt(text, 0, a, b, |text|);
    CutMoved(text, s, i, a, b);
  }

  /** Equal texts are the same parts of a number. */
  lemma SameParts(u: seq<Byte>, w: seq<Byte>)
    requires u == w
    ensures Whole(u) == Whole(w) && Fraction(u) == Fraction(w) && Exponent(u) == Exponent(w)
  {
  }

  lemma CutMoved(text: seq<Byte>, s: seq<Byte>, i: nat, a: nat, b: nat)
    requires CutAt(text, 0, a, b, |text|) && Holds(s, i, text)
    ensures CutAt(s, i, i + a, i + b, i + |text|)
  {
    SliceOfHeld(text, s, i, 0, a);
    SliceOfHeld(text, s, i, a, b);
    SliceOfHeld(text, s, i, b, |text|);
    SameParts(text[0..a], s[i..i + a]);
    SameParts(text[a..b], s[i + a..i + b]);
    SameParts(text[b..|text|], s[i + b..i + |text|]);
  }

  // ----- one token

  lemma BlanksHere(s: seq<Byte>, i: nat, w: Blanks)
    requires AllBlank(w) && Holds(s, i, w) && !Blank(At(s, i + |w|))
    ensures BlanksTo(s, i, i + |w|)
  {
  }

  /** A text and the blanks behind it. */
  lemma TextThenBlanks(s: seq<Byte>, i: nat, u: seq<Byte>, w: Blanks)
    requires Holds(s, i, u + w) && AllBlank(w) && !Blank(At(s, i + |u + w|))
    ensures Holds(s, i, u) && BlanksTo(s, i + |u|, i + |u + w|)
  {
    HoldsSplit(s, i, u, w);
    BlanksHere(s, i + |u|, w);
  }

  /** The token of a scalar written at position i. */
  function TokenOf(v: Value, i: nat): Token
    requires !v.Container?
  {
    match v
    case String(q, _) => Str(i + 1, q.bytes)
    case Integer(minus, magnitude, _) => Int(Signed(minus, magnitude))
    case Real(_, _) => Float
    case Truth(b, _) => Bool(b)
    case Nothing(_) => Null
  }

  lemma QuotedParts(s: seq<Byte>, i: nat, text: seq<Byte>, n: nat)
    requires Holds(s, i, [0x22] + (text + [0x22])) && n == i + |text| + 2
    ensures n <= |s| && s[i..n][0] == 0x22 && s[n - 1] == 0x22 && s[i + 1..n - 1] == text
  {
    HoldsSplit(s, i, [0x22], text + [0x22]);
    HoldsSplit(s, i + 1, text, [0x22]);
    assert s[n - 1..n][0] == 0x22;
  }

  lemma StringIsSpelled(s: seq<Byte>, i: nat, q: Quoted)
    requires Denotes(q.text, q.bytes) && Holds(s, i, PrintString(q))
    ensures Spelled(s, i, i + |PrintString(q)|, Str(i + 1, q.bytes))
  {
    QuotedParts(s, i, q.text, i + |PrintString(q)|);
  }

  /** A delimiter stands at n, or what stands there need not be one. */
  ghost predicate Stops(s: seq<Byte>, n: nat, v: Value) {
    v.Integer? || v.Real? ==> n < |s| && Delimits(s[n])
  }

  lemma IntegerStandsAt(s: seq<Byte>, i: nat, minus: bool, magnitude: nat, text: seq<Byte>)
    requires text == (if minus then [0x2D] else []) + Digits(magnitude) && Holds(s, i, text)
    requires i + |text| < |s| && Delimits(s[i + |text|])
    ensures Spelled(s, i, i + |text|, Int(Signed(minus, magnitude)))
  {
    IntegerIsSpelled(minus, magnitude);
  }

  lemma RealStandsAt(s: seq<Byte>, i: nat, text: seq<Byte>)
    requires FloatSpelling(text, 0, |text|) && Holds(s, i, text) && i + |text| < |s| && Delimits(s[i + |text|])
    ensures Spelled(s, i, i + |text|, Float)
  {
    FloatMoved(text, s, i);
  }

  lemma ScalarIsSpelled(s: seq<Byte>, i: nat, v: Value)
    requires !v.Container? && Proper(v) && Holds(s, i, PrintScalar(v)) && Stops(s, i + |PrintScalar(v)|, v)
    ensures Spelled(s, i, i + |PrintScalar(v)|, TokenOf(v, i))
  {
    match v
    case String(q, _) => StringIsSpelled(s, i, q);
    case Integer(minus, magnitude, _) => IntegerStandsAt(s, i, minus, magnitude, PrintScalar(v));
    case Real(text, _) => RealStandsAt(s, i, text);
    case Truth(b, _) => FixedIsSpelled(s, i, Bool(b));
    case Nothing(_) => FixedIsSpelled(s, i, Null);
  }

  /** What follows a value with its blanks inside a container. */
  ghost predicate Closes(s: seq<Byte>, j: nat) {
    j < |s| && (s[j] == 0x2C || s[j] == 0x5D || s[j] == 0x7D)
  }

  lemma BlanksStop(s: seq<Byte>, i: nat, w: Blanks)
    requires AllBlank(w) && Holds(s, i, w) && Closes(s, i + |w|)
    ensures i < |s| && Delimits(s[i]) && BlanksTo(s, i, i + |w|)
  {
    assert w != [] ==> s[i] == w[0];
  }

  /** Token t is written at i, and with its blanks reaches up to j. */
  ghost predicate Stands(s: seq<Byte>, i: nat, t: Token, j: nat) {
    exists n: nat :: Spelled(s, i, n, t) && BlanksTo(s, n, j)
  }

  lemma ScalarStands(s: seq<Byte>, i: nat, v: Value)
    requires !v.Container? && Proper(v) && Holds(s, i, PrintValue(v)) && Closes(s, i + |PrintValue(v)|)
    ensures Stands(s, i, TokenOf(v, i), i + |PrintValue(v)|)
  {
    var n := i + |PrintScalar(v)|;
    HoldsSplit(s, i, PrintScalar(v), v.after);
    BlanksStop(s, n, v.after);
    ScalarIsSpelled(s, i, v);
    assert Spelled(s, i, n, TokenOf(v, i)) && BlanksTo(s, n, n + |v.after|);
  }

  lemma FixedIsSpelled(s: seq<Byte>, i: nat, t: Token)
    requires !t.Str? && !IsNumber(t) && Holds(s, i, Fixed(t))
    ensures Spelled(s, i, i + |Fixed(t)|, t)
  {
  }

  lemma NameStands(s: seq<Byte>, i: nat, q: Quoted, w: Blanks)
    requires Denotes(q.text, q.bytes) && AllBlank(w) && Holds(s, i, PrintString(q) + w)
    requires !Blank(At(s, i + |PrintString(q) + w|))
    ensures Stands(s, i, Str(i + 1, q.bytes), i + |PrintString(q) + w|)
  {
    TextThenBlanks(s, i, PrintString(q), w);
    StringIsSpelled(s, i, q);
  }

  lemma FirstOfHeld(s: seq<Byte>, i: nat, u: seq<Byte>)
    requires Holds(s, i, u) && u != []
    ensures At(s, i) == u[0]
  {
  }

  // ----- the tokens of a value

  function NameTokens(name: Option<Name>, i: nat): seq<Token> {
    if name.None? then [] else [Str(i + 1, name.value.quoted.bytes), Colon]
  }

  /** The tokens of a value printed at position i. */
  function Tokens(v: Value, i: nat): seq<Token>
    decreases v, 1
  {
    if v.Container? then [Open(v.curly)] + (ItemTokens(v.items, i + |Opening(v)|) + [Close(v.curly)])
    else [TokenOf(v, i)]
  }

  function ItemTokens(items: Items, i: nat): seq<Token>
    decreases items, 0
  {
    if items.Nil? then []
    else
      var p := i + |PrintName(items.name)|;
      var q := p + |PrintValue(items.value)|;
      NameTokens(items.name, i) + (Tokens(items.value, p) + TailTokens(items, q))
  }

  function TailTokens(items: Items, q: nat): seq<Token>
    requires items.Item?
    decreases items, -1
  {
    if items.rest.Nil? then [] else [Comma] + ItemTokens(items.rest, q + 1 + |items.comma|)
  }

  // ----- the printed text consists of these tokens

  /** Whether a token and its blanks reach from one position to another. */
  type Reach = (nat, Token, nat) -> bool

  /** From i to j there are these tokens. */
  ghost predicate Reads(r: Reach, i: nat, ts: seq<Token>, j: nat)
    decreases |ts|
  {
    if ts == [] then i == j else exists k: nat :: r(i, ts[0], k) && Reads(r, k, ts[1..], j)
  }

  lemma {:induction false} ReadsJoin(r: Reach, i: nat, a: seq<Token>, j: nat, b: seq<Token>, k: nat)
    requires Reads(r, i, a, j) && Reads(r, j, b, k)
    ensures Reads(r, i, a + b, k)
    decreases |a|
  {
    if a == [] {
      assert a + b == b;
    } else {
      var m: nat :| r(i, a[0], m) && Reads(r, m, a[1..], j);
      ReadsJoin(r, m, a[1..], j, b, k);
      assert (a + b)[0] == a[0] && (a + b)[1..] == a[1..] + b;
    }
  }

  lemma ReadsThree(r: Reach, i: nat, a: seq<Token>, p: nat, b: seq<Token>, q: nat, c: seq<Token>, k: nat)
    requires Reads(r, i, a, p) && Reads(r, p, b, q) && Reads(r, q, c, k)
    ensures Reads(r, i, a + (b + c), k)
  {
    ReadsJoin(r, p, b, q, c, k);
    ReadsJoin(r, i, a, p, b + c, k);
  }

  /** The relation knows the tokens of the text. */
  ghost predicate Knows(r: Reach, s: seq<Byte>) {
    forall i: nat, t: Token, j: nat {:trigger Stands(s, i, t, j)} :: Stands(s, i, t, j) ==> r(i, t, j)
  }

  lemma ReadsOne(r: Reach, i: nat, t: Token, j: nat)
    requires r(i, t, j)
    ensures Reads(r, i, [t], j)
  {
    assert [t][1..] == [];
    assert Reads(r, j, [t][1..], j);
  }

  lemma MarkStands(s: seq<Byte>, i: nat, t: Token, w: Blanks)
    requires !t.Str? && !IsNumber(t) && AllBlank(w) && Holds(s, i, Fixed(t) + w) && !Blank(At(s, i + |Fixed(t) + w|))
    ensures Stands(s, i, t, i + |Fixed(t) + w|)
  {
    TextThenBlanks(s, i, Fixed(t), w);
    FixedIsSpelled(s, i, t);
  }

  /** A fixed token and its blanks. */
  lemma MarkReads(r: Reach, s: seq<Byte>, i: nat, t: Token, w: Blanks, j: nat)
    requires Knows(r, s) && !t.Str? && !IsNumber(t) && AllBlank(w) && Holds(s, i, Fixed(t) + w)
    requires j == i + |Fixed(t) + w| && !Blank(At(s, j))
    ensures Reads(r, i, [t], j)
  {
    MarkStands(s, i, t, w);
    ReadsOne(r, i, t, j);
  }

  function ColonText(n: Name): seq<Byte> {
    Fixed(Colon) + n.colon
  }

  lemma NameParts(s: seq<Byte>, i: nat, n: Name, q: nat)
    requires Holds(s, i, PrintName(Some(n))) && q == i + |PrintString(n.quoted) + n.after|
    ensures Holds(s, i, PrintString(n.quoted) + n.after) && Holds(s, q, ColonText(n)) && !Blank(At(s, q))
    ensures q + |ColonText(n)| == i + |PrintName(Some(n))|
  {
    HoldsSplit(s, i, PrintString(n.quoted) + n.after, ColonText(n));
    FirstOfHeld(s, q, ColonText(n));
  }

  lemma NameReads(r: Reach, s: seq<Byte>, i: nat, name: Option<Name>, curly: bool, j: nat)
    requires Knows(r, s) && GoodName(name, curly) && Holds(s, i, PrintName(name))
    requires j == i + |PrintName(name)| && !Blank(At(s, j))
    ensures Reads(r, i, NameTokens(name, i), j)
  {
    if name.Some? {
      var n := name.value;
      var q := i + |PrintString(n.quoted) + n.after|;
      var t := Str(i + 1, n.quoted.bytes);
      NameParts(s, i, n, q);
      NameStands(s, i, n.quoted, n.after);
      ReadsOne(r, i, t, q);
      MarkReads(r, s, q, Colon, n.colon, j);
      ReadsJoin(r, i, [t], q, [Colon], j);
      assert [t] + [Colon] == NameTokens(name, i);
    }
  }

  /** The printed text begins with no blank. */
  lemma {:induction false} ValueStarts(v: Value)
    requires Proper(v)
    ensures PrintValue(v) != [] && !Blank(PrintValue(v)[0])
  {
    match v
    case Integer(minus, magnitude, _) => DigitsValue(magnitude);
    case _ =>
  }

  /** So what stands before a value or a closing bracket is not followed by a blank. */
  lemma ItemsStart(s: seq<Byte>, i: nat, items: Items, curly: bool)
    requires ProperItems(items, curly) && Holds(s, i, PrintItems(items)) && Closes(s, i + |PrintItems(items)|)
    ensures !Blank(At(s, i))
  {
    if items.Item? {
      ValueStarts(items.value);
      if items.name.Some? {
        FirstOfHeld(s, i, PrintItems(items));
      } else {
        assert PrintItems(items) == PrintValue(items.value) + PrintItems(items)[|PrintValue(items.value)|..];
        FirstOfHeld(s, i, PrintItems(items));
      }
    }
  }

  lemma ThreeParts(s: seq<Byte>, i: nat, a: seq<Byte>, b: seq<Byte>, c: seq<Byte>)
    requires Holds(s, i, a + (b + c))
    ensures Holds(s, i, a) && Holds(s, i + |a|, b) && Holds(s, i + |a| + |b|, c)
    ensures |a + (b + c)| == |a| + |b| + |c|
  {
    HoldsSplit(s, i, a, b + c);
    HoldsSplit(s, i + |a|, b, c);
  }

  lemma BracketsAreFixed(v: Value)
    requires v.Container?
    ensures Opening(v) == Fixed(Open(v.curly)) + v.within && Closing(v) == Fixed(Close(v.curly)) + v.after
  {
  }

  lemma ClosingCloses(s: seq<Byte>, q: nat, v: Value)
    requires v.Container? && Holds(s, q, Closing(v))
    ensures Closes(s, q)
  {
    FirstOfHeld(s, q, Closing(v));
  }

  /** The parts of a printed container stand one behind the other. */
  lemma ContainerParts(s: seq<Byte>, i: nat, v: Value, p: nat, q: nat)
    requires v.Container? && Holds(s, i, PrintValue(v)) && p == i + |Opening(v)| && q == p + |PrintItems(v.items)|
    ensures Holds(s, i, Opening(v)) && Holds(s, p, PrintItems(v.items)) && Holds(s, q, Closing(v))
    ensures q + |Closing(v)| == i + |PrintValue(v)| && Closes(s, q)
  {
    ThreeParts(s, i, Opening(v), PrintItems(v.items), Closing(v));
    ClosingCloses(s, q, v);
  }

  /** Name, value and tail stand one behind the other. */
  lemma ItemHolds(s: seq<Byte>, i: nat, items: Items, p: nat, q: nat)
    requires items.Item? && Holds(s, i, PrintItems(items))
    requires p == i + |PrintName(items.name)| && q == p + |PrintValue(items.value)|
    ensures Holds(s, i, PrintName(items.name)) && Holds(s, p, PrintValue(items.value)) && Holds(s, q, PrintTail(items))
    ensures q + |PrintTail(items)| == i + |PrintItems(items)|
  {
    ThreeParts(s, i, PrintName(items.name), PrintValue(items.value), PrintTail(items));
  }

  lemma ItemParts(s: seq<Byte>, i: nat, items: Items, p: nat, q: nat)
    requires items.Item? && Holds(s, i, PrintItems(items)) && Proper(items.value)
    requires p == i + |PrintName(items.name)| && q == p + |PrintValue(items.value)|
    ensures Holds(s, i, PrintName(items.name)) && Holds(s, p, PrintValue(items.value)) && Holds(s, q, PrintTail(items))
    ensures q + |PrintTail(items)| == i + |PrintItems(items)| && !Blank(At(s, p))
  {
    ItemHolds(s, i, items, p, q);
    NoBlankBefore(s, p, items.value);
  }

  lemma NoBlankBefore(s: seq<Byte>, p: nat, v: Value)
    requires Proper(v) && Holds(s, p, PrintValue(v))
    ensures !Blank(At(s, p))
  {
    ValueStarts(v);
    FirstOfHeld(s, p, PrintValue(v));
  }

  /** A comma with its blanks, and the rest. */
  lemma TailParts(s: seq<Byte>, q: nat, items: Items, curly: bool, k: nat)
    requires items.Item? && items.rest.Item? && Holds(s, q, PrintTail(items)) && Closes(s, q + |PrintTail(items)|)
    requires ProperItems(items.rest, curly) && k == q + 1 + |items.comma|
    ensures Holds(s, q, Fixed(Comma) + items.comma) && Holds(s, k, PrintItems(items.rest))
    ensures k + |PrintItems(items.rest)| == q + |PrintTail(items)| && !Blank(At(s, k))
  {
    HoldsSplit(s, q, Fixed(Comma) + items.comma, PrintItems(items.rest));
    ItemsStart(s, k, items.rest, curly);
  }

  /** A value is followed by a comma or by what follows the items. */
  lemma TailStarts(s: seq<Byte>, q: nat, items: Items)
    requires items.Item? && Holds(s, q, PrintTail(items)) && Closes(s, q + |PrintTail(items)|)
    ensures Closes(s, q)
  {
    if items.rest.Item? {
      assert PrintTail(items)[0] == 0x2C;
      FirstOfHeld(s, q, PrintTail(items));
    }
  }

  lemma ContainerTokens(r: Reach, i: nat, v: Value, p: nat, q: nat, j: nat)
    requires v.Container? && p == i + |Opening(v)|
    requires Reads(r, i, [Open(v.curly)], p) && Reads(r, p, ItemTokens(v.items, p), q) && Reads(r, q, [Close(v.curly)], j)
    ensures Reads(r, i, Tokens(v, i), j)
  {
    ReadsThree(r, i, [Open(v.curly)], p, ItemTokens(v.items, p), q, [Close(v.curly)], j);
  }

  lemma {:induction false} ContainerReads(r: Reach, s: seq<Byte>, i: nat, v: Value, j: nat)
    requires Knows(r, s) && v.Container? && Proper(v) && Holds(s, i, PrintValue(v))
    requires j == i + |PrintValue(v)| && !Blank(At(s, j))
    ensures Reads(r, i, Tokens(v, i), j)
    decreases v, 0
  {
    var p := i + |Opening(v)|;
    var q := p + |PrintItems(v.items)|;
    ContainerParts(s, i, v, p, q);
    BracketsAreFixed(v);
    ItemsStart(s, p, v.items, v.curly);
    MarkReads(r, s, i, Open(v.curly), v.within, p);
    ItemsRead(r, s, p, v.items, v.curly, q);
    MarkReads(r, s, q, Close(v.curly), v.after, j);
    ContainerTokens(r, i, v, p, q, j);
  }

  lemma {:induction false} ValueReads(r: Reach, s: seq<Byte>, i: nat, v: Value, j: nat)
    requires Knows(r, s) && Proper(v) && Holds(s, i, PrintValue(v)) && j == i + |PrintValue(v)| && Closes(s, j)
    ensures Reads(r, i, Tokens(v, i), j)
    decreases v, 1
  {
    if v.Container? {
      ContainerReads(r, s, i, v, j);
    } else {
      ScalarStands(s, i, v);
      ReadsOne(r, i, TokenOf(v, i), j);
    }
  }

  lemma ItemReads(r: Reach, i: nat, items: Items, p: nat, q: nat, j: nat)
    requires items.Item? && p == i + |PrintName(items.name)| && q == p + |PrintValue(items.value)|
    requires Reads(r, i, NameTokens(items.name, i), p) && Reads(r, p, Tokens(items.value, p), q)
    requires Reads(r, q, TailTokens(items, q), j)
    ensures Reads(r, i, ItemTokens(items, i), j)
  {
    ReadsThree(r, i, NameTokens(items.name, i), p, Tokens(items.value, p), q, TailTokens(items, q), j);
  }

  lemma {:induction false} ItemsRead(r: Reach, s: seq<Byte>, i: nat, items: Items, curly: bool, j: nat)
    requires Knows(r, s) && ProperItems(items, curly) && Holds(s, i, PrintItems(items))
    requires j == i + |PrintItems(items)| && Closes(s, j)
    ensures Reads(r, i, ItemTokens(items, i), j)
    decreases items, 1
  {
    if items.Item? {
      var p := i + |PrintName(items.name)|;
      var q := p + |PrintValue(items.value)|;
      ItemParts(s, i, items, p, q);
      TailStarts(s, q, items);
      NameReads(r, s, i, items.name, curly, p);
      ValueReads(r, s, p, items.value, q);
      TailReads(r, s, q, items, curly, j);
      ItemReads(r, i, items, p, q, j);
    }
  }

  lemma {:induction false} TailReads(r: Reach, s: seq<Byte>, q: nat, items: Items, curly: bool, j: nat)
    requires Knows(r, s) && items.Item? && ProperItems(items.rest, curly) && AllBlank(items.comma)
    requires Holds(s, q, PrintTail(items)) && j == q + |PrintTail(items)| && Closes(s, j)
    ensures Reads(r, q, TailTokens(items, q), j)
    decreases items, 0
  {
    if items.rest.Item? {
      var k := q + 1 + |items.comma|;
      TailParts(s, q, items, curly, k);
      MarkReads(r, s, q, Comma, items.comma, k);
      ItemsRead(r, s, k, items.rest, curly, j);
      ReadsJoin(r, q, [Comma], k, ItemTokens(items.rest, k), j);
    }
  }
}
