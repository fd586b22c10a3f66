/** The text form of a `std::vector<std::string>` parameter: printer and parser of
    core/sr_param/sr_param_native.h. */
module StringLists {

  const Q: char := '\"'
  const BS: char := '\\'

  // ----- searching

  /** `s.find(c, from)`, with -1 for npos. */
  function Find(s: string, c: char, from: nat): (i: int)
    ensures i == -1 || from <= i < |s|
    ensures i == -1 ==> forall k :: from <= k < |s| ==> s[k] != c
    ensures i != -1 ==> s[i] == c && forall k :: from <= k < i ==> s[k] != c
    decreases |s| - from
  {
    if from >= |s| then -1 else if s[from] == c then from else Find(s, c, from + 1)
  }

  predicate Escaped(s: string, i: nat)
    requires i < |s|
  {
    i > 0 && s[i - 1] == BS
  }

  /** The first quote from `from` on that is not preceded by a backslash, or -1. */
  function FindPlainQuote(s: string, from: nat): (i: int)
    ensures i == -1 || from <= i < |s|
    ensures i == -1 ==> forall k :: from <= k < |s| && s[k] == Q ==> Escaped(s, k)
    ensures i != -1 ==> s[i] == Q && !Escaped(s, i)
    ensures i != -1 ==> forall k :: from <= k < i && s[k] == Q ==> Escaped(s, k)
    decreases |s| - from
  {
    if from >= |s| then -1 else if s[from] == Q && !Escaped(s, from) then from else FindPlainQuote(s, from + 1)
  }

  // ----- printing

  /** A backslash is put before every quote that has none. */
  function Escape(s: string): string {
    if s == "" then ""
    else
      var n := |s| - 1;
      Escape(s[..n]) + (if s[n] == Q && !Escaped(s, n) then [BS, Q] else [s[n]])
  }

  function Item(v: string, first: bool): string {
    (if first then "" else ",") + ([Q] + (Escape(v) + [Q]))
  }

  function SerializeItems(vals: seq<string>): string {
    if vals == [] then ""
    else
      var n := |vals| - 1;
      SerializeItems(vals[..n]) + Item(vals[n], n == 0)
  }

  function Serialize(vals: seq<string>): string {
    "{" + SerializeItems(vals) + "}"
  }

  // ----- parsing

  predicate PairAt(v: string, i: nat) {
    i + 1 < |v| && v[i] == BS && v[i + 1] == Q
  }

  /** The backslash of every backslash-quote from position i on is dropped. */
  function UnescapeFrom(v: string, i: nat): string
    decreases |v| - i
  {
    if i >= |v| then ""
    else if PairAt(v, i) then UnescapeFrom(v, i + 1)
    else [v[i]] + UnescapeFrom(v, i + 1)
  }

  function Unescape(v: string): string {
    UnescapeFrom(v, 0)
  }

  /** Stuck is the search for an opening quote that finds a quote behind a backslash: it is
      repeated from the same place forever. */
  datatype Outcome = Done(values: seq<string>) | Stuck | Malformed

  function Prepend(v: string, o: Outcome): Outcome {
    match o
    case Done(values) => Done([v] + values)
    case _ => o
  }

  function ParseItems(text: string): Outcome
    decreases |text|, 1
  {
    var open := Find(text, Q, 0);
    if text == "}" || open == -1 then Done([])
    else if Escaped(text, open) then Stuck
    else ParseValue(text, open)
  }

  /** The value behind the opening quote, and what follows it. */
  function ParseValue(text: string, open: nat): Outcome
    requires open < |text|
    decreases |text|, 0
  {
    var close := FindPlainQuote(text, open + 1);
    if close == -1 then Done([])
    else Prepend(Unescape(text[open + 1..close]), ParseItems(text[close + 1..]))
  }

  function Deserialize(text: string): Outcome {
    if text == "" then Done([])
    else if Find(text, '{', 0) == -1 then Malformed
    else ParseItems(text)
  }

  // ----- the loops

  lemma {:induction false} EscapePlain(s: string, i: nat, j: nat)
    requires i <= j <= |s| && forall k :: i <= k < j ==> s[k] != Q
    ensures Escape(s[..j]) == Escape(s[..i]) + s[i..j]
  {
    if i < j {
      EscapePlain(s, i, j - 1);
      assert s[..j][..j - 1] == s[..j - 1];
      assert s[i..j] == s[i..j - 1] + [s[j - 1]];
    }
  }

  lemma EscapeOne(s: string, i: nat)
    requires i < |s|
    ensures Escape(s[..i + 1]) == Escape(s[..i]) + (if s[i] == Q && !Escaped(s, i) then [BS, Q] else [s[i]])
  {
    assert s[..i + 1][..i] == s[..i];
  }

  lemma EscapeKeepsLast(s: string)
    requires s != ""
    ensures Escape(s) != "" && Escape(s)[|Escape(s)| - 1] == s[|s| - 1]
  {
  }

  /** The loop stands in aux at the quote that is number `done` in s; everything before it is
      escaped already, and its own backslash may have just been put in. */
  ghost predicate AtQuote(s: string, done: nat, inserted: bool, aux: string, loc: int) {
    && 0 < done < |s| && s[done] == Q && (inserted ==> !Escaped(s, done))
    && aux == Escape(s[..done]) + (if inserted then [BS] else []) + s[done..]
    && loc == |Escape(s[..done])| + (if inserted then 1 else 0)
  }

  lemma BehindBackslash(s: string, done: nat, inserted: bool, aux: string, loc: int)
    requires AtQuote(s, done, inserted, aux, loc)
    ensures 0 < loc < |aux| && aux[loc] == Q
    ensures aux[loc - 1] == BS <==> inserted || Escaped(s, done)
  {
    EscapeKeepsLast(s[..done]);
    assert s[..done][done - 1] == s[done - 1];
    assert aux[loc] == s[done..][0];
  }

  lemma AfterInsert(s: string, done: nat, aux: string, loc: int)
    requires AtQuote(s, done, false, aux, loc) && !Escaped(s, done)
    ensures 0 <= loc <= |aux|
    ensures var aux' := aux[..loc] + [BS] + aux[loc..];
            AtQuote(s, done, true, aux', Find(aux', Q, loc + 1))
  {
    BehindBackslash(s, done, false, aux, loc);
    var aux' := aux[..loc] + [BS] + aux[loc..];
    assert aux[..loc] == Escape(s[..done]) && aux[loc..] == s[done..];
    assert aux'[loc + 1] == Q;
  }

  lemma EscapeSkip(s: string, i: nat, j: nat, aux: string, loc: int)
    requires i <= j <= |s| && aux == Escape(s[..i]) + s[i..]
    requires loc == Find(aux, Q, |Escape(s[..i])|)
    requires j == if loc == -1 then |s| else i + loc - |Escape(s[..i])|
    requires s != "" ==> s[0] != Q
    ensures if loc == -1 then aux == Escape(s) else AtQuote(s, j, false, aux, loc)
  {
    forall k | i <= k < j ensures s[k] != Q {
      assert s[k] == aux[|Escape(s[..i])| + (k - i)];
    }
    EscapePlain(s, i, j);
    assert s[..|s|] == s;
    assert s[i..] == s[i..j] + s[j..];
    assert aux == Escape(s[..j]) + s[j..];
  }

  lemma AfterSkip(s: string, done: nat, inserted: bool, aux: string, loc: int) returns (next: nat)
    requires AtQuote(s, done, inserted, aux, loc) && (inserted || Escaped(s, done)) && s[0] != Q
    ensures var l := Find(aux, Q, loc + 1);
            done < next <= |s| && if l == -1 then next == |s| && aux == Escape(s) else AtQuote(s, next, false, aux, l)
  {
    var l := Find(aux, Q, loc + 1);
    EscapeOne(s, done);
    assert s[done..] == [Q] + s[done + 1..];
    assert aux == Escape(s[..done + 1]) + s[done + 1..] && loc + 1 == |Escape(s[..done + 1])|;
    next := if l == -1 then |s| else done + 1 + (l - (loc + 1));
    EscapeSkip(s, done + 1, next, aux, l);
  }

  /** The escaping loop visits a quote twice when it has to insert a backslash. */
  method EscapeLoop(s: string) returns (aux: string)
    requires s != "" ==> s[0] != Q
    ensures aux == Escape(s)
  {
    aux := s;
    var loc := Find(aux, Q, 0);
    ghost var done: nat, inserted := if loc == -1 then |s| else loc, false;
    EscapeSkip(s, 0, done, aux, loc);
    while loc != -1
      invariant done <= |s| && (loc == -1 ==> aux == Escape(s))
      invariant loc != -1 ==> AtQuote(s, done, inserted, aux, loc)
      decreases |s| - done, !inserted
    {
      BehindBackslash(s, done, inserted, aux, loc);
      if aux[loc - 1] != BS {
        AfterInsert(s, done, aux, loc);
        aux := aux[..loc] + [BS] + aux[loc..];
        inserted := true;
      } else {
        done := AfterSkip(s, done, inserted, aux, loc);
        inserted := false;
      }
      loc := Find(aux, Q, loc + 1);
    }
  }

  lemma OneItemMore(vals: seq<string>, i: nat, text: string)
    requires i < |vals|
    requires text == "{" + SerializeItems(vals[..i]) + (if i == 0 then "" else ",") + [Q] + Escape(vals[i]) + [Q]
    ensures text == "{" + SerializeItems(vals[..i + 1])
  {
    assert vals[..i + 1][..i] == vals[..i];
    var items, comma, e := SerializeItems(vals[..i]), if i == 0 then "" else ",", Escape(vals[i]);
    assert "{" + items + comma + [Q] + e + [Q] == "{" + (items + (comma + ([Q] + (e + [Q]))));
  }

  method SerializeLoop(vals: seq<string>) returns (text: string)
    requires forall i :: 0 <= i < |vals| && vals[i] != "" ==> vals[i][0] != Q
    ensures text == Serialize(vals)
  {
    text := "{";
    var first := true;
    for i := 0 to |vals|
      invariant text == "{" + SerializeItems(vals[..i]) && (first <==> i == 0)
    {
      text := text + if first then "" else ",";
      first := false;
      var aux := EscapeLoop(vals[i]);
      text := text + [Q] + aux + [Q];
      OneItemMore(vals, i, text);
    }
    assert vals[..|vals|] == vals;
    text := text + "}";
  }

  /** `v.find("\\\"", from)` */
  function FindPair(v: string, from: nat): (i: int)
    ensures i == -1 || (from <= i && PairAt(v, i))
    ensures forall k :: from <= k < (if i == -1 then |v| else i) ==> !PairAt(v, k)
    decreases |v| - from
  {
    if from >= |v| then -1 else if PairAt(v, from) then from else FindPair(v, from + 1)
  }

  lemma Assoc(a: string, b: string, c: string)
    ensures a + b + c == a + (b + c)
  {
  }

  lemma FirstOfSlice(v: string, i: nat, j: nat)
    requires i < j <= |v|
    ensures v[i..j] == [v[i]] + v[i + 1..j]
  {
  }

  lemma {:induction false} UnescapePlain(v: string, i: nat, j: nat)
    requires i <= j <= |v| && forall k :: i <= k < j ==> !PairAt(v, k)
    ensures UnescapeFrom(v, i) == v[i..j] + UnescapeFrom(v, j)
    decreases j - i
  {
    if i < j {
      assert !PairAt(v, i);
      UnescapePlain(v, i + 1, j);
      FirstOfSlice(v, i, j);
      Assoc([v[i]], v[i + 1..j], UnescapeFrom(v, j));
    } else {
      assert v[i..j] == "";
    }
  }

  /** Only the text from the position on counts. */
  lemma {:induction false} UnescapeShift(v: string, i: nat, w: string, j: nat)
    requires i <= |v| && j <= |w| && v[i..] == w[j..]
    ensures UnescapeFrom(v, i) == UnescapeFrom(w, j)
    decreases |v| - i
  {
    assert |v| - i == |v[i..]| == |w[j..]| == |w| - j;
    if i < |v| {
      assert v[i] == v[i..][0] == w[j..][0] == w[j];
      assert i + 1 < |v| ==> v[i + 1] == v[i..][1] == w[j..][1] == w[j + 1];
      assert v[i + 1..] == v[i..][1..] == w[j..][1..] == w[j + 1..];
      UnescapeShift(v, i + 1, w, j + 1);
    }
  }

  lemma {:induction false} SkipToQuote(text: string, from: nat)
    ensures FindPlainQuote(text, from)
         == if Find(text, Q, from) == -1 then -1 else FindPlainQuote(text, Find(text, Q, from))
    decreases |text| - from
  {
    if from < |text| && text[from] != Q {
      SkipToQuote(text, from + 1);
    }
  }

  function PrependAll(vs: seq<string>, o: Outcome): Outcome {
    match o
    case Done(values) => Done(vs + values)
    case _ => o
  }

  lemma PrependMore(vs: seq<string>, v: string, o: Outcome)
    ensures PrependAll(vs, Prepend(v, o)) == PrependAll(vs + [v], o)
  {
    if o.Done? {
      assert vs + ([v] + o.values) == vs + [v] + o.values;
    }
  }

  /** The search goes on from the quote that the removal leaves at the same place. */
  method UnescapeLoop(v: string) returns (value: string)
    ensures value == Unescape(v)
  {
    value := v;
    var indexC := FindPair(value, 0);
    UnescapePlain(value, 0, if indexC == -1 then |value| else indexC);
    while indexC != -1
      invariant -1 <= indexC
      invariant indexC == -1 ==> value == Unescape(v)
      invariant indexC != -1 ==> PairAt(value, indexC)
      invariant indexC != -1 ==> Unescape(v) == value[..indexC] + UnescapeFrom(value, indexC)
      decreases if indexC == -1 then 0 else |value|
    {
      AfterRemoval(value, indexC);
      value := value[..indexC] + value[indexC + 1..];
      indexC := FindPair(value, indexC);
    }
  }

  lemma AfterRemoval(value: string, i: nat)
    requires PairAt(value, i)
    ensures var rest := value[..i] + value[i + 1..];
            var j := FindPair(rest, i);
            value[..i] + UnescapeFrom(value, i) == if j == -1 then rest else rest[..j] + UnescapeFrom(rest, j)
  {
    var rest := value[..i] + value[i + 1..];
    var j := FindPair(rest, i);
    var stop := if j == -1 then |rest| else j;
    UnescapeShift(value, i + 1, rest, i);
    UnescapePlain(rest, i, stop);
    Assoc(value[..i], rest[i..stop], UnescapeFrom(rest, stop));
    assert value[..i] + rest[i..stop] == rest[..stop];
    if j == -1 {
      assert rest[..stop] + "" == rest;
    }
  }

  /** The do-while loop that looks for the closing quote. */
  method FindClosing(text: string, index: nat) returns (indexB: int)
    requires index < |text|
    ensures indexB == FindPlainQuote(text, index + 1)
  {
    indexB := Find(text, Q, index + 1);
    while indexB != -1 && text[indexB - 1] == BS
      invariant indexB == -1 || (index < indexB < |text| && text[indexB] == Q)
      invariant FindPlainQuote(text, index + 1) == if indexB == -1 then -1 else FindPlainQuote(text, indexB)
      decreases if indexB == -1 then 0 else |text| - indexB
    {
      SkipToQuote(text, indexB + 1);
      indexB := Find(text, Q, indexB + 1);
    }
  }

  lemma OneValueMore(values: seq<string>, rest: string, index: nat, close: nat)
    requires rest != "}" && Find(rest, Q, 0) == index && !Escaped(rest, index) && FindPlainQuote(rest, index + 1) == close
    ensures PrependAll(values, ParseItems(rest))
         == PrependAll(values + [Unescape(rest[index + 1..close])], ParseItems(rest[close + 1..]))
  {
    assert ParseItems(rest) == ParseValue(rest, index);
    PrependMore(values, Unescape(rest[index + 1..close]), ParseItems(rest[close + 1..]));
  }

  lemma NothingMore(values: seq<string>)
    ensures PrependAll(values, Done([])) == Done(values)
  {
    assert values + [] == values;
  }

  method DeserializeLoop(text: string) returns (o: Outcome)
    ensures o == Deserialize(text)
  {
    if text == "" {
      return Done([]);
    }
    if Find(text, '{', 0) == -1 {
      return Malformed;
    }
    var values: seq<string> := [];
    var rest := text;
    while rest != "}"
      invariant Deserialize(text) == PrependAll(values, ParseItems(rest))
      decreases |rest|
    {
      var index := Find(rest, Q, 0);
      if index == -1 {
        break;
      }
      if Escaped(rest, index) {
        return Stuck;
      }
      var indexB := FindClosing(rest, index);
      if indexB == -1 {
        break;
      }
      var value := UnescapeLoop(rest[index + 1..indexB]);
      OneValueMore(values, rest, index, indexB);
      values := values + [value];
      rest := rest[indexB + 1..];
    }
    NothingMore(values);
    return Done(values);
  }

  // ----- printing and parsing undo each other, exactly on clean strings

  /** No quote in s, nor the one that the printer puts behind it, follows a backslash. */
  ghost predicate Clean(s: string) {
    forall i :: 0 <= i < |s| && s[i] == BS ==> i + 1 < |s| && s[i + 1] != Q
  }

  /** The printer reads the character before a quote, so no string may start with one. */
  ghost predicate Printable(vals: seq<string>) {
    forall i :: 0 <= i < |vals| && vals[i] != "" ==> vals[i][0] != Q
  }

  lemma {:induction false} EscapedQuotes(s: string, i: nat)
    requires (s != "" ==> s[0] != Q) && i < |Escape(s)| && Escape(s)[i] == Q
    ensures Escaped(Escape(s), i)
  {
    var n := |s| - 1;
    var e := Escape(s[..n]);
    if i < |e| {
      EscapedQuotes(s[..n], i);
      assert Escape(s)[i - 1] == e[i - 1];
    } else if n > 0 {
      EscapeKeepsLast(s[..n]);
    }
  }

  lemma {:induction false} UnescapeAppendFrom(a: string, b: string, i: nat)
    requires i <= |a| && !(a != "" && a[|a| - 1] == BS && b != "" && b[0] == Q)
    ensures UnescapeFrom(a + b, i) == UnescapeFrom(a, i) + Unescape(b)
    decreases |a| - i
  {
    if i == |a| {
      UnescapeShift(a + b, i, b, 0);
      assert "" + Unescape(b) == Unescape(b);
    } else {
      UnescapeAppendFrom(a, b, i + 1);
      assert PairAt(a + b, i) <==> PairAt(a, i);
      Assoc([a[i]], UnescapeFrom(a, i + 1), Unescape(b));
    }
  }

  lemma UnescapeAppend(a: string, b: string)
    requires !(a != "" && a[|a| - 1] == BS && b != "" && b[0] == Q)
    ensures Unescape(a + b) == Unescape(a) + Unescape(b)
  {
    UnescapeAppendFrom(a, b, 0);
  }

  /** Escaping is undone as far as s has no backslash-quote of its own. */
  lemma {:induction false} UnescapeEscape(s: string)
    requires (s != "" ==> s[0] != Q) && forall i :: 0 <= i < |s| ==> !PairAt(s, i)
    ensures Unescape(Escape(s)) == s
  {
    if s != "" {
      var n := |s| - 1;
      forall i | 0 <= i < n ensures !PairAt(s[..n], i) {
        assert !PairAt(s, i);
      }
      UnescapeEscape(s[..n]);
      if n > 0 {
        assert !PairAt(s, n - 1);
        EscapeKeepsLast(s[..n]);
      }
      var last := if s[n] == Q && !Escaped(s, n) then [BS, Q] else [s[n]];
      UnescapeAppend(Escape(s[..n]), last);
      UnescapeLast(s[n], last);
      assert s == s[..n] + [s[n]];
    }
  }

  lemma UnescapeLast(c: char, last: string)
    requires last == [c] || (c == Q && last == [BS, Q])
    ensures Unescape(last) == [c]
  {
    assert UnescapeFrom(last, |last|) == "" && !PairAt(last, |last| - 1);
    assert UnescapeFrom(last, |last| - 1) == [c] + "" == [c];
  }

  /** The printed list seen from its front. */
  function ItemsText(vals: seq<string>, first: bool): string {
    if vals == [] then "}"
    else Item(vals[0], first) + ItemsText(vals[1..], false)
  }

  lemma {:induction false} SerializeFromFront(done: seq<string>, vals: seq<string>)
    ensures SerializeItems(done + vals) + "}" == SerializeItems(done) + ItemsText(vals, done == [])
    decreases |vals|
  {
    if vals == [] {
      assert done + vals == done;
    } else {
      var more := done + [vals[0]];
      SerializeFromFront(more, vals[1..]);
      assert done + vals == more + vals[1..];
      assert more[..|done|] == done;
      assert SerializeItems(more) == SerializeItems(done) + Item(vals[0], done == []);
    }
  }

  lemma ItemBeforeTail(v: string, first: bool, tail: string)
    ensures (if first then "{" else "") + (Item(v, first) + tail)
         == [if first then '{' else ','] + ([Q] + (Escape(v) + ([Q] + tail)))
  {
  }

  /** The parser behind an opening quote. */
  function AfterOpen(x: string): Outcome {
    var close := FindPlainQuote(x, 0);
    if close == -1 then Done([])
    else Prepend(Unescape(x[..close]), ParseItems(x[close + 1..]))
  }

  /** What may stand before a quote that opens a value: no quote, and no backslash at its end. */
  ghost predicate Separator(sep: string) {
    (forall k :: 0 <= k < |sep| ==> sep[k] != Q) && (sep == "" || sep[|sep| - 1] != BS)
  }

  /** Behind a quote at n - 1 the text goes on with x. */
  ghost predicate GoesOn(text: string, n: nat, x: string) {
    1 <= n <= |text| && text[n - 1] == Q && text[n..] == x
  }

  lemma FindGoesOn(text: string, n: nat, x: string)
    requires GoesOn(text, n, x)
    ensures var i, j := FindPlainQuote(text, n), FindPlainQuote(x, 0);
            i == if j == -1 then -1 else n + j
  {
    var i, j := FindPlainQuote(text, n), FindPlainQuote(x, 0);
    if i != -1 {
      SamePlace(text, n, x, i - n);
    }
    if j != -1 {
      SamePlace(text, n, x, j);
    }
  }

  lemma SamePlace(text: string, n: nat, x: string, k: nat)
    requires GoesOn(text, n, x) && k < |x|
    ensures text[n + k] == x[k] && (Escaped(text, n + k) <==> Escaped(x, k))
  {
    assert x[k] == text[n..][k];
    if k > 0 {
      assert x[k - 1] == text[n..][k - 1];
    }
  }

  lemma ValueIs(text: string, open: nat, close: nat, v: string, rest: string)
    requires open < close < |text| && close == FindPlainQuote(text, open + 1)
    requires v == text[open + 1..close] && rest == text[close + 1..]
    ensures ParseValue(text, open) == Prepend(Unescape(v), ParseItems(rest))
  {
  }

  lemma SlicesGoOn(text: string, n: nat, x: string, j: nat)
    requires GoesOn(text, n, x) && j < |x|
    ensures text[n..n + j] == x[..j] && text[n + j + 1..] == x[j + 1..]
  {
    assert x[..j] == text[n..][..j] && x[j + 1..] == text[n..][j + 1..];
  }

  lemma ValueGoesOn(text: string, n: nat, x: string)
    requires GoesOn(text, n, x)
    ensures ParseValue(text, n - 1) == AfterOpen(x)
  {
    var j := FindPlainQuote(x, 0);
    FindGoesOn(text, n, x);
    if j != -1 {
      ClosedGoesOn(text, n, x, j);
    }
  }

  lemma ClosedGoesOn(text: string, n: nat, x: string, j: nat)
    requires GoesOn(text, n, x) && j < |x| && FindPlainQuote(text, n) == n + j
    ensures ParseValue(text, n - 1) == Prepend(Unescape(x[..j]), ParseItems(x[j + 1..]))
  {
    SlicesGoOn(text, n, x, j);
    ValueIs(text, n - 1, n + j, x[..j], x[j + 1..]);
  }

  lemma ParseBehindOpen(sep: string, x: string)
    requires Separator(sep)
    ensures ParseItems(sep + ([Q] + x)) == AfterOpen(x)
  {
    FirstIsOpen(sep, x);
    assert GoesOn(sep + ([Q] + x), |sep| + 1, x);
    ValueGoesOn(sep + ([Q] + x), |sep| + 1, x);
  }

  lemma FirstIsOpen(sep: string, x: string)
    requires Separator(sep)
    ensures var text := sep + ([Q] + x); text != "}" && Find(text, Q, 0) == |sep| && !Escaped(text, |sep|)
  {
    var text := sep + ([Q] + x);
    assert text[|sep|] == Q;
    assert forall k :: 0 <= k < |sep| ==> text[k] == sep[k];
  }

  /** The closing quote of a clean string is found where the printer put it. */
  lemma CloseOfClean(s: string, tail: string)
    requires (s != "" ==> s[0] != Q) && Clean(s)
    ensures FindPlainQuote(Escape(s) + ([Q] + tail), 0) == |Escape(s)|
  {
    var e := Escape(s);
    var x := e + ([Q] + tail);
    forall k | 0 <= k < |e| && x[k] == Q ensures Escaped(x, k) {
      EscapedQuotes(s, k);
    }
    if s != "" {
      EscapeKeepsLast(s);
    }
    assert x[|e|] == Q && !Escaped(x, |e|);
  }

  lemma SlicesAround(e: string, tail: string)
    ensures var x := e + ([Q] + tail); x[..|e|] == e && x[|e| + 1..] == tail
  {
  }

  /** One printed string, met by the parser. */
  lemma ParseClean(s: string, tail: string)
    requires (s != "" ==> s[0] != Q) && Clean(s)
    ensures AfterOpen(Escape(s) + ([Q] + tail)) == Prepend(s, ParseItems(tail))
  {
    CloseOfClean(s, tail);
    SlicesAround(Escape(s), tail);
    UnescapeEscape(s);
  }

  lemma {:induction false} EscapePrefix(s: string, k: nat)
    requires k <= |s|
    ensures Escape(s[..k]) <= Escape(s)
  {
    if k < |s| {
      EscapePrefix(s[..|s| - 1], k);
      assert s[..|s| - 1][..k] == s[..k];
    } else {
      assert s[..k] == s;
    }
  }

  /** A string that is not clean has a first backslash in front of a quote, its own or the
      closing one. */
  lemma FirstPair(s: string) returns (j: nat)
    requires !Clean(s)
    ensures j < |s| && PairAt(s + [Q], j) && forall i :: 0 <= i < j ==> !PairAt(s, i)
  {
    var t := s + [Q];
    j := |s|;
    var bad :| 0 <= bad < |s| && s[bad] == BS && !(bad + 1 < |s| && s[bad + 1] != Q);
    assert PairAt(t, bad);
    j := FindPair(t, 0);
    forall i | 0 <= i < j ensures !PairAt(s, i) {
      assert !PairAt(t, i);
    }
  }

  lemma EscapeOwnPair(s: string, j: nat)
    requires PairAt(s, j)
    ensures Escape(s[..j + 2]) == Escape(s[..j]) + [BS, Q]
  {
    EscapeOne(s, j);
    EscapeOne(s, j + 1);
  }

  lemma EscapeEndingPair(s: string)
    requires s != "" && s[|s| - 1] == BS
    ensures Escape(s) == Escape(s[..|s| - 1]) + [BS]
  {
  }

  lemma PrefixOfLonger(a: string, b: string, c: string)
    requires a <= b
    ensures a <= b + c
  {
  }

  lemma EscapeUpToPair(s: string, j: nat)
    requires j < |s| && PairAt(s + [Q], j)
    ensures Escape(s[..j]) + [BS, Q] <= Escape(s) + [Q]
  {
    var e := Escape(s[..j]);
    if j + 1 < |s| {
      assert PairAt(s, j);
      EscapeOwnPair(s, j);
      EscapePrefix(s, j + 2);
      PrefixOfLonger(e + [BS, Q], Escape(s), [Q]);
    } else {
      EscapeEndingPair(s);
      assert e + [BS] + [Q] == e + [BS, Q];
    }
  }

  lemma UnescapeUpTo(s: string, j: nat)
    requires (s != "" ==> s[0] != Q) && j <= |s| && forall i :: 0 <= i < j ==> !PairAt(s, i)
    ensures Unescape(Escape(s[..j])) == s[..j]
  {
    forall i | 0 <= i < j ensures !PairAt(s[..j], i) {
      assert !PairAt(s, i);
    }
    UnescapeEscape(s[..j]);
  }

  lemma UnescapeThroughPair(e: string, rest: string)
    ensures Unescape(e + ([BS, Q] + rest)) == Unescape(e) + ([Q] + Unescape(rest))
  {
    var b := [BS, Q] + rest;
    UnescapeAppend(e, b);
    UnescapeShift(b, 2, rest, 0);
    assert PairAt(b, 0) && !PairAt(b, 1);
    assert UnescapeFrom(b, 1) == [Q] + UnescapeFrom(b, 2);
  }

  /** The closing quote is not found before the pair is passed. */
  lemma ClosePastPair(s: string, r: string)
    requires s != "" ==> s[0] != Q
    ensures var close := FindPlainQuote(Escape(s) + ([BS, Q] + r), 0);
            close == -1 || close >= |Escape(s)| + 2
  {
    var e := Escape(s);
    var x := e + ([BS, Q] + r);
    forall k | 0 <= k < |e| + 2 && x[k] == Q ensures Escaped(x, k) {
      if k < |e| {
        EscapedQuotes(s, k);
      }
    }
  }

  /** What the parser makes of an unclean string is never that string. */
  lemma ParseUnclean(s: string, tail: string)
    requires (s != "" ==> s[0] != Q) && !Clean(s)
    ensures var o := AfterOpen(Escape(s) + ([Q] + tail));
            o.Done? && o.values != [] ==> o.values[0] != s
  {
    var j := FirstPair(s);
    EscapeUpToPair(s, j);
    var e, x := Escape(s[..j]), Escape(s) + ([Q] + tail);
    SplitPrefix(e, Escape(s) + [Q], tail);
    assert Escape(s) + [Q] + tail == x;
    ClosePastPair(s[..j], x[|e| + 2..]);
    UnescapeUpTo(s, j);
    WrongAt(s, j, e, x);
  }

  lemma SplitPrefix(e: string, y: string, tail: string)
    requires e + [BS, Q] <= y
    ensures |e| + 2 <= |y + tail| && y + tail == e + ([BS, Q] + (y + tail)[|e| + 2..])
  {
    var z := y + tail;
    assert z[..|e| + 2] == e + [BS, Q];
    assert z == z[..|e| + 2] + z[|e| + 2..];
  }

  lemma WrongAt(s: string, j: nat, e: string, x: string)
    requires j < |s| && s[j] == BS && Unescape(e) == s[..j]
    requires |e| + 2 <= |x| && x == e + ([BS, Q] + x[|e| + 2..])
    requires FindPlainQuote(x, 0) == -1 || FindPlainQuote(x, 0) >= |e| + 2
    ensures AfterOpen(x).Done? && AfterOpen(x).values != [] ==> AfterOpen(x).values[0] != s
  {
    var close := FindPlainQuote(x, 0);
    if close != -1 {
      var rest := x[|e| + 2..close];
      assert x[..close] == e + ([BS, Q] + rest);
      UnescapeThroughPair(e, rest);
      assert Unescape(x[..close])[j] == Q;
    }
  }

  ghost predicate AllClean(vals: seq<string>) {
    forall i :: 0 <= i < |vals| ==> Clean(vals[i])
  }

  lemma AllCleanFromFront(vals: seq<string>)
    requires vals != []
    ensures AllClean(vals) <==> Clean(vals[0]) && AllClean(vals[1..])
  {
    if Clean(vals[0]) && AllClean(vals[1..]) {
      forall i | 0 <= i < |vals| ensures Clean(vals[i]) {
        assert i > 0 ==> vals[i] == vals[1..][i - 1];
      }
    }
  }

  lemma PrependDone(vals: seq<string>, o: Outcome)
    requires vals != []
    ensures Prepend(vals[0], o) == Done(vals) <==> o == Done(vals[1..])
  {
    if o.Done? {
      assert ([vals[0]] + o.values)[1..] == o.values;
    }
  }

  lemma {:induction false} ItemsRoundTrip(vals: seq<string>, first: bool)
    requires Printable(vals)
    ensures ParseItems((if first then "{" else "") + ItemsText(vals, first)) == Done(vals) <==> AllClean(vals)
    decreases |vals|
  {
    if vals == [] {
      assert "{" + ItemsText(vals, true) == "{}" && "" + ItemsText(vals, false) == "}";
    } else {
      var p := if first then '{' else ',';
      var tail := ItemsText(vals[1..], false);
      var x := Escape(vals[0]) + ([Q] + tail);
      ItemBeforeTail(vals[0], first, tail);
      assert "" + tail == tail;
      ItemsRoundTrip(vals[1..], false);
      AllCleanFromFront(vals);
      ParseBehindOpen([p], x);
      if Clean(vals[0]) {
        ParseClean(vals[0], tail);
        PrependDone(vals, ParseItems(tail));
      } else {
        ParseUnclean(vals[0], tail);
      }
    }
  }

  /** For every list the printer can print, parsing the printed text gives the list back
      exactly when all its strings are clean. */
  lemma RoundTrip(vals: seq<string>)
    requires Printable(vals)
    ensures Deserialize(Serialize(vals)) == Done(vals) <==> AllClean(vals)
  {
    SerializeIsItems(vals);
    OpenedIsParsed(ItemsText(vals, true));
    ItemsRoundTrip(vals, true);
  }

  lemma SerializeIsItems(vals: seq<string>)
    ensures Serialize(vals) == "{" + ItemsText(vals, true)
  {
    SerializeFromFront([], vals);
    assert [] + vals == vals && SerializeItems([]) == "";
    assert SerializeItems(vals) + "}" == ItemsText(vals, true);
  }

  lemma OpenedIsParsed(text: string)
    ensures Deserialize("{" + text) == ParseItems("{" + text)
  {
    assert ("{" + text)[0] == '{';
  }

  // ----- any text of this form

  /** Text between quotes: its own quotes stand behind backslashes, and it ends in none. */
  ghost predicate Quotable(e: string) {
    (forall k :: 0 <= k < |e| && e[k] == Q ==> Escaped(e, k)) && (e == "" || e[|e| - 1] != BS)
  }

  /** Quoted values with anything that is no quote around and between them. */
  function Spelled(seps: seq<string>, es: seq<string>): string
    requires |seps| == |es| + 1
    decreases |es|
  {
    if es == [] then seps[0] else seps[0] + ([Q] + (es[0] + ([Q] + Spelled(seps[1..], es[1..]))))
  }

  function Unescaped(es: seq<string>): seq<string> {
    if es == [] then [] else [Unescape(es[0])] + Unescaped(es[1..])
  }

  lemma CloseOfQuotable(e: string, tail: string)
    requires Quotable(e)
    ensures FindPlainQuote(e + ([Q] + tail), 0) == |e|
  {
    var x := e + ([Q] + tail);
    forall k | 0 <= k < |e| && x[k] == Q ensures Escaped(x, k) {
      assert e[k] == Q;
    }
    assert x[|e|] == Q && !Escaped(x, |e|);
  }

  /** The parser takes any text of this form: spaces, line breaks or other characters may stand
      before, between and behind the values. */
  lemma {:induction false} SpelledParses(seps: seq<string>, es: seq<string>)
    requires |seps| == |es| + 1 && forall i :: 0 <= i < |seps| ==> Separator(seps[i])
    requires forall i :: 0 <= i < |es| ==> Quotable(es[i])
    ensures ParseItems(Spelled(seps, es)) == Done(Unescaped(es))
    decreases |es|
  {
    if es != [] {
      var tail := Spelled(seps[1..], es[1..]);
      ParseBehindOpen(seps[0], es[0] + ([Q] + tail));
      CloseOfQuotable(es[0], tail);
      SlicesAround(es[0], tail);
      SpelledParses(seps[1..], es[1..]);
    }
  }

  lemma {:induction false} EscapeWithoutQuote(s: string)
    requires forall k :: 0 <= k < |s| ==> s[k] != '\"'
    ensures Escape(s) == s
  {
    if s != "" {
      EscapeWithoutQuote(s[..|s| - 1]);
      assert s == s[..|s| - 1] + [s[|s| - 1]];
    }
  }

  /** A quote inside a value gets a backslash. */
  lemma EscapedAs()
    ensures Escape("a\"b") == "a\\\"b"
  {
    assert "a\"b"[..2] == "a\"" && "a\"b"[..1] == "a" && "a\"b"[..3] == "a\"b";
    EscapeWithoutQuote("a");
    EscapeOne("a\"b", 1);
    EscapeOne("a\"b", 2);
  }

  /** The printed text: values in quotes, commas between them, braces around them all. */
  lemma PrintedAs(vals: seq<string>, v: string)
    requires forall k :: 0 <= k < |v| ==> v[k] != '\"'
    ensures Serialize([]) == "{}"
    ensures Serialize(vals) != "" && Serialize(vals + [v]) ==
            Serialize(vals)[..|Serialize(vals)| - 1] + (if vals == [] then "" else ",") + "\"" + v + "\"" + "}"
  {
    EscapeWithoutQuote(v);
    assert (vals + [v])[..|vals|] == vals;
    var items, comma := SerializeItems(vals), if vals == [] then "" else ",";
    assert SerializeItems(vals + [v]) == items + (comma + ([Q] + (v + [Q])));
    WithoutBrace(items);
    Regroup(items, comma, v);
  }

  lemma WithoutBrace(items: string)
    ensures ("{" + items + "}")[..|items| + 1] == "{" + items
  {
  }

  lemma Regroup(items: string, comma: string, v: string)
    ensures "{" + (items + (comma + ([Q] + (v + [Q])))) + "}" == "{" + items + comma + "\"" + v + "\"" + "}"
  {
    assert [Q] == "\"";
  }

  /** The parser refuses exactly the non-empty texts without an opening brace. */
  lemma MalformedExactlyWhen(text: string)
    ensures Deserialize(text) == Malformed <==> text != "" && forall k :: 0 <= k < |text| ==> text[k] != '{'
  {
    NeverMalformed(text);
  }

  lemma {:induction false} NeverMalformed(text: string)
    ensures ParseItems(text) != Malformed
    decreases |text|
  {
    var open := Find(text, Q, 0);
    if text != "}" && open != -1 && !Escaped(text, open) {
      var close := FindPlainQuote(text, open + 1);
      if close != -1 {
        NeverMalformed(text[close + 1..]);
      }
    }
  }

  /** The same on the loops. */
  method PrintAndParse(vals: seq<string>) returns (o: Outcome)
    requires Printable(vals)
    ensures o == Done(vals) <==> AllClean(vals)
  {
    var text := SerializeLoop(vals);
    o := DeserializeLoop(text);
    RoundTrip(vals);
  }
}
