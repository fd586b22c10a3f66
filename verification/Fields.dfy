/** Register fields as in core/sr_register/sc_register.h: the order check with its insertion
    sort, the mask of a register, and fields as views of the register's value. */
module Fields {
  import opened Words

  /** Bits low to high of a register. */
  datatype Field = Field(high: nat, low: nat)

  /** What gen_mask asserts. */
  predicate InWord(f: Field, width: nat) {
    f.low <= f.high < width
  }

  predicate AllInWord(fs: seq<Field>, width: nat) {
    forall i :: 0 <= i < |fs| ==> InWord(fs[i], width)
  }

  function Mask(f: Field): set<nat> {
    Range(f.low, f.high + 1)
  }

  predicate Disjoint(f: Field, g: Field) {
    f.low > g.high || g.low > f.high
  }

  ghost predicate AllDisjoint(fs: seq<Field>) {
    forall i, j :: 0 <= i < j < |fs| ==> Disjoint(fs[i], fs[j])
  }

  // ----- sorting by high bit, and the overlap assertion on the way

  ghost predicate Descending(fs: seq<Field>) {
    forall i, j :: 0 <= i < j < |fs| ==> fs[i].high >= fs[j].high
  }

  /** The first place whose field has a lower high bit than f. */
  ghost function Place(sorted: seq<Field>, f: Field): (p: nat)
    ensures p <= |sorted| && (p < |sorted| ==> f.high > sorted[p].high)
    ensures forall i :: 0 <= i < p ==> f.high <= sorted[i].high
  {
    if sorted == [] || f.high > sorted[0].high then 0
    else
      var p := 1 + Place(sorted[1..], f);
      assert forall i :: 0 < i < p ==> sorted[i] == sorted[1..][i - 1];
      p
  }

  ghost function Insert(sorted: seq<Field>, f: Field): seq<Field> {
    var p := Place(sorted, f);
    sorted[..p] + [f] + sorted[p..]
  }

  /** What is asserted when f is inserted. */
  ghost predicate Clear(sorted: seq<Field>, f: Field) {
    var p := Place(sorted, f);
    p < |sorted| ==> f.low > sorted[p].high
  }

  ghost function Sorted(fs: seq<Field>): seq<Field> {
    if fs == [] then [] else Insert(Sorted(fs[..|fs| - 1]), fs[|fs| - 1])
  }

  /** If g reaches above f, all of g is above f. */
  ghost predicate ClearOf(f: Field, g: Field) {
    g.high > f.high ==> g.low > f.high
  }

  /** Every field is clear of those registered before it. */
  ghost predicate PassesCheck(fs: seq<Field>) {
    forall i, j :: 0 <= i < j < |fs| ==> ClearOf(fs[i], fs[j])
  }

  lemma InsertAt(sorted: seq<Field>, f: Field, i: nat)
    requires i <= |sorted|
    ensures var p := Place(sorted, f);
            Insert(sorted, f)[i] == if i < p then sorted[i] else if i == p then f else sorted[i - 1]
  {
  }

  lemma PlaceSplits(sorted: seq<Field>, f: Field, i: nat)
    requires Descending(sorted) && i < |sorted|
    ensures i < Place(sorted, f) <==> f.high <= sorted[i].high
  {
  }

  lemma InsertDescending(sorted: seq<Field>, f: Field)
    requires Descending(sorted)
    ensures Descending(Insert(sorted, f))
  {
    var p, r := Place(sorted, f), Insert(sorted, f);
    forall i, j | 0 <= i < j < |r| ensures r[i].high >= r[j].high {
      InsertAt(sorted, f, i);
      InsertAt(sorted, f, j);
      if j == p {
        PlaceSplits(sorted, f, i);
      } else if i == p {
        PlaceSplits(sorted, f, j - 1);
      }
    }
  }

  lemma InsertIsPermutation(sorted: seq<Field>, f: Field)
    ensures multiset(Insert(sorted, f)) == multiset(sorted) + multiset{f}
  {
    var p := Place(sorted, f);
    assert sorted == sorted[..p] + sorted[p..];
  }

  lemma LastAdded(fs: seq<Field>)
    requires fs != []
    ensures multiset(fs) == multiset(fs[..|fs| - 1]) + multiset{fs[|fs| - 1]}
  {
    assert fs == fs[..|fs| - 1] + [fs[|fs| - 1]];
  }

  /** The sorted list is a permutation of the registered one, by descending high bit. */
  lemma {:induction false} SortedIsPermutation(fs: seq<Field>)
    ensures multiset(Sorted(fs)) == multiset(fs) && Descending(Sorted(fs)) && |Sorted(fs)| == |fs|
  {
    if fs != [] {
      var front, last := fs[..|fs| - 1], fs[|fs| - 1];
      SortedIsPermutation(front);
      InsertDescending(Sorted(front), last);
      InsertIsPermutation(Sorted(front), last);
      LastAdded(fs);
    }
  }

  /** The fields with a given high bit, in order. */
  ghost function WithHigh(fs: seq<Field>, high: nat): seq<Field> {
    if fs == [] then []
    else WithHigh(fs[..|fs| - 1], high) + (if fs[|fs| - 1].high == high then [fs[|fs| - 1]] else [])
  }

  lemma {:induction false} WithHighAppend(a: seq<Field>, b: seq<Field>, high: nat)
    ensures WithHigh(a + b, high) == WithHigh(a, high) + WithHigh(b, high)
  {
    if b == [] {
      assert a + b == a;
    } else {
      WithHighAppend(a, b[..|b| - 1], high);
      assert (a + b)[..|a + b| - 1] == a + b[..|b| - 1];
    }
  }

  lemma {:induction false} NoneWithHigh(fs: seq<Field>, high: nat)
    requires forall i :: 0 <= i < |fs| ==> fs[i].high != high
    ensures WithHigh(fs, high) == []
  {
    if fs != [] {
      NoneWithHigh(fs[..|fs| - 1], high);
    }
  }

  lemma MovedPast(a: seq<Field>, b: seq<Field>, f: Field, high: nat)
    requires WithHigh(b, high) == [] || WithHigh([f], high) == []
    ensures WithHigh(a + [f] + b, high) == WithHigh(a + b + [f], high)
  {
    WithHighAppend(a + [f], b, high);
    WithHighAppend(a, [f], high);
    WithHighAppend(a, b, high);
    WithHighAppend(a + b, [f], high);
  }

  lemma NoneBelow(sorted: seq<Field>, f: Field)
    requires Descending(sorted)
    ensures WithHigh(sorted[Place(sorted, f)..], f.high) == []
  {
    var p := Place(sorted, f);
    var b := sorted[p..];
    forall i | 0 <= i < |b| ensures b[i].high != f.high {
      PlaceSplits(sorted, f, p + i);
    }
    NoneWithHigh(b, f.high);
  }

  lemma InsertStable(sorted: seq<Field>, f: Field, high: nat)
    requires Descending(sorted)
    ensures WithHigh(Insert(sorted, f), high) == WithHigh(sorted + [f], high)
  {
    var p := Place(sorted, f);
    if f.high == high {
      NoneBelow(sorted, f);
    } else {
      NoneWithHigh([f], high);
    }
    MovedPast(sorted[..p], sorted[p..], f, high);
    assert sorted == sorted[..p] + sorted[p..];
  }

  /** Fields that share their high bit keep the order of registration. */
  lemma {:induction false} SortedIsStable(fs: seq<Field>, high: nat)
    ensures WithHigh(Sorted(fs), high) == WithHigh(fs, high)
  {
    if fs != [] {
      var front, last := fs[..|fs| - 1], fs[|fs| - 1];
      SortedIsPermutation(front);
      SortedIsStable(front, high);
      InsertStable(Sorted(front), last, high);
      WithHighAppend(Sorted(front), [last], high);
      WithHighAppend(front, [last], high);
      assert fs == front + [last];
    }
  }

  /** In a sorted list one comparison stands for all. */
  lemma ClearMeansAll(sorted: seq<Field>, f: Field)
    requires Descending(sorted)
    ensures Clear(sorted, f) <==> forall i :: 0 <= i < |sorted| ==> ClearOf(sorted[i], f)
  {
    var p := Place(sorted, f);
    forall i | 0 <= i < |sorted| && Clear(sorted, f) ensures ClearOf(sorted[i], f) {
      PlaceSplits(sorted, f, i);
    }
    if p < |sorted| && !Clear(sorted, f) {
      assert !ClearOf(sorted[p], f);
    }
  }

  lemma InSorted(fs: seq<Field>, f: Field)
    ensures f in Sorted(fs) <==> f in fs
  {
    SortedIsPermutation(fs);
    assert f in multiset(Sorted(fs)) <==> f in multiset(fs);
  }

  lemma SameFields(a: seq<Field>, b: seq<Field>, f: Field)
    requires forall g :: g in a ==> g in b
    requires forall i :: 0 <= i < |b| ==> ClearOf(b[i], f)
    ensures forall i :: 0 <= i < |a| ==> ClearOf(a[i], f)
  {
    forall i | 0 <= i < |a| ensures ClearOf(a[i], f) {
      assert a[i] in b;
    }
  }

  lemma PassesMore(fs: seq<Field>)
    requires fs != []
    ensures var front, f := fs[..|fs| - 1], fs[|fs| - 1];
            PassesCheck(fs) <==> PassesCheck(front) && forall i :: 0 <= i < |front| ==> ClearOf(front[i], f)
  {
    var front, f := fs[..|fs| - 1], fs[|fs| - 1];
    if PassesCheck(fs) {
      forall i, j | 0 <= i < j < |front| ensures ClearOf(front[i], front[j]) {
        assert ClearOf(fs[i], fs[j]);
      }
      forall i | 0 <= i < |front| ensures ClearOf(front[i], f) {
        assert ClearOf(fs[i], fs[|fs| - 1]);
      }
    }
    if PassesCheck(front) && forall i :: 0 <= i < |front| ==> ClearOf(front[i], f) {
      forall i, j | 0 <= i < j < |fs| ensures ClearOf(fs[i], fs[j]) {
        assert if j < |front| then ClearOf(front[i], front[j]) else ClearOf(front[i], f);
      }
    }
  }

  /** The assertion holds at every insertion exactly when the registered fields pass. */
  lemma ClearIsPasses(fs: seq<Field>)
    requires fs != []
    ensures PassesCheck(fs) <==> PassesCheck(fs[..|fs| - 1]) && Clear(Sorted(fs[..|fs| - 1]), fs[|fs| - 1])
  {
    var front, f := fs[..|fs| - 1], fs[|fs| - 1];
    var sorted := Sorted(front);
    SortedIsPermutation(front);
    ClearMeansAll(sorted, f);
    PassesMore(fs);
    forall g ensures g in sorted <==> g in front {
      InSorted(front, g);
    }
    if Clear(sorted, f) {
      SameFields(front, sorted, f);
    }
    if PassesCheck(fs) {
      SameFields(sorted, front, f);
    }
  }

  ghost function Reverse(fs: seq<Field>): seq<Field> {
    seq(|fs|, i requires 0 <= i < |fs| => fs[|fs| - 1 - i])
  }

  /** The check alone does not find every overlap: it depends on the order of registration
      and overlooks equal high bits. Fields are disjoint exactly when they pass in both
      orders and no two have the same high bit. */
  lemma DisjointExactlyWhen(fs: seq<Field>, width: nat)
    requires AllInWord(fs, width)
    ensures AllDisjoint(fs) <==>
            && PassesCheck(fs) && PassesCheck(Reverse(fs))
            && forall i, j :: 0 <= i < j < |fs| ==> fs[i].high != fs[j].high
  {
    var back, n := Reverse(fs), |fs|;
    if AllDisjoint(fs) {
      forall i, j | 0 <= i < j < n ensures fs[i].high != fs[j].high && ClearOf(fs[i], fs[j]) && ClearOf(fs[j], fs[i]) {
        assert Disjoint(fs[i], fs[j]) && InWord(fs[i], width) && InWord(fs[j], width);
      }
      forall i, j | 0 <= i < j < n ensures ClearOf(back[i], back[j]) {
        assert ClearOf(fs[n - 1 - i], fs[n - 1 - j]);
      }
    } else if PassesCheck(fs) && PassesCheck(back) {
      var i, j :| 0 <= i < j < n && !Disjoint(fs[i], fs[j]);
      assert ClearOf(back[n - 1 - j], back[n - 1 - i]) && ClearOf(fs[i], fs[j]);
    }
  }

  /** An overlap that passes: bits 7 to 0 registered before bits 3 to 2. */
  lemma OverlapMayPass()
    ensures var fs := [Field(7, 0), Field(3, 2)]; PassesCheck(fs) && !AllDisjoint(fs)
  {
    var fs := [Field(7, 0), Field(3, 2)];
    assert !Disjoint(fs[0], fs[1]);
  }

  // ----- the mask

  ghost function Union(fs: seq<Field>): set<nat> {
    if fs == [] then {} else Union(fs[..|fs| - 1]) + Mask(fs[|fs| - 1])
  }

  ghost function RegisterMask(fs: seq<Field>, width: nat): set<nat> {
    if fs == [] then Range(0, width) else Union(fs)
  }

  lemma {:induction false} UnionIs(fs: seq<Field>, b: nat)
    ensures b in Union(fs) <==> exists f :: f in fs && b in Mask(f)
  {
    if fs != [] {
      UnionIs(fs[..|fs| - 1], b);
      assert fs == fs[..|fs| - 1] + [fs[|fs| - 1]];
    }
  }

  /** Sorting does not change the mask. */
  lemma UnionOfSorted(fs: seq<Field>)
    ensures Union(Sorted(fs)) == Union(fs)
  {
    forall b ensures b in Union(Sorted(fs)) <==> b in Union(fs) {
      UnionIs(fs, b);
      UnionIs(Sorted(fs), b);
      forall f ensures f in Sorted(fs) <==> f in fs {
        InSorted(fs, f);
      }
    }
  }

  /** A bit belongs to a register if the register has no fields, or one of them covers it. */
  lemma RegisterMaskExactly(fs: seq<Field>, width: nat, b: nat)
    requires AllInWord(fs, width)
    ensures b in RegisterMask(fs, width) <==> b < width && (fs == [] || exists f :: f in fs && f.low <= b <= f.high)
  {
    UnionIs(fs, b);
    forall f | f in fs ensures InWord(f, width) && (b in Mask(f) <==> f.low <= b <= f.high) {
      var i :| 0 <= i < |fs| && fs[i] == f;
      assert InWord(fs[i], width);
    }
  }

  lemma RegisterMaskIs(fs: seq<Field>, width: nat)
    requires AllInWord(fs, width)
    ensures forall b: nat :: b in RegisterMask(fs, width) <==>
              b < width && (fs == [] || exists f :: f in fs && f.low <= b <= f.high)
  {
    forall b: nat ensures b in RegisterMask(fs, width) <==>
        b < width && (fs == [] || exists f :: f in fs && f.low <= b <= f.high)
    {
      RegisterMaskExactly(fs, width, b);
    }
  }

  lemma FieldInMask(fs: seq<Field>, f: Field)
    requires f in fs
    ensures Mask(f) <= Union(fs)
  {
    forall b | b in Mask(f) ensures b in Union(fs) {
      UnionIs(fs, b);
    }
  }

  // ----- field access

  /** `mask_write` followed by the masking of `write`. */
  function FieldWrite(cur: set<nat>, mask: set<nat>, f: Field, v: set<nat>, width: nat): set<nat> {
    (Shl(v, f.low, width) * Mask(f) + (cur - Mask(f))) * mask
  }

  /** `mask_read` */
  function FieldRead(cur: set<nat>, f: Field): set<nat> {
    Shr(cur * Mask(f), f.low)
  }

  lemma {:induction false} NumberOfLow(w: set<nat>, m: nat, n: nat)
    requires m <= n
    ensures NumberUpTo(w * Range(0, m), n) == NumberUpTo(w, m)
    decreases n
  {
    if m < n {
      NumberOfLow(w, m, n - 1);
    } else if n > 0 {
      SameBits(w * Range(0, m), w, m);
    }
  }

  lemma {:induction false} SameBits(a: set<nat>, b: set<nat>, n: nat)
    requires forall i :: 0 <= i < n ==> (i in a <==> i in b)
    ensures NumberUpTo(a, n) == NumberUpTo(b, n)
  {
    if n > 0 {
      SameBits(a, b, n - 1);
    }
  }

  /** Writing a number and reading it back gives it modulo two to the width of the field. */
  lemma ReadAfterWrite(cur: set<nat>, mask: set<nat>, f: Field, v: set<nat>, width: nat)
    requires InWord(f, width) && Mask(f) <= mask
    ensures NumberUpTo(FieldRead(FieldWrite(cur, mask, f, v, width), f), width)
         == NumberUpTo(v, width) % Pow2(f.high - f.low + 1)
  {
    var got: set<nat>, w: nat := FieldRead(FieldWrite(cur, mask, f, v, width), f), f.high - f.low + 1;
    forall i: nat ensures i in got <==> i in v && i < w {
      assert i in got <==> i + f.low in FieldWrite(cur, mask, f, v, width) * Mask(f);
    }
    assert got == v * Range(0, w);
    NumberOfLow(v, w, width);
    NumberModulo(v, w, width);
  }

  /** Writing a field leaves another one as it was, for all values, exactly when the two are
      disjoint. */
  lemma OthersUnchanged(mask: set<nat>, f: Field, g: Field, width: nat)
    requires InWord(f, width) && InWord(g, width) && Mask(f) <= mask && Mask(g) <= mask
    ensures Disjoint(f, g) <==>
            forall cur, v :: cur <= mask ==> FieldRead(FieldWrite(cur, mask, f, v, width), g) == FieldRead(cur, g)
  {
    if Disjoint(f, g) {
      forall cur, v | cur <= mask ensures FieldRead(FieldWrite(cur, mask, f, v, width), g) == FieldRead(cur, g) {
        OtherUnchanged(cur, mask, f, g, v, width);
      }
    } else {
      var b := if f.low > g.low then f.low else g.low;
      var cur: set<nat>, v: set<nat> := {}, {b - f.low};
      assert b in FieldWrite(cur, mask, f, v, width);
      assert b - g.low in FieldRead(FieldWrite(cur, mask, f, v, width), g);
      assert b - g.low !in FieldRead(cur, g);
    }
  }

  lemma OtherUnchanged(cur: set<nat>, mask: set<nat>, f: Field, g: Field, v: set<nat>, width: nat)
    requires Disjoint(f, g) && cur <= mask
    ensures FieldRead(FieldWrite(cur, mask, f, v, width), g) == FieldRead(cur, g)
  {
    var next := FieldWrite(cur, mask, f, v, width);
    forall b: nat ensures b in next * Mask(g) <==> b in cur * Mask(g) {
    }
    assert next * Mask(g) == cur * Mask(g);
  }

  /** Writing back what a field holds changes nothing. */
  lemma WriteWhatIsRead(cur: set<nat>, mask: set<nat>, f: Field, width: nat)
    requires InWord(f, width) && cur <= mask
    ensures FieldWrite(cur, mask, f, FieldRead(cur, f), width) == cur
  {
    var got := FieldRead(cur, f);
    var back := Shl(got, f.low, width) * Mask(f);
    forall b: nat ensures b in back <==> b in cur * Mask(f) {
      assert b >= f.low ==> (b - f.low in got <==> b in cur * Mask(f));
    }
    assert back == cur * Mask(f);
  }

  /** The last write to a field wins. */
  lemma WriteTwice(cur: set<nat>, mask: set<nat>, f: Field, v: set<nat>, w: set<nat>, width: nat)
    ensures FieldWrite(FieldWrite(cur, mask, f, v, width), mask, f, w, width) == FieldWrite(cur, mask, f, w, width)
  {
  }
}
