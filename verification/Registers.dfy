/** The register classes of core/sr_register: sc_register_b, its fields, and sr_register. */
module Registers {
  import opened Words
  import opened Fields

  /** gen_mask, and the same loop in check_and_init: width ones, moved to the low bit. */
  method GenMask(f: Field, width: nat) returns (mask: set<nat>)
    requires InWord(f, width)
    ensures mask == Mask(f)
  {
    var n := f.high - f.low + 1;
    mask := {};
    for i := 0 to n
      invariant mask == Range(0, i)
    {
      ghost var was := mask;
      mask := Shl(mask, 1, width) + {0};
      assert forall b: nat :: b in mask <==> b == 0 || b - 1 in was;
    }
    ghost var low := mask;
    mask := Shl(mask, f.low, width);
    assert forall b: nat :: b in mask <==> b < width && b >= f.low && b - f.low in low;
  }

  class Register {
    const width: nat
    const resetVal: set<nat>
    const writeMask: set<nat>
    var fields: seq<Field>
    var mask: set<nat>
    var cur: set<nat>

    /** Value and mask are not set before check_and_init. */
    constructor (width: nat, resetVal: set<nat>, writeMask: set<nat>)
      ensures this.width == width && this.resetVal == resetVal && this.writeMask == writeMask && fields == []
    {
      this.width, this.resetVal, this.writeMask := width, resetVal, writeMask;
      fields := [];
    }

    ghost predicate FieldsInWord()
      reads this
    {
      AllInWord(fields, width)
    }

    /** After check_and_init: the fields are sorted, the mask is theirs, and the value is within it. */
    ghost predicate Ready()
      reads this
    {
      FieldsInWord() && Descending(fields) && mask == RegisterMask(fields, width) && cur <= mask
    }

    /** Constructing a field asserts its bounds and adds it to its register. */
    method AddField(f: Field)
      requires InWord(f, width) && FieldsInWord()
      modifies this`fields
      ensures FieldsInWord() && fields == old(fields) + [f]
    {
      fields := fields + [f];
    }

    /** Inserts f by its high bit; ok is false where the assertion fails. */
    static method InsertField(sorted: seq<Field>, f: Field) returns (ok: bool, more: seq<Field>)
      ensures ok <==> Clear(sorted, f)
      ensures ok ==> more == Insert(sorted, f)
    {
      ok, more := true, sorted;
      var fite := 0;
      while fite < |sorted|
        invariant ok && fite <= |sorted| && forall k :: 0 <= k < fite ==> f.high <= sorted[k].high
      {
        if f.high > sorted[fite].high {
          ok := f.low > sorted[fite].high;
          break;
        }
        fite := fite + 1;
      }
      assert fite == Place(sorted, f);
      more := sorted[..fite] + [f] + sorted[fite..];
    }

    /** The sorting loop of check_and_init. */
    method SortFields() returns (ok: bool, sorted: seq<Field>)
      ensures ok <==> PassesCheck(fields)
      ensures ok ==> sorted == Sorted(fields)
    {
      ok, sorted := true, [];
      for i := 0 to |fields|
        invariant ok && sorted == Sorted(fields[..i]) && PassesCheck(fields[..i])
      {
        ghost var done := fields[..i + 1];
        assert done[..i] == fields[..i];
        ClearIsPasses(done);
        PrefixPasses(fields, i + 1);
        ok, sorted := InsertField(sorted, fields[i]);
        if !ok {
          return;
        }
      }
      assert fields[..|fields|] == fields;
    }

    /** The masking loop of check_and_init. */
    method CollectMask() returns (m: set<nat>)
      requires FieldsInWord()
      ensures m == RegisterMask(fields, width)
    {
      if |fields| > 0 {
        m := {};
        for i := 0 to |fields|
          invariant m == Union(fields[..i])
        {
          var fmask := GenMask(fields[i], width);
          assert fields[..i + 1][..i] == fields[..i];
          m := m + fmask;
        }
        assert fields[..|fields|] == fields;
      } else {
        m := Range(0, width);
      }
    }

    /** `check_and_init`: ok exactly when no assertion fails; then the register starts with its
        reset value, cut to the bits of its fields. */
    method CheckAndInit() returns (ok: bool)
      requires FieldsInWord()
      modifies this
      ensures ok <==> PassesCheck(old(fields))
      ensures ok ==> Ready() && fields == Sorted(old(fields))
      ensures ok ==> mask == RegisterMask(old(fields), width) && cur == resetVal * mask
      ensures ok ==> forall b: nat :: b in mask <==>
                b < width && (old(fields) == [] || exists f :: f in old(fields) && f.low <= b <= f.high)
      ensures !ok ==> fields == old(fields) && mask == old(mask) && cur == old(cur)
    {
      var sorted;
      ok, sorted := SortFields();
      if !ok {
        return;
      }
      RegisterMaskIs(fields, width);
      SortedIsPermutation(fields);
      SortedInWord(fields, width);
      UnionOfSorted(fields);
      fields := sorted;
      mask := CollectMask();
      Write(resetVal);
    }

    /** `write`: bits outside the mask are dropped. */
    method Write(v: set<nat>)
      modifies this`cur
      ensures cur == v * mask
      ensures old(Ready()) ==> Ready()
    {
      cur := v * mask;
    }

    method Read() returns (v: set<nat>)
      ensures v == cur
    {
      v := cur;
    }

    method MaskRead(m: set<nat>, rightShiftBits: nat) returns (v: set<nat>)
      ensures v == Shr(cur * m, rightShiftBits)
    {
      v := Shr(cur * m, rightShiftBits);
    }

    method MaskWrite(v: set<nat>, m: set<nat>, leftShiftBits: nat)
      modifies this`cur
      ensures cur == (Shl(v, leftShiftBits, width) * m + (old(cur) - m)) * mask
      ensures old(Ready()) ==> Ready()
    {
      Write(Shl(v, leftShiftBits, width) * m + (cur - m));
    }

    /** `read` of a field: its bits as a number. */
    method ReadField(f: Field) returns (v: set<nat>)
      requires InWord(f, width)
      ensures v == FieldRead(cur, f)
    {
      var m := GenMask(f, width);
      v := MaskRead(m, f.low);
    }

    /** `write` of a field. Reading it back gives v modulo two to its width, every disjoint
        field reads as before, and the register stays ready. */
    method WriteField(f: Field, v: set<nat>)
      requires Ready() && f in fields
      modifies this`cur
      ensures Ready() && cur == FieldWrite(old(cur), mask, f, v, width)
      ensures NumberUpTo(FieldRead(cur, f), width) == NumberUpTo(v, width) % Pow2(f.high - f.low + 1)
      ensures forall g :: g in fields && Disjoint(f, g) ==> FieldRead(cur, g) == FieldRead(old(cur), g)
    {
      ghost var was := cur;
      var m := GenMask(f, width);
      MaskWrite(v, m, f.low);
      FieldInMask(fields, f);
      ReadAfterWrite(was, mask, f, v, width);
      forall g | g in fields && Disjoint(f, g) ensures FieldRead(cur, g) == FieldRead(was, g) {
        OtherUnchanged(was, mask, f, g, v, width);
      }
    }

    /** `bus_write` of sr_register, without callbacks. */
    method BusWrite(i: set<nat>)
      modifies this`cur
      ensures cur == i * writeMask * mask
      ensures old(Ready()) ==> Ready()
    {
      Write(i * writeMask);
    }

    method BusRead() returns (i: set<nat>)
      ensures i == cur
    {
      i := Read();
    }

    method Bit(pos: nat) returns (b: bool)
      requires pos < width
      ensures b <==> pos in cur
    {
      var v := Read();
      b := v * {pos} != {};
      assert pos in v <==> pos in v * {pos};
    }

    /** `bit(pos, value)`: the other bits stay; a bit outside the mask cannot be set. */
    method PutBit(pos: nat, value: bool)
      requires pos < width && cur <= mask
      modifies this`cur
      ensures cur == SetBit(old(cur), pos, value && pos in mask)
      ensures old(Ready()) ==> Ready()
    {
      Write((cur - {pos}) + (if value then {pos} else {}));
    }
  }

  /** A register without fields, as the interrupt controller creates them: it starts with its
      reset value within the word, and what is written is read back in its writable bits. */
  method WithoutFields(width: nat, resetVal: set<nat>, writeMask: set<nat>, v: set<nat>)
    returns (atStart: set<nat>, read: set<nat>)
    ensures forall b: nat :: b in atStart <==> b < width && b in resetVal
    ensures forall b: nat :: b in read <==> b < width && b in writeMask && b in v
  {
    var r := new Register(width, resetVal, writeMask);
    var ok := r.CheckAndInit();
    atStart := r.BusRead();
    r.BusWrite(v);
    read := r.BusRead();
  }

  lemma PrefixPasses(fs: seq<Field>, n: nat)
    requires n <= |fs|
    ensures PassesCheck(fs) ==> PassesCheck(fs[..n])
  {
    if PassesCheck(fs) {
      forall i, j | 0 <= i < j < n ensures ClearOf(fs[..n][i], fs[..n][j]) {
        assert ClearOf(fs[i], fs[j]);
      }
    }
  }

  lemma SortedInWord(fs: seq<Field>, width: nat)
    requires AllInWord(fs, width)
    ensures AllInWord(Sorted(fs), width)
  {
    forall i | 0 <= i < |Sorted(fs)| ensures InWord(Sorted(fs)[i], width) {
      InSorted(fs, Sorted(fs)[i]);
    }
  }
}
