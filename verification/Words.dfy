/** Machine words as sets of bit positions.

    An unsigned word is modelled by the set of its one bits. The bitwise operators of C++ are
    defined bit by bit on the base-2 representation, so `|` is union, `&` is intersection,
    `& ~m` is difference and `1 << k` is the singleton `{k}`; NumberUpTo gives the number a
    word stands for, and NumberIsOneToOne shows that nothing is lost.
*/
module Words {

  ghost predicate IsWord(s: set<nat>) {
    forall i :: i in s ==> i < 32
  }

  type Word = s: set<nat> | IsWord(s) witness {}

  predicate Within(lo: nat, i: nat, hi: nat) {
    lo <= i < hi
  }

  /** The bits lo, lo+1, ..., hi-1. */
  function Range(lo: nat, hi: nat): (r: set<nat>)
    ensures forall i: nat :: i in r <==> lo <= i < hi
  {
    set i: nat | i < hi && Within(lo, i, hi)
  }

  /** `(w & ~(1 << pos)) | (value << pos)`, the body of `sr_register::bit(pos, value)`. */
  function SetBit(w: set<nat>, pos: nat, value: bool): set<nat> {
    if value then w + {pos} else w - {pos}
  }

  /** `w >> n` */
  function Shr(w: set<nat>, n: nat): (r: set<nat>)
    ensures forall i: nat :: i in r <==> i + n in w
  {
    set i | i in w && i >= n :: i - n
  }

  /** `w << n` in a word of the given width: bits moved past the top are lost. */
  function Shl(w: set<nat>, n: nat, width: nat): (r: set<nat>)
    ensures forall i: nat :: i in r <==> i < width && i >= n && i - n in w
  {
    set i | i in w && i + n < width :: i + n
  }

  function Pow2(n: nat): (p: nat)
    ensures p > 0
  {
    if n == 0 then 1 else 2 * Pow2(n - 1)
  }

  /** The unsigned number held by the low n bits of w. */
  function NumberUpTo(w: set<nat>, n: nat): (v: nat)
    ensures v < Pow2(n)
  {
    if n == 0 then 0
    else NumberUpTo(w, n - 1) + (if n - 1 in w then Pow2(n - 1) else 0)
  }

  /** Two words hold the same number exactly when they have the same bits. */
  lemma {:induction false} NumberIsOneToOne(a: set<nat>, b: set<nat>, n: nat)
    ensures NumberUpTo(a, n) == NumberUpTo(b, n) <==> a * Range(0, n) == b * Range(0, n)
  {
    if n == 0 {
      assert a * Range(0, 0) == b * Range(0, 0);
    } else {
      NumberIsOneToOne(a, b, n - 1);
      BitsSplit(a, n);
      BitsSplit(b, n);
      assert n - 1 in a * Range(0, n) <==> n - 1 in a;
      assert n - 1 in b * Range(0, n) <==> n - 1 in b;
      assert a * Range(0, n - 1) == a * Range(0, n) - {n - 1};
      assert b * Range(0, n - 1) == b * Range(0, n) - {n - 1};
    }
  }

  lemma BitsSplit(a: set<nat>, n: nat)
    requires n > 0
    ensures a * Range(0, n) == a * Range(0, n - 1) + (if n - 1 in a then {n - 1} else {})
  {
  }

  lemma DoubleProduct(x: nat, y: nat)
    ensures 2 * (x * y) == 2 * x * y
  {
  }

  lemma {:induction false} Pow2Add(a: nat, b: nat)
    ensures Pow2(a + b) == Pow2(a) * Pow2(b)
  {
    if a != 0 {
      Pow2Add(a - 1, b);
      DoubleProduct(Pow2(a - 1), Pow2(b));
    }
  }

  lemma ModIsUnique(x: nat, q: nat, d: nat, r: nat)
    requires r < d && x == q * d + r
    ensures x % d == r
  {
    var e := q - x / d;
    assert e * d == q * d - (x / d) * d == x % d - r;
  }

  /** Above its low m bits a number is a multiple of 2^m. */
  lemma {:induction false} NumberSplit(w: set<nat>, m: nat, n: nat) returns (q: nat)
    requires m <= n
    ensures NumberUpTo(w, n) == q * Pow2(m) + NumberUpTo(w, m)
  {
    if m == n {
      q := 0;
    } else {
      q := NumberSplit(w, m, n - 1);
      if n - 1 in w {
        Pow2Add(n - 1 - m, m);
        var p := Pow2(n - 1 - m);
        assert (q + p) * Pow2(m) == q * Pow2(m) + p * Pow2(m);
        q := q + p;
      }
    }
  }

  /** Keeping the low m bits is taking the number modulo 2^m. */
  lemma NumberModulo(w: set<nat>, m: nat, n: nat)
    requires m <= n
    ensures NumberUpTo(w, m) == NumberUpTo(w, n) % Pow2(m)
  {
    var q := NumberSplit(w, m, n);
    ModIsUnique(NumberUpTo(w, n), q, Pow2(m), NumberUpTo(w, m));
  }
}
