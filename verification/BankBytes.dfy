/** Byte access to a bank of registers, as functions on the registers' values
    (core/sr_register/sr_register.h). */
module BankBytes {
  import opened Words

  ghost predicate IsByte(b: set<nat>) {
    b <= Range(0, 8)
  }

  type Byte = b: set<nat> | IsByte(b) witness {}

  // ----- the bytes of a word, on a little-endian host

  function ByteOf(w: set<nat>, k: nat): (b: Byte)
    ensures forall i: nat :: i in b <==> i < 8 && i + 8 * k in w
  {
    Shr(w, 8 * k) * Range(0, 8)
  }

  function PutByte(w: set<nat>, k: nat, b: Byte): set<nat> {
    (w - Range(8 * k, 8 * k + 8)) + Shl(b, 8 * k, 8 * k + 8)
  }

  predicate HasBit(w: set<nat>, k: nat, i: nat) {
    i + 8 * k in w
  }

  lemma SameByte(w: set<nat>, k: nat, b: Byte)
    requires forall i: nat :: i < 8 ==> (HasBit(w, k, i) <==> i in b)
    ensures ByteOf(w, k) == b
  {
    forall i: nat ensures i in ByteOf(w, k) <==> i in b {
      assert i < 8 ==> (HasBit(w, k, i) <==> i in b);
    }
  }

  lemma BitOfPut(w: set<nat>, k: nat, b: Byte, j: nat, i: nat)
    requires i < 8
    ensures HasBit(PutByte(w, k, b), j, i) <==> if j == k then i in b else HasBit(w, j, i)
  {
  }

  lemma ByteOfMasked(w: set<nat>, m: set<nat>, k: nat)
    ensures ByteOf(w * m, k) == ByteOf(w, k) * ByteOf(m, k)
  {
  }

  /** `memcpy(&w, &v[idx], m)` */
  function Patch(w: set<nat>, v: seq<Byte>, idx: nat, m: nat): set<nat>
    requires idx + m <= |v|
  {
    if m == 0 then w
    else
      var last := m - 1;
      PutByte(Patch(w, v, idx, last), last, v[idx + last])
  }

  lemma {:induction false} BitOfPatch(w: set<nat>, v: seq<Byte>, idx: nat, m: nat, k: nat, i: nat)
    requires idx + m <= |v| && i < 8
    ensures HasBit(Patch(w, v, idx, m), k, i) <==> if k < m then i in v[idx + k] else HasBit(w, k, i)
  {
    if m > 0 {
      BitOfPut(Patch(w, v, idx, m - 1), m - 1, v[idx + (m - 1)], k, i);
      if k != m - 1 {
        BitOfPatch(w, v, idx, m - 1, k, i);
      }
    }
  }

  lemma ByteBehindPatch(w: set<nat>, v: seq<Byte>, idx: nat, m: nat, k: nat)
    requires idx + m <= |v| && k >= m
    ensures ByteOf(Patch(w, v, idx, m), k) == ByteOf(w, k)
  {
    forall i: nat | i < 8 ensures HasBit(Patch(w, v, idx, m), k, i) <==> i in ByteOf(w, k) {
      BitOfPatch(w, v, idx, m, k, i);
    }
    SameByte(Patch(w, v, idx, m), k, ByteOf(w, k));
  }

  lemma ByteOfPatch(w: set<nat>, v: seq<Byte>, idx: nat, m: nat, k: nat)
    requires idx + m <= |v|
    ensures ByteOf(Patch(w, v, idx, m), k) == if k < m then v[idx + k] else ByteOf(w, k)
  {
    if k < m {
      forall i: nat | i < 8 ensures HasBit(Patch(w, v, idx, m), k, i) <==> i in v[idx + k] {
        BitOfPatch(w, v, idx, m, k, i);
      }
      SameByte(Patch(w, v, idx, m), k, v[idx + k]);
    } else {
      ByteBehindPatch(w, v, idx, m, k);
    }
  }

  function StoredAt(v: seq<Byte>, idx: nat, m: nat, w: set<nat>, i: nat): Byte
    requires i < |v|
  {
    if idx <= i < idx + m then ByteOf(w, i - idx) else v[i]
  }

  /** `memcpy(&v[idx], &w, m)` */
  function Store(v: seq<Byte>, idx: nat, m: nat, w: set<nat>): (r: seq<Byte>)
    requires idx + m <= |v|
    ensures |r| == |v|
    ensures forall i: nat :: i < |v| ==> r[i] == StoredAt(v, idx, m, w, i)
  {
    seq(|v|, i requires 0 <= i < |v| => StoredAt(v, idx, m, w, i))
  }

  // ----- the bank

  /** A register as the bank sees it. */
  datatype Cell = Cell(cur: set<nat>, mask: set<nat>, writeMask: set<nat>)

  /** The register after a bus write: what is not writable becomes zero. */
  function Written(c: Cell, w: set<nat>): Cell {
    c.(cur := w * c.writeMask * c.mask)
  }

  function CellRead(cells: map<nat, Cell>, a: nat): set<nat> {
    if a in cells then cells[a].cur else {}
  }

  function CellWrite(cells: map<nat, Cell>, a: nat, w: set<nat>): map<nat, Cell> {
    if a in cells then cells[a := Written(cells[a], w)] else cells
  }

  /** How many bytes of the n-byte word at idx an access of `size` bytes covers. */
  function Part(n: nat, size: nat, idx: nat): nat
    requires idx < size
  {
    if n < size - idx then n else size - idx
  }

  /** `scireg_write` from byte idx on. */
  function WriteFrom(cells: map<nat, Cell>, v: seq<Byte>, size: nat, offset: nat, n: nat, idx: nat): map<nat, Cell>
    requires size <= |v| && n > 0
    decreases if idx < size then size - idx else 0
  {
    if idx >= size then cells
    else
      var w := Patch(CellRead(cells, offset + idx), v, idx, Part(n, size, idx));
      WriteFrom(CellWrite(cells, offset + idx, w), v, size, offset, n, idx + n)
  }

  /** `scireg_read` from byte idx on, into v. */
  function ReadFrom(cells: map<nat, Cell>, v: seq<Byte>, size: nat, offset: nat, n: nat, idx: nat): seq<Byte>
    requires size <= |v| && n > 0
    decreases if idx < size then size - idx else 0
  {
    if idx >= size then v
    else ReadFrom(cells, Store(v, idx, Part(n, size, idx), CellRead(cells, offset + idx)), size, offset, n, idx + n)
  }

  // ----- which registers an access touches

  /** The access, from byte idx on, has a word at address a. */
  predicate Touches(a: nat, size: nat, offset: nat, n: nat, idx: nat)
    requires n > 0
  {
    offset + idx <= a < offset + size && (a - offset - idx) % n == 0
  }

  lemma ModStep(x: nat, n: nat)
    requires n > 0 && x >= n
    ensures (x - n) % n == x % n
  {
    var q := x / n;
    assert x - n == (q - 1) * n + x % n;
    assert q >= 1;
    ModIsUnique(x - n, q - 1, n, x % n);
  }

  lemma ModSmall(x: nat, n: nat)
    requires x < n
    ensures x % n == x
  {
  }

  lemma TouchesStep(a: nat, size: nat, offset: nat, n: nat, idx: nat)
    requires n > 0 && idx < size
    ensures Touches(a, size, offset, n, idx) <==> a == offset + idx || Touches(a, size, offset, n, idx + n)
    ensures !Touches(offset + idx, size, offset, n, idx + n)
  {
    if offset + idx <= a {
      var x := a - offset - idx;
      if x >= n {
        ModStep(x, n);
      } else {
        ModSmall(x, n);
      }
    }
  }

  /** What a write does to the register at address a: a touched register holds the bytes of
      the access on top of its old value, cut to its writable bits; any other is unchanged. */
  lemma {:induction false} WriteFromAt(cells: map<nat, Cell>, v: seq<Byte>, size: nat, offset: nat, n: nat,
                                       idx: nat, a: nat)
    requires size <= |v| && n > 0 && a in cells
    ensures a in WriteFrom(cells, v, size, offset, n, idx)
    ensures WriteFrom(cells, v, size, offset, n, idx)[a] ==
            if Touches(a, size, offset, n, idx)
            then Written(cells[a], Patch(cells[a].cur, v, a - offset, Part(n, size, a - offset)))
            else cells[a]
    decreases if idx < size then size - idx else 0
  {
    if idx < size {
      var w := Patch(CellRead(cells, offset + idx), v, idx, Part(n, size, idx));
      WriteFromAt(CellWrite(cells, offset + idx, w), v, size, offset, n, idx + n, a);
      TouchesStep(a, size, offset, n, idx);
    }
  }

  lemma {:induction false} WriteFromKeys(cells: map<nat, Cell>, v: seq<Byte>, size: nat, offset: nat, n: nat, idx: nat)
    requires size <= |v| && n > 0
    ensures WriteFrom(cells, v, size, offset, n, idx).Keys == cells.Keys
    decreases if idx < size then size - idx else 0
  {
    if idx < size {
      var w := Patch(CellRead(cells, offset + idx), v, idx, Part(n, size, idx));
      WriteFromKeys(CellWrite(cells, offset + idx, w), v, size, offset, n, idx + n);
    }
  }

  /** The start of the word that holds byte q, counting words from idx on. */
  function WordOf(q: nat, idx: nat, n: nat): (p: nat)
    requires idx <= q && n > 0
    ensures idx <= p <= q < p + n
    decreases q - idx
  {
    if q < idx + n then idx else WordOf(q, idx + n, n)
  }

  lemma {:induction false} WordsBefore(q: nat, idx: nat, n: nat) returns (k: nat)
    requires idx <= q && n > 0
    ensures WordOf(q, idx, n) == idx + k * n
    decreases q - idx
  {
    if q < idx + n {
      k := 0;
    } else {
      k := WordsBefore(q, idx + n, n);
      assert (k + 1) * n == k * n + n;
      k := k + 1;
    }
  }

  /** For words counted from 0 this is division with remainder. */
  lemma WordOfIs(q: nat, n: nat)
    requires n > 0
    ensures WordOf(q, 0, n) == q - q % n
  {
    var k := WordsBefore(q, 0, n);
    ModIsUnique(q, k, n, q - k * n);
  }

  lemma WordTouched(q: nat, size: nat, offset: nat, n: nat, idx: nat)
    requires n > 0 && idx <= q < size
    ensures Touches(offset + WordOf(q, idx, n), size, offset, n, idx)
  {
    var k := WordsBefore(q, idx, n);
    ModIsUnique(k * n, k, n, 0);
  }

  /** What a read leaves in byte q of the buffer: a byte of the word that holds it. */
  function ReadAt(cells: map<nat, Cell>, v: seq<Byte>, size: nat, offset: nat, n: nat, idx: nat, q: nat): Byte
    requires n > 0 && q < |v|
  {
    if idx <= q < size then
      var p := WordOf(q, idx, n);
      ByteOf(CellRead(cells, offset + p), q - p)
    else v[q]
  }

  lemma NextWord(q: nat, idx: nat, n: nat)
    requires idx <= q && n > 0
    ensures WordOf(q, idx, n) == if q < idx + n then idx else WordOf(q, idx + n, n)
  {
  }

  /** Bytes of later words are still to be read. */
  lemma ReadLater(cells: map<nat, Cell>, v: seq<Byte>, next: seq<Byte>, size: nat, offset: nat, n: nat,
                  idx: nat, q: nat)
    requires n > 0 && q < |v| == |next| && idx + n <= q < size
    ensures ReadAt(cells, next, size, offset, n, idx + n, q) == ReadAt(cells, v, size, offset, n, idx, q)
  {
    NextWord(q, idx, n);
    assert WordOf(q, idx, n) == WordOf(q, idx + n, n);
  }

  lemma ReadAtStep(cells: map<nat, Cell>, v: seq<Byte>, size: nat, offset: nat, n: nat, idx: nat, q: nat)
    requires size <= |v| && n > 0 && q < |v| && idx < size
    ensures var next := Store(v, idx, Part(n, size, idx), CellRead(cells, offset + idx));
            ReadAt(cells, next, size, offset, n, idx + n, q) == ReadAt(cells, v, size, offset, n, idx, q)
  {
    var m, w := Part(n, size, idx), CellRead(cells, offset + idx);
    var next := Store(v, idx, m, w);
    if idx + n <= q < size {
      ReadLater(cells, v, next, size, offset, n, idx, q);
    } else {
      ReadNowOrNever(cells, v, next, size, offset, n, idx, q);
    }
  }

  lemma ReadNowOrNever(cells: map<nat, Cell>, v: seq<Byte>, next: seq<Byte>, size: nat, offset: nat, n: nat,
                       idx: nat, q: nat)
    requires size <= |v| == |next| && n > 0 && q < |v| && idx < size && !(idx + n <= q < size)
    requires next[q] == StoredAt(v, idx, Part(n, size, idx), CellRead(cells, offset + idx), q)
    ensures ReadAt(cells, next, size, offset, n, idx + n, q) == ReadAt(cells, v, size, offset, n, idx, q)
  {
    if idx <= q < size {
      NextWord(q, idx, n);
    }
  }

  lemma {:induction false} ReadFromAt(cells: map<nat, Cell>, v: seq<Byte>, size: nat, offset: nat, n: nat,
                                      idx: nat, q: nat)
    requires size <= |v| && n > 0 && q < |v|
    ensures |ReadFrom(cells, v, size, offset, n, idx)| == |v|
    ensures ReadFrom(cells, v, size, offset, n, idx)[q] == ReadAt(cells, v, size, offset, n, idx, q)
    decreases if idx < size then size - idx else 0
  {
    if idx < size {
      ReadAtStep(cells, v, size, offset, n, idx, q);
      ReadFromAt(cells, Store(v, idx, Part(n, size, idx), CellRead(cells, offset + idx)), size, offset, n, idx + n, q);
    }
  }

  lemma BytesOfWritten(c: Cell, v: seq<Byte>, p: nat, m: nat, k: nat)
    requires p + m <= |v|
    ensures ByteOf(Written(c, Patch(c.cur, v, p, m)).cur, k) ==
            (if k < m then v[p + k] else ByteOf(c.cur, k)) * ByteOf(c.writeMask * c.mask, k)
  {
    ByteOfPatch(c.cur, v, p, m, k);
    var w := Patch(c.cur, v, p, m);
    assert w * c.writeMask * c.mask == w * (c.writeMask * c.mask);
    ByteOfMasked(w, c.writeMask * c.mask, k);
  }

  /** The register of word a after a write, byte by byte: written bytes and, in a partial last
      word, old bytes, both cut to the writable bits. */
  lemma BytesAfterWrite(cells: map<nat, Cell>, v: seq<Byte>, size: nat, offset: nat, n: nat, idx: nat, a: nat, k: nat)
    requires size <= |v| && n > 0 && a in cells && Touches(a, size, offset, n, idx) && k < n
    ensures a in WriteFrom(cells, v, size, offset, n, idx)
    ensures ByteOf(WriteFrom(cells, v, size, offset, n, idx)[a].cur, k) ==
            (if a - offset + k < size then v[a - offset + k] else ByteOf(cells[a].cur, k))
            * ByteOf(cells[a].writeMask * cells[a].mask, k)
  {
    WriteFromAt(cells, v, size, offset, n, idx, a);
    BytesOfWritten(cells[a], v, a - offset, Part(n, size, a - offset), k);
  }

  /** What byte k of the register at a keeps of a byte b written to it. */
  function Kept(cells: map<nat, Cell>, a: nat, b: Byte, k: nat): set<nat> {
    if a in cells then b * ByteOf(cells[a].writeMask * cells[a].mask, k) else {}
  }

  lemma WrittenByte(cells: map<nat, Cell>, v: seq<Byte>, size: nat, offset: nat, n: nat, idx: nat, p: nat, k: nat)
    requires size <= |v| && n > 0 && k < n && p + k < size && Touches(offset + p, size, offset, n, idx)
    requires offset + p in cells
    ensures offset + p in WriteFrom(cells, v, size, offset, n, idx)
    ensures ByteOf(WriteFrom(cells, v, size, offset, n, idx)[offset + p].cur, k) == Kept(cells, offset + p, v[p + k], k)
  {
    BytesAfterWrite(cells, v, size, offset, n, idx, offset + p, k);
  }

  lemma WordGivesBack(cells: map<nat, Cell>, v: seq<Byte>, size: nat, offset: nat, n: nat, idx: nat, p: nat, q: nat)
    requires size <= |v| && n > 0 && p <= q < size && q < p + n && Touches(offset + p, size, offset, n, idx)
    ensures ByteOf(CellRead(WriteFrom(cells, v, size, offset, n, idx), offset + p), q - p)
         == Kept(cells, offset + p, v[q], q - p)
  {
    WriteFromKeys(cells, v, size, offset, n, idx);
    var k := q - p;
    assert v[p + k] == v[q];
    if offset + p in cells {
      WrittenByte(cells, v, size, offset, n, idx, p, k);
    } else {
      assert ByteOf({}, k) == {};
    }
  }

  lemma ReadIsByteOf(cells: map<nat, Cell>, v: seq<Byte>, size: nat, offset: nat, n: nat, idx: nat, q: nat, p: nat)
    requires size <= |v| && n > 0 && idx <= q < size && p == WordOf(q, idx, n)
    ensures |ReadFrom(cells, v, size, offset, n, idx)| == |v|
    ensures ReadFrom(cells, v, size, offset, n, idx)[q] == ByteOf(CellRead(cells, offset + p), q - p)
  {
    ReadFromAt(cells, v, size, offset, n, idx, q);
  }

  /** Reading back a written range gives every byte cut to the writable bits of its register,
      and zero where there is no register. Byte q belongs to the word at p. */
  lemma WriteThenRead(cells: map<nat, Cell>, v: seq<Byte>, buf: seq<Byte>, size: nat, offset: nat, n: nat,
                      idx: nat, q: nat, p: nat)
    requires size <= |v| && size <= |buf| && n > 0 && idx <= q < size && p == WordOf(q, idx, n)
    ensures var after := WriteFrom(cells, v, size, offset, n, idx);
            && |ReadFrom(after, buf, size, offset, n, idx)| == |buf|
            && ReadFrom(after, buf, size, offset, n, idx)[q] == Kept(cells, offset + p, v[q], q - p)
  {
    WordTouched(q, size, offset, n, idx);
    WordGivesBack(cells, v, size, offset, n, idx, p, q);
    ReadIsByteOf(WriteFrom(cells, v, size, offset, n, idx), buf, size, offset, n, idx, q, p);
  }

  /** A register that no word of the access names keeps everything. */
  lemma UntouchedUnchanged(cells: map<nat, Cell>, v: seq<Byte>, size: nat, offset: nat, n: nat, idx: nat, a: nat)
    requires size <= |v| && n > 0 && !Touches(a, size, offset, n, idx)
    ensures var after := WriteFrom(cells, v, size, offset, n, idx);
            (a in after <==> a in cells) && (a in cells ==> after[a] == cells[a])
  {
    WriteFromKeys(cells, v, size, offset, n, idx);
    if a in cells {
      WriteFromAt(cells, v, size, offset, n, idx, a);
    }
  }

  // ----- bit by bit, for an access from its first byte on

  lemma BitInByte(w: set<nat>, k: nat, i: nat)
    requires i < 8
    ensures 8 * k + i in w <==> i in ByteOf(w, k)
  {
    assert i in ByteOf(w, k) <==> i < 8 && i + 8 * k in w;
  }

  /** Bit i of byte k of the register at a after a write: a register whose address is a whole
      number of words behind the offset takes the written bytes, and keeps its old bytes behind
      the end of the access, both only in writable bits; any other keeps everything. */
  lemma WriteExactly(cells: map<nat, Cell>, v: seq<Byte>, size: nat, offset: nat, n: nat, a: nat, k: nat, i: nat)
    requires size <= |v| && n > 0 && a in cells && k < n && i < 8
    ensures a in WriteFrom(cells, v, size, offset, n, 0)
    ensures var b, was, now := 8 * k + i, cells[a], WriteFrom(cells, v, size, offset, n, 0)[a].cur;
            b in now <==>
            if offset <= a < offset + size && (a - offset) % n == 0
            then (if a - offset + k < size then i in v[a - offset + k] else b in was.cur) && b in was.writeMask && b in was.mask
            else b in was.cur
  {
    WriteFromAt(cells, v, size, offset, n, 0, a);
    if Touches(a, size, offset, n, 0) {
      BytesAfterWrite(cells, v, size, offset, n, 0, a, k);
      BitInByte(WriteFrom(cells, v, size, offset, n, 0)[a].cur, k, i);
      BitInByte(cells[a].cur, k, i);
      BitInByte(cells[a].writeMask * cells[a].mask, k, i);
    }
  }

  /** Bit i of byte q of the buffer after a read: of the register that the word of this byte
      names, 0 if there is none; behind the end of the access the buffer is left alone. */
  lemma ReadExactly(cells: map<nat, Cell>, v: seq<Byte>, size: nat, offset: nat, n: nat, q: nat, i: nat)
    requires size <= |v| && n > 0 && q < |v| && i < 8
    ensures |ReadFrom(cells, v, size, offset, n, 0)| == |v|
    ensures var a := offset + (q - q % n);
            i in ReadFrom(cells, v, size, offset, n, 0)[q] <==>
            if q < size then a in cells && 8 * (q % n) + i in cells[a].cur else i in v[q]
  {
    ReadFromAt(cells, v, size, offset, n, 0, q);
    if q < size {
      WordOfIs(q, n);
      BitInByte(CellRead(cells, offset + WordOf(q, 0, n)), q % n, i);
    }
  }

  /** A bus write can change bits that are not writable: it clears them. A register keeps its
      other bits exactly when none of them was set. */
  lemma NotWritableIsCleared(c: Cell, w: set<nat>)
    ensures Written(c, w).cur - c.writeMask == c.cur - c.writeMask <==> c.cur <= c.writeMask
  {
    assert Written(c, w).cur - c.writeMask == {};
    if c.cur - c.writeMask == {} {
      forall b | b in c.cur ensures b in c.writeMask {
        assert b !in c.cur - c.writeMask;
      }
    }
  }
}
