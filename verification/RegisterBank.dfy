/** sr_register_bank of core/sr_register/sr_register.h: registers by address, and byte access. */
module RegisterBanks {
  import opened BankBytes
  import opened Registers

  ghost function CellOf(r: Register): Cell
    reads r
  {
    Cell(r.cur, r.mask, r.writeMask)
  }

  class RegisterBank {
    /** Bytes per word: sizeof(DATA_TYPE). */
    const n: nat
    /** m_register and m_registers */
    var register: map<nat, Register>
    var registers: seq<Register>
    var size: nat

    /** No register has two addresses, and all were created here. */
    ghost predicate Valid()
      reads this
    {
      && n > 0 && size == |registers|
      && (forall a, b :: a in register && b in register && a != b ==> register[a] != register[b])
      && forall a :: a in register ==> register[a] in registers
    }

    ghost function Cells(): map<nat, Cell>
      reads this, register.Values
    {
      map a | a in register :: CellOf(register[a])
    }

    constructor (n: nat)
      requires n > 0
      ensures Valid() && this.n == n && register == map[] && registers == []
    {
      this.n, register, registers, size := n, map[], [], 0;
    }

    /** `create_register` without a description: replaces a register at that address. */
    method CreateRegister(addr: nat, initVal: set<nat>, writeMask: set<nat>) returns (reg: Register)
      requires Valid()
      modifies this
      ensures Valid() && fresh(reg) && registers == old(registers) + [reg]
      ensures register == old(register)[addr := reg]
    {
      reg := new Register(8 * n, initVal, writeMask);
      register := register[addr := reg];
      registers := registers + [reg];
      size := |registers|;
    }

    /** `create_register` with a description: a register already at that address stays. */
    method CreateDescribed(addr: nat, initVal: set<nat>, writeMask: set<nat>) returns (reg: Register)
      requires Valid()
      modifies this
      ensures Valid() && fresh(reg) && registers == old(registers) + [reg]
      ensures register == if addr in old(register) then old(register) else old(register)[addr := reg]
    {
      reg := new Register(8 * n, initVal, writeMask);
      if addr !in register {
        register := register[addr := reg];
      }
      registers := registers + [reg];
      size := |registers|;
    }

    method GetRegister(offset: nat) returns (reg: Register?)
      ensures if offset in register then reg == register[offset] else reg == null
    {
      if offset in register {
        reg := register[offset];
      } else {
        reg := null;
      }
    }

    /** `bus_read_dbg`: zero where there is no register. */
    method BusRead(offset: nat) returns (w: set<nat>)
      ensures w == CellRead(Cells(), offset)
    {
      var reg := GetRegister(offset);
      if reg != null {
        w := reg.BusRead();
      } else {
        w := {};
      }
    }

    /** `bus_write_dbg`: nothing happens where there is no register. */
    method BusWrite(offset: nat, w: set<nat>)
      requires Valid()
      modifies register.Values
      ensures Valid() && Cells() == CellWrite(old(Cells()), offset, w)
    {
      var reg := GetRegister(offset);
      if reg != null {
        reg.BusWrite(w);
        forall a | a in register && a != offset ensures CellOf(register[a]) == old(CellOf(register[a])) {
          assert register[a] != reg;
        }
      }
    }

    /** `scireg_read`: never fails. */
    method SciregRead(v: array<Byte>, size: nat, offset: nat) returns (ok: bool)
      requires Valid() && size <= v.Length
      modifies v
      ensures ok && v[..] == ReadFrom(Cells(), old(v[..]), size, offset, n, 0)
    {
      ghost var cells := Cells();
      var idx := 0;
      while idx < size
        invariant Cells() == cells
        invariant ReadFrom(cells, v[..], size, offset, n, idx) == ReadFrom(cells, old(v[..]), size, offset, n, 0)
        decreases if idx < size then size - idx else 0
      {
        var data := BusRead(offset + idx);
        CopyOut(v, idx, Part(n, size, idx), data);
        idx := idx + n;
      }
      ok := idx >= size;
    }

    /** One turn of the loop of `scireg_write`. */
    method WriteWord(v: seq<Byte>, size: nat, offset: nat, idx: nat)
      requires Valid() && idx < size <= |v|
      modifies register.Values
      ensures Valid()
      ensures WriteFrom(old(Cells()), v, size, offset, n, idx) == WriteFrom(Cells(), v, size, offset, n, idx + n)
    {
      var data := BusRead(offset + idx);
      data := Patch(data, v, idx, Part(n, size, idx));
      BusWrite(offset + idx, data);
    }

    /** `scireg_write`: never fails. */
    method SciregWrite(v: seq<Byte>, size: nat, offset: nat) returns (ok: bool)
      requires Valid() && size <= |v|
      modifies register.Values
      ensures Valid() && ok && Cells() == WriteFrom(old(Cells()), v, size, offset, n, 0)
    {
      ghost var cells := Cells();
      var idx := 0;
      while idx < size
        invariant Valid()
        invariant WriteFrom(Cells(), v, size, offset, n, idx) == WriteFrom(cells, v, size, offset, n, 0)
        decreases if idx < size then size - idx else 0
      {
        WriteWord(v, size, offset, idx);
        idx := idx + n;
      }
      ok := idx >= size;
    }
  }

  /** `memcpy(&v[idx], &w, m)` */
  method CopyOut(v: array<Byte>, idx: nat, m: nat, w: set<nat>)
    requires idx + m <= v.Length
    modifies v
    ensures v[..] == Store(old(v[..]), idx, m, w)
  {
    ghost var before := v[..];
    for i := 0 to m
      invariant v[..] == Store(before, idx, i, w)
    {
      v[idx + i] := ByteOf(w, i);
      forall k: nat | k < v.Length ensures v[..][k] == Store(before, idx, i + 1, w)[k] {
        assert Store(before, idx, i, w)[k] == StoredAt(before, idx, i, w, k);
        assert Store(before, idx, i + 1, w)[k] == StoredAt(before, idx, i + 1, w, k);
      }
    }
  }
}
