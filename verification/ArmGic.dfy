/** The interrupt controller as the C++ runs it: registers, shadow array and outputs updated
    in place, in loops over lines and CPUs.  Every handler is proved to take State() to the
    state that the closed forms of GicState give. */
module Gic {
  import opened Options
  import opened Words
  import S = GicState
  import T = GicSteps

  /** The register a bus offset names: `get_sr_register`. */
  function RegAt(ncpu: nat, offset: nat): (r: Option<S.Reg>)
    requires ncpu <= 16
    ensures r.Some? ==> S.ValidReg(S.Config(ncpu, 0), r.value)
    ensures forall reg :: S.ValidReg(S.Config(ncpu, 0), reg) ==> (r == Some(reg) <==> S.Offset(reg) == offset)
  {
    if offset == 0x00 then Some(S.Level)
    else if offset == 0x04 then Some(S.Pending)
    else if offset == 0x08 then Some(S.Force)
    else if offset == 0x0C then Some(S.Clear)
    else if offset == 0x14 then Some(S.Broadcast)
    else if offset % 4 != 0 then None
    else if 0x40 <= offset < 0x40 + 4 * ncpu then Some(S.Mask((offset - 0x40) / 4))
    else if 0x80 <= offset < 0x80 + 4 * ncpu then Some(S.ProcForce((offset - 0x80) / 4))
    else if 0xC0 <= offset < 0xC0 + 4 * ncpu then Some(S.ExtId((offset - 0xC0) / 4))
    else None
  }

  /** The registers of the controller by their offsets. */
  lemma RegistersByOffset(ncpu: nat, cpu: nat)
    requires ncpu <= 16
    ensures RegAt(ncpu, 0x00) == Some(S.Level) && RegAt(ncpu, 0x04) == Some(S.Pending)
    ensures RegAt(ncpu, 0x08) == Some(S.Force) && RegAt(ncpu, 0x0C) == Some(S.Clear)
    ensures RegAt(ncpu, 0x14) == Some(S.Broadcast)
    ensures RegAt(ncpu, 0x40 + 4 * cpu) == Some(S.Mask(cpu)) <==> cpu < ncpu
    ensures RegAt(ncpu, 0x80 + 4 * cpu) == Some(S.ProcForce(cpu)) <==> cpu < ncpu
    ensures RegAt(ncpu, 0xC0 + 4 * cpu) == Some(S.ExtId(cpu)) <==> cpu < ncpu
  {
    assert cpu < ncpu ==> S.ValidReg(S.Config(ncpu, 0), S.Mask(cpu));
  }

  class ArmGic {
    const ncpu: nat
    const eirq: nat
    var level: Word
    var pending: Word
    var force: Word
    var clear: Word
    var broadcast: Word
    var mask: seq<Word>
    var procForce: seq<Word>
    var extId: seq<Word>
    const forcereg: array<Word>
    var irqReq: map<nat, S.Output>
    var event: bool
    var irqCounter: seq<nat>
    var cpuCounter: seq<nat>

    ghost predicate Valid()
      reads this
    {
      && Cfg().Valid()
      && |mask| == |procForce| == |extId| == |cpuCounter| == forcereg.Length == ncpu
      && |irqCounter| == 32
    }

    ghost function Cfg(): S.Config {
      S.Config(ncpu, eirq)
    }

    ghost function State(): (s: S.State)
      reads this, forcereg
      requires Valid()
      ensures S.Sized(Cfg(), s)
    {
      S.State(level, pending, force, clear, broadcast, mask, procForce, extId, forcereg[..],
              irqReq, event, irqCounter, cpuCounter)
    }

    /** `channels` are the irq_req channels that the platform has connected. */
    constructor (ncpu: nat, eirq: nat, channels: set<nat>)
      requires ncpu <= 16 && eirq <= 15
      ensures Valid() && Cfg() == S.Config(ncpu, eirq) && fresh(forcereg)
      ensures State() == S.Initial(Cfg(), channels)
    {
      this.ncpu, this.eirq := ncpu, eirq;
      level, pending, force, clear, broadcast := {}, {}, {}, {}, {};
      mask := seq(ncpu, _ => S.MaskDefault());
      procForce := seq(ncpu, _ => {});
      extId := seq(ncpu, _ => {});
      forcereg := new Word[ncpu](_ => {});
      irqReq := map c | c in channels :: S.IDLE;
      event := false;
      irqCounter := seq(32, _ => 0);
      cpuCounter := seq(ncpu, _ => 0);
    }

    method IncomingIrq(lines: Word, active: bool)
      requires Valid()
      modifies this, forcereg
      ensures Valid() && State() == S.Incoming(old(State()), lines, active)
    {
      if !active {
        return;
      }
      ghost var s := State();
      T.IncomingNone(Cfg(), s, lines);
      for line := 0 to 32
        invariant Valid() && State() == T.IncomingUpTo(s, lines, line)
      {
        if line in lines {
          RaiseLine(line);
          T.IncomingStep(Cfg(), s, lines, line);
        } else {
          T.IncomingSkip(s, lines, line);
        }
      }
      event := true;
      T.IncomingAll(s, lines);
    }

    method RaiseLine(line: nat)
      requires Valid() && line < 32
      modifies this, forcereg
      ensures Valid() && State() == T.RaiseLine(old(State()), line)
    {
      irqCounter := irqCounter[line := irqCounter[line] + 1];
      if line + 1 !in broadcast {
        pending := SetBit(pending, line, true);
      }
      if line + 1 in broadcast && line < 16 {
        ghost var s := State();
        for cpu := 0 to ncpu
          invariant Valid() && State() == s.(procForce := procForce, shadow := forcereg[..])
          invariant forall c :: 0 <= c < ncpu ==>
                      procForce[c] == if c < cpu then s.procForce[c] + {line} else s.procForce[c]
          invariant forall c :: 0 <= c < ncpu ==>
                      forcereg[c] == if c < cpu then s.shadow[c] + {line} else s.shadow[c]
        {
          procForce := procForce[cpu := SetBit(procForce[cpu], line, true)];
          forcereg[cpu] := forcereg[cpu] + {line};
        }
        assert procForce == S.AddToAll(s.procForce, {line});
        assert forcereg[..] == S.AddToAll(s.shadow, {line});
      }
    }

    method AcknowledgedIrq(irq: nat, cpu: nat)
      requires Valid() && irq < 32 && cpu < ncpu
      modifies this, forcereg
      ensures Valid() && State() == S.Acknowledge(Cfg(), old(State()), irq, cpu)
    {
      DropNamed(cpu);
      ClearForce(irq, cpu);
      irqReq := S.WriteAll(irqReq, S.Output(irq, false));
      pending := SetBit(pending, irq, false);
      force := SetBit(force, irq, false);
      extId := extId[cpu := {}];
      event := true;
    }

    /** Drops the extended line that one CPU's identification register names. */
    method DropNamed(cpu: nat)
      requires Valid() && cpu < ncpu
      modifies this`pending
      ensures pending == if eirq != 0 && extId[cpu] != {} then old(pending) - {S.ExtLine(extId[cpu])} else old(pending)
    {
      if eirq != 0 && extId[cpu] != {} {
        pending := pending - {S.ExtLine(extId[cpu])};
      }
    }

    method ClearForce(irq: nat, cpu: nat)
      requires Valid() && cpu < ncpu
      modifies this`procForce, forcereg
      ensures procForce == old(procForce)[cpu := SetBit(old(procForce)[cpu], irq, false)]
      ensures forcereg[..] == old(forcereg[..])[cpu := (old(forcereg[cpu]) - {irq}) * S.PlainLines()]
    {
      procForce := procForce[cpu := SetBit(procForce[cpu], irq, false)];
      forcereg[cpu] := (forcereg[cpu] - {irq}) * S.PlainLines();
    }

    method ClearWrite()
      requires Valid()
      modifies this
      ensures Valid() && State() == S.ClearWrite(Cfg(), old(State()))
    {
      var extirq := ReleaseNamed();
      DeactivateCleared(extirq);
      pending := pending - clear;
      force := force - clear;
      clear := {};
      event := true;
    }

    method DeactivateCleared(released: bool)
      requires Valid()
      modifies this`irqReq
      ensures irqReq == S.ClearOutputs(Cfg(), old(irqReq), clear, released)
    {
      var extended := AnyExtended(clear);
      if released || extended {
        irqReq := S.WriteAll(irqReq, S.Output(eirq, false));
      }
      DeactivateLines(clear);
    }

    /** Drops the extended lines that the identification registers name. */
    method ReleaseNamed() returns (extirq: bool)
      requires Valid()
      modifies this
      ensures Valid() && State() == S.ClearNamed(Cfg(), old(State()), ncpu)
      ensures extirq <==> S.NamedLines(Cfg(), old(State()), ncpu) != {}
    {
      ghost var s := State();
      T.ClearNone(Cfg(), s);
      extirq := false;
      for cpu := 0 to ncpu
        invariant Valid() && State() == S.ClearNamed(Cfg(), s, cpu)
        invariant extirq <==> S.NamedLines(Cfg(), s, cpu) != {}
      {
        extirq := ReleaseOne(cpu, extirq, s);
      }
    }

    /** One turn of the loop over CPUs. */
    method ReleaseOne(cpu: nat, extirq0: bool, ghost s: S.State) returns (extirq: bool)
      requires Valid() && cpu < ncpu && S.Sized(Cfg(), s) && State() == S.ClearNamed(Cfg(), s, cpu)
      requires extirq0 <==> S.NamedLines(Cfg(), s, cpu) != {}
      modifies this
      ensures Valid() && State() == S.ClearNamed(Cfg(), s, cpu + 1)
      ensures extirq <==> S.NamedLines(Cfg(), s, cpu + 1) != {}
    {
      ghost var t := State();
      T.ClearStep(Cfg(), s, cpu);
      T.NamedMore(Cfg(), s, cpu);
      extirq := extirq0;
      if eirq != 0 && extId[cpu] != {} {
        pending := pending - {S.ExtLine(extId[cpu])};
        extId := extId[cpu := {}];
        extirq := true;
        assert State() == t.(pending := t.pending - {S.ExtLine(t.extId[cpu])}, extId := t.extId[cpu := {}]);
      }
    }

    static method AnyExtended(w: Word) returns (extended: bool)
      ensures extended <==> w * S.ExtendedLines() != {}
    {
      extended := false;
      var i := 31;
      while i > 15
        invariant 15 <= i <= 31
        invariant extended <==> exists k :: i < k < 32 && k in w
      {
        if i in w {
          extended := true;
        }
        i := i - 1;
      }
      if extended {
        var k :| 15 < k < 32 && k in w;
        assert k in w * S.ExtendedLines();
      }
    }

    /** Each line 15..1 of w in turn is written inactive to all outputs: the lowest stays. */
    method DeactivateLines(w: Word)
      requires Valid()
      modifies this`irqReq
      ensures var low := S.LowestFrom(w, 1);
              irqReq == if low != 0 then S.WriteAll(old(irqReq), S.Output(low, false)) else old(irqReq)
    {
      var i := 15;
      while i > 0
        invariant 0 <= i <= 15
        invariant var low := S.LowestFrom(w, i + 1);
                  irqReq == if low != 0 then S.WriteAll(old(irqReq), S.Output(low, false)) else old(irqReq)
      {
        if i in w {
          irqReq := S.WriteAll(irqReq, S.Output(i, false));
        }
        i := i - 1;
      }
    }

    method ForceWrite()
      requires Valid()
      modifies this, forcereg
      ensures Valid() && State() == S.ForceWrite(Cfg(), old(State()))
    {
      ghost var s := State();
      T.ForceNone(Cfg(), s);
      for cpu := 0 to ncpu
        invariant Valid() && State() == S.ForceUpTo(Cfg(), s, cpu)
      {
        ForceOne(cpu, s);
      }
      event := true;
    }

    /** One turn of the loop over CPUs. */
    method ForceOne(cpu: nat, ghost s: S.State)
      requires Valid() && cpu < ncpu && S.Sized(Cfg(), s) && State() == S.ForceUpTo(Cfg(), s, cpu)
      modifies this, forcereg
      ensures Valid() && State() == S.ForceUpTo(Cfg(), s, cpu + 1)
    {
      ForceCpu(cpu);
      T.ForceStep(Cfg(), s, cpu);
    }

    method ForceCpu(cpu: nat)
      requires Valid() && cpu < ncpu
      modifies this, forcereg
      ensures Valid() && State() == T.ForceCpu(Cfg(), old(State()), cpu)
    {
      var reg := procForce[cpu];
      DeactivateLines(Shr(reg, 16));
      MergeForce(cpu, reg);
      procForce := procForce[cpu := forcereg[cpu]];
      DropNamed(cpu);
    }

    method MergeForce(cpu: nat, reg: Word)
      requires cpu < forcereg.Length
      modifies forcereg
      ensures forcereg[..] == old(forcereg[..])[cpu := S.Forced(old(forcereg[cpu]), reg)]
    {
      forcereg[cpu] := forcereg[cpu] + reg;
      forcereg[cpu] := (forcereg[cpu] - Shr(forcereg[cpu], 16)) * S.PlainLines();
    }

    method PendingWrite()
      requires Valid()
      modifies this
      ensures Valid() && State() == old(State()).(event := true)
    {
      event := true;
    }

    /** A write from the bus; offsets without a register are ignored. */
    method BusWrite(offset: nat, value: Word)
      requires Valid()
      modifies this, forcereg
      ensures Valid()
      ensures match RegAt(ncpu, offset)
              case None => State() == old(State())
              case Some(reg) => State() == S.Write(Cfg(), old(State()), reg, value)
    {
      match RegAt(ncpu, offset)
      case None =>
      case Some(reg) => WriteRegister(reg, value);
    }

    /** The bus write of one register, with its callback. */
    method WriteRegister(reg: S.Reg, value: Word)
      requires Valid() && S.ValidReg(Cfg(), reg)
      modifies this, forcereg
      ensures Valid() && State() == S.Write(Cfg(), old(State()), reg, value)
    {
      var w := value * S.WriteMask(reg);
      match reg {
        case Level => level := w;
        case Pending => pending := w; PendingWrite();
        case Force => force := w; PendingWrite();
        case Clear => clear := w; ClearWrite();
        case Broadcast => broadcast := w;
        case Mask(cpu) => mask := mask[cpu := w]; PendingWrite();
        case ProcForce(cpu) => procForce := procForce[cpu := w]; ForceWrite();
        case ExtId(cpu) => extId := extId[cpu := w];
      }
    }

    method DoRst()
      requires Valid()
      modifies this, forcereg
      ensures Valid() && State() == S.Reset(Cfg(), old(State()))
    {
      level := {};
      pending := {};
      if ncpu == 0 {
        force := {};
      }
      clear := {};
      broadcast := {};
      ResetCpus();
    }

    method ResetCpus()
      requires Valid()
      modifies this`mask, this`procForce, this`extId, forcereg
      ensures Valid()
      ensures mask == seq(ncpu, _ => S.MaskDefault())
      ensures procForce == extId == forcereg[..] == seq(ncpu, _ => {})
    {
      for cpu := 0 to ncpu
        invariant Valid()
        invariant forall c :: 0 <= c < cpu ==>
                    mask[c] == S.MaskDefault() && procForce[c] == {} && extId[c] == {} && forcereg[c] == {}
      {
        mask := mask[cpu := S.MaskDefault()];
        procForce := procForce[cpu := {}];
        extId := extId[cpu := {}];
        forcereg[cpu] := {};
      }
    }

    /** One wake-up of the launcher thread. */
    method LaunchIrq()
      requires Valid() && event
      modifies this
      ensures Valid() && State() == S.Next(Cfg(), old(State()), S.Launch)
    {
      event := false;
      ServeAll();
    }

    /** The loop over CPUs, from the last one down. */
    method ServeAll()
      requires Valid()
      modifies this
      ensures Valid() && State() == S.Pass(Cfg(), old(State()))
    {
      ghost var s := State();
      T.PassNone(Cfg(), s);
      var cpu: int := ncpu - 1;
      while cpu > -1
        invariant -1 <= cpu < ncpu
        invariant Valid() && State() == S.PassDown(Cfg(), s, cpu + 1)
      {
        ServeNext(cpu, s);
        cpu := cpu - 1;
      }
    }

    /** One turn of the loop over CPUs. */
    method ServeNext(cpu: nat, ghost s: S.State)
      requires Valid() && cpu < ncpu && S.Sized(Cfg(), s) && State() == S.PassDown(Cfg(), s, cpu + 1)
      modifies this
      ensures Valid() && State() == S.PassDown(Cfg(), s, cpu)
    {
      ServeCpu(cpu);
      T.PassStep(Cfg(), s, cpu);
    }

    method ServeCpu(cpu: nat)
      requires Valid() && cpu < ncpu
      modifies this
      ensures Valid() && State() == T.ServeCpu(Cfg(), old(State()), cpu)
    {
      ghost var t := State();
      var seen := (pending + force) * mask[cpu];
      var eirqBit := MarkExtended(cpu, seen);
      var all := seen + eirqBit + procForce[cpu] * S.PlainLines();
      assert all == T.Competing(Cfg(), t, cpu);
      var high := Select(level, all);
      Send(cpu, high);
    }

    /** The extended interrupt's pending bit shows whether this CPU has an extended line. */
    method MarkExtended(cpu: nat, seen: Word) returns (eirqBit: Word)
      requires Valid() && cpu < ncpu && seen == (pending + force) * mask[cpu]
      modifies this`pending
      ensures pending == if eirq != 0 then SetBit(old(pending), eirq, S.ExtActive(old(State()), cpu)) else old(pending)
      ensures eirqBit == S.EirqBit(Cfg(), old(State()), cpu)
    {
      var masked := seen + procForce[cpu] * S.PlainLines();
      eirqBit := {};
      if eirq != 0 {
        assert masked * S.ExtendedLines() == seen * S.ExtendedLines();
        if masked * S.ExtendedLines() != {} {
          pending, eirqBit := SetBit(pending, eirq, true), {eirq};
        } else {
          pending := SetBit(pending, eirq, false);
        }
      }
    }

    /** A selected line is sent and counted unless the channel shows it already. */
    method Send(cpu: nat, high: nat)
      requires Valid() && cpu < ncpu
      modifies this`irqReq, this`cpuCounter
      ensures irqReq == if cpu in old(irqReq) then old(irqReq)[cpu := S.Sent(old(irqReq)[cpu], high)] else old(irqReq)
      ensures cpuCounter == if S.Counts(old(irqReq), cpu, high) then old(cpuCounter)[cpu := old(cpuCounter)[cpu] + 1]
                            else old(cpuCounter)
    {
      if high != 0 {
        if S.Output(high, true) != S.ReadOut(irqReq, cpu) {
          if cpu in irqReq {
            irqReq := irqReq[cpu := S.Output(high, true)];
          }
          cpuCounter := cpuCounter[cpu := cpuCounter[cpu] + 1];
        }
      } else if S.ReadOut(irqReq, cpu).line != 0 {
        irqReq := irqReq[cpu := S.IDLE];
      }
    }

    /** The two searches: level-1 lines from 15 down, then level-0 lines. */
    static method Select(level: Word, all: Word) returns (high: nat)
      ensures high == S.Priority(level, all)
    {
      var masked := all * level * S.PlainLines();
      high := 15;
      while high > 0 && high !in masked
        invariant 0 <= high <= 15 && S.HighestUpTo(all * level, 15) == S.HighestUpTo(all * level, high)
      {
        high := high - 1;
      }
      if high == 0 {
        masked := (all - level) * S.PlainLines();
        high := 15;
        while high > 0 && high !in masked
          invariant 0 <= high <= 15 && S.HighestUpTo(all - level, 15) == S.HighestUpTo(all - level, high)
        {
          high := high - 1;
        }
      }
    }
  }
}
