/** The handlers of the interrupt controller line by line: which lines every register holds
    after a step, with all masks written as ranges of lines, and over whole runs. */
module GicLines {
  import opened Words
  import opened GicState
  import opened GicPass
  import opened GicRuns

  // ----- lines named by an identification register

  function BitValue(w: Word, i: nat, value: nat): nat {
    if i in w then value else 0
  }

  /** The identification register names line k: with an extended interrupt, unless it is 0. */
  predicate Names(cfg: Config, id: Word, k: nat) {
    && cfg.eirq != 0 && id != {}
    && k == BitValue(id, 0, 1) + BitValue(id, 1, 2) + BitValue(id, 2, 4) + BitValue(id, 3, 8) + BitValue(id, 4, 16)
  }

  ghost predicate NamedByAny(cfg: Config, s: State, k: nat)
    requires Sized(cfg, s)
  {
    exists c: nat :: c < cfg.ncpu && Names(cfg, s.extId[c], k)
  }

  lemma ExtLineIsNamed(cfg: Config, id: Word, k: nat)
    ensures Names(cfg, id, k) <==> cfg.eirq != 0 && id != {} && ExtLine(id) == k
  {
    assert Pow2(1) == 2 && Pow2(2) == 4 && Pow2(3) == 8 && Pow2(4) == 16;
    assert NumberUpTo(id, 1) == BitValue(id, 0, 1);
    assert NumberUpTo(id, 2) == NumberUpTo(id, 1) + BitValue(id, 1, 2);
    assert NumberUpTo(id, 3) == NumberUpTo(id, 2) + BitValue(id, 2, 4);
    assert NumberUpTo(id, 4) == NumberUpTo(id, 3) + BitValue(id, 3, 8);
    assert NumberUpTo(id, 5) == NumberUpTo(id, 4) + BitValue(id, 4, 16);
  }

  lemma NamedLinesAre(cfg: Config, s: State, k: nat)
    requires Sized(cfg, s)
    ensures k in NamedLines(cfg, s, cfg.ncpu) <==> NamedByAny(cfg, s, k)
  {
    forall c: nat | c < cfg.ncpu
      ensures Names(cfg, s.extId[c], k) <==> cfg.eirq != 0 && s.extId[c] != {} && ExtLine(s.extId[c]) == k
    {
      ExtLineIsNamed(cfg, s.extId[c], k);
    }
  }

  // ----- what a step leaves alone

  /** Nothing but pending, force, the force registers and shadows, the identification
      registers, the outputs and the event differ. */
  ghost predicate OthersKept(s: State, t: State) {
    && t.level == s.level && t.clear == s.clear && t.broadcast == s.broadcast && t.mask == s.mask
    && t.irqCount == s.irqCount && t.cpuCount == s.cpuCount
  }

  /** Every bound output shows o. */
  ghost predicate AllShow(s: State, t: State, o: Output) {
    t.outs.Keys == s.outs.Keys && forall c :: c in t.outs ==> t.outs[c] == o
  }

  // ----- acknowledge

  /** An acknowledge takes away the acknowledged line, for one CPU, and the line that this
      CPU's identification register names, and nothing else. */
  lemma AcknowledgeExactly(cfg: Config, s: State, irq: nat, cpu: nat, k: nat, c: nat)
    requires Sized(cfg, s) && irq < 32 && cpu < cfg.ncpu && c < cfg.ncpu
    ensures var t := Acknowledge(cfg, s, irq, cpu);
            && (k in t.pending <==> k in s.pending && k != irq && !Names(cfg, s.extId[cpu], k))
            && (k in t.force <==> k in s.force && k != irq)
            && (k in t.procForce[c] <==> k in s.procForce[c] && !(c == cpu && k == irq))
            && (k in t.shadow[c] <==> k in s.shadow[c] && (c == cpu ==> 1 <= k <= 15 && k != irq))
            && t.extId[c] == (if c == cpu then {} else s.extId[c])
            && OthersKept(s, t) && AllShow(s, t, Output(irq, false)) && t.event
  {
    ExtLineIsNamed(cfg, s.extId[cpu], k);
  }

  // ----- writes that only store

  /** What a bus write stores in each register, bit by bit, and that all others keep theirs. */
  lemma WriteStores(cfg: Config, s: State, reg: Reg, value: Word, k: nat, c: nat)
    requires Sized(cfg, s) && ValidReg(cfg, reg) && !reg.Clear? && !reg.ProcForce? && c < cfg.ncpu
    ensures var t := Write(cfg, s, reg, value);
            && (k in t.level <==> if reg == Level then 1 <= k <= 15 && k in value else k in s.level)
            && (k in t.pending <==> if reg == Pending then 1 <= k <= 31 && k in value else k in s.pending)
            && (k in t.force <==> if reg == Force then 1 <= k <= 15 && k in value else k in s.force)
            && (k in t.broadcast <==> if reg == Broadcast then 1 <= k <= 15 && k in value else k in s.broadcast)
            && (k in t.mask[c] <==> if reg == Mask(c) then 1 <= k <= 31 && k in value else k in s.mask[c])
            && (k in t.extId[c] <==> if reg == ExtId(c) then k <= 4 && k in value else k in s.extId[c])
            && t.clear == s.clear && t.procForce == s.procForce && t.shadow == s.shadow && t.outs == s.outs
            && t.irqCount == s.irqCount && t.cpuCount == s.cpuCount
            && (t.event <==> s.event || reg == Pending || reg == Force || reg.Mask?)
  {
  }

  // ----- the clear register

  ghost predicate Cleared(value: Word, k: nat) {
    1 <= k <= 31 && k in value
  }

  /** l is the lowest plain line that the value clears. */
  ghost predicate LowestCleared(value: Word, l: nat) {
    1 <= l <= 15 && l in value && forall k :: 1 <= k < l ==> k !in value
  }

  /** An extended line is cleared, or an identification register is released. */
  ghost predicate ExtendedCleared(cfg: Config, s: State, value: Word)
    requires Sized(cfg, s)
  {
    || (exists k :: 16 <= k <= 31 && k in value)
    || (cfg.eirq != 0 && exists c: nat :: c < cfg.ncpu && s.extId[c] != {})
  }

  /** A write to the clear register takes away the lines written and the named lines, releases
      the identification registers, and leaves the force registers of the CPUs alone. */
  lemma ClearExactly(cfg: Config, s: State, value: Word, k: nat, c: nat)
    requires Sized(cfg, s) && c < cfg.ncpu
    ensures var t := Write(cfg, s, Clear, value);
            && (k in t.pending <==> k in s.pending && !Cleared(value, k) && !NamedByAny(cfg, s, k))
            && (k in t.force <==> k in s.force && !Cleared(value, k))
            && t.procForce == s.procForce && t.shadow == s.shadow && t.clear == {}
            && t.extId[c] == (if cfg.eirq != 0 then {} else s.extId[c])
            && OthersKept(s.(clear := {}), t) && t.event
  {
    NamedLinesAre(cfg, s.(clear := value * WriteMask(Clear)), k);
    NamedLinesAre(cfg, s, k);
    SameNamedLines(cfg, s, s.(clear := value * WriteMask(Clear)), cfg.ncpu);
  }

  lemma {:induction false} SameNamedLines(cfg: Config, s: State, t: State, n: nat)
    requires n <= |s.extId| && s.extId == t.extId
    ensures NamedLines(cfg, s, n) == NamedLines(cfg, t, n)
  {
    if n != 0 {
      SameNamedLines(cfg, s, t, n - 1);
    }
  }

  /** The outputs after it: the lowest plain line cleared, else the extended interrupt if an
      extended line was, and otherwise what they were. */
  lemma ClearShows(cfg: Config, s: State, value: Word, l: nat)
    requires Sized(cfg, s)
    ensures var t := Write(cfg, s, Clear, value);
            && (LowestCleared(value, l) ==> AllShow(s, t, Output(l, false)))
            && ((forall k :: 1 <= k <= 15 ==> k !in value) ==>
                  if ExtendedCleared(cfg, s, value) then AllShow(s, t, Output(cfg.eirq, false)) else t.outs == s.outs)
  {
    var w := value * WriteMask(Clear);
    var u := s.(clear := w);
    forall k ensures k in w <==> Cleared(value, k) {
    }
    if LowestCleared(value, l) {
      assert l in w;
      assert LowestFrom(w, 1) == l;
    }
    ReleasedAny(cfg, u, cfg.ncpu);
    assert w * ExtendedLines() != {} <==> exists k :: 16 <= k <= 31 && k in value by {
      if k :| 16 <= k <= 31 && k in value {
        assert k in w * ExtendedLines();
      }
    }
  }

  lemma {:induction false} ReleasedAny(cfg: Config, s: State, n: nat)
    requires n <= |s.extId|
    ensures NamedLines(cfg, s, n) != {} <==> cfg.eirq != 0 && exists c: nat :: c < n && s.extId[c] != {}
  {
    if n != 0 {
      ReleasedAny(cfg, s, n - 1);
    }
  }

  // ----- the force registers

  /** The value has the upper-half twin of line k. */
  predicate Withdrawn(value: Word, k: nat) {
    k + 16 in value
  }

  lemma ForcedLines(cfg: Config, s: State, cpu: nat, value: Word, k: nat, c: nat)
    requires cfg.Valid() && Inv(cfg, s) && cpu < cfg.ncpu && c < cfg.ncpu
    ensures var t := Write(cfg, s, ProcForce(cpu), value);
            && t.shadow[c] == t.procForce[c]
            && (k in t.procForce[c] <==>
                1 <= k <= 15 && if c == cpu then (k in s.procForce[c] || k in value) && !Withdrawn(value, k)
                                else k in s.procForce[c])
  {
    ForceRegistersAfter(cfg, s, cpu, value, c);
    if 1 <= k <= 15 {
      ForceRegisterWrite(cfg, s, cpu, value, k, c);
    }
  }

  lemma ForceKeeps(cfg: Config, s: State, cpu: nat, value: Word, k: nat)
    requires Sized(cfg, s) && cpu < cfg.ncpu
    ensures var t := Write(cfg, s, ProcForce(cpu), value);
            && (k in t.pending <==> k in s.pending && !NamedByAny(cfg, s, k))
            && t.force == s.force && t.extId == s.extId && OthersKept(s, t) && t.event
  {
    NamedLinesAre(cfg, s, k);
    SameNamedLines(cfg, s, s.(procForce := s.procForce[cpu := value * WriteMask(ProcForce(cpu))]), cfg.ncpu);
  }

  /** A write to the force register of one CPU.  That of another keeps its plain lines. */
  lemma ForceExactly(cfg: Config, s: State, cpu: nat, value: Word, k: nat, c: nat)
    requires cfg.Valid() && Inv(cfg, s) && cpu < cfg.ncpu && c < cfg.ncpu
    ensures var t := Write(cfg, s, ProcForce(cpu), value);
            && (k in t.procForce[c] <==>
                1 <= k <= 15 && if c == cpu then (k in s.procForce[c] || k in value) && !Withdrawn(value, k)
                                else k in s.procForce[c])
            && t.shadow[c] == t.procForce[c]
            && (k in t.pending <==> k in s.pending && !NamedByAny(cfg, s, k))
            && t.force == s.force && t.extId == s.extId && OthersKept(s, t) && t.event
  {
    ForcedLines(cfg, s, cpu, value, k, c);
    ForceKeeps(cfg, s, cpu, value, k);
  }

  /** The lowest plain line that the upper half of the value clears. */
  ghost predicate LowestUnforced(value: Word, l: nat) {
    1 <= l <= 15 && Withdrawn(value, l) && forall k :: 1 <= k < l ==> !Withdrawn(value, k)
  }

  /** Its outputs: the lowest line that the upper half clears, otherwise what they were. */
  lemma ForceShows(cfg: Config, s: State, cpu: nat, value: Word, l: nat)
    requires cfg.Valid() && Inv(cfg, s) && cpu < cfg.ncpu
    ensures var t := Write(cfg, s, ProcForce(cpu), value);
            && (LowestUnforced(value, l) ==> AllShow(s, t, Output(l, false)))
            && ((forall k :: 1 <= k <= 15 ==> !Withdrawn(value, k)) ==> t.outs == s.outs)
  {
    var reg := value * WriteMask(ProcForce(cpu));
    var u := s.(procForce := s.procForce[cpu := reg]);
    OnlyOneClears(cfg, u, cpu, cfg.ncpu);
    var low := LowestFrom(Shr(reg, 16), 1);
    forall k | 1 <= k <= 15 ensures k in Shr(reg, 16) <==> Withdrawn(value, k) {
    }
    if LowestUnforced(value, l) {
      assert l in Shr(reg, 16);
      assert low == l;
    }
  }

  /** Force registers with an empty upper half do not count for the outputs. */
  lemma {:induction false} OnlyOneClears(cfg: Config, s: State, cpu: nat, n: nat)
    requires n <= |s.procForce| && forall c :: 0 <= c < |s.procForce| && c != cpu ==> s.procForce[c] <= Range(0, 16)
    ensures LastCleared(s, n) == if cpu < n then LowestFrom(Shr(s.procForce[cpu], 16), 1) else 0
  {
    if n != 0 {
      OnlyOneClears(cfg, s, cpu, n - 1);
      if n - 1 != cpu {
        NothingUpper(s.procForce[n - 1]);
      }
    }
  }

  lemma NothingUpper(w: Word)
    requires w <= Range(0, 16)
    ensures LowestFrom(Shr(w, 16), 1) == 0
  {
    assert Shr(w, 16) == {};
  }

  // ----- inputs

  /** A rising edge records each asserted line in pending, or, if it is below 16 and the bit
      above it is set in the broadcast register, in the force register and shadow of every CPU. */
  lemma IncomingExactly(cfg: Config, s: State, lines: Word, k: nat, c: nat)
    requires Sized(cfg, s) && k < 32 && c < cfg.ncpu
    ensures var t, up := Incoming(s, lines, true), k + 1 in s.broadcast;
            && (k in t.pending <==> k in s.pending || (k in lines && !up))
            && (k in t.procForce[c] <==> k in s.procForce[c] || (k in lines && up && k <= 15))
            && (k in t.shadow[c] <==> k in s.shadow[c] || (k in lines && up && k <= 15))
            && t.irqCount[k] == s.irqCount[k] + (if k in lines then 1 else 0)
            && t.level == s.level && t.force == s.force && t.clear == s.clear && t.broadcast == s.broadcast
            && t.mask == s.mask && t.extId == s.extId && t.outs == s.outs && t.cpuCount == s.cpuCount && t.event
  {
  }

  // ----- reset

  /** The registers of a new controller and after a reset: all lines but line 0 are unmasked and
      nothing is recorded.  A reset keeps the common force register, unless there is no CPU. */
  lemma ResetExactly(cfg: Config, channels: set<nat>, s: State, k: nat, c: nat)
    requires Sized(cfg, s) && k < 32
    ensures var t, init := Reset(cfg, s), Initial(cfg, channels);
            && t == init.(force := if cfg.ncpu == 0 then {} else s.force, outs := s.outs, event := s.event,
                          irqCount := s.irqCount, cpuCount := s.cpuCount)
            && t.level == {} == t.pending == t.clear == t.broadcast == init.force
            && (c < cfg.ncpu ==> t.procForce[c] == {} == t.extId[c] == t.shadow[c])
            && (c < cfg.ncpu ==> (k in t.mask[c] <==> 1 <= k))
            && AllShow(init, init, Output(0, false)) && init.outs.Keys == channels && !init.event
            && init.irqCount[k] == 0 && (c < cfg.ncpu ==> init.cpuCount[c] == 0)
  {
  }

  // ----- a pass

  /** An extended line is recorded that this CPU does not mask. */
  ghost predicate ExtendedFor(s: State, c: nat)
    requires c < |s.mask|
  {
    exists l :: 16 <= l <= 31 && (l in s.pending || l in s.force) && l in s.mask[c]
  }

  /** Line k competes for CPU c: forced there, or recorded and not masked.  The extended
      interrupt stands for the extended lines of this CPU; its own pending bit is the one that
      the CPU above has left. */
  ghost predicate Competes(cfg: Config, s: State, c: nat, k: nat)
    requires Sized(cfg, s) && c < cfg.ncpu
  {
    && 1 <= k <= 15
    && (|| k in s.procForce[c]
        || (k == cfg.eirq && ExtendedFor(s, c))
        || (k in s.mask[c] &&
            (k in s.force || if k == cfg.eirq && c + 1 < cfg.ncpu then ExtendedFor(s, c + 1) else k in s.pending)))
  }

  lemma ExtendedExactly(s: State, c: nat)
    requires c < |s.mask|
    ensures ExtActive(s, c) <==> ExtendedFor(s, c)
  {
    var w := (s.pending + s.force) * s.mask[c] * ExtendedLines();
    if ExtendedFor(s, c) {
      var l :| 16 <= l <= 31 && (l in s.pending || l in s.force) && l in s.mask[c];
      assert l in w;
    }
    if w != {} {
      var l :| l in w;
    }
  }

  lemma CompetesExactly(cfg: Config, s: State, c: nat, k: nat)
    requires cfg.Valid() && Sized(cfg, s) && c < cfg.ncpu
    ensures k in Effective(cfg, s, c) * PlainLines() <==> Competes(cfg, s, c, k)
  {
    ExtendedExactly(s, c);
    if c + 1 < cfg.ncpu {
      ExtendedExactly(s, c + 1);
    }
  }

  /** Level 1 goes before level 0, then the higher line number. */
  predicate Before(level: Word, a: nat, b: nat) {
    (a in level && b !in level) || ((a in level <==> b in level) && a > b)
  }

  /** A bound output shows line h active after a pass exactly when h competes and goes before
      all others that do, and shows no line exactly when none competes. */
  lemma PassShows(cfg: Config, s: State, c: nat, h: nat)
    requires cfg.Valid() && Sized(cfg, s) && OutputsSane(s) && c < cfg.ncpu && c in s.outs
    ensures Pass(cfg, s).outs[c] == Output(h, true) <==>
            Competes(cfg, s, c, h) && forall k :: Competes(cfg, s, c, k) && k != h ==> Before(s.level, h, k)
    ensures Pass(cfg, s).outs[c] == Output(0, false) <==> forall k :: !Competes(cfg, s, c, k)
  {
    forall k ensures k in Effective(cfg, s, c) * PlainLines() <==> Competes(cfg, s, c, k) {
      CompetesExactly(cfg, s, c, k);
    }
    PassDelivers(cfg, s, c, h);
    PassDelivers(cfg, s, c, 0);
    PassDeliversChosen(cfg, s, c);
  }

  /** So a masked line is not sent, unless that CPU's force register holds it or it stands for
      the extended lines. */
  lemma MaskedIsNotShown(cfg: Config, s: State, c: nat, value: Word, k: nat)
    requires cfg.Valid() && Inv(cfg, s) && c < cfg.ncpu && c in s.outs
    requires k !in value && k !in s.procForce[c] && k != cfg.eirq
    ensures Pass(cfg, Write(cfg, s, Mask(c), value)).outs[c] != Output(k, true)
  {
    var t := Write(cfg, s, Mask(c), value);
    InvWrite(cfg, s, Mask(c), value);
    WriteStores(cfg, s, Mask(c), value, k, c);
    PassShows(cfg, t, c, k);
  }

  /** All that a pass changes: the pending bit of the extended interrupt, which tells whether
      CPU 0 has an extended line, and outputs and counters of the CPUs. */
  lemma PassExactly(cfg: Config, s: State, k: nat, c: nat)
    requires cfg.Valid() && Sized(cfg, s)
    ensures var t := Pass(cfg, s);
            && (k in t.pending <==> if k == cfg.eirq && k != 0 && cfg.ncpu != 0 then ExtendedFor(s, 0) else k in s.pending)
            && t.force == s.force && t.procForce == s.procForce && t.shadow == s.shadow && t.extId == s.extId
            && t.level == s.level && t.clear == s.clear && t.broadcast == s.broadcast && t.mask == s.mask
            && t.irqCount == s.irqCount && t.event == s.event
            && t.outs.Keys == s.outs.Keys && (c in s.outs && c >= cfg.ncpu ==> t.outs[c] == s.outs[c])
  {
    if cfg.ncpu != 0 {
      ExtendedExactly(s, 0);
    }
  }
}
