/** Properties of whole runs of the interrupt controller. */
module GicRuns {
  import opened Words
  import opened GicState
  import opened GicPass
  import GicSteps

  // ----- the invariant of every reachable state

  /** Between handlers a force register and its shadow copy agree on lines 1..15 and have
      nothing in their upper halves. */
  ghost predicate Coherent(force: Word, shadow: Word) {
    force <= Range(0, 16) && shadow <= Range(0, 16) && force * PlainLines() == shadow * PlainLines()
  }

  ghost predicate InMask(cfg: Config, s: State) {
    s.level <= PlainLines() && s.force <= PlainLines() && s.broadcast <= PlainLines() && s.clear == {}
  }

  ghost predicate Inv(cfg: Config, s: State) {
    && Sized(cfg, s) && InMask(cfg, s) && OutputsSane(s)
    && forall c :: 0 <= c < cfg.ncpu ==> Coherent(s.procForce[c], s.shadow[c])
  }

  lemma InvInitially(cfg: Config, channels: set<nat>)
    requires cfg.Valid()
    ensures Inv(cfg, Initial(cfg, channels))
  {
  }

  lemma CoherentWith(force: Word, shadow: Word, lines: Word)
    requires Coherent(force, shadow) && lines <= Range(0, 16)
    ensures Coherent(force + lines, shadow + lines)
  {
    assert (force + lines) * PlainLines() == force * PlainLines() + lines * PlainLines();
    assert (shadow + lines) * PlainLines() == shadow * PlainLines() + lines * PlainLines();
  }

  lemma CoherentWithout(force: Word, shadow: Word, irq: nat)
    requires Coherent(force, shadow)
    ensures Coherent(force - {irq}, (shadow - {irq}) * PlainLines())
  {
    assert (force - {irq}) * PlainLines() == force * PlainLines() - {irq};
    assert (shadow - {irq}) * PlainLines() * PlainLines() == shadow * PlainLines() - {irq};
  }

  lemma InvIncoming(cfg: Config, s: State, lines: Word, active: bool)
    requires Inv(cfg, s)
    ensures Inv(cfg, Incoming(s, lines, active))
  {
    forall c | 0 <= c < cfg.ncpu
      ensures active ==> Coherent(Incoming(s, lines, active).procForce[c], Incoming(s, lines, active).shadow[c])
    {
      CoherentWith(s.procForce[c], s.shadow[c], Broadcasted(s, lines) * Range(0, 16));
    }
  }

  lemma InvForceWrite(cfg: Config, s: State)
    requires Sized(cfg, s) && InMask(cfg, s) && OutputsSane(s)
    ensures Inv(cfg, ForceWrite(cfg, s))
  {
  }

  lemma InvClearWrite(cfg: Config, s: State)
    requires Inv(cfg, s.(clear := {}))
    ensures Inv(cfg, ClearWrite(cfg, s))
  {
  }

  lemma InvWrite(cfg: Config, s: State, reg: Reg, value: Word)
    requires cfg.Valid() && Inv(cfg, s) && ValidReg(cfg, reg)
    ensures Inv(cfg, Write(cfg, s, reg, value))
  {
    if reg.ProcForce? {
      InvForceWrite(cfg, s.(procForce := s.procForce[reg.cpu := value * WriteMask(reg)]));
    } else if reg == Clear {
      InvClearWrite(cfg, s.(clear := value * WriteMask(reg)));
    }
  }

  lemma InvAcknowledge(cfg: Config, s: State, irq: nat, cpu: nat)
    requires Inv(cfg, s) && irq < 32 && cpu < cfg.ncpu
    ensures Inv(cfg, Acknowledge(cfg, s, irq, cpu))
  {
    CoherentWithout(s.procForce[cpu], s.shadow[cpu], irq);
  }

  lemma InvPass(cfg: Config, s: State)
    requires cfg.Valid() && Inv(cfg, s)
    ensures Inv(cfg, Pass(cfg, s))
  {
  }

  lemma InvNext(cfg: Config, s: State, t: Step)
    requires cfg.Valid() && Inv(cfg, s) && ValidStep(cfg, t)
    ensures Inv(cfg, Next(cfg, s, t))
  {
    match t
    case IncomingIrq(lines, active) => InvIncoming(cfg, s, lines, active);
    case BusWrite(reg, value) => InvWrite(cfg, s, reg, value);
    case Ack(irq, cpu) => InvAcknowledge(cfg, s, irq, cpu);
    case ResetStep =>
    case Launch => if s.event { InvPass(cfg, s.(event := false)); }
  }

  lemma {:induction false} InvAlways(cfg: Config, channels: set<nat>, ts: seq<Step>)
    requires cfg.Valid() && ValidRun(cfg, ts)
    ensures Inv(cfg, Run(cfg, Initial(cfg, channels), ts))
  {
    InvInitially(cfg, channels);
    if ts != [] {
      InvAlways(cfg, channels, ts[..|ts| - 1]);
      InvNext(cfg, Run(cfg, Initial(cfg, channels), ts[..|ts| - 1]), ts[|ts| - 1]);
    }
  }

  // ----- the force registers

  /** A bus write to one CPU's force register sets the lines of its lower half except those
      whose twin in the upper half is set: clear wins.  Other CPUs keep their lines. */
  lemma ForceRegisterWrite(cfg: Config, s: State, cpu: nat, value: Word, line: nat, other: nat)
    requires cfg.Valid() && Inv(cfg, s) && cpu < cfg.ncpu && other < cfg.ncpu && 1 <= line <= 15
    ensures var s' := Write(cfg, s, ProcForce(cpu), value);
            && (line in s'.procForce[cpu] <==> (line in s.procForce[cpu] || line in value) && line + 16 !in value)
            && (line in s'.shadow[cpu] <==> line in s'.procForce[cpu])
            && (other != cpu ==> (line in s'.procForce[other] <==> line in s.procForce[other]))
  {
    var reg := value * WriteMask(ProcForce(cpu));
    ForceRegistersAfter(cfg, s, cpu, value, cpu);
    ForceRegistersAfter(cfg, s, cpu, value, other);
    ForcedLine(s.procForce[cpu], s.shadow[cpu], reg, line);
    ForcedLine(s.procForce[other], s.shadow[other], s.procForce[other], line);
    WritableForceLine(value, line);
  }

  lemma ForceRegistersAfter(cfg: Config, s: State, cpu: nat, value: Word, c: nat)
    requires cfg.Valid() && Sized(cfg, s) && cpu < cfg.ncpu && c < cfg.ncpu
    ensures var s' := Write(cfg, s, ProcForce(cpu), value);
            s'.procForce[c] == s'.shadow[c]
            == Forced(s.shadow[c], if c == cpu then value * WriteMask(ProcForce(cpu)) else s.procForce[c])
  {
  }

  lemma WritableForceLine(value: Word, line: nat)
    requires 1 <= line <= 15
    ensures var reg := value * WriteMask(ProcForce(0));
            (line in reg <==> line in value) && (line + 16 in reg <==> line + 16 in value)
  {
  }

  lemma ForcedLine(force: Word, shadow: Word, reg: Word, line: nat)
    requires Coherent(force, shadow) && 1 <= line <= 15
    ensures line in Forced(shadow, reg) <==> (line in force || line in reg) && line + 16 !in reg
  {
    assert line in force * PlainLines() <==> line in shadow * PlainLines();
  }

  // ----- acknowledge consumes

  /** The step does not raise the line again for this CPU. */
  ghost predicate Quiet(t: Step, irq: nat, cpu: nat) {
    match t
    case IncomingIrq(lines, active) => active ==> irq !in lines
    case BusWrite(Pending, value) => irq !in value
    case BusWrite(Force, value) => irq !in value
    case BusWrite(ProcForce(c), value) => c == cpu ==> irq !in value || irq + 16 in value
    case _ => true
  }

  ghost predicate Consumed(cfg: Config, s: State, irq: nat, cpu: nat)
    requires Sized(cfg, s) && cpu < cfg.ncpu
  {
    && irq !in s.pending && irq !in s.force && irq !in s.procForce[cpu] && irq !in s.shadow[cpu]
    && (cpu in s.outs ==> s.outs[cpu] != Output(irq, true))
  }

  lemma ConsumedPass(cfg: Config, s: State, irq: nat, cpu: nat)
    requires cfg.Valid() && Sized(cfg, s) && cpu < cfg.ncpu && 1 <= irq <= 15 && irq != cfg.eirq
    requires Consumed(cfg, s, irq, cpu)
    ensures Consumed(cfg, Pass(cfg, s), irq, cpu)
  {
    assert irq !in Effective(cfg, s, cpu);
    PriorityIsTop(s.level, Effective(cfg, s, cpu), irq);
  }

  lemma ConsumedForceWrite(cfg: Config, s: State, value: Word, c: nat, irq: nat, cpu: nat)
    requires cfg.Valid() && Sized(cfg, s) && cpu < cfg.ncpu && c < cfg.ncpu && 1 <= irq <= 15
    requires Consumed(cfg, s, irq, cpu) && Quiet(BusWrite(ProcForce(c), value), irq, cpu)
    ensures Consumed(cfg, Write(cfg, s, ProcForce(c), value), irq, cpu)
  {
    ForceRegistersAfter(cfg, s, c, value, cpu);
    WritableForceLine(value, irq);
    ForcedWithout(s.shadow[cpu], if c == cpu then value * WriteMask(ProcForce(c)) else s.procForce[cpu], irq);
  }

  lemma ForcedWithout(shadow: Word, reg: Word, irq: nat)
    requires 1 <= irq <= 15 && irq !in shadow && (irq in reg ==> irq + 16 in reg)
    ensures irq !in Forced(shadow, reg)
  {
  }

  lemma ConsumedNext(cfg: Config, s: State, t: Step, irq: nat, cpu: nat)
    requires cfg.Valid() && Sized(cfg, s) && ValidStep(cfg, t) && cpu < cfg.ncpu
    requires 1 <= irq <= 15 && irq != cfg.eirq
    requires Consumed(cfg, s, irq, cpu) && Quiet(t, irq, cpu)
    ensures Consumed(cfg, Next(cfg, s, t), irq, cpu)
  {
    match t
    case Launch => if s.event { ConsumedPass(cfg, s.(event := false), irq, cpu); }
    case BusWrite(ProcForce(c), value) => ConsumedForceWrite(cfg, s, value, c, irq, cpu);
    case _ =>
  }

  lemma {:induction false} StaysConsumed(cfg: Config, s: State, irq: nat, cpu: nat, ts: seq<Step>)
    requires cfg.Valid() && Sized(cfg, s) && cpu < cfg.ncpu && 1 <= irq <= 15 && irq != cfg.eirq
    requires Consumed(cfg, s, irq, cpu)
    requires ValidRun(cfg, ts) && forall i :: 0 <= i < |ts| ==> Quiet(ts[i], irq, cpu)
    ensures Consumed(cfg, Run(cfg, s, ts), irq, cpu)
  {
    if ts != [] {
      StaysConsumed(cfg, s, irq, cpu, ts[..|ts| - 1]);
      ConsumedNext(cfg, Run(cfg, s, ts[..|ts| - 1]), ts[|ts| - 1], irq, cpu);
    }
  }

  /** After a line has been acknowledged by a CPU, no run that does not raise it again ever
      shows it active on that CPU's output, whatever else the run does. */
  lemma AcknowledgeConsumes(cfg: Config, s: State, irq: nat, cpu: nat, ts: seq<Step>)
    requires cfg.Valid() && Sized(cfg, s) && cpu < cfg.ncpu && 1 <= irq <= 15 && irq != cfg.eirq
    requires ValidRun(cfg, ts) && forall i :: 0 <= i < |ts| ==> Quiet(ts[i], irq, cpu)
    ensures Consumed(cfg, Run(cfg, Acknowledge(cfg, s, irq, cpu), ts), irq, cpu)
  {
    StaysConsumed(cfg, Acknowledge(cfg, s, irq, cpu), irq, cpu, ts);
  }

  /** Clearing a line through the clear register consumes it for a CPU exactly when that CPU's
      force register does not hold it: forced lines are not cleared there. */
  lemma ClearConsumesUnlessForced(cfg: Config, s: State, value: Word, irq: nat, cpu: nat)
    requires cfg.Valid() && Inv(cfg, s) && cpu < cfg.ncpu && 1 <= irq <= 15 && irq in value
    ensures Consumed(cfg, Write(cfg, s, Clear, value), irq, cpu) <==> irq !in s.procForce[cpu]
  {
    assert irq in value * WriteMask(Clear);
    assert Coherent(s.procForce[cpu], s.shadow[cpu]);
    assert irq in s.procForce[cpu] <==> irq in s.procForce[cpu] * PlainLines();
    assert irq in s.shadow[cpu] <==> irq in s.shadow[cpu] * PlainLines();
  }

  /** So a cleared line that is not forced stays away until it is raised again. */
  lemma ClearConsumes(cfg: Config, s: State, value: Word, irq: nat, cpu: nat, ts: seq<Step>)
    requires cfg.Valid() && Inv(cfg, s) && cpu < cfg.ncpu && 1 <= irq <= 15 && irq != cfg.eirq
    requires irq in value && irq !in s.procForce[cpu]
    requires ValidRun(cfg, ts) && forall i :: 0 <= i < |ts| ==> Quiet(ts[i], irq, cpu)
    ensures Consumed(cfg, Run(cfg, Write(cfg, s, Clear, value), ts), irq, cpu)
  {
    ClearConsumesUnlessForced(cfg, s, value, irq, cpu);
    StaysConsumed(cfg, Write(cfg, s, Clear, value), irq, cpu, ts);
  }

  // ----- an acknowledged extended interrupt

  /** The pending lines that stay when the CPU acknowledges the extended interrupt. */
  function LeftPending(cfg: Config, s: State, cpu: nat): Word
    requires Sized(cfg, s) && cpu < cfg.ncpu
  {
    s.pending - (if s.extId[cpu] != {} then {ExtLine(s.extId[cpu])} else {})
  }

  /** Of those, an extended line that CPU c may see. */
  predicate StillExtended(cfg: Config, s: State, cpu: nat, c: nat)
    requires Sized(cfg, s) && cpu < cfg.ncpu && c < cfg.ncpu
  {
    (LeftPending(cfg, s, cpu) + s.force) * s.mask[c] * ExtendedLines() != {}
  }

  /** Acknowledging the extended interrupt withdraws it everywhere for that CPU.  The next pass
      lets it compete again exactly when an extended line is left for this CPU, or for the CPU
      served just before it, whose pending bit this one then finds. */
  lemma AcknowledgedExtended(cfg: Config, s: State, cpu: nat)
    requires cfg.Valid() && Sized(cfg, s) && cpu < cfg.ncpu && cfg.eirq != 0
    ensures var s' := Acknowledge(cfg, s, cfg.eirq, cpu);
            && Consumed(cfg, s', cfg.eirq, cpu)
            && (cfg.eirq in Effective(cfg, s', cpu) <==>
                StillExtended(cfg, s, cpu, cpu)
                || (cpu + 1 < cfg.ncpu && cfg.eirq in s.mask[cpu] && StillExtended(cfg, s, cpu, cpu + 1)))
  {
    var s' := Acknowledge(cfg, s, cfg.eirq, cpu);
    forall c: nat | c < cfg.ncpu ensures ExtActive(s', c) == StillExtended(cfg, s, cpu, c) {
      assert (s'.pending + s'.force) * s.mask[c] * ExtendedLines()
          == (LeftPending(cfg, s, cpu) + s.force) * s.mask[c] * ExtendedLines();
    }
  }

  /** So it shows active again after the next pass exactly when it competes and outranks the rest. */
  lemma AcknowledgedExtendedReturns(cfg: Config, s: State, cpu: nat)
    requires cfg.Valid() && Sized(cfg, s) && cpu < cfg.ncpu && cfg.eirq != 0 && cpu in s.outs
    ensures var s', e := Acknowledge(cfg, s, cfg.eirq, cpu), cfg.eirq;
            Pass(cfg, s').outs[cpu] == Output(e, true) <==>
            && (StillExtended(cfg, s, cpu, cpu)
                || (cpu + 1 < cfg.ncpu && e in s.mask[cpu] && StillExtended(cfg, s, cpu, cpu + 1)))
            && forall k :: k in Effective(cfg, s', cpu) * PlainLines() && k != e ==> Outranks(s.level, e, k)
  {
    var s' := Acknowledge(cfg, s, cfg.eirq, cpu);
    AcknowledgedExtended(cfg, s, cpu);
    PassDelivers(cfg, s', cpu, cfg.eirq);
  }

  // ----- no lost wake-up

  /** The output of a CPU shows what the current registers call for. */
  ghost predicate Shows(cfg: Config, s: State, c: nat)
    requires cfg.Valid() && Sized(cfg, s) && c < cfg.ncpu
  {
    c in s.outs ==> s.outs[c] == Due(Chosen(cfg, s, c))
  }

  /** The output of a CPU, if bound, shows the line of `all` that is on top for these levels. */
  ghost predicate ShowsTop(s: State, c: nat, level: Word, all: Word) {
    c in s.outs ==> s.outs[c] == Due(s.outs[c].line) && IsTop(level, all, s.outs[c].line)
  }

  lemma ShowsIsTop(cfg: Config, s: State, c: nat)
    requires cfg.Valid() && Sized(cfg, s) && c < cfg.ncpu
    ensures Shows(cfg, s, c) <==> ShowsTop(s, c, s.level, Effective(cfg, s, c))
  {
    if c in s.outs {
      PriorityIsTop(s.level, Effective(cfg, s, c), s.outs[c].line);
    }
  }

  /** A pass leaves the bound output of the last CPU behind: the registers make that CPU choose
      another line the next time. */
  ghost predicate LeftBehind(cfg: Config, s: State, c: nat)
    requires cfg.Valid() && Sized(cfg, s)
  {
    c in s.outs && c == cfg.ncpu - 1 && LastMoves(cfg, s)
  }

  /** After a pass the output of a CPU is current, except for the last CPU exactly when the
      registers make it move. */
  lemma ShowsAfterPassExactlyWhen(cfg: Config, s: State, c: nat)
    requires cfg.Valid() && Inv(cfg, s) && c < cfg.ncpu
    ensures Shows(cfg, Pass(cfg, s), c) <==> !LeftBehind(cfg, s, c)
  {
    ShownUnlessMoved(cfg, s, c);
    ChoiceMovesExactlyWhen(cfg, s, c);
  }

  /** A bound output is current after a pass exactly when the next pass would choose the same. */
  lemma ShownUnlessMoved(cfg: Config, s: State, c: nat)
    requires cfg.Valid() && Inv(cfg, s) && c < cfg.ncpu
    ensures Shows(cfg, Pass(cfg, s), c) <==> (c in s.outs ==> Chosen(cfg, Pass(cfg, s), c) == Chosen(cfg, s, c))
  {
    if c in s.outs {
      PassDeliversChosen(cfg, s, c);
    }
  }

  /** A write to the level register wakes nobody. It leaves an output right exactly when that is
      still on top of its lines with the new levels. */
  lemma ShowsAfterLevelWriteExactlyWhen(cfg: Config, s: State, value: Word, c: nat)
    requires cfg.Valid() && Sized(cfg, s) && c < cfg.ncpu
    ensures Shows(cfg, Next(cfg, s, BusWrite(Level, value)), c)
            <==> ShowsTop(s, c, value * PlainLines(), Effective(cfg, s, c))
  {
    var s' := Next(cfg, s, BusWrite(Level, value));
    ShowsIsTop(cfg, s', c);
    assert Effective(cfg, s', c) == Effective(cfg, s, c);
  }

  /** What a reset leaves to be sent: the force register is not reset. */
  lemma ResetCompetes(cfg: Config, s: State, c: nat)
    requires cfg.Valid() && Inv(cfg, s) && c < cfg.ncpu
    ensures Effective(cfg, Reset(cfg, s), c) == s.force
  {
    var s' := Reset(cfg, s);
    assert MaskDefault() * ExtendedLines() == ExtendedLines();
    forall k: nat | k < cfg.ncpu ensures !ExtActive(s', k) {
      assert (s'.pending + s'.force) * s'.mask[k] * ExtendedLines() == {};
    }
  }

  /** Neither does a reset, which leaves the outputs alone: one is right exactly when it shows
      the highest line of the force register. */
  lemma ShowsAfterResetExactlyWhen(cfg: Config, s: State, c: nat)
    requires cfg.Valid() && Inv(cfg, s) && c < cfg.ncpu
    ensures Shows(cfg, Next(cfg, s, ResetStep), c) <==> ShowsTop(s, c, {}, s.force)
  {
    ShowsIsTop(cfg, Next(cfg, s, ResetStep), c);
    ResetCompetes(cfg, s, c);
  }

  /** The last pass, level write or reset of a run left the output of a CPU right, judged by
      the state that it found. */
  ghost predicate LeftRight(cfg: Config, s: State, ts: seq<Step>, c: nat)
    requires cfg.Valid() && Sized(cfg, s) && ValidRun(cfg, ts) && c < cfg.ncpu
  {
    ts == [] ||
    var before := ts[..|ts| - 1];
    var now := Run(cfg, s, before);
    match ts[|ts| - 1]
    case BusWrite(Level, value) => ShowsTop(now, c, value * PlainLines(), Effective(cfg, now, c))
    case ResetStep => ShowsTop(now, c, {}, now.force)
    case Launch => if now.event then !LeftBehind(cfg, now, c) else LeftRight(cfg, s, before, c)
    case _ => LeftRight(cfg, s, before, c)
  }

  lemma ShowsAfterLaunch(cfg: Config, s: State, c: nat)
    requires cfg.Valid() && Inv(cfg, s) && s.event && c < cfg.ncpu
    ensures Shows(cfg, Next(cfg, s, Launch), c) <==> !LeftBehind(cfg, s, c)
  {
    ShowsAfterPassExactlyWhen(cfg, s.(event := false), c);
    MovesWithoutEvent(cfg, s);
  }

  lemma MovesWithoutEvent(cfg: Config, s: State)
    requires cfg.Valid() && Sized(cfg, s) && cfg.ncpu != 0
    ensures LastMoves(cfg, s.(event := false)) <==> LastMoves(cfg, s)
  {
    assert Effective(cfg, s.(event := false), cfg.ncpu - 1) == Effective(cfg, s, cfg.ncpu - 1);
  }

  /** A step that neither notifies nor is a pass, level write or reset changes nothing that
      counts. */
  lemma OtherSteps(cfg: Config, s: State, t: Step, c: nat)
    requires cfg.Valid() && Sized(cfg, s) && ValidStep(cfg, t) && !Next(cfg, s, t).event && c < cfg.ncpu
    requires !Unannounced(t) && !(t.Launch? && s.event)
    ensures !s.event && (Shows(cfg, Next(cfg, s, t), c) <==> Shows(cfg, s, c))
  {
    SameRegistersSameChoice(cfg, s, Next(cfg, s, t), c);
  }

  /** The steps that change what should be sent without notifying the event. */
  ghost predicate Unannounced(t: Step) {
    t.ResetStep? || (t.BusWrite? && t.reg == Level)
  }

  /** In every reachable state an event is pending, or the output of a CPU shows what the
      registers call for exactly when the last pass, level write or reset left it so. */
  lemma {:induction false} ShowsExactlyWhen(cfg: Config, channels: set<nat>, ts: seq<Step>, c: nat)
    requires cfg.Valid() && ValidRun(cfg, ts) && c < cfg.ncpu
    ensures var init := Initial(cfg, channels);
            var s := Run(cfg, init, ts);
            s.event || (Shows(cfg, s, c) <==> LeftRight(cfg, init, ts, c))
  {
    if ts == [] {
      NothingIsChosenInitially(cfg, channels);
    } else {
      var before, t := ts[..|ts| - 1], ts[|ts| - 1];
      var s := Run(cfg, Initial(cfg, channels), before);
      InvAlways(cfg, channels, before);
      if t.Launch? && s.event {
        ShowsAfterLaunch(cfg, s, c);
      } else if t.ResetStep? {
        ShowsAfterResetExactlyWhen(cfg, s, c);
      } else if t.BusWrite? && t.reg == Level {
        ShowsAfterLevelWriteExactlyWhen(cfg, s, t.value, c);
      } else if !Next(cfg, s, t).event {
        OtherSteps(cfg, s, t, c);
        ShowsExactlyWhen(cfg, channels, before, c);
      }
    }
  }

  lemma {:induction false} LeftRightWithout(cfg: Config, s: State, ts: seq<Step>, c: nat)
    requires cfg.Valid() && Sized(cfg, s) && ValidRun(cfg, ts) && c < cfg.ncpu
    requires cfg.eirq == 0 || c + 1 < cfg.ncpu
    requires forall i :: 0 <= i < |ts| ==> !Unannounced(ts[i])
    ensures LeftRight(cfg, s, ts, c)
  {
    if ts != [] {
      assert !Unannounced(ts[|ts| - 1]);
      LeftRightWithout(cfg, s, ts[..|ts| - 1], c);
    }
  }

  /** In runs without level writes and resets no wake-up is lost, with an extended interrupt for
      all CPUs but the last: an event is pending or the output shows what the registers call for. */
  lemma NoLostWakeup(cfg: Config, channels: set<nat>, ts: seq<Step>, c: nat)
    requires cfg.Valid() && ValidRun(cfg, ts) && c < cfg.ncpu && (cfg.eirq == 0 || c + 1 < cfg.ncpu)
    requires forall i :: 0 <= i < |ts| ==> !Unannounced(ts[i])
    ensures var s := Run(cfg, Initial(cfg, channels), ts);
            s.event || Shows(cfg, s, c)
  {
    ShowsExactlyWhen(cfg, channels, ts, c);
    LeftRightWithout(cfg, Initial(cfg, channels), ts, c);
  }

  lemma NothingIsChosenInitially(cfg: Config, channels: set<nat>)
    requires cfg.Valid()
    ensures forall c: nat :: c < cfg.ncpu ==> Shows(cfg, Initial(cfg, channels), c)
  {
    var s := Initial(cfg, channels);
    forall c: nat | c < cfg.ncpu ensures Shows(cfg, s, c) {
      assert Effective(cfg, s, c) == {};
    }
  }

  lemma LevelWriteIsNotNoticed(cfg: Config, s: State)
    requires cfg.Valid() && Inv(cfg, s) && cfg.eirq == 0 && cfg.ncpu > 0 && 0 in s.outs && !s.event
    requires s.level == {} && s.outs[0] == Output(2, true) && {1, 2} <= Effective(cfg, s, 0)
    ensures var s' := Next(cfg, s, BusWrite(Level, {1}));
            !s'.event && !Shows(cfg, s', 0) && Next(cfg, s', Launch) == s'
  {
    var s' := Next(cfg, s, BusWrite(Level, {1}));
    assert s'.level == {1};
    assert Effective(cfg, s', 0) == Effective(cfg, s, 0);
    assert 2 in Effective(cfg, s', 0) * PlainLines() && 1 in Effective(cfg, s', 0) * PlainLines();
    PriorityIsTop(s'.level, Effective(cfg, s', 0), 2);
  }

  lemma TwoLinesSent(s: State)
    requires Inv(Config(1, 0), s) && 0 in s.outs && s.level == {} == s.force == s.procForce[0]
    requires s.pending == {1, 2} && s.mask[0] == MaskDefault()
    ensures Effective(Config(1, 0), s, 0) == {1, 2}
    ensures Pass(Config(1, 0), s).outs[0] == Output(2, true)
    ensures Effective(Config(1, 0), Pass(Config(1, 0), s), 0) == {1, 2}
  {
    var cfg := Config(1, 0);
    assert Effective(cfg, s, 0) == {1, 2};
    assert 2 in Effective(cfg, s, 0) * PlainLines();
    PriorityIsTop(s.level, Effective(cfg, s, 0), 2);
    PassDelivers(cfg, s, 0, 2);
    PassKeepsEffective(cfg, s, 0);
  }

  lemma RunOfThree(cfg: Config, s: State, a: Step, b: Step, c: Step)
    requires cfg.Valid() && Sized(cfg, s) && ValidStep(cfg, a) && ValidStep(cfg, b) && ValidStep(cfg, c)
    ensures ValidRun(cfg, [a, b, c])
    ensures Run(cfg, s, [a, b, c]) == Next(cfg, Next(cfg, Next(cfg, s, a), b), c)
  {
    assert [a, b, c][..2] == [a, b] && [a, b][..1] == [a] && [a][..0] == [];
    assert Run(cfg, s, [a]) == Next(cfg, s, a);
    assert Run(cfg, s, [a, b]) == Next(cfg, Next(cfg, s, a), b);
  }

  lemma PendingWritten(s: State) returns (s1: State)
    requires s == Initial(Config(1, 0), {0})
    ensures s1 == Next(Config(1, 0), s, BusWrite(Pending, {1, 2})) && Inv(Config(1, 0), s1)
    ensures 0 in s1.outs && s1.level == {} == s1.force == s1.procForce[0]
    ensures s1.pending == {1, 2} && s1.mask[0] == MaskDefault() && s1.event
  {
    InvInitially(Config(1, 0), {0});
    InvNext(Config(1, 0), s, BusWrite(Pending, {1, 2}));
    s1 := Next(Config(1, 0), s, BusWrite(Pending, {1, 2}));
  }

  /** A level write really can leave an output stale for good: lines 1 and 2 are written to
      pending and 2 is sent; moving line 1 to level 1 calls for 1, but nothing wakes the
      launcher. */
  lemma LevelWriteLosesAWakeup() returns (ts: seq<Step>)
    ensures ValidRun(Config(1, 0), ts)
    ensures var s := Run(Config(1, 0), Initial(Config(1, 0), {0}), ts);
            !s.event && !Shows(Config(1, 0), s, 0) && Next(Config(1, 0), s, Launch) == s
  {
    var cfg, s0 := Config(1, 0), Initial(Config(1, 0), {0});
    ts := [BusWrite(Pending, {1, 2}), Launch, BusWrite(Level, {1})];
    var s1 := PendingWritten(s0);
    TwoLinesSent(s1.(event := false));
    InvPass(cfg, s1.(event := false));
    LevelWriteIsNotNoticed(cfg, Pass(cfg, s1.(event := false)));
    RunOfThree(cfg, s0, ts[0], ts[1], ts[2]);
  }

  /** So can a reset: line 2 has been sent, nothing is left to be sent, and the output stays. */
  lemma ResetLosesAWakeup() returns (ts: seq<Step>)
    ensures ValidRun(Config(1, 0), ts)
    ensures var s := Run(Config(1, 0), Initial(Config(1, 0), {0}), ts);
            !s.event && !Shows(Config(1, 0), s, 0) && Next(Config(1, 0), s, Launch) == s
  {
    var cfg, s0 := Config(1, 0), Initial(Config(1, 0), {0});
    ts := [BusWrite(Pending, {1, 2}), Launch, ResetStep];
    var s1 := PendingWritten(s0);
    TwoLinesSent(s1.(event := false));
    InvPass(cfg, s1.(event := false));
    ResetIsNotNoticed(cfg, Pass(cfg, s1.(event := false)));
    RunOfThree(cfg, s0, ts[0], ts[1], ts[2]);
  }

  lemma ResetIsNotNoticed(cfg: Config, s: State)
    requires cfg.Valid() && Inv(cfg, s) && cfg.ncpu > 0 && 0 in s.outs && !s.event
    requires s.force == {} && s.outs[0] == Output(2, true)
    ensures var s' := Next(cfg, s, ResetStep);
            !s'.event && !Shows(cfg, s', 0) && Next(cfg, s', Launch) == s'
  {
    ShowsAfterResetExactlyWhen(cfg, s, 0);
  }

  /** And so can a pass, for the last CPU with an extended interrupt: its pending bit, found set
      with no extended line behind it, is sent and dropped in the same pass. */
  lemma PassLosesAWakeup() returns (ts: seq<Step>)
    ensures ValidRun(Config(1, 1), ts)
    ensures var s := Run(Config(1, 1), Initial(Config(1, 1), {0}), ts);
            !s.event && !Shows(Config(1, 1), s, 0) && Next(Config(1, 1), s, Launch) == s
  {
    var cfg, s0 := Config(1, 1), Initial(Config(1, 1), {0});
    ts := [BusWrite(Pending, {1}), Launch];
    var s1 := Next(cfg, s0, ts[0]);
    InvInitially(cfg, {0});
    InvNext(cfg, s0, ts[0]);
    ExtendedBitAlone(s1);
    ShowsAfterLaunch(cfg, s1, 0);
    assert ts[..1] == [ts[0]] && [ts[0]][..0] == [];
    assert Run(cfg, s0, [ts[0]]) == s1;
  }

  lemma ExtendedBitAlone(s: State)
    requires Sized(Config(1, 1), s) && s.pending == {1} && s.mask[0] == MaskDefault()
    requires s.force == {} == s.procForce[0]
    ensures LastMoves(Config(1, 1), s)
  {
    var cfg := Config(1, 1);
    assert (s.pending + s.force) * s.mask[0] * ExtendedLines() == {};
    assert Effective(cfg, s, 0) == {1};
  }

  // ----- nothing is dropped at the input

  /** Every asserted line is recorded in exactly one place, and only there. */
  lemma InputIsRecorded(cfg: Config, s: State, lines: Word, line: nat, cpu: nat)
    requires cfg.Valid() && Inv(cfg, s) && cpu < cfg.ncpu && line < 32
    ensures var s' := Incoming(s, lines, true);
            var toForce := line in lines && line + 1 in s.broadcast;
            && (line in s'.pending <==> line in s.pending || (line in lines && !toForce))
            && (line in s'.procForce[cpu] <==> line in s.procForce[cpu] || toForce)
            && (line in s'.shadow[cpu] <==> line in s.shadow[cpu] || toForce)
            && s'.irqCount[line] == s.irqCount[line] + (if line in lines then 1 else 0)
  {
  }

  /** What the header file describes: broadcast bit n, not n + 1, sends line n to all CPUs. */
  function DocumentedIncoming(s: State, line: nat): State
    requires line < 32 && |s.irqCount| == 32
  {
    var counted := s.(irqCount := s.irqCount[line := s.irqCount[line] + 1], event := true);
    if line in s.broadcast then
      counted.(procForce := AddToAll(s.procForce, {line}), shadow := AddToAll(s.shadow, {line}))
    else counted.(pending := s.pending + {line})
  }

  /** The line stands in pending and in all force registers and shadows already. */
  ghost predicate Everywhere(s: State, line: nat)
    requires |s.procForce| == |s.shadow|
  {
    line in s.pending && forall c :: 0 <= c < |s.procForce| ==> line in s.procForce[c] && line in s.shadow[c]
  }

  /** An asserted line is treated as documented exactly when its two broadcast bits agree, or
      when it is recorded everywhere already. */
  lemma BroadcastAsDocumented(cfg: Config, s: State, line: nat)
    requires cfg.Valid() && Inv(cfg, s) && line < 32
    ensures Incoming(s, {line}, true) == DocumentedIncoming(s, line)
            <==> ((line in s.broadcast <==> line + 1 in s.broadcast) || Everywhere(s, line))
  {
    var s', d := Incoming(s, {line}, true), DocumentedIncoming(s, line);
    var toForce := line + 1 in s.broadcast;
    assert Broadcasted(s, {line}) == if toForce then {line} else {};
    assert Broadcasted(s, {line}) * Range(0, 16) == Broadcasted(s, {line});
    assert s'.irqCount == d.irqCount;
    assert s'.pending == if toForce then s.pending else s.pending + {line};
    GicSteps.AddNoneToAll(s.procForce);
    GicSteps.AddNoneToAll(s.shadow);
    AddedAlready(s.procForce, line);
    AddedAlready(s.shadow, line);
    assert s.pending == s.pending + {line} <==> line in s.pending;
  }

  lemma AddedAlready(regs: seq<Word>, line: nat)
    requires line < 32
    ensures AddToAll(regs, {line}) == regs <==> forall c :: 0 <= c < |regs| ==> line in regs[c]
  {
    if forall c :: 0 <= c < |regs| ==> line in regs[c] {
      assert forall c :: 0 <= c < |regs| ==> regs[c] + {line} == regs[c];
    } else {
      var c :| 0 <= c < |regs| && line !in regs[c];
      assert line in AddToAll(regs, {line})[c];
    }
  }

  /** Line 15, whose bit 16 cannot be written, is never broadcast; line 0 is, with bit 1. */
  lemma Line15IsNeverBroadcast(cfg: Config, s: State)
    requires cfg.Valid() && Inv(cfg, s)
    ensures Incoming(s, {15}, true).procForce == s.procForce && 15 in Incoming(s, {15}, true).pending
  {
    assert Broadcasted(s, {15}) == {} == Broadcasted(s, {15}) * Range(0, 16);
    GicSteps.AddNoneToAll(s.procForce);
  }

  /** A bus master that sets broadcast bit 3 broadcasts line 2 and not line 3. */
  lemma BroadcastIsOffByOne() returns (s: State)
    ensures s == Run(Config(1, 0), Initial(Config(1, 0), {}), [BusWrite(Broadcast, {3})])
    ensures Incoming(s, {2}, true).procForce[0] == {2} && Incoming(s, {2}, true).pending == {}
    ensures Incoming(s, {3}, true).procForce[0] == {} && Incoming(s, {3}, true).pending == {3}
    ensures Incoming(s, {3}, true) != DocumentedIncoming(s, 3)
  {
    var cfg, init := Config(1, 0), Initial(Config(1, 0), {});
    var ts := [BusWrite(Broadcast, {3})];
    assert ts[..0] == [];
    s := Run(cfg, init, ts);
    assert s.broadcast == {3};
    assert Broadcasted(s, {2}) * Range(0, 16) == {2} == Broadcasted(s, {2}) && Broadcasted(s, {3}) == {};
  }

  /** The recording rests on the broadcast register staying within its write mask: with any
      other broadcast bit the line would be counted and dropped. */
  lemma InputIsDroppedOutsideMask(cfg: Config, s: State, line: nat)
    requires Sized(cfg, s) && 16 <= line < 31
    ensures var s' := Incoming(s, {line}, true);
            s' == s.(irqCount := s'.irqCount, event := true) <==> (line + 1 in s.broadcast || line in s.pending)
  {
    var s' := Incoming(s, {line}, true);
    var forced := Broadcasted(s, {line}) * Range(0, 16);
    assert forced == {};
    forall c | 0 <= c < cfg.ncpu
      ensures s'.procForce[c] == s.procForce[c] && s'.shadow[c] == s.shadow[c]
    {
      assert s'.procForce[c] == s.procForce[c] + forced && s'.shadow[c] == s.shadow[c] + forced;
    }
    assert s'.procForce == s.procForce && s'.shadow == s.shadow;
    if line + 1 in s.broadcast {
      assert {line} - Broadcasted(s, {line}) == {};
    } else {
      assert line in s'.pending;
    }
  }

  /** How often a run asserts a line. */
  ghost function Raised(ts: seq<Step>, line: nat): nat {
    if ts == [] then 0
    else
      Raised(ts[..|ts| - 1], line) + (if Raises(ts[|ts| - 1], line) then 1 else 0)
  }

  ghost predicate Raises(t: Step, line: nat) {
    t.IncomingIrq? && t.active && line in t.lines
  }

  lemma NextCounts(cfg: Config, s: State, t: Step, line: nat)
    requires cfg.Valid() && Sized(cfg, s) && ValidStep(cfg, t) && line < 32
    ensures Next(cfg, s, t).irqCount[line] == s.irqCount[line] + (if Raises(t, line) then 1 else 0)
  {
  }

  /** Over every run each line counter counts exactly the assertions of its line. */
  lemma {:induction false} CountersCount(cfg: Config, s: State, ts: seq<Step>, line: nat)
    requires cfg.Valid() && Sized(cfg, s) && ValidRun(cfg, ts) && line < 32
    ensures Run(cfg, s, ts).irqCount[line] == s.irqCount[line] + Raised(ts, line)
  {
    if ts != [] {
      CountersCount(cfg, s, ts[..|ts| - 1], line);
      NextCounts(cfg, Run(cfg, s, ts[..|ts| - 1]), ts[|ts| - 1], line);
    }
  }
}
