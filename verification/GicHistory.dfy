/** What a run of the interrupt controller leaves recorded, told from its steps: a recorded line
    goes only by a step that names it, and the counters count what was sent. */
module GicHistory {
  import opened Words
  import opened GicState
  import opened GicPass
  import opened GicRuns
  import opened GicLines

  // ----- pending

  /** A pass rewrites the pending bit of line k: it is the extended interrupt. */
  predicate Rewritten(cfg: Config, k: nat) {
    k == cfg.eirq && k != 0 && cfg.ncpu != 0
  }

  /** The step puts line k into the pending register. */
  ghost predicate Records(cfg: Config, s: State, t: Step, k: nat)
    requires Sized(cfg, s)
  {
    match t
    case IncomingIrq(lines, active) => active && k in lines && k + 1 !in s.broadcast
    case BusWrite(Pending, value) => 1 <= k && k in value
    case Launch => s.event && Rewritten(cfg, k) && ExtendedFor(s, 0)
    case _ => false
  }

  /** The step takes line k out of the pending register, if it is there. */
  ghost predicate Drops(cfg: Config, s: State, t: Step, k: nat)
    requires Sized(cfg, s) && ValidStep(cfg, t)
  {
    match t
    case Ack(irq, cpu) => k == irq || Names(cfg, s.extId[cpu], k)
    case BusWrite(Pending, value) => k == 0 || k !in value
    case BusWrite(Clear, value) => Cleared(value, k) || NamedByAny(cfg, s, k)
    case BusWrite(ProcForce(_), _) => NamedByAny(cfg, s, k)
    case ResetStep => true
    case Launch => s.event && Rewritten(cfg, k) && !ExtendedFor(s, 0)
    case _ => false
  }

  lemma PendingNext(cfg: Config, s: State, t: Step, k: nat)
    requires cfg.Valid() && Inv(cfg, s) && ValidStep(cfg, t) && k < 32
    ensures k in Next(cfg, s, t).pending <==> Records(cfg, s, t, k) || (k in s.pending && !Drops(cfg, s, t, k))
  {
    match t
    case IncomingIrq(lines, active) =>
    case Ack(irq, cpu) => AcknowledgeExactly(cfg, s, irq, cpu, k, cpu);
    case ResetStep =>
    case Launch => PassExactly(cfg, s.(event := false), k, 0);
    case BusWrite(reg, value) => PendingAfterWrite(cfg, s, reg, value, k);
  }

  lemma PendingAfterWrite(cfg: Config, s: State, reg: Reg, value: Word, k: nat)
    requires cfg.Valid() && Inv(cfg, s) && ValidReg(cfg, reg) && k < 32
    ensures var t := BusWrite(reg, value);
            k in Write(cfg, s, reg, value).pending <==> Records(cfg, s, t, k) || (k in s.pending && !Drops(cfg, s, t, k))
  {
    match reg
    case ProcForce(cpu) => ForceExactly(cfg, s, cpu, value, k, cpu);
    case Clear =>
      NamedLinesAre(cfg, s, k);
      SameNamedLines(cfg, s, s.(clear := value * WriteMask(Clear)), cfg.ncpu);
    case _ =>
  }

  // ----- runs

  /** What a step does to one line of one register: puts it in, or takes it out if it is there. */
  datatype Effect = Effect(records: bool, drops: bool)

  /** Some step has recorded the line, and none after it has dropped it. */
  ghost predicate RecordedLast(es: seq<Effect>) {
    exists i :: 0 <= i < |es| && es[i].records && NotDropped(es, i + 1)
  }

  ghost predicate NotDropped(es: seq<Effect>, from: nat) {
    forall j :: from <= j < |es| ==> !es[j].drops
  }

  /** One step more: it records the line, or keeps what was recorded. */
  lemma RecordedMore(es: seq<Effect>, e: Effect)
    ensures RecordedLast(es + [e]) <==> e.records || (RecordedLast(es) && !e.drops)
  {
    var more := es + [e];
    assert e.records ==> more[|es|].records && NotDropped(more, |es| + 1);
    if RecordedLast(more) && !e.records {
      var i :| 0 <= i < |more| && more[i].records && NotDropped(more, i + 1);
      assert more[i] == es[i] && more[|es|] == e;
      assert NotDropped(es, i + 1) by {
        assert forall j :: 0 <= j < |es| ==> es[j] == more[j];
      }
    }
    if RecordedLast(es) && !e.drops {
      var i :| 0 <= i < |es| && es[i].records && NotDropped(es, i + 1);
      assert more[i].records && NotDropped(more, i + 1);
    }
  }

  /** The effects of the steps of a run on a line of the pending register. */
  ghost function PendingEffects(cfg: Config, s: State, ts: seq<Step>, k: nat): (es: seq<Effect>)
    requires cfg.Valid() && Sized(cfg, s) && ValidRun(cfg, ts)
    ensures |es| == |ts|
  {
    if ts == [] then []
    else
      var before, t := ts[..|ts| - 1], ts[|ts| - 1];
      var now := Run(cfg, s, before);
      PendingEffects(cfg, s, before, k) + [Effect(Records(cfg, now, t, k), Drops(cfg, now, t, k))]
  }

  /** In every reachable state a line is pending exactly when some step has recorded it and no
      later step has named it: no other step ever loses a recorded line.  For the extended
      interrupt every pass is such a step. */
  lemma {:induction false} PendingExactlyWhen(cfg: Config, channels: set<nat>, ts: seq<Step>, k: nat)
    requires cfg.Valid() && ValidRun(cfg, ts) && k < 32
    ensures var init := Initial(cfg, channels);
            k in Run(cfg, init, ts).pending <==> RecordedLast(PendingEffects(cfg, init, ts, k))
  {
    var init := Initial(cfg, channels);
    if ts != [] {
      var before, t := ts[..|ts| - 1], ts[|ts| - 1];
      var now := Run(cfg, init, before);
      PendingExactlyWhen(cfg, channels, before, k);
      InvAlways(cfg, channels, before);
      PendingNext(cfg, now, t, k);
      RecordedMore(PendingEffects(cfg, init, before, k), Effect(Records(cfg, now, t, k), Drops(cfg, now, t, k)));
    }
  }

  // ----- force registers

  /** The step puts line k into the force register of CPU c. */
  ghost predicate Forces(s: State, t: Step, c: nat, k: nat) {
    match t
    case IncomingIrq(lines, active) => active && k in lines && k + 1 in s.broadcast
    case BusWrite(ProcForce(cpu), value) => cpu == c && k in value && !Withdrawn(value, k)
    case _ => false
  }

  /** The step takes line k out of the force register of CPU c, if it is there. */
  ghost predicate Unforces(t: Step, c: nat, k: nat) {
    match t
    case Ack(irq, cpu) => cpu == c && irq == k
    case BusWrite(ProcForce(cpu), value) => cpu == c && Withdrawn(value, k)
    case ResetStep => true
    case _ => false
  }

  lemma ForcedNext(cfg: Config, s: State, t: Step, c: nat, k: nat)
    requires cfg.Valid() && Inv(cfg, s) && ValidStep(cfg, t) && 1 <= k <= 15 && c < cfg.ncpu
    ensures k in Next(cfg, s, t).procForce[c] <==>
            Forces(s, t, c, k) || (k in s.procForce[c] && !Unforces(t, c, k))
  {
    match t
    case IncomingIrq(lines, active) =>
    case Ack(irq, cpu) => AcknowledgeExactly(cfg, s, irq, cpu, k, c);
    case ResetStep =>
    case Launch => PassExactly(cfg, s.(event := false), k, 0);
    case BusWrite(ProcForce(cpu), value) => ForceExactly(cfg, s, cpu, value, k, c);
    case BusWrite(_, _) =>
  }

  ghost function ForceEffects(cfg: Config, s: State, ts: seq<Step>, c: nat, k: nat): (es: seq<Effect>)
    requires cfg.Valid() && Sized(cfg, s) && ValidRun(cfg, ts)
    ensures |es| == |ts|
  {
    if ts == [] then []
    else
      var before, t := ts[..|ts| - 1], ts[|ts| - 1];
      ForceEffects(cfg, s, before, c, k) + [Effect(Forces(Run(cfg, s, before), t, c, k), Unforces(t, c, k))]
  }

  /** In every reachable state a line is forced for a CPU exactly when it was broadcast or
      written to that CPU's force register and not withdrawn there, acknowledged by that CPU or
      reset later. */
  lemma {:induction false} ForcedExactlyWhen(cfg: Config, channels: set<nat>, ts: seq<Step>, c: nat, k: nat)
    requires cfg.Valid() && ValidRun(cfg, ts) && 1 <= k <= 15 && c < cfg.ncpu
    ensures var init := Initial(cfg, channels);
            k in Run(cfg, init, ts).procForce[c] <==> RecordedLast(ForceEffects(cfg, init, ts, c, k))
  {
    var init := Initial(cfg, channels);
    if ts != [] {
      var before, t := ts[..|ts| - 1], ts[|ts| - 1];
      var now := Run(cfg, init, before);
      ForcedExactlyWhen(cfg, channels, before, c, k);
      InvAlways(cfg, channels, before);
      ForcedNext(cfg, now, t, c, k);
      RecordedMore(ForceEffects(cfg, init, before, c, k), Effect(Forces(now, t, c, k), Unforces(t, c, k)));
    }
  }

  // ----- masks

  /** The step unmasks line k for CPU c. */
  ghost predicate Unmasks(t: Step, c: nat, k: nat) {
    t == ResetStep || (t.BusWrite? && t.reg == Mask(c) && k in t.value)
  }

  /** What could show line k on the output of CPU c although that CPU masks it. */
  ghost predicate Circumvents(s: State, t: Step, c: nat, k: nat) {
    Unmasks(t, c, k) || Forces(s, t, c, k)
  }

  ghost predicate Hidden(cfg: Config, s: State, c: nat, k: nat)
    requires Sized(cfg, s) && c < cfg.ncpu
  {
    k !in s.mask[c] && k !in s.procForce[c] && (c in s.outs ==> s.outs[c] != Output(k, true))
  }

  lemma HiddenNext(cfg: Config, s: State, t: Step, c: nat, k: nat)
    requires cfg.Valid() && Inv(cfg, s) && ValidStep(cfg, t) && 1 <= k <= 15 && k != cfg.eirq && c < cfg.ncpu
    requires Hidden(cfg, s, c, k) && !Circumvents(s, t, c, k)
    ensures Hidden(cfg, Next(cfg, s, t), c, k)
  {
    ForcedNext(cfg, s, t, c, k);
    match t
    case IncomingIrq(lines, active) =>
    case Ack(irq, cpu) => AcknowledgeExactly(cfg, s, irq, cpu, k, c);
    case ResetStep =>
    case Launch => if s.event { HiddenPass(cfg, s.(event := false), c, k); }
    case BusWrite(_, _) =>
  }

  lemma HiddenPass(cfg: Config, s: State, c: nat, k: nat)
    requires cfg.Valid() && Inv(cfg, s) && 1 <= k <= 15 && k != cfg.eirq && c < cfg.ncpu && Hidden(cfg, s, c, k)
    ensures Hidden(cfg, Pass(cfg, s), c, k)
  {
    if c in s.outs {
      PassShows(cfg, s, c, k);
    }
  }

  ghost predicate NeverCircumvented(cfg: Config, s: State, ts: seq<Step>, c: nat, k: nat)
    requires cfg.Valid() && Sized(cfg, s) && ValidRun(cfg, ts)
  {
    ts == [] ||
    var before, t := ts[..|ts| - 1], ts[|ts| - 1];
    NeverCircumvented(cfg, s, before, c, k) && !Circumvents(Run(cfg, s, before), t, c, k)
  }

  /** A line that a CPU masks and that is not forced for it is never shown to it, until a step
      unmasks or forces it, whatever is raised, written or acknowledged otherwise. */
  lemma {:induction false} MaskedStaysHidden(cfg: Config, s: State, ts: seq<Step>, c: nat, k: nat)
    requires cfg.Valid() && Inv(cfg, s) && ValidRun(cfg, ts) && 1 <= k <= 15 && k != cfg.eirq && c < cfg.ncpu
    requires Hidden(cfg, s, c, k) && NeverCircumvented(cfg, s, ts, c, k)
    ensures Inv(cfg, Run(cfg, s, ts)) && Hidden(cfg, Run(cfg, s, ts), c, k)
  {
    if ts != [] {
      var before, t := ts[..|ts| - 1], ts[|ts| - 1];
      MaskedStaysHidden(cfg, s, before, c, k);
      HiddenNext(cfg, Run(cfg, s, before), t, c, k);
      InvNext(cfg, Run(cfg, s, before), t);
    }
  }

  // ----- CPU counters

  /** A pass sends CPU c something new: its bound output changes to an active line.  An unbound
      one shows nothing, and then any competing line is new. */
  ghost predicate Sends(cfg: Config, s: State, t: Step, c: nat)
    requires cfg.Valid() && Sized(cfg, s) && ValidStep(cfg, t) && c < cfg.ncpu
  {
    && t.Launch? && s.event
    && if c in s.outs then Next(cfg, s, t).outs[c].active && Next(cfg, s, t).outs[c] != s.outs[c]
       else exists k :: Competes(cfg, s, c, k)
  }

  ghost function SentCount(cfg: Config, s: State, ts: seq<Step>, c: nat): nat
    requires cfg.Valid() && Sized(cfg, s) && ValidRun(cfg, ts) && c < cfg.ncpu
  {
    if ts == [] then 0
    else
      var before, t := ts[..|ts| - 1], ts[|ts| - 1];
      SentCount(cfg, s, before, c) + if Sends(cfg, Run(cfg, s, before), t, c) then 1 else 0
  }

  lemma PassCounts(cfg: Config, s: State, c: nat)
    requires cfg.Valid() && Inv(cfg, s) && s.event && c < cfg.ncpu
    ensures Next(cfg, s, Launch).cpuCount[c] == s.cpuCount[c] + if Sends(cfg, s, Launch, c) then 1 else 0
  {
    var u := s.(event := false);
    if c in s.outs {
      PassDeliversChosen(cfg, u, c);
    } else {
      SomeCompetes(cfg, u, c);
      assert forall k :: Competes(cfg, u, c, k) <==> Competes(cfg, s, c, k);
    }
  }

  lemma SomeCompetes(cfg: Config, s: State, c: nat)
    requires cfg.Valid() && Sized(cfg, s) && c < cfg.ncpu
    ensures Chosen(cfg, s, c) != 0 <==> exists k :: Competes(cfg, s, c, k)
  {
    forall k ensures k in Effective(cfg, s, c) * PlainLines() <==> Competes(cfg, s, c, k) {
      CompetesExactly(cfg, s, c, k);
    }
    PriorityIsTop(s.level, Effective(cfg, s, c), 0);
  }

  lemma CpuCountNext(cfg: Config, s: State, t: Step, c: nat)
    requires cfg.Valid() && Inv(cfg, s) && ValidStep(cfg, t) && c < cfg.ncpu
    ensures Next(cfg, s, t).cpuCount[c] == s.cpuCount[c] + if Sends(cfg, s, t, c) then 1 else 0
  {
    if t.Launch? && s.event {
      PassCounts(cfg, s, c);
    }
  }

  /** Over every run the counter of a CPU counts the new interrupts that were sent to it. */
  lemma {:induction false} CpuCountersCount(cfg: Config, channels: set<nat>, ts: seq<Step>, c: nat)
    requires cfg.Valid() && ValidRun(cfg, ts) && c < cfg.ncpu
    ensures var init := Initial(cfg, channels);
            Run(cfg, init, ts).cpuCount[c] == SentCount(cfg, init, ts, c)
  {
    var init := Initial(cfg, channels);
    if ts != [] {
      var before := ts[..|ts| - 1];
      CpuCountersCount(cfg, channels, before, c);
      InvAlways(cfg, channels, before);
      CpuCountNext(cfg, Run(cfg, init, before), ts[|ts| - 1], c);
    }
  }
}
