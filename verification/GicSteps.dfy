/** The closed forms of GicState, one loop iteration at a time. */
module GicSteps {
  import opened Words
  import opened GicState

  // ----- incomming_irq

  function IncomingUpTo(s: State, lines: Word, n: nat): State {
    Incoming(s, lines * Range(0, n), true).(event := s.event)
  }

  lemma AddNoneToAll(regs: seq<Word>)
    ensures AddToAll(regs, {}) == regs
  {
    forall c | 0 <= c < |regs| ensures AddToAll(regs, {})[c] == regs[c] {
      assert regs[c] + {} == regs[c];
    }
  }

  lemma AddBothToAll(regs: seq<Word>, a: Word, b: Word)
    ensures AddToAll(AddToAll(regs, a), b) == AddToAll(regs, a + b)
  {
    forall c | 0 <= c < |regs| ensures regs[c] + a + b == regs[c] + (a + b) {
    }
  }

  function RaiseLine(t: State, line: nat): State
    requires line < 32 && |t.irqCount| == 32
  {
    var u := t.(irqCount := t.irqCount[line := t.irqCount[line] + 1]);
    if line + 1 !in t.broadcast then u.(pending := SetBit(t.pending, line, true))
    else if line < 16 then u.(procForce := AddToAll(t.procForce, {line}), shadow := AddToAll(t.shadow, {line}))
    else u
  }

  lemma IncomingNone(cfg: Config, s: State, lines: Word)
    requires Sized(cfg, s)
    ensures IncomingUpTo(s, lines, 0) == s
  {
    var none := lines * Range(0, 0);
    assert none == {} && Broadcasted(s, none) * Range(0, 16) == {};
    assert s.pending + (none - Broadcasted(s, none)) == s.pending;
    AddNoneToAll(s.procForce);
    AddNoneToAll(s.shadow);
    assert IncomingUpTo(s, lines, 0).irqCount == s.irqCount;
  }

  lemma IncomingAll(s: State, lines: Word)
    ensures IncomingUpTo(s, lines, 32).(event := true) == Incoming(s, lines, true)
  {
    assert lines * Range(0, 32) == lines;
  }

  lemma IncomingSkip(s: State, lines: Word, line: nat)
    requires line !in lines
    ensures IncomingUpTo(s, lines, line + 1) == IncomingUpTo(s, lines, line)
  {
    assert lines * Range(0, line + 1) == lines * Range(0, line);
  }

  lemma IncomingStep(cfg: Config, s: State, lines: Word, line: nat)
    requires Sized(cfg, s) && line in lines
    ensures IncomingUpTo(s, lines, line + 1) == RaiseLine(IncomingUpTo(s, lines, line), line)
  {
    var t, u := IncomingUpTo(s, lines, line), IncomingUpTo(s, lines, line + 1);
    var l, m := lines * Range(0, line), lines * Range(0, line + 1);
    var r := RaiseLine(t, line);
    assert m == l + {line};
    if line + 1 in s.broadcast {
      assert Broadcasted(s, m) == Broadcasted(s, l) + {line};
      assert m - Broadcasted(s, m) == l - Broadcasted(s, l);
    } else {
      assert Broadcasted(s, m) == Broadcasted(s, l);
      assert m - Broadcasted(s, m) == l - Broadcasted(s, l) + {line};
    }
    var f, g := Broadcasted(s, l) * Range(0, 16), Broadcasted(s, m) * Range(0, 16);
    assert g == if line + 1 in s.broadcast && line < 16 then f + {line} else f;
    AddBothToAll(s.procForce, f, {line});
    AddBothToAll(s.shadow, f, {line});
    assert u.irqCount == r.irqCount;
  }

  // ----- clear_write

  lemma ClearNone(cfg: Config, s: State)
    requires Sized(cfg, s)
    ensures ClearNamed(cfg, s, 0) == s
  {
    assert ClearNamed(cfg, s, 0).extId == s.extId;
  }

  lemma ClearStep(cfg: Config, s: State, cpu: nat)
    requires Sized(cfg, s) && cpu < cfg.ncpu
    ensures var t := ClearNamed(cfg, s, cpu);
            ClearNamed(cfg, s, cpu + 1) ==
            if cfg.eirq != 0 && t.extId[cpu] != {}
            then t.(pending := t.pending - {ExtLine(t.extId[cpu])}, extId := t.extId[cpu := {}])
            else t
  {
    var t, u := ClearNamed(cfg, s, cpu), ClearNamed(cfg, s, cpu + 1);
    if cfg.eirq != 0 {
      assert u.extId == t.extId[cpu := {}];
      if s.extId[cpu] == {} {
        assert t.extId[cpu := {}] == t.extId;
      }
    }
  }

  lemma NamedMore(cfg: Config, s: State, cpu: nat)
    requires Sized(cfg, s) && cpu < cfg.ncpu
    ensures NamedLines(cfg, s, cpu + 1) != {} <==>
            NamedLines(cfg, s, cpu) != {} || (cfg.eirq != 0 && s.extId[cpu] != {})
    ensures ClearNamed(cfg, s, cpu).extId[cpu] == s.extId[cpu]
  {
    if cfg.eirq != 0 && s.extId[cpu] != {} {
      assert ExtLine(s.extId[cpu]) in NamedLines(cfg, s, cpu + 1);
    }
  }

  // ----- force_write

  lemma ForceNone(cfg: Config, s: State)
    requires Sized(cfg, s)
    ensures ForceUpTo(cfg, s, 0) == s
  {
    assert ForceUpTo(cfg, s, 0).procForce == s.procForce;
    assert ForceUpTo(cfg, s, 0).shadow == s.shadow;
  }

  function ForceCpu(cfg: Config, t: State, cpu: nat): State
    requires Sized(cfg, t) && cpu < cfg.ncpu
  {
    var low := LowestFrom(Shr(t.procForce[cpu], 16), 1);
    var v := Forced(t.shadow[cpu], t.procForce[cpu]);
    t.(outs := if low != 0 then WriteAll(t.outs, Output(low, false)) else t.outs,
       shadow := t.shadow[cpu := v],
       procForce := t.procForce[cpu := v],
       pending := if cfg.eirq != 0 && t.extId[cpu] != {} then t.pending - {ExtLine(t.extId[cpu])} else t.pending)
  }

  lemma ForceStep(cfg: Config, s: State, cpu: nat)
    requires Sized(cfg, s) && cpu < cfg.ncpu
    ensures ForceUpTo(cfg, s, cpu + 1) == ForceCpu(cfg, ForceUpTo(cfg, s, cpu), cpu)
  {
    var u, r := ForceUpTo(cfg, s, cpu + 1), ForceCpu(cfg, ForceUpTo(cfg, s, cpu), cpu);
    assert u.procForce == r.procForce;
    assert u.shadow == r.shadow;
    assert u.outs == r.outs;
  }

  // ----- launch_irq

  /** The competing lines as one iteration computes them from the current registers. */
  function Competing(cfg: Config, t: State, cpu: nat): Word
    requires cfg.Valid() && Sized(cfg, t) && cpu < cfg.ncpu
  {
    (t.pending + t.force) * t.mask[cpu] + EirqBit(cfg, t, cpu) + t.procForce[cpu] * PlainLines()
  }

  function ServeCpu(cfg: Config, t: State, cpu: nat): State
    requires cfg.Valid() && Sized(cfg, t) && cpu < cfg.ncpu
  {
    var h := Priority(t.level, Competing(cfg, t, cpu));
    t.(pending := if cfg.eirq != 0 then SetBit(t.pending, cfg.eirq, ExtActive(t, cpu)) else t.pending,
       outs := if cpu in t.outs then t.outs[cpu := Sent(t.outs[cpu], h)] else t.outs,
       cpuCount := if Counts(t.outs, cpu, h) then t.cpuCount[cpu := t.cpuCount[cpu] + 1] else t.cpuCount)
  }

  lemma PassNone(cfg: Config, s: State)
    requires cfg.Valid() && Sized(cfg, s)
    ensures PassDown(cfg, s, cfg.ncpu) == s
  {
    assert PassDown(cfg, s, cfg.ncpu).outs == s.outs;
    assert PassDown(cfg, s, cfg.ncpu).cpuCount == s.cpuCount;
  }

  lemma CompetingIsEffective(cfg: Config, s: State, cpu: nat)
    requires cfg.Valid() && Sized(cfg, s) && cpu < cfg.ncpu
    ensures var t := PassDown(cfg, s, cpu + 1);
            ExtActive(t, cpu) == ExtActive(s, cpu) && Competing(cfg, t, cpu) == Effective(cfg, s, cpu)
  {
    var t := PassDown(cfg, s, cpu + 1);
    assert (t.pending + t.force) * t.mask[cpu] * ExtendedLines() == (s.pending + s.force) * s.mask[cpu] * ExtendedLines();
  }

  lemma PassStepOuts(cfg: Config, s: State, cpu: nat)
    requires cfg.Valid() && Sized(cfg, s) && cpu < cfg.ncpu
    ensures var outs, h := PassDown(cfg, s, cpu + 1).outs, Chosen(cfg, s, cpu);
            PassDown(cfg, s, cpu).outs == if cpu in outs then outs[cpu := Sent(outs[cpu], h)] else outs
  {
  }

  lemma PassStepCount(cfg: Config, s: State, cpu: nat)
    requires cfg.Valid() && Sized(cfg, s) && cpu < cfg.ncpu
    ensures var t, h := PassDown(cfg, s, cpu + 1), Chosen(cfg, s, cpu);
            PassDown(cfg, s, cpu).cpuCount ==
            if Counts(t.outs, cpu, h) then t.cpuCount[cpu := t.cpuCount[cpu] + 1] else t.cpuCount
  {
    var t, u, h := PassDown(cfg, s, cpu + 1), PassDown(cfg, s, cpu), Chosen(cfg, s, cpu);
    assert ReadOut(t.outs, cpu) == ReadOut(s.outs, cpu);
    forall c: nat | c < cfg.ncpu
      ensures u.cpuCount[c] == t.cpuCount[c] + (if c == cpu && Counts(s.outs, c, h) then 1 else 0)
    {
    }
  }

  /** The pass is the fold of its iterations, although each of them rewrites the pending bit
      that the next one reads. */
  lemma PassStep(cfg: Config, s: State, cpu: nat)
    requires cfg.Valid() && Sized(cfg, s) && cpu < cfg.ncpu
    ensures PassDown(cfg, s, cpu) == ServeCpu(cfg, PassDown(cfg, s, cpu + 1), cpu)
  {
    CompetingIsEffective(cfg, s, cpu);
    PassStepOuts(cfg, s, cpu);
    PassStepCount(cfg, s, cpu);
    PassStepPending(cfg, s, cpu);
    var t, u := PassDown(cfg, s, cpu + 1), PassDown(cfg, s, cpu);
    assert u == t.(pending := u.pending, outs := u.outs, cpuCount := u.cpuCount);
  }

  lemma PassStepPending(cfg: Config, s: State, cpu: nat)
    requires cfg.Valid() && Sized(cfg, s) && cpu < cfg.ncpu
    ensures var t := PassDown(cfg, s, cpu + 1);
            PassDown(cfg, s, cpu).pending ==
            if cfg.eirq != 0 then SetBit(t.pending, cfg.eirq, ExtActive(t, cpu)) else t.pending
  {
    CompetingIsEffective(cfg, s, cpu);
  }
}
