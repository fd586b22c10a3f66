/** What one pass of launch_irq delivers, and how fast repeated passes settle. */
module GicPass {
  import opened Words
  import opened GicState

  // ----- the priority rule, stated without a search

  predicate Outranks(level: Word, a: nat, b: nat) {
    if (a in level) == (b in level) then a > b else a in level
  }

  /** h is the line of `all` among 1..15 that no other one outranks, 0 if there is none. */
  ghost predicate IsTop(level: Word, all: Word, h: nat) {
    if h == 0 then all * PlainLines() == {}
    else h in all * PlainLines() && forall k :: k in all * PlainLines() && k != h ==> Outranks(level, h, k)
  }

  lemma PriorityIsTop(level: Word, all: Word, h: nat)
    ensures IsTop(level, all, h) <==> h == Priority(level, all)
  {
    var p := Priority(level, all);
    var h1, h0 := HighestUpTo(all * level, 15), HighestUpTo(all - level, 15);
    forall k | k in all * PlainLines()
      ensures p != 0 && (k != p ==> Outranks(level, p, k))
    {
      assert k in all * level || k in all - level;
    }
    if p != 0 {
      assert p in all * PlainLines();
    } else {
      assert all * PlainLines() == {};
    }
  }

  // ----- delivery

  /** No output is ever active with line 0, and an active line is 1..15. */
  ghost predicate OutputsSane(s: State) {
    forall c :: c in s.outs && s.outs[c].active ==> 1 <= s.outs[c].line <= 15
  }

  function Due(h: nat): Output {
    Output(h, h != 0)
  }

  /** After a pass every bound channel of a CPU shows that CPU's top line, whatever it held. */
  lemma PassDelivers(cfg: Config, s: State, c: nat, h: nat)
    requires cfg.Valid() && Sized(cfg, s) && OutputsSane(s)
    requires c < cfg.ncpu && c in s.outs
    ensures Pass(cfg, s).outs[c] == Due(h) <==> IsTop(s.level, Effective(cfg, s, c), h)
  {
    PriorityIsTop(s.level, Effective(cfg, s, c), h);
  }

  /** The hypothesis of PassDelivers is needed for exactly one output value. */
  lemma PassDeliversUnlessZeroActive(cfg: Config, s: State, c: nat)
    requires cfg.Valid() && Sized(cfg, s) && c < cfg.ncpu && c in s.outs
    ensures Pass(cfg, s).outs[c] == Due(Chosen(cfg, s, c))
            <==> !(s.outs[c] == Output(0, true) && Effective(cfg, s, c) * PlainLines() == {})
  {
    PriorityIsTop(s.level, Effective(cfg, s, c), Chosen(cfg, s, c));
    PriorityIsTop(s.level, Effective(cfg, s, c), 0);
  }

  // ----- settling

  /** Two states whose registers agree choose the same lines. */
  ghost predicate SameRegisters(s: State, t: State) {
    && s.level == t.level && s.pending == t.pending && s.force == t.force
    && s.mask == t.mask && s.procForce == t.procForce
  }

  /** A pass rewrites at most the bit of the extended interrupt, and no extended line. */
  lemma PassKeepsExtended(cfg: Config, s: State, c: nat)
    requires cfg.Valid() && Sized(cfg, s) && c < cfg.ncpu
    ensures ExtActive(Pass(cfg, s), c) == ExtActive(s, c)
  {
    var t := Pass(cfg, s);
    assert (t.pending + t.force) * t.mask[c] * ExtendedLines()
        == (s.pending + s.force) * s.mask[c] * ExtendedLines();
  }

  /** Every CPU below the last one competes over the same lines in the next pass. */
  lemma PassKeepsEffective(cfg: Config, s: State, c: nat)
    requires cfg.Valid() && Sized(cfg, s) && c < cfg.ncpu
    requires cfg.eirq == 0 || c + 1 < cfg.ncpu
    ensures Effective(cfg, Pass(cfg, s), c) == Effective(cfg, s, c)
  {
    var t := Pass(cfg, s);
    PassKeepsExtended(cfg, s, c);
    if cfg.eirq != 0 {
      PassKeepsExtended(cfg, s, c + 1);
      assert SetBit(t.pending, cfg.eirq, ExtActive(t, c + 1)) == SetBit(s.pending, cfg.eirq, ExtActive(s, c + 1));
    }
  }

  /** From the second pass on the pending register no longer moves. */
  lemma SecondPassKeepsRegisters(cfg: Config, s: State)
    requires cfg.Valid() && Sized(cfg, s)
    ensures SameRegisters(Pass(cfg, Pass(cfg, s)), Pass(cfg, s))
  {
    var t := Pass(cfg, s);
    if cfg.ncpu != 0 && cfg.eirq != 0 {
      PassKeepsExtended(cfg, s, 0);
    }
  }

  lemma SameRegistersSameChoice(cfg: Config, s: State, t: State, c: nat)
    requires cfg.Valid() && Sized(cfg, s) && Sized(cfg, t) && c < cfg.ncpu
    requires SameRegisters(s, t)
    ensures Chosen(cfg, s, c) == Chosen(cfg, t, c)
  {
    assert Effective(cfg, s, c) == Effective(cfg, t, c);
  }

  /** An interrupt chosen for a CPU whose channel is not bound is counted in every pass,
      because the unbound channel always reads as (0, false). */
  ghost predicate AllChosenAreBound(cfg: Config, s: State)
    requires cfg.Valid() && Sized(cfg, s)
  {
    forall c :: 0 <= c < cfg.ncpu && Chosen(cfg, s, c) != 0 ==> c in s.outs
  }

  /** If a state chooses what the pass before it chose and keeps the pending register,
      the next pass changes nothing, exactly when all chosen lines have a bound channel. */
  lemma RepeatIsIdle(cfg: Config, s: State)
    requires cfg.Valid() && Sized(cfg, s)
    requires Pass(cfg, Pass(cfg, s)).pending == Pass(cfg, s).pending
    requires forall c: nat :: c < cfg.ncpu ==> Chosen(cfg, Pass(cfg, s), c) == Chosen(cfg, s, c)
    ensures Pass(cfg, Pass(cfg, s)) == Pass(cfg, s) <==> AllChosenAreBound(cfg, s)
  {
    var t := Pass(cfg, s);
    var u := Pass(cfg, t);
    assert u.outs == t.outs;
    forall c: nat | c < cfg.ncpu
      ensures u.cpuCount[c] == t.cpuCount[c] <==> (Chosen(cfg, s, c) == 0 || c in s.outs)
    {
      CountedAgain(cfg, s, c);
    }
    if AllChosenAreBound(cfg, s) {
      assert u.cpuCount == t.cpuCount;
    }
  }

  lemma CountedAgain(cfg: Config, s: State, c: nat)
    requires cfg.Valid() && Sized(cfg, s) && c < cfg.ncpu
    requires Chosen(cfg, Pass(cfg, s), c) == Chosen(cfg, s, c)
    ensures Pass(cfg, Pass(cfg, s)).cpuCount[c] == Pass(cfg, s).cpuCount[c]
            <==> (Chosen(cfg, s, c) == 0 || c in s.outs)
  {
  }

  /** With any configuration the third pass in a row changes nothing. */
  lemma SettlesAfterTwo(cfg: Config, s: State)
    requires cfg.Valid() && Sized(cfg, s)
    ensures Pass(cfg, Pass(cfg, Pass(cfg, s))) == Pass(cfg, Pass(cfg, s))
            <==> AllChosenAreBound(cfg, Pass(cfg, s))
  {
    var t := Pass(cfg, s);
    var u := Pass(cfg, t);
    SecondPassKeepsRegisters(cfg, s);
    SecondPassKeepsRegisters(cfg, t);
    forall c: nat | c < cfg.ncpu ensures Chosen(cfg, u, c) == Chosen(cfg, t, c) {
      SameRegistersSameChoice(cfg, u, t, c);
    }
    RepeatIsIdle(cfg, t);
  }

  lemma PassDeliversChosen(cfg: Config, s: State, c: nat)
    requires cfg.Valid() && Sized(cfg, s) && OutputsSane(s)
    requires c < cfg.ncpu && c in s.outs
    ensures Pass(cfg, s).outs[c] == Due(Chosen(cfg, s, c))
  {
    PriorityIsTop(s.level, Effective(cfg, s, c), Chosen(cfg, s, c));
    PassDelivers(cfg, s, c, Chosen(cfg, s, c));
  }

  lemma NewChoiceShows(cfg: Config, s: State, c: nat)
    requires cfg.Valid() && Sized(cfg, s) && OutputsSane(s) && c < cfg.ncpu && c in s.outs
    requires Chosen(cfg, Pass(cfg, s), c) != Chosen(cfg, s, c)
    ensures Pass(cfg, Pass(cfg, s)).outs[c] != Pass(cfg, s).outs[c]
    ensures Pass(cfg, Pass(cfg, s)) != Pass(cfg, s)
  {
    PassDeliversChosen(cfg, s, c);
  }

  // ----- the last CPU

  /** The extended interrupt e would win for a CPU if it were pending, and nothing but the
      pending register raises it there. */
  ghost predicate WinsIfPending(cfg: Config, s: State, c: nat)
    requires cfg.Valid() && Sized(cfg, s) && c < cfg.ncpu
  {
    var e := cfg.eirq;
    && e in s.mask[c] && e !in s.force && e !in s.procForce[c] && !ExtActive(s, c)
    && forall k :: k in Effective(cfg, s, c) * PlainLines() && k != e ==> Outranks(s.level, e, k)
  }

  /** The last CPU is served first, with the pending bit of the extended interrupt as it was
      found; the bit the pass leaves is the one that CPU 0 asks for. */
  ghost predicate LastMoves(cfg: Config, s: State)
    requires cfg.Valid() && Sized(cfg, s)
  {
    && cfg.ncpu != 0 && cfg.eirq != 0
    && (cfg.eirq in s.pending) != ExtActive(s, 0)
    && WinsIfPending(cfg, s, cfg.ncpu - 1)
  }

  /** One more line changes the choice exactly when it outranks all others. */
  lemma PriorityOfOneMore(level: Word, all: Word, e: nat)
    requires e !in all && 1 <= e <= 15
    ensures Priority(level, all + {e}) != Priority(level, all)
            <==> forall k :: k in all * PlainLines() ==> Outranks(level, e, k)
  {
    var p, more := Priority(level, all), all + {e};
    PriorityIsTop(level, all, p);
    PriorityIsTop(level, more, p);
    PriorityIsTop(level, more, e);
    assert more * PlainLines() == all * PlainLines() + {e};
    if p == 0 {
      assert e in more * PlainLines();
    }
  }

  /** The lines of the last CPU before and after a pass differ at most in the extended
      interrupt. */
  lemma LastCompetes(cfg: Config, s: State)
    requires cfg.Valid() && Sized(cfg, s) && cfg.ncpu != 0 && cfg.eirq != 0
    ensures var e, c, t := cfg.eirq, cfg.ncpu - 1, Pass(cfg, s);
            var others := Effective(cfg, s, c) - {e};
            var always := e in s.force * s.mask[c] || ExtActive(s, c) || e in s.procForce[c];
            && Effective(cfg, t, c) - {e} == others
            && (e in Effective(cfg, s, c) <==> always || e in s.pending * s.mask[c])
            && (e in Effective(cfg, t, c) <==> always || (ExtActive(s, 0) && e in s.mask[c]))
  {
    PassKeepsExtended(cfg, s, cfg.ncpu - 1);
  }

  lemma WithOrWithout(w: Word, e: nat)
    ensures e in w ==> w == (w - {e}) + {e}
    ensures e !in w ==> w == w - {e}
  {
  }

  /** The second pass chooses another line for the last CPU exactly when the registers say so. */
  lemma LastChoiceMovesExactlyWhen(cfg: Config, s: State)
    requires cfg.Valid() && Sized(cfg, s) && cfg.ncpu != 0
    ensures Chosen(cfg, Pass(cfg, s), cfg.ncpu - 1) != Chosen(cfg, s, cfg.ncpu - 1) <==> LastMoves(cfg, s)
  {
    var e, c, t := cfg.eirq, cfg.ncpu - 1, Pass(cfg, s);
    if e == 0 {
      PassKeepsEffective(cfg, s, c);
    } else {
      LastCompetes(cfg, s);
      var was, now := Effective(cfg, s, c), Effective(cfg, t, c);
      var others := was - {e};
      WithOrWithout(was, e);
      WithOrWithout(now, e);
      PriorityOfOneMore(s.level, others, e);
      assert others * PlainLines() == was * PlainLines() - {e};
    }
  }

  /** In the second pass only the last CPU can choose another line. */
  lemma ChoiceMovesExactlyWhen(cfg: Config, s: State, c: nat)
    requires cfg.Valid() && Sized(cfg, s) && c < cfg.ncpu
    ensures Chosen(cfg, Pass(cfg, s), c) != Chosen(cfg, s, c) <==> c == cfg.ncpu - 1 && LastMoves(cfg, s)
  {
    if c == cfg.ncpu - 1 {
      LastChoiceMovesExactlyWhen(cfg, s);
    } else {
      PassKeepsEffective(cfg, s, c);
    }
  }

  /** Unless the last CPU moves, a second pass changes nothing exactly when all chosen lines
      have a bound channel. */
  lemma SettlesUnlessLastMoves(cfg: Config, s: State)
    requires cfg.Valid() && Sized(cfg, s) && !LastMoves(cfg, s)
    ensures Pass(cfg, Pass(cfg, s)) == Pass(cfg, s) <==> AllChosenAreBound(cfg, s)
  {
    SecondPassKeepsRegisters(cfg, s);
    forall c: nat | c < cfg.ncpu ensures Chosen(cfg, Pass(cfg, s), c) == Chosen(cfg, s, c) {
      ChoiceMovesExactlyWhen(cfg, s, c);
    }
    RepeatIsIdle(cfg, s);
  }

  /** Without an extended interrupt the second pass in a row changes nothing. */
  lemma SettlesAfterOne(cfg: Config, s: State)
    requires cfg.Valid() && Sized(cfg, s) && cfg.eirq == 0
    ensures Pass(cfg, Pass(cfg, s)) == Pass(cfg, s) <==> AllChosenAreBound(cfg, s)
  {
    SettlesUnlessLastMoves(cfg, s);
  }

  /** With all outputs bound, a second pass changes nothing exactly when the registers do not
      make the last CPU move. */
  lemma SettlesAfterOneExactlyWhen(cfg: Config, s: State)
    requires cfg.Valid() && Sized(cfg, s) && OutputsSane(s)
    requires forall c :: 0 <= c < cfg.ncpu ==> c in s.outs
    ensures Pass(cfg, Pass(cfg, s)) == Pass(cfg, s) <==> !LastMoves(cfg, s)
  {
    if LastMoves(cfg, s) {
      MovingLastShows(cfg, s);
    } else {
      SettlesUnlessLastMoves(cfg, s);
    }
  }

  lemma MovingLastShows(cfg: Config, s: State)
    requires cfg.Valid() && Sized(cfg, s) && OutputsSane(s) && LastMoves(cfg, s) && cfg.ncpu - 1 in s.outs
    ensures Pass(cfg, Pass(cfg, s)) != Pass(cfg, s)
  {
    LastChoiceMovesExactlyWhen(cfg, s);
    NewChoiceShows(cfg, s, cfg.ncpu - 1);
  }

  /** One CPU, extended interrupt 1, and its pending bit left set with no extended line
      pending: the first pass still sends line 1, only the second withdraws it. */
  lemma OnePassIsNotEnough() returns (cfg: Config, s: State)
    ensures cfg.Valid() && Sized(cfg, s) && OutputsSane(s)
    ensures forall c :: 0 <= c < cfg.ncpu ==> c in s.outs
    ensures Pass(cfg, Pass(cfg, s)) != Pass(cfg, s)
  {
    cfg := Config(1, 1);
    s := State({}, {1}, {}, {}, {}, [{1}], [{}], [{}], [{}], map[0 := IDLE], false, seq(32, _ => 0), [0]);
    assert 0 in s.outs;
    forall c | 0 <= c < cfg.ncpu ensures c in s.outs { assert c == 0; }
    StaleBitShowsOnce(cfg, s);
  }

  lemma StaleBitShowsOnce(cfg: Config, s: State)
    requires cfg == Config(1, 1) && Sized(cfg, s) && OutputsSane(s) && 0 in s.outs
    requires s.pending == {1} == s.mask[0] && s.force == {} == s.procForce[0]
    ensures Pass(cfg, Pass(cfg, s)) != Pass(cfg, s)
  {
    assert (s.pending + s.force) * s.mask[0] == {1} && 1 !in ExtendedLines();
    assert !ExtActive(s, 0);
    ChosenWhenOnly(cfg, s);
    var t := Pass(cfg, s);
    assert t.pending == {};
    assert Effective(cfg, t, 0) == {};
    NewChoiceShows(cfg, s, 0);
  }

  lemma ChosenWhenOnly(cfg: Config, s: State)
    requires cfg.Valid() && Sized(cfg, s) && cfg.ncpu == 1
    requires 1 in s.pending * s.mask[0]
    ensures Chosen(cfg, s, 0) != 0
  {
    assert 1 in Effective(cfg, s, 0) * PlainLines();
    PriorityIsTop(s.level, Effective(cfg, s, 0), 0);
  }

  /** A CPU whose channel is not bound: the same interrupt is counted again in every pass. */
  lemma UnboundIsCountedAgain() returns (cfg: Config, s: State)
    ensures cfg.Valid() && Sized(cfg, s) && cfg == Config(1, 0) && s.outs == map[]
    ensures Pass(cfg, Pass(cfg, s)).cpuCount[0] == Pass(cfg, s).cpuCount[0] + 1
    ensures Pass(cfg, Pass(cfg, s)) != Pass(cfg, s)
  {
    cfg := Config(1, 0);
    s := State({}, {1}, {}, {}, {}, [{1}], [{}], [{}], [{}], map[], false, seq(32, _ => 0), [0]);
    ChosenWhenOnly(cfg, s);
    PassKeepsEffective(cfg, s, 0);
  }
}
