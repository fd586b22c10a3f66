/** The interrupt controller of arm/gic as a value: registers, shadow copies, outputs,
    wake-up flag and counters, and every handler as a function from state to state.
    The functions are closed forms: where the C++ runs a loop, a set or a sequence is
    given outright.  Class ArmGic runs the loops and is proved to compute these.
*/
module GicState {
  import opened Words

  datatype Config = Config(ncpu: nat, eirq: nat) {
    ghost predicate Valid() {
      ncpu <= 16 && eirq <= 15
    }
  }

  datatype Output = Output(line: nat, active: bool)

  const IDLE := Output(0, false)

  /** Contents of the registers, masks as in gic.h. */
  function PlainLines(): Word { Range(1, 16) }          // 0x0000FFFE
  function ExtendedLines(): Word { Range(16, 32) }      // 0xFFFF0000
  function MaskDefault(): Word { Range(1, 32) }         // 0xFFFFFFFE

  datatype State = State(
    level: Word, pending: Word, force: Word, clear: Word, broadcast: Word,
    mask: seq<Word>, procForce: seq<Word>, extId: seq<Word>,
    shadow: seq<Word>,                  // forcereg[]
    outs: map<nat, Output>,             // irq_req: the bound channels and their values
    event: bool,                        // e_signal has been notified and has not fired
    irqCount: seq<nat>, cpuCount: seq<nat>)

  /** The registers a bus master can write. */
  datatype Reg =
    | Level | Pending | Force | Clear | Broadcast
    | Mask(cpu: nat) | ProcForce(cpu: nat) | ExtId(cpu: nat)

  ghost predicate ValidReg(cfg: Config, reg: Reg) {
    match reg
    case Mask(cpu) => cpu < cfg.ncpu
    case ProcForce(cpu) => cpu < cfg.ncpu
    case ExtId(cpu) => cpu < cfg.ncpu
    case _ => true
  }

  function Offset(reg: Reg): nat {
    match reg
    case Level => 0x00
    case Pending => 0x04
    case Force => 0x08
    case Clear => 0x0C
    case Broadcast => 0x14
    case Mask(cpu) => 0x40 + 0x4 * cpu
    case ProcForce(cpu) => 0x80 + 0x4 * cpu
    case ExtId(cpu) => 0xC0 + 0x4 * cpu
  }

  function WriteMask(reg: Reg): Word {
    match reg
    case Level => PlainLines()
    case Pending => ExtendedLines() + PlainLines()
    case Force => PlainLines()
    case Clear => Range(1, 32)
    case Broadcast => PlainLines()
    case Mask(_) => ExtendedLines() + PlainLines()
    case ProcForce(_) => Range(17, 32) + PlainLines()
    case ExtId(_) => Range(0, 5)
  }

  /** Offsets of registers that are not modelled: the multiprocessor status register and the
      three registers pinned to 0. */
  const OTHER_OFFSETS: set<nat> := {0x10, 0x20, 0x24, 0x28}

  /** With at most sixteen CPUs the per-CPU blocks do not run into each other; with seventeen
      they would. */
  lemma OffsetsAreDistinct(cfg: Config, a: Reg, b: Reg)
    requires cfg.Valid() && ValidReg(cfg, a) && ValidReg(cfg, b)
    ensures Offset(a) == Offset(b) <==> a == b
    ensures Offset(a) !in OTHER_OFFSETS
  {
  }

  // ----- sizes

  ghost predicate Sized(cfg: Config, s: State) {
    && |s.mask| == |s.procForce| == |s.extId| == |s.shadow| == |s.cpuCount| == cfg.ncpu
    && |s.irqCount| == 32
  }

  function Initial(cfg: Config, channels: set<nat>): State {
    State({}, {}, {}, {}, {},
          seq(cfg.ncpu, _ => MaskDefault()), seq(cfg.ncpu, _ => {}), seq(cfg.ncpu, _ => {}),
          seq(cfg.ncpu, _ => {}),
          map c | c in channels :: IDLE,
          false,
          seq(32, _ => 0), seq(cfg.ncpu, _ => 0))
  }

  // ----- outputs

  /** `irq_req.read(c)`: an unbound channel reads as the default value. */
  function ReadOut(outs: map<nat, Output>, c: nat): Output {
    if c in outs then outs[c] else IDLE
  }

  /** `irq_req.write(~0, o)` */
  function WriteAll(outs: map<nat, Output>, o: Output): map<nat, Output> {
    map c | c in outs :: o
  }

  /** The lowest line 1..15 of w, or 0. */
  function LowestFrom(w: set<nat>, i: nat): (l: nat)
    requires 1 <= i <= 16
    ensures l == 0 <==> forall k :: i <= k < 16 ==> k !in w
    ensures l != 0 ==> i <= l < 16 && l in w && forall k :: i <= k < l ==> k !in w
    decreases 16 - i
  {
    if i == 16 then 0 else if i in w then i else LowestFrom(w, i + 1)
  }

  // ----- incomming_irq

  function Broadcasted(s: State, lines: Word): Word {
    set l | l in lines && l + 1 in s.broadcast
  }

  function AddToAll(regs: seq<Word>, lines: Word): (r: seq<Word>)
    ensures |r| == |regs| && forall c :: 0 <= c < |r| ==> r[c] == regs[c] + lines
  {
    seq(|regs|, c requires 0 <= c < |regs| => regs[c] + lines)
  }

  function Incoming(s: State, lines: Word, active: bool): State {
    if !active then s else
      var forced := Broadcasted(s, lines) * Range(0, 16);
      s.(irqCount := seq(|s.irqCount|, l requires 0 <= l < |s.irqCount| =>
                          s.irqCount[l] + (if l in lines then 1 else 0)),
         pending := s.pending + (lines - Broadcasted(s, lines)),
         procForce := AddToAll(s.procForce, forced),
         shadow := AddToAll(s.shadow, forced),
         event := true)
  }

  // ----- acknowledged_irq

  /** The line named by an extended-interrupt identification register. */
  function ExtLine(id: Word): (l: nat)
    ensures l < 32
  {
    assert Pow2(5) == 32;
    NumberUpTo(id, 5)
  }

  /** The extended lines that the identification registers of CPUs 0..n-1 name. */
  function NamedLines(cfg: Config, s: State, n: nat): (r: Word)
    requires n <= |s.extId|
    ensures cfg.eirq == 0 ==> r == {}
    ensures forall l :: l in r <==>
              cfg.eirq != 0 && exists c: nat :: c < n && s.extId[c] != {} && ExtLine(s.extId[c]) == l
  {
    if n == 0 then {}
    else NamedLines(cfg, s, n - 1) +
         (if cfg.eirq != 0 && s.extId[n - 1] != {} then {ExtLine(s.extId[n - 1])} else {})
  }

  function Acknowledge(cfg: Config, s: State, irq: nat, cpu: nat): State
    requires Sized(cfg, s) && cpu < cfg.ncpu && irq < 32
  {
    var named := if cfg.eirq != 0 && s.extId[cpu] != {} then {ExtLine(s.extId[cpu])} else {};
    s.(pending := s.pending - named - {irq},
       force := s.force - {irq},
       procForce := s.procForce[cpu := s.procForce[cpu] - {irq}],
       shadow := s.shadow[cpu := (s.shadow[cpu] - {irq}) * PlainLines()],
       extId := s.extId[cpu := {}],
       outs := WriteAll(s.outs, Output(irq, false)),
       event := true)
  }

  // ----- clear_write and force_write, the callbacks that change state

  /** The first loop of clear_write over CPUs 0..n-1. */
  function ClearNamed(cfg: Config, s: State, n: nat): State
    requires Sized(cfg, s) && n <= cfg.ncpu
  {
    s.(pending := s.pending - NamedLines(cfg, s, n),
       extId := if cfg.eirq == 0 then s.extId
                else seq(cfg.ncpu, c requires 0 <= c < cfg.ncpu => if c < n then {} else s.extId[c]))
  }

  /** The outputs after clear_write: the lowest cleared line stays, else the extended one. */
  function ClearOutputs(cfg: Config, outs: map<nat, Output>, clear: Word, released: bool): map<nat, Output> {
    var low := LowestFrom(clear, 1);
    if low != 0 then WriteAll(outs, Output(low, false))
    else if released || clear * ExtendedLines() != {} then WriteAll(outs, Output(cfg.eirq, false))
    else outs
  }

  function ClearWrite(cfg: Config, s: State): State
    requires Sized(cfg, s)
  {
    var t := ClearNamed(cfg, s, cfg.ncpu);
    t.(pending := t.pending - s.clear, force := s.force - s.clear, clear := {},
       outs := ClearOutputs(cfg, s.outs, s.clear, NamedLines(cfg, s, cfg.ncpu) != {}), event := true)
  }

  /** The new value of one CPU's force register and shadow: `forcereg |= reg`, then the bits
      whose upper-half twin is set are cleared and only bits 1..15 are kept. */
  function Forced(shadow: Word, reg: Word): Word {
    var all := shadow + reg;
    (all - Shr(all, 16)) * PlainLines()
  }

  /** The last of the lines whose clear bit is set in a force register, scanning CPUs upwards
      and, for each of them, lines downwards: the value left on the outputs. */
  function LastCleared(s: State, n: nat): (l: nat)
    requires n <= |s.procForce|
    ensures l < 16
  {
    if n == 0 then 0
    else
      var low := LowestFrom(Shr(s.procForce[n - 1], 16), 1);
      if low != 0 then low else LastCleared(s, n - 1)
  }

  /** force_write after it has gone through CPUs 0..n-1. */
  function ForceUpTo(cfg: Config, s: State, n: nat): State
    requires Sized(cfg, s) && n <= cfg.ncpu
  {
    var last := LastCleared(s, n);
    s.(procForce := seq(cfg.ncpu, c requires 0 <= c < cfg.ncpu =>
                         if c < n then Forced(s.shadow[c], s.procForce[c]) else s.procForce[c]),
       shadow := seq(cfg.ncpu, c requires 0 <= c < cfg.ncpu =>
                      if c < n then Forced(s.shadow[c], s.procForce[c]) else s.shadow[c]),
       pending := s.pending - NamedLines(cfg, s, n),
       outs := if last != 0 then WriteAll(s.outs, Output(last, false)) else s.outs)
  }

  function ForceWrite(cfg: Config, s: State): State
    requires Sized(cfg, s)
  {
    ForceUpTo(cfg, s, cfg.ncpu).(event := true)
  }

  // ----- bus writes: the masked value is stored, then the register's callback runs

  function Write(cfg: Config, s: State, reg: Reg, value: Word): State
    requires Sized(cfg, s) && ValidReg(cfg, reg)
  {
    var w := value * WriteMask(reg);
    match reg
    case Level => s.(level := w)
    case Pending => s.(pending := w, event := true)
    case Force => s.(force := w, event := true)
    case Clear => ClearWrite(cfg, s.(clear := w))
    case Broadcast => s.(broadcast := w)
    case Mask(cpu) => s.(mask := s.mask[cpu := w], event := true)
    case ProcForce(cpu) => ForceWrite(cfg, s.(procForce := s.procForce[cpu := w]))
    case ExtId(cpu) => s.(extId := s.extId[cpu := w])
  }

  // ----- dorst

  function Reset(cfg: Config, s: State): State {
    s.(level := {}, pending := {}, clear := {}, broadcast := {},
       force := if cfg.ncpu == 0 then {} else s.force,
       mask := seq(cfg.ncpu, _ => MaskDefault()),
       procForce := seq(cfg.ncpu, _ => {}),
       extId := seq(cfg.ncpu, _ => {}),
       shadow := seq(cfg.ncpu, _ => {}))
  }

  // ----- launch_irq

  /** The greatest line 1..15 of w, or 0: `for (high = 15; high > 0; high--)`. */
  function HighestUpTo(w: set<nat>, i: nat): (h: nat)
    requires i <= 15
    ensures h == 0 <==> forall k :: 1 <= k <= i ==> k !in w
    ensures h != 0 ==> 1 <= h <= i && h in w && forall k :: h < k <= i ==> k !in w
  {
    if i == 0 then 0 else if i in w then i else HighestUpTo(w, i - 1)
  }

  /** Level-1 lines first, then level-0 lines. */
  function Priority(level: Word, all: Word): (h: nat)
    ensures h <= 15
  {
    var h := HighestUpTo(all * level, 15);
    if h != 0 then h else HighestUpTo(all - level, 15)
  }

  /** An extended interrupt is pending for this CPU. */
  predicate ExtActive(s: State, c: nat)
    requires c < |s.mask|
  {
    (s.pending + s.force) * s.mask[c] * ExtendedLines() != {}
  }

  /** The pending register as CPU k-1 finds it: CPU k, served just before, has rewritten
      the bit of the extended interrupt.  k == 0 gives the register after the pass. */
  function PendingSeen(cfg: Config, s: State, k: nat): Word
    requires cfg.Valid() && Sized(cfg, s) && k <= cfg.ncpu
  {
    if k == cfg.ncpu || cfg.eirq == 0 then s.pending
    else SetBit(s.pending, cfg.eirq, ExtActive(s, k))
  }

  /** `eirq_en << g_eirq` */
  function EirqBit(cfg: Config, s: State, c: nat): Word
    requires cfg.Valid() && c < |s.mask|
  {
    if cfg.eirq != 0 && ExtActive(s, c) then {cfg.eirq} else {}
  }

  /** The lines that compete for CPU c during a pass that starts in s. */
  function Effective(cfg: Config, s: State, c: nat): Word
    requires cfg.Valid() && Sized(cfg, s) && c < cfg.ncpu
  {
    (PendingSeen(cfg, s, c + 1) + s.force) * s.mask[c] + EirqBit(cfg, s, c)
    + s.procForce[c] * PlainLines()
  }

  /** The line a pass that starts in s selects for CPU c. */
  function Chosen(cfg: Config, s: State, c: nat): (h: nat)
    requires cfg.Valid() && Sized(cfg, s) && c < cfg.ncpu
    ensures h <= 15
  {
    Priority(s.level, Effective(cfg, s, c))
  }

  function Sent(was: Output, h: nat): Output {
    if h != 0 then Output(h, true) else if was.line != 0 then IDLE else was
  }

  /** A pass that starts in s, after it has served the CPUs from k upwards. */
  function PassDown(cfg: Config, s: State, k: nat): State
    requires cfg.Valid() && Sized(cfg, s) && k <= cfg.ncpu
  {
    s.(pending := PendingSeen(cfg, s, k),
       outs := map c | c in s.outs ::
                 if k <= c < cfg.ncpu then Sent(s.outs[c], Chosen(cfg, s, c)) else s.outs[c],
       cpuCount := seq(cfg.ncpu, c requires 0 <= c < cfg.ncpu =>
                        s.cpuCount[c] + (if k <= c && Counts(s.outs, c, Chosen(cfg, s, c)) then 1 else 0)))
  }

  /** The line is sent because it differs from what the channel reads. */
  predicate Counts(outs: map<nat, Output>, c: nat, h: nat) {
    h != 0 && ReadOut(outs, c) != Output(h, true)
  }

  /** One pass of the body of launch_irq over all CPUs, from the last one down. */
  function Pass(cfg: Config, s: State): State
    requires cfg.Valid() && Sized(cfg, s)
  {
    PassDown(cfg, s, 0)
  }

  // ----- runs

  datatype Step =
    | IncomingIrq(lines: Word, active: bool)
    | BusWrite(reg: Reg, value: Word)
    | Ack(irq: nat, cpu: nat)
    | ResetStep
    | Launch

  ghost predicate ValidStep(cfg: Config, t: Step) {
    match t
    case BusWrite(reg, _) => ValidReg(cfg, reg)
    case Ack(irq, cpu) => irq < 32 && cpu < cfg.ncpu
    case _ => true
  }

  /** Launch stands for the firing of the event; without a pending event nothing happens. */
  function Next(cfg: Config, s: State, t: Step): (s': State)
    requires cfg.Valid() && Sized(cfg, s) && ValidStep(cfg, t)
    ensures Sized(cfg, s')
  {
    match t
    case IncomingIrq(lines, active) => Incoming(s, lines, active)
    case BusWrite(reg, value) => Write(cfg, s, reg, value)
    case Ack(irq, cpu) => Acknowledge(cfg, s, irq, cpu)
    case ResetStep => Reset(cfg, s)
    case Launch => if s.event then Pass(cfg, s.(event := false)) else s
  }

  ghost predicate ValidRun(cfg: Config, ts: seq<Step>) {
    forall i :: 0 <= i < |ts| ==> ValidStep(cfg, ts[i])
  }

  function Run(cfg: Config, s: State, ts: seq<Step>): (s': State)
    requires cfg.Valid() && Sized(cfg, s) && ValidRun(cfg, ts)
    ensures Sized(cfg, s')
  {
    if ts == [] then s
    else Next(cfg, Run(cfg, s, ts[..|ts| - 1]), ts[|ts| - 1])
  }
}
