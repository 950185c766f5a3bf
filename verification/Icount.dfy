/** Instruction counting (cpus.c, cpu-exec.c): budgets are granted up front,
    handed out in 16-bit portions and folded back, and the virtual clock is the
    executed count scaled by a power of two. Counters are unbounded here. */
module Icount {
  import opened Pages
  import opened Radix

  const MAX_ICOUNT_SHIFT: nat := 10
  const INT32_MAX: int := 0x7fff_ffff

  /** `qemu_icount_round`: `(count + (1 << shift) - 1) >> shift` */
  function Round(count: nat, shift: nat): (r: nat) {
    Quotient(count + Pow2(shift) - 1, Pow2(shift))
  }

  /** `cpu_icount_to_ns` */
  function ToNs(icount: int, shift: nat): (r: int) {
    icount * Pow2(shift)
  }

  /** Rounding grants the least number of instructions that reaches the deadline. */
  lemma RoundReaches(count: nat, shift: nat)
    ensures count <= ToNs(Round(count, shift), shift) < count + Pow2(shift)
    ensures forall n: nat | ToNs(n, shift) >= count :: n >= Round(count, shift)
  {
    var s, r := Pow2(shift), Round(count, shift);
    forall n: nat | ToNs(n, shift) >= count
      ensures n >= r
    {
      if n < r {
        MulStep(n, r, s);
      }
    }
  }

  /** `deadline < 0 || deadline > INT32_MAX` means `INT32_MAX`. */
  function Clamp(deadline: int): (r: nat)
    ensures r <= INT32_MAX
  {
    if deadline < 0 || deadline > INT32_MAX then INT32_MAX else deadline
  }

  class VirtualClock {
    var qemuIcount: int
    var bias: int
    var shift: nat
    var lastDelta: int
    var low: nat     // icount_decr.u16.low
    var extra: nat   // icount_extra
    ghost var executed: int

    /** Instructions granted but not executed. */
    function Outstanding(): (r: nat)
      reads this
    {
      low + extra
    }

    /** Conservation: what was counted and is not outstanding was executed. */
    ghost predicate Valid()
      reads this
    {
      && qemuIcount - Outstanding() == executed
      && low <= 0xffff && shift <= MAX_ICOUNT_SHIFT
    }

    /** `cpu_get_icount_raw`; `inCpu` tells whether a vCPU runs in this thread. */
    function Raw(inCpu: bool): (r: int)
      reads this
    {
      if inCpu then qemuIcount - Outstanding() else qemuIcount
    }

    /** `cpu_get_icount_locked`: virtual time in nanoseconds. */
    function Time(inCpu: bool): (r: int)
      reads this
    {
      bias + ToNs(Raw(inCpu), shift)
    }

    constructor (shift: nat)
      requires shift <= MAX_ICOUNT_SHIFT
      ensures Valid() && executed == 0 && this.shift == shift && bias == 0 && lastDelta == 0
      ensures Time(true) == Time(false) == 0
    {
      qemuIcount, bias, lastDelta, low, extra, executed := 0, 0, 0, 0, 0, 0;
      this.shift := shift;
    }

    /** `tcg_cpu_exec` before `cpu_exec`: returns an old budget, grants a new one. */
    method Grant(deadline: int)
      requires Valid()
      modifies this`qemuIcount, this`low, this`extra
      ensures Valid()
      ensures Outstanding() == Round(Clamp(deadline), shift)
      ensures Clamp(deadline) <= ToNs(Outstanding(), shift) < Clamp(deadline) + Pow2(shift)
      ensures Time(true) == old(Time(true))
    {
      qemuIcount := qemuIcount - (low + extra);
      low, extra := 0, 0;
      var count := Round(Clamp(deadline), shift);
      qemuIcount := qemuIcount + count;
      var decr := if count > 0xffff then 0xffff else count;
      count := count - decr;
      low, extra := decr, count;
      RoundReaches(Clamp(deadline), shift);
    }

    /** A translation block of `n` instructions within the current portion. */
    method Execute(n: nat)
      requires Valid() && n <= low
      modifies this`low, this`executed
      ensures Valid() && executed == old(executed) + n && Outstanding() == old(Outstanding()) - n
      ensures Time(true) == old(Time(true)) + ToNs(n, shift)
    {
      low := low - n;
      executed := executed + n;
      TimePasses(old(qemuIcount - Outstanding()), n, Pow2(shift));
    }

    /** The `TB_EXIT_ICOUNT_EXPIRED` case of `cpu_exec`: `true` if execution goes on,
        otherwise the instructions left in the portion are run on their own and the
        loop is left. `irq` is the interrupt flag in the upper half of the
        decrementer, which makes it negative. */
    method Expired(irq: bool) returns (continues: bool)
      requires Valid()
      modifies this`low, this`extra, this`executed
      ensures Valid()
      ensures continues <==> old(extra) > 0 && !irq
      ensures continues ==> Outstanding() == old(Outstanding()) && low == Min(0xffff, old(Outstanding())) && low > 0
      ensures !continues && irq ==> low == old(low) && extra == old(extra)
      ensures !continues && !irq ==> Outstanding() == 0
      ensures Time(true) == old(Time(true)) + ToNs(old(Outstanding()) - Outstanding(), shift)
      ensures executed == old(executed) + old(Outstanding()) - Outstanding()
    {
      var insnsLeft := if irq then low - 0x1_0000 else low as int;
      if extra != 0 && insnsLeft >= 0 {
        extra := extra + insnsLeft;
        insnsLeft := Min(0xffff, extra);
        extra := extra - insnsLeft;
        low := insnsLeft;
        return true;
      }
      if insnsLeft > 0 {
        Execute(insnsLeft);
      }
      return false;
    }

    /** `tcg_cpu_exec` after `cpu_exec`: folds the rest of the budget back. */
    method FoldBack()
      requires Valid()
      modifies this`qemuIcount, this`low, this`extra
      ensures Valid() && Outstanding() == 0 && qemuIcount == executed
      ensures Time(true) == old(Time(true)) == Time(false)
    {
      qemuIcount := qemuIcount - (low + extra);
      low, extra := 0, 0;
    }

    /** `icount_adjust`: `now` is the host clock, `wobble` the tolerance. The time
        read in the adjusting thread is kept exactly if nothing is outstanding
        there; the vCPU's own time, if another thread adjusts, is kept exactly if
        nothing is outstanding or the shift stays. */
    method Adjust(running: bool, now: int, wobble: nat, inCpu: bool)
      requires Valid()
      modifies this`bias, this`shift, this`lastDelta
      ensures Valid()
      ensures !running ==> shift == old(shift) && bias == old(bias)
      ensures running ==> (Time(inCpu) == old(Time(inCpu)) <==> !inCpu || Outstanding() == 0)
      ensures running ==>
                (Time(true) == old(Time(true)) <==> Outstanding() == 0 || (!inCpu && shift == old(shift)))
      ensures running ==> Time(false) == old(Time(inCpu))
      ensures running ==>
                var ahead := old(Time(inCpu)) - now;
                && lastDelta == ahead && (shift == old(shift) || shift == old(shift) - 1 || shift == old(shift) + 1)
                && (shift == old(shift) - 1 <==> ahead > 0 && old(lastDelta) + wobble < 2 * ahead && old(shift) > 0)
                && (shift == old(shift) + 1 <==> ahead < 0 && old(lastDelta) - wobble > 2 * ahead
                                                 && old(shift) < MAX_ICOUNT_SHIFT)
    {
      if !running {
        return;
      }
      var curIcount := Time(inCpu);
      var delta := curIcount - now;
      if delta > 0 && lastDelta + wobble < delta * 2 && shift > 0 {
        shift := shift - 1;
      }
      if delta < 0 && lastDelta - wobble > delta * 2 && shift < MAX_ICOUNT_SHIFT {
        shift := shift + 1;
      }
      lastDelta := delta;
      bias := curIcount - ToNs(qemuIcount, shift);
      Rebased(curIcount, qemuIcount, Outstanding(), Pow2(shift));
      Rescaled(Outstanding(), old(shift), shift);
      Rebased(old(Time(false)), qemuIcount, Outstanding(), Pow2(old(shift)));
    }
  }

  lemma TimePasses(x: int, n: nat, s: nat)
    ensures (x + n) * s == x * s + n * s
  {
  }

  /** The adjusted clock of a vCPU with `out` instructions outstanding. */
  lemma Rebased(cur: int, q: int, out: nat, s: nat)
    requires s >= 1
    ensures cur - q * s + (q - out) * s == cur - out * s
    ensures out * s == 0 <==> out == 0
  {
  }

  /** Outstanding instructions are worth the same at two shifts only if there are
      none or the shifts agree. */
  lemma Rescaled(out: nat, a: nat, b: nat)
    ensures out * Pow2(a) == out * Pow2(b) <==> out == 0 || a == b
  {
    if out != 0 && a < b {
      Pow2Above(a, b);
      MulMono(1, out, Pow2(b) - Pow2(a));
      TimePasses(Pow2(a), Pow2(b) - Pow2(a), out);
    } else if out != 0 && b < a {
      Pow2Above(b, a);
      MulMono(1, out, Pow2(a) - Pow2(b));
      TimePasses(Pow2(b), Pow2(a) - Pow2(b), out);
    }
  }

  lemma {:induction false} Pow2Above(a: nat, b: nat)
    requires a < b
    ensures Pow2(a) < Pow2(b)
  {
    if a + 1 < b {
      Pow2Above(a, b - 1);
    }
  }

  /** What `cpu_exec` meets next: a translation block of `n` instructions, with the
      interrupt flag raised or not. */
  datatype Block = Block(n: nat, irq: bool)

  /** `tcg_cpu_exec`, its grant spent on any sequence of blocks, with `rest` folded
      back: the clock moves by exactly what was executed. A grant that is used up
      passes the deadline by less than one instruction, and only an interrupt leaves
      the loop before that. */
  method RunGrant(c: VirtualClock, deadline: int, blocks: seq<Block>) returns (left: bool, rest: nat)
    requires c.Valid()
    modifies c
    ensures c.Valid() && c.shift == old(c.shift) && c.bias == old(c.bias)
    ensures c.Outstanding() == 0 && c.qemuIcount == c.executed
    ensures c.executed == old(c.executed) + Round(Clamp(deadline), c.shift) - rest
    ensures c.Time(true) == old(c.Time(true)) + ToNs(Round(Clamp(deadline), c.shift) - rest, c.shift)
    ensures rest <= Round(Clamp(deadline), c.shift)
    ensures 0 <= c.Time(true) - old(c.Time(true)) < Clamp(deadline) + Pow2(c.shift)
    ensures rest == 0 ==> c.Time(true) - old(c.Time(true)) >= Clamp(deadline)
    ensures left && (forall i | 0 <= i < |blocks| :: !blocks[i].irq) ==> rest == 0
  {
    hide Pow2, Round, Clamp;
    c.Grant(deadline);
    ghost var budget := c.Outstanding();
    left := false;
    var i := 0;
    while i < |blocks| && !left
      invariant i <= |blocks| && c.Valid() && c.shift == old(c.shift) && c.bias == old(c.bias)
      invariant c.Outstanding() <= budget
      invariant c.executed == old(c.executed) + budget - c.Outstanding()
      invariant c.Time(true) == old(c.Time(true)) + ToNs(budget - c.Outstanding(), c.shift)
      invariant left && c.Outstanding() > 0 ==> exists j :: 0 <= j < i && blocks[j].irq
    {
      ghost var spent := budget - c.Outstanding();
      if blocks[i].n <= c.low && !blocks[i].irq {
        c.Execute(blocks[i].n);
      } else {
        var continues := c.Expired(blocks[i].irq);
        left := !continues;
      }
      TimePasses(spent, budget - c.Outstanding() - spent, Pow2(c.shift));
      i := i + 1;
    }
    rest := c.Outstanding();
    c.FoldBack();
    MulMono(budget - rest, budget, Pow2(c.shift));
  }

  /** What happens to the clock while the global mutex changes hands: the thread of the
      vCPUs runs one grant and folds it back before it lets go, and only then do the
      timers of the main loop adjust. */
  datatype Turn = Run(deadline: int, blocks: seq<Block>) | Adjustment(running: bool, now: int, wobble: nat)

  /** How far one turn may take the clock from `before` to `after`. */
  ghost predicate MovesBy(turn: Turn, before: int, after: int) {
    match turn
    case Run(deadline, _) => before <= after < before + Clamp(deadline) + Pow2(MAX_ICOUNT_SHIFT)
    case Adjustment(_, _, _) => after == before
  }

  /** Over every sequence of turns no adjustment moves the guest's time, time never
      runs backwards, and every grant passes its deadline by less than the longest
      instruction. */
  method RunTurns(c: VirtualClock, turns: seq<Turn>) returns (times: seq<int>)
    requires c.Valid() && c.Outstanding() == 0
    modifies c
    ensures c.Valid() && c.Outstanding() == 0 && c.qemuIcount == c.executed >= old(c.executed)
    ensures |times| == |turns| + 1 && times[0] == old(c.Time(true))
    ensures times[|turns|] == c.Time(true) == c.Time(false)
    ensures forall i | 0 <= i < |turns| :: MovesBy(turns[i], times[i], times[i + 1])
    ensures old(c.Time(true)) <= c.Time(true)
  {
    hide Pow2, Round, Clamp, MovesBy;
    times := [c.Time(true)];
    for i := 0 to |turns|
      invariant c.Valid() && c.Outstanding() == 0 && c.executed >= old(c.executed)
      invariant |times| == i + 1 && times[0] == old(c.Time(true)) <= c.Time(true) == times[i]
      invariant forall j | 0 <= j < i :: MovesBy(turns[j], times[j], times[j + 1])
    {
      var time := TakeTurn(c, turns[i]);
      times := times + [time];
    }
  }

  method TakeTurn(c: VirtualClock, turn: Turn) returns (time: int)
    requires c.Valid() && c.Outstanding() == 0
    modifies c
    ensures c.Valid() && c.Outstanding() == 0 && c.executed >= old(c.executed)
    ensures time == c.Time(true) >= old(c.Time(true)) && MovesBy(turn, old(c.Time(true)), time)
  {
    hide Pow2, Round;
    match turn {
      case Run(deadline, blocks) =>
        var left, rest := RunGrant(c, deadline, blocks);
        if c.shift < MAX_ICOUNT_SHIFT {
          Pow2Above(c.shift, MAX_ICOUNT_SHIFT);
        }
      case Adjustment(running, now, wobble) =>
        c.Adjust(running, now, wobble, false);
    }
    time := c.Time(true);
  }
}
