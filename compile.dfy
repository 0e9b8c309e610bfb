/** The run-length encoding the compiler produces, as a reference definition over runs. */
module Compile {
  import opened Bits
  import opened Runs
  import opened Instructions
  import opened Arith

  /** _hex_flag's value: the OR of 2^pins[d] over the positions d where the state is high. */
  function Flag(pins: seq<nat>, state: seq<bool>): (f: nat)
    requires |state| <= |pins|
    ensures forall b :: Bit(f, b) <==> exists d :: 0 <= d < |state| && state[d] && pins[d] == b
  {
    if |state| == 0 then
      assert forall b :: !Bit(0, b) by {
        forall b: nat ensures !Bit(0, b) { ZeroBit(b); }
      }
      0
    else
      var n := |state| - 1;
      var f := Flag(pins, state[..n]);
      assert forall d :: 0 <= d < n ==> state[..n][d] == state[d];
      if state[n] then SetBit(f, pins[n]) else f
  }

  /** A state with no high position gives flag 0. */
  lemma {:induction false} ZeroFlag(pins: seq<nat>, state: seq<bool>)
    requires |state| <= |pins| && forall d :: 0 <= d < |state| ==> !state[d]
    ensures Flag(pins, state) == 0
  {
    forall b: nat ensures Bit(Flag(pins, state), b) == Bit(0, b) {
      ZeroBit(b);
    }
    BitsDetermine(Flag(pins, state), 0);
  }

  predicate Distinct(pins: seq<nat>)
  {
    forall i, j :: 0 <= i < j < |pins| ==> pins[i] != pins[j]
  }

  /** The sum of 2^pins[d] over the high positions d. */
  function WeightSum(pins: seq<nat>, state: seq<bool>): nat
    requires |state| <= |pins|
  {
    if |state| == 0 then 0
    else
      var n := |state| - 1;
      WeightSum(pins, state[..n]) + (if state[n] then Pow2(pins[n]) else 0)
  }

  /** With distinct pin numbers the OR is a plain sum of pin weights; an all-low
      column gives flag 0. */
  lemma {:induction false} FlagIsWeightSum(pins: seq<nat>, state: seq<bool>)
    requires |state| <= |pins| && Distinct(pins)
    ensures Flag(pins, state) == WeightSum(pins, state)
    ensures (forall d :: 0 <= d < |state| ==> !state[d]) ==> Flag(pins, state) == 0
  {
    if |state| > 0 {
      var n := |state| - 1;
      FlagIsWeightSum(pins, state[..n]);
      var f := Flag(pins, state[..n]);
      SetBitValue(f, pins[n]);
      assert !Bit(f, pins[n]);
    }
  }

  /** With distinct pin numbers two different columns get different flags. */
  lemma {:induction false} FlagInjective(pins: seq<nat>, a: seq<bool>, b: seq<bool>)
    requires |a| == |b| <= |pins| && Distinct(pins) && a != b
    ensures Flag(pins, a) != Flag(pins, b)
  {
    var p :| 0 <= p < |a| && a[p] != b[p];
    if a[p] {
      assert Bit(Flag(pins, a), pins[p]);
      assert !Bit(Flag(pins, b), pins[p]);
    } else {
      assert Bit(Flag(pins, b), pins[p]);
      assert !Bit(Flag(pins, a), pins[p]);
    }
  }

  /** The operand every non-final instruction carries: int(loops), with the
      infinite loop count replaced by 0. */
  function LoopOperand(loops: Loops): nat
  {
    if loops.Inf? then 0 else loops.n
  }

  /** A finite loop count above 1: the program is wrapped in LOOP ... END_LOOP. */
  predicate Repeats(loops: Loops)
  {
    loops.Fin? && loops.n > 1
  }

  /** A timeline whose only run is the whole cycle. */
  predicate Homogeneous(rows: seq<seq<bool>>)
    requires Rect(rows)
  {
    Changes(rows, Width(rows)) == []
  }

  /** The instruction for run j, given the address of the first issued instruction. */
  function RunInstr(rows: seq<seq<bool>>, pins: seq<nat>, res: nat, loops: Loops, first: nat, j: nat): Instr<nat>
    requires Rect(rows) && |rows| == |pins| && Width(rows) > 0 && j < |Starts(rows)|
  {
    var st := Starts(rows);
    var last := |st| - 1;
    var flag := Flag(pins, Col(rows, st[j]));
    var duration := (RunEnd(rows, j) - st[j]) * res;
    if j < last then
      Instr(flag, if j == 0 && Repeats(loops) then Loop else Continue, LoopOperand(loops), duration)
    else if loops.Inf? then
      Instr(flag, Branch, if last == 0 then 0 else first, duration)
    else if Repeats(loops) && last == 0 then
      Instr(flag, Continue, 0, duration * loops.n)
    else
      Instr(flag, if Repeats(loops) then EndLoop else Continue, if last == 0 then 0 else first, duration)
  }

  /** The program compiled from a rectangular timeline with at least one sample:
      one instruction per run, in time order. */
  function CompileSpec(rows: seq<seq<bool>>, pins: seq<nat>, res: nat, loops: Loops, first: nat): (p: seq<Instr<nat>>)
    requires Rect(rows) && |rows| == |pins| && Width(rows) > 0
    ensures |p| == |Starts(rows)|
  {
    var st := Starts(rows);
    seq(|st|, j requires 0 <= j < |st| => RunInstr(rows, pins, res, loops, first, j))
  }

  /** A change point at d closes the run that started at prev: the compiler's next
      instruction is that run's, a non-final one, and d starts the next run. */
  lemma {:induction false} IssueStep(rows: seq<seq<bool>>, pins: seq<nat>, res: nat, loops: Loops, first: nat,
                  d: nat, prev: nat, k: nat, duration: nat)
    requires Rect(rows) && |rows| == |pins| && 1 <= d < Width(rows) && IsChange(rows, d)
    requires prev < d && k == |Changes(rows, d)| && k < |Starts(rows)| && Starts(rows)[k] == prev
    requires duration == (d - prev) * res
    ensures |Changes(rows, d + 1)| == k + 1 && k + 1 < |Starts(rows)| && Starts(rows)[k + 1] == d
    ensures CompileSpec(rows, pins, res, loops, first)[k]
              == Instr(Flag(pins, Col(rows, prev)), if k == 0 && Repeats(loops) then Loop else Continue,
                       LoopOperand(loops), duration)
  {
    ChangeAt(rows, d);
    assert Starts(rows)[k + 1] == Changes(rows, Width(rows))[k];
    assert RunEnd(rows, k) == d;
  }

  /** The run that starts at prev and reaches the end of the timeline is the last
      one; its instruction closes the program. */
  lemma {:induction false} FinalStep(rows: seq<seq<bool>>, pins: seq<nat>, res: nat, loops: Loops, first: nat,
                  prev: nat, k: nat)
    requires Rect(rows) && |rows| == |pins| && Width(rows) > 0
    requires k == |Changes(rows, Width(rows))| && Starts(rows)[k] == prev
    ensures var p := CompileSpec(rows, pins, res, loops, first);
            var w := Width(rows);
            && |p| == k + 1
            && p[k] == Instr(Flag(pins, Col(rows, prev)),
                             if k == 0 && Repeats(loops) then Continue
                             else if loops.Inf? then Branch else if Repeats(loops) then EndLoop else Continue,
                             if k == 0 then 0 else first,
                             if k == 0 && Repeats(loops) then (w - prev) * res * loops.n else (w - prev) * res)
  {
    assert RunEnd(rows, k) == Width(rows);
  }

  /** The compiler's state between columns: where the current run started, its
      column, the opcode the next instruction gets, the lowest address returned so
      far (none yet is infinity), and the instructions issued. */
  datatype Emit = Emit(prevD: nat, prevState: seq<bool>, curCommand: Opcode, firstInst: ExtNat,
                       issued: seq<Instr<nat>>)

  /** The state before column 1: run 0 opens at sample 0, and the first instruction
      is LOOP when the program repeats a finite number of times above 1. */
  function EmitStart(rows: seq<seq<bool>>, loops: Loops): (s: Emit)
    requires Rect(rows) && Width(rows) > 0
  {
    Emit(0, Col(rows, 0), if Repeats(loops) then Loop else Continue, Inf, [])
  }

  /** Column d: when it differs from the current run's column, the run is issued
      at address base + (instructions so far) and column d opens the next run. */
  function EmitStep(rows: seq<seq<bool>>, pins: seq<nat>, res: nat, loops: Loops, base: nat,
                    s: Emit, d: nat): (t: Emit)
    requires Rect(rows) && |rows| == |pins| && s.prevD < d < Width(rows) && |s.prevState| == |rows|
    ensures t.prevD <= d && |t.prevState| == |rows|
  {
    if Col(rows, d) == s.prevState then s
    else
      var i := Instr(Flag(pins, s.prevState), s.curCommand, LoopOperand(loops), Scaled(d - s.prevD, res));
      Emit(d, Col(rows, d), Continue, Fin(MinExt(base + |s.issued|, s.firstInst)), s.issued + [i])
  }

  /** The state after columns 1..d-1. */
  function EmitOf(rows: seq<seq<bool>>, pins: seq<nat>, res: nat, loops: Loops, base: nat, d: nat): (s: Emit)
    requires Rect(rows) && |rows| == |pins| && 1 <= d <= Width(rows)
    ensures s.prevD < d && |s.prevState| == |rows|
  {
    if d == 1 then EmitStart(rows, loops)
    else EmitStep(rows, pins, res, loops, base, EmitOf(rows, pins, res, loops, base, d - 1), d - 1)
  }

  lemma {:induction false} EmitOfNext(rows: seq<seq<bool>>, pins: seq<nat>, res: nat, loops: Loops, base: nat, d: nat)
    requires Rect(rows) && |rows| == |pins| && 1 <= d < Width(rows)
    ensures EmitOf(rows, pins, res, loops, base, d + 1)
              == EmitStep(rows, pins, res, loops, base, EmitOf(rows, pins, res, loops, base, d), d)
  {
  }

  /** A column equal to the current run's leaves the scan state as it is. */
  lemma {:induction false} EmitKeep(rows: seq<seq<bool>>, pins: seq<nat>, res: nat, loops: Loops, base: nat,
                                    d: nat, s: Emit)
    requires Rect(rows) && |rows| == |pins| && 1 <= d < Width(rows)
    requires s == EmitOf(rows, pins, res, loops, base, d) && Col(rows, d) == s.prevState
    ensures EmitOf(rows, pins, res, loops, base, d + 1) == s
  {
    EmitOfNext(rows, pins, res, loops, base, d);
  }

  /** A column that differs closes the current run with instruction i and starts a new run at d. */
  lemma {:induction false} EmitAdvance(rows: seq<seq<bool>>, pins: seq<nat>, res: nat, loops: Loops, base: nat,
                                       d: nat, s: Emit, i: Instr<nat>)
    requires Rect(rows) && |rows| == |pins| && 1 <= d < Width(rows)
    requires s == EmitOf(rows, pins, res, loops, base, d) && Col(rows, d) != s.prevState
    requires i == Instr(Flag(pins, s.prevState), s.curCommand, LoopOperand(loops), Scaled(d - s.prevD, res))
    ensures EmitOf(rows, pins, res, loops, base, d + 1)
              == Emit(d, Col(rows, d), Continue, Fin(MinExt(base + |s.issued|, s.firstInst)), s.issued + [i])
  {
    EmitOfNext(rows, pins, res, loops, base, d);
  }

  /** What the scan state s after columns 1..d-1 must satisfy: it has issued exactly
      the instructions of the runs closed so far, which are those of the reference
      program, and the open run starts at the last change point. */
  ghost predicate EmitInv(rows: seq<seq<bool>>, pins: seq<nat>, res: nat, loops: Loops, base: nat, d: nat, s: Emit)
    requires Rect(rows) && |rows| == |pins| && 1 <= d <= Width(rows)
  {
    var k := |Changes(rows, d)|;
    && k < |Starts(rows)| && Starts(rows)[k] == s.prevD && s.prevD < d
    && s.prevState == Col(rows, s.prevD)
    && (forall e :: s.prevD <= e < d ==> Col(rows, e) == s.prevState)
    && s.issued == CompileSpec(rows, pins, res, loops, base)[..k]
    && s.curCommand == (if k == 0 && Repeats(loops) then Loop else Continue)
    && s.firstInst == (if k == 0 then Inf else Fin(base))
  }

  /** A change point at d: the scan issues the closed run's instruction, and column
      d opens run k + 1. */
  lemma {:induction false} EmitChange(rows: seq<seq<bool>>, pins: seq<nat>, res: nat, loops: Loops, base: nat,
                   d: nat, s: Emit, k: nat)
    requires Rect(rows) && |rows| == |pins| && 1 <= d < Width(rows) && IsChange(rows, d)
    requires EmitInv(rows, pins, res, loops, base, d, s) && k == |Changes(rows, d)|
    ensures |Changes(rows, d + 1)| == k + 1 && k + 1 < |Starts(rows)| && Starts(rows)[k + 1] == d
    ensures EmitStep(rows, pins, res, loops, base, s, d)
              == Emit(d, Col(rows, d), Continue, Fin(base), CompileSpec(rows, pins, res, loops, base)[..k + 1])
  {
    var p := CompileSpec(rows, pins, res, loops, base);
    assert Col(rows, d) != s.prevState;
    IssueStep(rows, pins, res, loops, base, d, s.prevD, k, Scaled(d - s.prevD, res));
    SliceSnoc(p, k);
  }

  /** The state a change point at d leaves satisfies `EmitInv` at d + 1. */
  lemma {:induction false} EmitChangeInv(rows: seq<seq<bool>>, pins: seq<nat>, res: nat, loops: Loops, base: nat,
                      d: nat, k: nat)
    requires Rect(rows) && |rows| == |pins| && 1 <= d < Width(rows)
    requires |Changes(rows, d + 1)| == k + 1 && k + 1 < |Starts(rows)| && Starts(rows)[k + 1] == d
    ensures EmitInv(rows, pins, res, loops, base, d + 1,
                    Emit(d, Col(rows, d), Continue, Fin(base), CompileSpec(rows, pins, res, loops, base)[..k + 1]))
  {
  }

  /** No change at d: the scan only extends the open run. */
  lemma {:induction false} EmitSame(rows: seq<seq<bool>>, pins: seq<nat>, res: nat, loops: Loops, base: nat,
                 d: nat, s: Emit)
    requires Rect(rows) && |rows| == |pins| && 1 <= d < Width(rows) && !IsChange(rows, d)
    requires EmitInv(rows, pins, res, loops, base, d, s)
    ensures EmitInv(rows, pins, res, loops, base, d + 1, EmitStep(rows, pins, res, loops, base, s, d))
  {
    NoChangeAt(rows, d);
    assert Col(rows, d) == s.prevState;
  }

  /** The scan state after columns 1..d-1 satisfies `EmitInv`. */
  lemma {:induction false} EmitOfSpec(rows: seq<seq<bool>>, pins: seq<nat>, res: nat, loops: Loops, base: nat, d: nat)
    requires Rect(rows) && |rows| == |pins| && 1 <= d <= Width(rows)
    ensures EmitInv(rows, pins, res, loops, base, d, EmitOf(rows, pins, res, loops, base, d))
  {
    if d > 1 {
      EmitOfSpec(rows, pins, res, loops, base, d - 1);
      var s := EmitOf(rows, pins, res, loops, base, d - 1);
      if IsChange(rows, d - 1) {
        var k := |Changes(rows, d - 1)|;
        EmitChange(rows, pins, res, loops, base, d - 1, s, k);
        EmitChangeInv(rows, pins, res, loops, base, d - 1, k);
      } else {
        EmitSame(rows, pins, res, loops, base, d - 1, s);
      }
    }
  }

  /** The instruction _write_instruction issues last, from the state the scan ends in. */
  function CloseInstr(pins: seq<nat>, res: nat, loops: Loops, s: Emit, w: nat): Instr<nat>
    requires s.prevD <= w && |s.prevState| <= |pins|
  {
    var homogeneousLoop := s.firstInst.Inf? && Repeats(loops);
    Instr(Flag(pins, s.prevState),
          if homogeneousLoop then Continue
          else if loops.Inf? then Branch else if Repeats(loops) then EndLoop else Continue,
          if s.firstInst.Inf? then 0 else s.firstInst.n,
          if homogeneousLoop then Scaled(Scaled(w - s.prevD, res), loops.n) else Scaled(w - s.prevD, res))
  }

  /** The scan over every column followed by the closing instruction issues the
      reference program. */
  lemma {:induction false} EmitComplete(rows: seq<seq<bool>>, pins: seq<nat>, res: nat, loops: Loops, base: nat)
    requires Rect(rows) && |rows| == |pins| && Width(rows) > 0
    ensures var s := EmitOf(rows, pins, res, loops, base, Width(rows));
            s.issued + [CloseInstr(pins, res, loops, s, Width(rows))] == CompileSpec(rows, pins, res, loops, base)
  {
    var w := Width(rows);
    var s := EmitOf(rows, pins, res, loops, base, w);
    var p := CompileSpec(rows, pins, res, loops, base);
    EmitOfSpec(rows, pins, res, loops, base, w);
    var k := |Changes(rows, w)|;
    FinalStep(rows, pins, res, loops, base, s.prevD, k);
    SliceSnoc(p, k);
    assert p[..k + 1] == p;
  }

  function TotalDuration<F>(p: seq<Instr<F>>): nat
  {
    if |p| == 0 then 0 else TotalDuration(p[..|p| - 1]) + p[|p| - 1].duration
  }

  /** What the device outputs, sample by sample, playing the instructions once in
      order and ignoring the loop opcodes. */
  function Expand(p: seq<Instr<nat>>, res: nat): seq<nat>
    requires res > 0
  {
    if |p| == 0 then []
    else Expand(p[..|p| - 1], res) + seq(p[|p| - 1].duration / res, _ => p[|p| - 1].flag)
  }

  /** The flag the timeline asks for at sample d. */
  function FlagAt(rows: seq<seq<bool>>, pins: seq<nat>, d: nat): nat
    requires Rect(rows) && |rows| == |pins| && d < Width(rows)
  {
    Flag(pins, Col(rows, d))
  }

  /** The compiled program has one instruction more than there are change points,
      and instruction j outputs the flag of run j's column. */
  lemma {:induction false} CompileShape(rows: seq<seq<bool>>, pins: seq<nat>, res: nat, loops: Loops, first: nat)
    requires Rect(rows) && |rows| == |pins| && Width(rows) > 0
    ensures var p := CompileSpec(rows, pins, res, loops, first);
            && |p| == 1 + |Changes(rows, Width(rows))|
            && forall j :: 0 <= j < |p| ==>
                 forall b :: Bit(p[j].flag, b) <==>
                   exists d :: 0 <= d < |rows| && rows[d][Starts(rows)[j]] && pins[d] == b
  {
  }

  /** A run during which every row is low compiles to an instruction with flag 0. */
  lemma {:induction false} AllLowRun(rows: seq<seq<bool>>, pins: seq<nat>, res: nat, loops: Loops, first: nat, j: nat)
    requires Rect(rows) && |rows| == |pins| && Width(rows) > 0 && j < |Starts(rows)|
    requires forall d :: 0 <= d < |rows| ==> !rows[d][Starts(rows)[j]]
    ensures CompileSpec(rows, pins, res, loops, first)[j].flag == 0
  {
    ZeroFlag(pins, Col(rows, Starts(rows)[j]));
  }

  /** Opcodes for a single pass (loops == 1): every instruction is CONTINUE; the
      non-final ones carry the loop count, the last one the first address (0 when
      it is the only one). */
  lemma {:induction false} SinglePassOpcodes(rows: seq<seq<bool>>, pins: seq<nat>, res: nat, n: nat, first: nat)
    requires Rect(rows) && |rows| == |pins| && Width(rows) > 0 && n <= 1
    ensures var p := CompileSpec(rows, pins, res, Fin(n), first);
            && (forall j :: 0 <= j < |p| ==> p[j].opcode == Continue)
            && (forall j :: 0 <= j < |p| - 1 ==> p[j].operand == n)
            && p[|p| - 1].operand == (if |p| == 1 then 0 else first)
  {
  }

  /** Opcodes for a finite loop count above 1 with at least one change: LOOP first,
      END_LOOP last pointing back at the first instruction, CONTINUE between; every
      non-final instruction carries the loop count. */
  lemma {:induction false} RepeatOpcodes(rows: seq<seq<bool>>, pins: seq<nat>, res: nat, n: nat, first: nat)
    requires Rect(rows) && |rows| == |pins| && Width(rows) > 0 && n > 1 && !Homogeneous(rows)
    ensures var p := CompileSpec(rows, pins, res, Fin(n), first);
            && |p| >= 2
            && p[0].opcode == Loop && p[0].operand == n
            && p[|p| - 1].opcode == EndLoop && p[|p| - 1].operand == first
            && (forall j :: 0 < j < |p| - 1 ==> p[j].opcode == Continue && p[j].operand == n)
  {
  }

  /** Opcodes for an infinite loop count: BRANCH last, pointing back at the first
      instruction (0 when it is the only one); CONTINUE with operand 0 before it. */
  lemma {:induction false} InfiniteOpcodes(rows: seq<seq<bool>>, pins: seq<nat>, res: nat, first: nat)
    requires Rect(rows) && |rows| == |pins| && Width(rows) > 0
    ensures var p := CompileSpec(rows, pins, res, Inf, first);
            && p[|p| - 1].opcode == Branch
            && p[|p| - 1].operand == (if |p| == 1 then 0 else first)
            && (forall j :: 0 <= j < |p| - 1 ==> p[j].opcode == Continue && p[j].operand == 0)
  {
  }

  /** No instruction other than the last is END_LOOP or BRANCH, and the last one is
      END_LOOP only when a LOOP opened the program. */
  lemma {:induction false} LoopsBalanced(rows: seq<seq<bool>>, pins: seq<nat>, res: nat, loops: Loops, first: nat)
    requires Rect(rows) && |rows| == |pins| && Width(rows) > 0
    ensures var p := CompileSpec(rows, pins, res, loops, first);
            && (forall j :: 0 <= j < |p| - 1 ==> p[j].opcode != EndLoop && p[j].opcode != Branch)
            && (p[|p| - 1].opcode == EndLoop ==> |p| >= 2 && p[0].opcode == Loop)
            && (forall j :: 0 < j < |p| ==> p[j].opcode != Loop)
  {
  }

  /** A homogeneous timeline repeated n > 1 times compiles to one CONTINUE that
      lasts the whole cycle n times over, with operand 0. */
  lemma {:induction false} HomogeneousRepeat(rows: seq<seq<bool>>, pins: seq<nat>, res: nat, n: nat, first: nat)
    requires Rect(rows) && |rows| == |pins| && Width(rows) > 0 && n > 1 && Homogeneous(rows)
    ensures CompileSpec(rows, pins, res, Fin(n), first)
              == [Instr(FlagAt(rows, pins, 0), Continue, 0, Width(rows) * res * n)]
  {
  }

  /** The first m instructions end at sample Starts[m]: the instructions follow
      one another in time order without gaps. */
  lemma {:induction false} PrefixDuration(rows: seq<seq<bool>>, pins: seq<nat>, res: nat, loops: Loops, first: nat, m: nat)
    requires Rect(rows) && |rows| == |pins| && Width(rows) > 0 && m < |Starts(rows)|
    ensures TotalDuration(CompileSpec(rows, pins, res, loops, first)[..m]) == Starts(rows)[m] * res
  {
    var p := CompileSpec(rows, pins, res, loops, first);
    var st := Starts(rows);
    if m > 0 {
      PrefixDuration(rows, pins, res, loops, first, m - 1);
      assert p[..m][..m - 1] == p[..m - 1];
      assert p[m - 1].duration == (st[m] - st[m - 1]) * res;
      MulSub(st[m], st[m - 1], res);
    }
  }

  /** The durations add up to one cycle (samples times resolution), except for the
      homogeneous timeline wrapped in a loop, which lasts loops cycles. */
  lemma {:induction false} DurationsSum(rows: seq<seq<bool>>, pins: seq<nat>, res: nat, loops: Loops, first: nat)
    requires Rect(rows) && |rows| == |pins| && Width(rows) > 0
    ensures !(Repeats(loops) && Homogeneous(rows)) ==>
              TotalDuration(CompileSpec(rows, pins, res, loops, first)) == Width(rows) * res
    ensures Repeats(loops) && Homogeneous(rows) ==>
              TotalDuration(CompileSpec(rows, pins, res, loops, first)) == Width(rows) * res * loops.n
  {
    var p := CompileSpec(rows, pins, res, loops, first);
    var st := Starts(rows);
    var k := |p| - 1;
    assert TotalDuration(p) == TotalDuration(p[..k]) + p[k].duration;
    PrefixDuration(rows, pins, res, loops, first, k);
    LastDuration(rows, pins, res, loops, first);
  }

  /** The last instruction runs from the last start to the end of the cycle, or
      the cycle loops times over for the homogeneous timeline wrapped in a loop. */
  lemma {:induction false} LastDuration(rows: seq<seq<bool>>, pins: seq<nat>, res: nat, loops: Loops, first: nat)
    requires Rect(rows) && |rows| == |pins| && Width(rows) > 0
    ensures var p := CompileSpec(rows, pins, res, loops, first);
            var k := |Starts(rows)| - 1;
            && (!(Repeats(loops) && Homogeneous(rows)) ==>
                  Starts(rows)[k] * res + p[k].duration == Width(rows) * res)
            && (Repeats(loops) && Homogeneous(rows) ==>
                  k == 0 && p[k].duration == Width(rows) * res * loops.n)
  {
    var p := CompileSpec(rows, pins, res, loops, first);
    var st := Starts(rows);
    var k := |st| - 1;
    assert p[k] == RunInstr(rows, pins, res, loops, first, k);
    if !(Repeats(loops) && Homogeneous(rows)) {
      assert p[k].duration == (Width(rows) - st[k]) * res;
      MulSub(Width(rows), st[k], res);
    }
  }

  function RunsEnd(rows: seq<seq<bool>>, m: nat): nat
    requires Rect(rows) && m <= |Starts(rows)|
  {
    if m < |Starts(rows)| then Starts(rows)[m] else Width(rows)
  }

  lemma {:induction false} ExpandPrefix(rows: seq<seq<bool>>, pins: seq<nat>, res: nat, loops: Loops, first: nat, m: nat)
    requires Rect(rows) && |rows| == |pins| && Width(rows) > 0 && res > 0 && m <= |Starts(rows)|
    requires !(Repeats(loops) && Homogeneous(rows))
    ensures Expand(CompileSpec(rows, pins, res, loops, first)[..m], res)
              == seq(RunsEnd(rows, m), d requires 0 <= d < RunsEnd(rows, m) => FlagAt(rows, pins, d))
  {
    var p := CompileSpec(rows, pins, res, loops, first);
    var st := Starts(rows);
    if m > 0 {
      var j := m - 1;
      ExpandPrefix(rows, pins, res, loops, first, j);
      assert p[..m][..j] == p[..j];
      var len := RunEnd(rows, j) - st[j];
      assert p[j].duration == len * res;
      MulDivCancel(len, res);
      assert RunsEnd(rows, m) == RunEnd(rows, j);
      var got := Expand(p[..m], res);
      var want := seq(RunsEnd(rows, m), d requires 0 <= d < RunsEnd(rows, m) => FlagAt(rows, pins, d));
      assert |got| == |want|;
      forall d | 0 <= d < |want| ensures got[d] == want[d] {
        if d >= st[j] {
          RunConstant(rows, j, d);
        }
      }
    }
  }

  /** Playing the program back reproduces the timeline's flag at every sample; for
      the homogeneous timeline wrapped in a loop of n, it reproduces the cycle n times. */
  lemma {:induction false} PlaybackMatchesTimeline(rows: seq<seq<bool>>, pins: seq<nat>, res: nat, loops: Loops, first: nat)
    requires Rect(rows) && |rows| == |pins| && Width(rows) > 0 && res > 0
    ensures !(Repeats(loops) && Homogeneous(rows)) ==>
              Expand(CompileSpec(rows, pins, res, loops, first), res)
                == seq(Width(rows), d requires 0 <= d < Width(rows) => FlagAt(rows, pins, d))
    ensures Repeats(loops) && Homogeneous(rows) ==>
              Expand(CompileSpec(rows, pins, res, loops, first), res)
                == seq(Width(rows) * loops.n, d requires 0 <= d < Width(rows) * loops.n =>
                         FlagAt(rows, pins, d % Width(rows)))
  {
    var p := CompileSpec(rows, pins, res, loops, first);
    var w := Width(rows);
    if !(Repeats(loops) && Homogeneous(rows)) {
      ExpandPrefix(rows, pins, res, loops, first, |p|);
      assert p[..|p|] == p;
    } else {
      var n := loops.n;
      assert p == [p[0]];
      assert p[..0] == [];
      assert p[0].duration == w * n * res;
      MulDivCancel(w * n, res);
      forall d | 0 <= d < w * n ensures FlagAt(rows, pins, d % w) == FlagAt(rows, pins, 0) {
        RunConstant(rows, 0, d % w);
      }
    }
  }

  /** With distinct pin numbers, consecutive instructions have different flags:
      no instruction could be merged with its successor. */
  lemma {:induction false} MinimalEncoding(rows: seq<seq<bool>>, pins: seq<nat>, res: nat, loops: Loops, first: nat)
    requires Rect(rows) && |rows| == |pins| && Width(rows) > 0 && Distinct(pins)
    ensures var p := CompileSpec(rows, pins, res, loops, first);
            forall j :: 0 <= j < |p| - 1 ==> p[j].flag != p[j + 1].flag
  {
    var p := CompileSpec(rows, pins, res, loops, first);
    var st := Starts(rows);
    StartsIncreasing(rows);
    forall j | 0 <= j < |p| - 1 ensures p[j].flag != p[j + 1].flag {
      StartIsChange(rows, j + 1);
      RunConstant(rows, j, st[j + 1] - 1);
      FlagInjective(pins, Col(rows, st[j + 1]), Col(rows, st[j]));
    }
  }
}
