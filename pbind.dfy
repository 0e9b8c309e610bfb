/** The driver class that lets each pin be programmed on its own: the per-pin
    sample timeline, its builder operations, the validator, the compiler and
    the order in which `program` runs them. Only the live (non-debug) mode. */
module PBInd {
  import opened Wrappers
  import opened Errors
  import opened Instructions
  import opened Arith
  import opened Timeline
  import opened Runs
  import opened Validation
  import opened Compile

  /** The position _get_ch finds: the first row whose pin number is pin. */
  function FirstIndex(pins: seq<nat>, pin: int): (i: nat)
    requires pin in pins
    ensures i < |pins| && pins[i] == pin
    ensures forall j :: 0 <= j < i ==> pins[j] != pin
  {
    if pins[0] == pin then 0 else 1 + FirstIndex(pins[1..], pin)
  }

  /** One row per pin, each of smps samples or, after a write that ran to the
      last sample, one more. */
  predicate Shaped(pins: seq<nat>, smps: nat, rows: seq<seq<bool>>)
  {
    |rows| == |pins| && forall i :: 0 <= i < |rows| ==> |rows[i]| == smps || |rows[i]| == smps + 1
  }

  /** What a builder operation returns, with the timeline it leaves behind. */
  datatype Edit = Edit(outcome: Outcome<Error>, rows: seq<seq<bool>>)

  /** The effect of _set(pin, start, length, val) on a timeline. */
  function SetEffect(pins: seq<nat>, res: nat, smps: nat, rows: seq<seq<bool>>,
                     pin: int, start: int, length: int, val: bool): (e: Edit)
    requires res > 0 && Shaped(pins, smps, rows)
    ensures Shaped(pins, smps, e.rows)
  {
    if start % res != 0 then Edit(Fail(StartMisaligned(start)), rows)
    else if length % res != 0 then Edit(Fail(LengthMisaligned(length)), rows)
    else
      var a := start / res;
      var b := a + length / res - 1;
      if a < 0 || a > smps then Edit(Fail(StartOutOfRange(a)), rows)
      else if b > smps then Edit(Fail(StopOutOfRange(b)), rows)
      else if b < a then Edit(Pass, rows)
      else if pin !in pins then Edit(Fail(UnknownPin(pin)), rows)
      else
        var ch := FirstIndex(pins, pin);
        Edit(Pass, rows[ch := SetRow(rows[ch], a, b, val)])
  }

  /** floor(onTime / period) whole periods fit in the cycle, in samples and in ns. */
  lemma {:induction false} ClockFits(res: nat, onTime: nat, period: nat)
    requires res > 0 && period > 0 && period % (2 * res) == 0
    ensures ClockSpan(period / (2 * res), onTime / period) <= RoundDiv(onTime, res)
    ensures ClockSpan(period / (2 * res), onTime / period) * res <= onTime
  {
    var h, t := period / (2 * res), onTime / period;
    assert period == (2 * res) * h + period % (2 * res);
    assert onTime == t * period + onTime % period;
    ClockSpanIsProduct(h, t);
    MulShuffle(h, t, res);
    MulLeDiv(2 * h * t, onTime, res);
  }

  /** The effect of make_clock(pin, period) on a timeline: floor(onTime / period)
      periods of period / 2 high then period / 2 low, from time 0. */
  function ClockEffect(pins: seq<nat>, res: nat, smps: nat, onTime: nat, minimumPulse: nat,
                       rows: seq<seq<bool>>, pin: int, period: int): (e: Edit)
    requires res > 0 && smps == RoundDiv(onTime, res) && Shaped(pins, smps, rows)
    requires period != 0 || minimumPulse > 0
    ensures Shaped(pins, smps, e.rows)
  {
    if period < 2 * minimumPulse then Edit(Fail(ClockTooShort(period)), rows)
    else if period % (2 * res) != 0 then Edit(Fail(ClockMisaligned(period)), rows)
    else if period > onTime then Edit(Pass, rows)
    else if pin !in pins then Edit(Fail(UnknownPin(pin)), rows)
    else
      var ch := FirstIndex(pins, pin);
      ClockFits(res, onTime, period);
      var h, t := period / (2 * res), onTime / period;
      Edit(Pass, rows[ch := ClockRow(rows[ch], h, t)])
  }

  /** A period that passed both checks is 2 * res * h for some h of at least 1. */
  lemma {:induction false} ClockHalf(res: nat, period: int, h: int)
    requires res > 0 && period > 0 && period % (2 * res) == 0 && h == period / (2 * res)
    ensures h >= 1 && period == (2 * res) * h && period / 2 == h * res
    ensures period / 2 >= 1 && period / 2 + period / 2 == period
  {
  }

  /** Room for tick t: a whole period from t * period still fits in the cycle. */
  lemma {:induction false} ClockRoom(res: nat, onTime: nat, period: nat, h: nat, t: nat)
    requires res > 0 && period == (2 * res) * h && t * period + period <= onTime
    ensures ClockSpan(h, t + 1) <= RoundDiv(onTime, res)
  {
    ClockSpanIsProduct(h, t + 1);
    MulShuffle(h, t + 1, res);
    MulAdd(t, 1, period);
    MulLeDiv(2 * h * (t + 1), onTime, res);
  }

  /** After t ticks the cursor, t * period ns, is at sample 2 * h * t. */
  lemma {:induction false} ClockCursor(res: nat, period: nat, h: nat, t: nat)
    requires period == (2 * res) * h
    ensures t * period == ClockSpan(h, t) * res
  {
    ClockSpanIsProduct(h, t);
    MulShuffle(h, t, res);
  }

  /** An aligned write of n >= 1 samples, a..stop, that stays in the cycle passes. */
  lemma {:induction false} AlignedSet(pins: seq<nat>, res: nat, smps: nat, rows: seq<seq<bool>>, pin: int,
                   a: nat, n: nat, stop: nat, start: int, len: int, val: bool)
    requires res > 0 && Shaped(pins, smps, rows) && pin in pins
    requires n > 0 && a + n <= smps && stop + 1 == a + n && start == a * res && len == n * res
    ensures var ch := FirstIndex(pins, pin);
            SetEffect(pins, res, smps, rows, pin, start, len, val)
              == Edit(Pass, rows[ch := SetRow(rows[ch], a, stop, val)])
  {
    MulDivCancel(a, res);
    MulDivCancel(n, res);
  }

  /** Writing row ch twice keeps only the second write. */
  lemma {:induction false} UpdateTwice(rows: seq<seq<bool>>, ch: nat, a: seq<bool>, b: seq<bool>)
    requires ch < |rows|
    ensures rows[ch := a][ch := b] == rows[ch := b]
  {
    assert rows[ch := a][ch := b] == rows[ch := b];
  }

  /** One period written at sample c: the `on` of h samples and the `off` of h
      samples after it both pass, and together they write `ClockPeriod`. */
  lemma {:induction false} AlignedPeriod(pins: seq<nat>, res: nat, smps: nat, rows: seq<seq<bool>>, pin: int,
                      c: nat, h: nat, start: int, half: int)
    requires res > 0 && h > 0 && Shaped(pins, smps, rows) && pin in pins
    requires c + 2 * h <= smps && start == c * res && half == h * res
    ensures var ch := FirstIndex(pins, pin);
            var high := rows[ch := SetRow(rows[ch], c, c + h - 1, true)];
            && SetEffect(pins, res, smps, rows, pin, start, half, true) == Edit(Pass, high)
            && SetEffect(pins, res, smps, high, pin, start + half, half, false)
                 == Edit(Pass, rows[ch := ClockPeriod(rows[ch], c, h)])
  {
    var ch := FirstIndex(pins, pin);
    AlignedSet(pins, res, smps, rows, pin, c, h, c + h - 1, start, half, true);
    var high := rows[ch := SetRow(rows[ch], c, c + h - 1, true)];
    MulAdd(c, h, res);
    AlignedSet(pins, res, smps, high, pin, c + h, h, c + 2 * h - 1, start + half, half, false);
    UpdateTwice(rows, ch, SetRow(rows[ch], c, c + h - 1, true), ClockPeriod(rows[ch], c, h));
  }

  /** Tick t of make_clock on a row holding t clock periods: the `on` and the `off`
      both pass, and the row then holds t + 1 periods. */
  lemma {:induction false} ClockTick(pins: seq<nat>, res: nat, smps: nat, rows0: seq<seq<bool>>, pin: int,
                  h: nat, t: nat, start: int, half: int)
    requires res > 0 && h > 0 && Shaped(pins, smps, rows0) && pin in pins
    requires ClockSpan(h, t + 1) <= smps && start == ClockSpan(h, t) * res && half == h * res
    ensures var ch := FirstIndex(pins, pin);
            var rows := rows0[ch := ClockRow(rows0[ch], h, t)];
            var c := ClockSpan(h, t);
            var high := rows[ch := SetRow(rows[ch], c, c + h - 1, true)];
            && SetEffect(pins, res, smps, rows, pin, start, half, true) == Edit(Pass, high)
            && SetEffect(pins, res, smps, high, pin, start + half, half, false)
                 == Edit(Pass, rows0[ch := ClockRow(rows0[ch], h, t + 1)])
  {
    var ch := FirstIndex(pins, pin);
    var rows := rows0[ch := ClockRow(rows0[ch], h, t)];
    ClockRowNext(rows0[ch], h, t);
    AlignedPeriod(pins, res, smps, rows, pin, ClockSpan(h, t), h, start, half);
    UpdateTwice(rows0, ch, ClockRow(rows0[ch], h, t), ClockPeriod(rows[ch], ClockSpan(h, t), h));
  }

  /** make_clock on an unknown pin: the first `on` fails and nothing changes. */
  lemma {:induction false} ClockUnknownPin(pins: seq<nat>, res: nat, smps: nat, rows: seq<seq<bool>>, pin: int,
                        h: nat, half: int)
    requires res > 0 && h > 0 && Shaped(pins, smps, rows) && pin !in pins
    requires 2 * h <= smps && half == h * res
    ensures SetEffect(pins, res, smps, rows, pin, 0, half, true) == Edit(Fail(UnknownPin(pin)), rows)
  {
    MulDivCancel(h, res);
  }

  /** The loop of make_clock stopped after ticks whole periods, the most that fit:
      the timeline it leaves is the one `ClockEffect` describes. */
  lemma {:induction false} ClockDone(pins: seq<nat>, res: nat, smps: nat, onTime: nat, minimumPulse: nat,
                  rows0: seq<seq<bool>>, pin: int, period: int, h: nat, ticks: nat, rows: seq<seq<bool>>)
    requires res > 0 && smps == RoundDiv(onTime, res) && Shaped(pins, smps, rows0)
    requires period > 0 && period >= 2 * minimumPulse && period % (2 * res) == 0 && h == period / (2 * res)
    requires ticks * period <= onTime < ticks * period + period
    requires pin in pins ==> h > 0 && ClockSpan(h, ticks) <= smps
                             && rows == rows0[FirstIndex(pins, pin) := ClockRow(rows0[FirstIndex(pins, pin)], h, ticks)]
    requires pin !in pins ==> ticks == 0 && rows == rows0
    ensures ClockEffect(pins, res, smps, onTime, minimumPulse, rows0, pin, period) == Edit(Pass, rows)
  {
    DivFromBounds(onTime, period, ticks);
    if period > onTime {
      MulBounds(ticks, period);
      if pin in pins {
        var ch := FirstIndex(pins, pin);
        assert rows0[ch := rows0[ch]] == rows0;
      }
    }
  }

  /** _write_instruction: nothing for an empty row list, an IndexError reading
      column 0 of empty rows, otherwise the run-length program. */
  function WriteSpec(pins: seq<nat>, res: nat, chs: seq<seq<bool>>, loops: Loops, first: nat): Issued<nat>
    requires |chs| == |pins| && (|chs| == 0 || Rect(chs))
  {
    if |chs| == 0 then Issued(Pass, [])
    else if Width(chs) == 0 then Issued(Fail(EmptyCycle), [])
    else Issued(Pass, CompileSpec(chs, pins, res, loops, first))
  }

  /** The STOP instruction program issues after the sequence when auto_stop is set. */
  function StopInstr(res: nat): Instr<nat>
  {
    Instr(0, Stop, 0, 2 * res)
  }

  /** program(loops): check the loop count, validate, compile, then STOP when
      auto_stop is set. An exception ends the call, so later steps issue nothing. */
  function ProgramSpec(pins: seq<nat>, res: nat, minimumPulse: nat, autoStop: bool,
                       rows: seq<seq<bool>>, loops: Loops, first: nat): Issued<nat>
    requires res > 0 && |rows| == |pins|
  {
    if loops == Fin(0) then Issued(Fail(LoopsNotPositive), [])
    else
      var v := ValidateSpec(rows, minimumPulse / res);
      if v.Fail? then Issued(v, [])
      else
        var w := WriteSpec(pins, res, rows, loops, first);
        if w.outcome.Fail? then w
        else Issued(Pass, w.instrs + if autoStop then [StopInstr(res)] else [])
  }

  /** program either raises and issues nothing, or issues the compiled program and
      STOP when auto_stop is set; it passes exactly when the loop count is positive,
      the validator accepts and the cycle has at least one sample. */
  lemma ProgramOutcome(pins: seq<nat>, res: nat, minimumPulse: nat, autoStop: bool,
                       rows: seq<seq<bool>>, loops: Loops, first: nat)
    requires res > 0 && |rows| == |pins|
    ensures var p := ProgramSpec(pins, res, minimumPulse, autoStop, rows, loops, first);
            && (p.outcome == Pass <==>
                  loops != Fin(0) && ValidateSpec(rows, minimumPulse / res) == Pass && Rect(rows) && Width(rows) > 0)
            && (p.outcome.Fail? ==> p.instrs == [])
            && (loops == Fin(0) ==> p.outcome == Fail(LoopsNotPositive))
            && (p.outcome == Pass ==>
                  p.instrs == CompileSpec(rows, pins, res, loops, first) + if autoStop then [StopInstr(res)] else [])
  {
  }

  /** What an accepted call to program guarantees: every run of identical columns
      lasts at least minimumPulse / res samples, the issued program is the compiled
      one followed by STOP when auto_stop is set, and playing the compiled part back
      reproduces the timeline sample by sample (the cycle loops times over for a
      homogeneous timeline wrapped in a loop). */
  lemma {:induction false} ProgramAccepted(pins: seq<nat>, res: nat, minimumPulse: nat, autoStop: bool,
                                           rows: seq<seq<bool>>, loops: Loops, first: nat)
    requires res > 0 && |rows| == |pins|
    requires ProgramSpec(pins, res, minimumPulse, autoStop, rows, loops, first).outcome == Pass
    ensures Rect(rows) && Width(rows) > 0 && loops != Fin(0)
    ensures forall j :: 0 <= j < |Streaks(rows)| ==> Streaks(rows)[j] >= minimumPulse / res
    ensures var p := ProgramSpec(pins, res, minimumPulse, autoStop, rows, loops, first).instrs;
            var body := CompileSpec(rows, pins, res, loops, first);
            && p == body + (if autoStop then [StopInstr(res)] else [])
            && (!(Repeats(loops) && Homogeneous(rows)) ==>
                  Expand(body, res) == seq(Width(rows), d requires 0 <= d < Width(rows) => FlagAt(rows, pins, d)))
            && (Repeats(loops) && Homogeneous(rows) ==>
                  Expand(body, res)
                    == seq(Width(rows) * loops.n, d requires 0 <= d < Width(rows) * loops.n =>
                             FlagAt(rows, pins, d % Width(rows))))
  {
    ProgramOutcome(pins, res, minimumPulse, autoStop, rows, loops, first);
    RejectsIffShortRun(rows, minimumPulse / res);
    PlaybackMatchesTimeline(rows, pins, res, loops, first);
  }

  class PBInd {
    const pins: seq<nat>
    const res: nat
    const onTime: nat
    const minimumPulse: nat
    const autoStop: bool
    /** Samples per cycle: round(onTime / res). */
    const smps: nat
    /** The per-pin timeline; row i belongs to pins[i]. */
    var rows: seq<seq<bool>>

    ghost predicate Valid()
      reads this
    {
      res > 0 && onTime % 10 == 0 && smps == RoundDiv(onTime, res) && Shaped(pins, smps, rows)
    }

    constructor (pins: seq<nat>, onTime: nat, res: nat, minimumPulse: nat, autoStop: bool)
      requires onTime % 10 == 0 && res > 0
      ensures Valid()
      ensures this.pins == pins && this.onTime == onTime && this.res == res
      ensures this.minimumPulse == minimumPulse && this.autoStop == autoStop
      ensures smps == RoundDiv(onTime, res)
      ensures rows == seq(|pins|, _ => Zeros(smps))
    {
      this.pins := pins;
      this.onTime := onTime;
      this.res := res;
      this.minimumPulse := minimumPulse;
      this.autoStop := autoStop;
      smps := RoundDiv(onTime, res);
      rows := seq(|pins|, _ => Zeros(RoundDiv(onTime, res)));
    }

    /** __init__: rejects a cycle that is not a multiple of 10 ns (the literal 10,
        whatever the resolution); a zero resolution fails on the division. */
    static method Create(pins: seq<nat>, onTime: nat, res: nat, minimumPulse: nat, autoStop: bool)
      returns (r: Result<PBInd, Error>)
      ensures onTime % 10 != 0 ==> r == Failure(CycleNotMultipleOfTen(onTime))
      ensures onTime % 10 == 0 && res == 0 ==> r == Failure(ZeroResolution)
      ensures onTime % 10 == 0 && res > 0 ==>
                && r.Success? && fresh(r.value) && r.value.Valid()
                && r.value.pins == pins && r.value.onTime == onTime && r.value.res == res
                && r.value.minimumPulse == minimumPulse && r.value.autoStop == autoStop
                && r.value.smps == RoundDiv(onTime, res)
                && r.value.rows == seq(|pins|, _ => Zeros(RoundDiv(onTime, res)))
    {
      if onTime % 10 != 0 {
        return Failure(CycleNotMultipleOfTen(onTime));
      }
      if res == 0 {
        return Failure(ZeroResolution);
      }
      var p := new PBInd(pins, onTime, res, minimumPulse, autoStop);
      return Success(p);
    }

    /** _get_ch: the first row position of pin, or nothing for an unknown pin. */
    method GetCh(pin: int) returns (r: Option<nat>)
      ensures pin in pins ==> r == Some(FirstIndex(pins, pin))
      ensures pin !in pins ==> r == None
    {
      var d := 0;
      while d < |pins|
        invariant 0 <= d <= |pins|
        invariant forall j :: 0 <= j < d ==> pins[j] != pin
      {
        if pins[d] == pin {
          return Some(d);
        }
        d := d + 1;
      }
      return None;
    }

    /** _hex_flag: ORs 2^pins[d] into the flag for every high position d. */
    method HexFlag(state: seq<bool>) returns (flag: nat)
      requires |state| <= |pins|
      ensures flag == Flag(pins, state)
    {
      flag := 0;
      var d := 0;
      while d < |state|
        invariant 0 <= d <= |state|
        invariant flag == Flag(pins, state[..d])
      {
        assert state[..d + 1][..d] == state[..d];
        if state[d] {
          flag := Bits.SetBit(flag, pins[d]);
        }
        d := d + 1;
      }
      assert state[..|state|] == state;
    }

    /** _get_state: the states of the first n rows at one sample. */
    method GetState(index: nat, chs: seq<seq<bool>>, n: nat) returns (s: seq<bool>)
      requires n <= |chs| && forall i :: 0 <= i < n ==> index < |chs[i]|
      ensures |s| == n && forall i :: 0 <= i < n ==> s[i] == chs[i][index]
    {
      s := [];
      var i := 0;
      while i < n
        invariant 0 <= i <= n
        invariant |s| == i && forall k :: 0 <= k < i ==> s[k] == chs[k][index]
      {
        s := s + [chs[i][index]];
        i := i + 1;
      }
    }

    /** _set: writes val into samples start/res .. start/res + length/res - 1 of
        pin's row, after the alignment and range checks. */
    method Set(pin: int, start: int, length: int, val: bool) returns (r: Outcome<Error>)
      requires Valid()
      modifies this
      ensures Valid()
      ensures Edit(r, rows) == SetEffect(pins, res, smps, old(rows), pin, start, length, val)
    {
      if start % res != 0 {
        return Fail(StartMisaligned(start));
      }
      if length % res != 0 {
        return Fail(LengthMisaligned(length));
      }
      var startSmp := start / res;
      var stopSmp := startSmp + length / res - 1;
      if startSmp < 0 || startSmp > smps {
        return Fail(StartOutOfRange(startSmp));
      } else if stopSmp > smps {
        return Fail(StopOutOfRange(stopSmp));
      }
      if stopSmp >= startSmp {
        var ch := GetCh(pin);
        if ch.None? {
          return Fail(UnknownPin(pin));
        }
        rows := rows[ch.value := SetRow(rows[ch.value], startSmp, stopSmp, val)];
      }
      return Pass;
    }

    /** on: sets the pin high over the interval. */
    method On(pin: int, start: int, length: int) returns (r: Outcome<Error>)
      requires Valid()
      modifies this
      ensures Valid()
      ensures Edit(r, rows) == SetEffect(pins, res, smps, old(rows), pin, start, length, true)
    {
      r := Set(pin, start, length, true);
    }

    /** off: sets the pin low over the interval. */
    method Off(pin: int, start: int, length: int) returns (r: Outcome<Error>)
      requires Valid()
      modifies this
      ensures Valid()
      ensures Edit(r, rows) == SetEffect(pins, res, smps, old(rows), pin, start, length, false)
    {
      r := Set(pin, start, length, false);
    }

    /** make_clock: after the two checks, sweeps whole periods across the cycle.
        A period of 0 with a minimum pulse of 0 makes the source loop forever. */
    method MakeClock(pin: int, period: int) returns (r: Outcome<Error>)
      requires Valid()
      requires period != 0 || minimumPulse > 0
      modifies this
      ensures Valid()
      ensures Edit(r, rows) == ClockEffect(pins, res, smps, onTime, minimumPulse, old(rows), pin, period)
    {
      if period < 2 * minimumPulse {
        return Fail(ClockTooShort(period));
      }
      if period % (2 * res) != 0 {
        return Fail(ClockMisaligned(period));
      }
      var h := period / (2 * res);
      ClockHalf(res, period, h);
      ghost var rows0 := rows;
      ghost var ch := if pin in pins then FirstIndex(pins, pin) else 0;
      var ticks: nat := 0;
      var cursor: nat := 0;
      while cursor + period <= onTime
        invariant Valid() && rows0 == old(rows)
        invariant cursor == ticks * period && cursor <= onTime
        invariant ClockSpan(h, ticks) <= smps
        invariant pin in pins ==> rows == rows0[ch := ClockRow(rows0[ch], h, ticks)]
        invariant pin !in pins ==> ticks == 0 && rows == rows0
        decreases onTime - cursor
      {
        ClockRoom(res, onTime, period, h, ticks);
        ClockCursor(res, period, h, ticks);
        var start := cursor;
        r := On(pin, cursor, period / 2);
        if pin !in pins {
          ClockUnknownPin(pins, res, smps, rows, pin, h, period / 2);
          return;
        }
        ClockTick(pins, res, smps, rows0, pin, h, ticks, start, period / 2);
        cursor := cursor + period / 2;
        r := Off(pin, cursor, period / 2);
        cursor := cursor + period / 2;
        MulAdd(ticks, 1, period);
        ticks := ticks + 1;
      }
      ClockDone(pins, res, smps, onTime, minimumPulse, rows0, pin, period, h, ticks, rows);
      return Pass;
    }

    /** _validate_pulse_instructions: scans the columns left to right, tracking
        the current streak, the shortest one so far and its boundary channels, and
        fails when the shortest streak is below minimumPulse / res samples. */
    method Validate(chs: seq<seq<bool>>) returns (r: Outcome<Error>)
      requires res > 0
      ensures r == ValidateSpec(chs, minimumPulse / res)
    {
      var span := minimumPulse / res;
      if !Rect(chs) {
        return Fail(MalformedTimeline);
      }
      var w := |chs[0]|;
      // current_streak, streak_start, change_indices, min_streak (None as Inf),
      // min_streak_index, start_channels, end_channels
      var scan := Scan([], 0, 1, Inf, 0, [], []);
      var i: nat := 1;
      while i < w
        invariant 1 <= i && (i <= w || (w == 0 && i == 1))
        invariant scan == ScanOf(chs, i)
      {
        if IsChange(chs, i) {
          var closed := Record(chs, scan, ChangedRows(chs, i));
          scan := closed.(changes := scan.changes + [i], streakStart := i, currentStreak := 1);
        } else {
          scan := scan.(currentStreak := scan.currentStreak + 1);
        }
        i := i + 1;
      }
      ScanDone(chs, i);
      var last := Record(chs, scan, []);
      if last.minStreak.n < span {
        return Fail(PulseTooShort(Diagnostic(last.minStreak.n, last.minIndex, scan.changes,
                                             last.startChannels, last.endChannels)));
      }
      return Pass;
    }

    /** One iteration of the scan of _write_instruction, at column d: when the column
        differs from the state of the current run, the run's instruction is issued
        and a new run starts at d. The scan state moves from the one after columns
        1..d-1 to the one after columns 1..d; (ghost) log0 and first0 are the log and
        the next address before the scan started. */
    method ScanStep(chs: seq<seq<bool>>, loops: Loops, sink: Sink<nat>, d: nat,
                    prevD: nat, prevState: seq<bool>, curCommand: Opcode, firstInst: ExtNat,
                    ghost issued: seq<Instr<nat>>, ghost log0: seq<Instr<nat>>, ghost first0: nat)
      returns (prevD': nat, prevState': seq<bool>, curCommand': Opcode, firstInst': ExtNat,
               ghost issued': seq<Instr<nat>>)
      requires |chs| == |pins| && Rect(chs) && 1 <= d < Width(chs)
      requires Emit(prevD, prevState, curCommand, firstInst, issued) == EmitOf(chs, pins, res, loops, first0, d)
      requires sink.log == log0 + issued && sink.base + |log0| == first0
      modifies sink
      ensures Emit(prevD', prevState', curCommand', firstInst', issued')
                == EmitOf(chs, pins, res, loops, first0, d + 1)
      ensures sink.log == log0 + issued'
    {
      ghost var s := Emit(prevD, prevState, curCommand, firstInst, issued);
      prevD', prevState', curCommand', firstInst', issued' := prevD, prevState, curCommand, firstInst, issued;
      var currentState := GetState(d, chs, |pins|);
      assert currentState == Col(chs, d);
      if currentState != prevState {
        var hexFlag := HexFlag(prevState);
        var duration := Scaled(d - prevD, res);
        var inst := Instr(hexFlag, curCommand, LoopOperand(loops), duration);
        EmitAdvance(chs, pins, res, loops, first0, d, s, inst);
        var addr := sink.Issue(inst);
        issued' := issued + [inst];
        firstInst' := Fin(MinExt(addr, firstInst));
        curCommand' := Continue;
        prevState' := currentState;
        prevD' := d;
      } else {
        EmitKeep(chs, pins, res, loops, first0, d, s);
      }
    }

    /** The scan of _write_instruction over columns 1..w-1. Returns the loop
        variables as the scan leaves them, and (ghost) the instructions issued. */
    method ScanColumns(chs: seq<seq<bool>>, loops: Loops, sink: Sink<nat>)
      returns (prevD: nat, prevState: seq<bool>, curCommand: Opcode, firstInst: ExtNat, ghost issued: seq<Instr<nat>>)
      requires |chs| == |pins| && |chs| > 0 && Rect(chs) && Width(chs) > 0
      modifies sink
      ensures Emit(prevD, prevState, curCommand, firstInst, issued)
                == EmitOf(chs, pins, res, loops, old(sink.NextAddress()), Width(chs))
      ensures sink.log == old(sink.log) + issued
    {
      ghost var log0 := sink.log;
      ghost var first0 := sink.NextAddress();
      issued := [];
      prevD := 0;
      prevState := GetState(0, chs, |pins|);
      assert prevState == Col(chs, 0);
      curCommand := if Repeats(loops) then Loop else Continue;
      firstInst := Inf;
      var d: nat := 1;
      while d < |chs[0]|
        invariant 1 <= d <= Width(chs)
        invariant Emit(prevD, prevState, curCommand, firstInst, issued) == EmitOf(chs, pins, res, loops, first0, d)
        invariant sink.log == log0 + issued && sink.base + |log0| == first0
      {
        prevD, prevState, curCommand, firstInst, issued :=
          ScanStep(chs, loops, sink, d, prevD, prevState, curCommand, firstInst, issued, log0, first0);
        d := d + 1;
      }
    }

    /** _write_instruction: nothing for an empty row list, an IndexError for empty
        rows; otherwise the scan, then the closing instruction of the last run. */
    method WriteInstruction(chs: seq<seq<bool>>, loops: Loops, sink: Sink<nat>) returns (r: Outcome<Error>)
      requires |chs| == |pins| && (|chs| == 0 || Rect(chs))
      modifies sink
      ensures var w := WriteSpec(pins, res, chs, loops, old(sink.NextAddress()));
              r == w.outcome && sink.log == old(sink.log) + w.instrs
    {
      if |chs| == 0 {
        return Pass;
      }
      var w := |chs[0]|;
      if w == 0 {
        return Fail(EmptyCycle);
      }
      ghost var log0 := sink.log;
      ghost var first0 := sink.NextAddress();
      var lastCommand := if loops.Inf? then Branch else if Repeats(loops) then EndLoop else Continue;
      var prevD, prevState, curCommand, firstInst, issued := ScanColumns(chs, loops, sink);
      var hexFlag := HexFlag(prevState);
      var duration := Scaled(w - prevD, res);
      if firstInst.Inf? && Repeats(loops) {
        lastCommand := Continue;
        duration := Scaled(duration, loops.n);
      }
      var finalOperand := if firstInst.Inf? then 0 else firstInst.n;
      var last := Instr(hexFlag, lastCommand, finalOperand, duration);
      assert last == CloseInstr(pins, res, loops, Emit(prevD, prevState, curCommand, firstInst, issued), w);
      var _ := sink.Issue(last);
      EmitComplete(chs, pins, res, loops, first0);
      assert sink.log == log0 + CompileSpec(chs, pins, res, loops, first0);
      return Pass;
    }

    /** program(loops): loops < 1 raises first; the validator runs before the
        compiler, and STOP follows the sequence when auto_stop is set. */
    method Program(loops: Loops, sink: Sink<nat>) returns (r: Outcome<Error>)
      requires Valid()
      modifies sink
      ensures var p := ProgramSpec(pins, res, minimumPulse, autoStop, rows, loops, old(sink.NextAddress()));
              r == p.outcome && sink.log == old(sink.log) + p.instrs
    {
      if loops == Fin(0) {
        return Fail(LoopsNotPositive);
      }
      r := Validate(rows);
      if r.Fail? {
        return;
      }
      r := WriteInstruction(rows, loops, sink);
      if r.Fail? {
        return;
      }
      if autoStop {
        var _ := sink.Issue(StopInstr(res));
      }
    }
  }
}
