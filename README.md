# PulseBlaster independent-pin driver: a verified model

This project models the core of `qt3uw/pulseblaster`. Two source files are covered.

`PBInd.py` is the class that lets each output pin of a SpinCore PulseBlaster be programmed on its own:

- it keeps a per-pin timeline of binary samples;
- it writes intervals (`on`, `off`, `_set`) and square-wave clocks (`make_clock`) into that timeline;
- it validates the timeline against the board's minimum pulse width (`_validate_pulse_instructions`);
- it compiles the timeline into run-length encoded device instructions (`_write_instruction`, `_hex_flag`, `_get_state`);
- `program` runs those steps in order.

`pb.py` supplies the bit-array helpers `_array_to_bool` and `_array_to_hex`, and `write_sequence`. `write_sequence` programs a list of states and durations as one LOOP ... END_LOOP block.

The Dafny modules:

| module | contents |
|---|---|
| `Wrappers`, `Errors` | Option, Outcome, Result; every exception the core raises, as a value |
| `Instructions` | the instruction record and opcodes; extended naturals for `float('inf')` |
| `Instructions.Sink` | the driver session: an append-only log whose next address is `base + |log|` |
| `Bits`, `Arith` | bit sets of naturals and small arithmetic facts |
| `Timeline` | the row edits `_set` and `make_clock` perform, as pure functions, including the `row[stop:-1]` tail |
| `Runs` | columns, change points, runs of identical columns and their lengths |
| `Validation` | the validator's verdict and diagnostic as a reference definition over runs |
| `Compile` | the compiled program as a reference definition (one instruction per run), the compiler's scan state, and the lemmas about the program |
| `PBInd` | the class `PBInd`, whose methods update the timeline in place or issue instructions into a `Sink`, each proved against the function that specifies it |
| `PB` | `str()`, `int(s, 2)` and `hex()` as functions, `_array_to_bool`, `_array_to_hex`, and `write_sequence` over a `Sink` |

A device instruction is issued by `Sink.Issue`. It appends the instruction to the log and returns its address, as `pb_inst_pbonly` does.

Two methods of the source are each split into helper methods.

- `ScanStep` and `ScanColumns` are one iteration and the loop of `_write_instruction`. They are proved against the scan state `Compile.EmitOf`, and `Compile.EmitComplete` links that state to the program `Compile.CompileSpec`.
- `SequenceStep`, `IssueNext` and `IssueAt` are one iteration of `write_sequence`. They are proved against `PB.SequenceFrom` and `PB.SequenceInstr`, the parts `PB.SequenceSpec` is built from.

The model follows the code, including these behaviours:

- The constructor checks `on_time % 10` with the literal 10, as its "multiple of 10ns" message says (PBInd.py:27-28). The resolution plays no part in that check.
- `_set` rebuilds the row as `row[:start] + val * n + row[stop:-1]`:
  - every sample after the interval moves one place to the right, and the last sample is dropped;
  - the stop sample may be as large as `smps`, and a write that ends there makes the row one sample longer.
- `make_clock` writes its periods one `on` and one `off` at a time, so each write shifts the tail:
  - on any row, the first `2ht` samples hold the clock pattern;
  - every later sample is the old sample `2t` places to its left, so an earlier pulse moves right (`Timeline.ClockOverRow`);
  - on an all-zero row, the rest of the row stays zero (`Timeline.ClockFromZeros`).
- Every non-final instruction carries `int(loops)` as its operand. The last one points back at the first address, and falls back to 0 when nothing was issued before it.
- The diagnostic's channel lists are the row positions that `np.where` returns (PBInd.py:278-281).

## Model

| member | source | states |
|---|---|---|
| PBInd.PBInd.Create | pulseblaster/PBInd.py:18-37 | an `on_time` that is not a multiple of the literal 10 raises, whatever the resolution. A zero resolution fails. Otherwise the new object has `smps = round(on_time / res)` (half to even), one all-zero row of `smps` samples per pin, and the given settings |
| PBInd.PBInd.constructor | pulseblaster/PBInd.py:25-34 | the fields are the arguments, `smps` is `round(on_time / res)` and every row is `smps` zeros; the class invariant holds |
| PBInd.FirstIndex | pulseblaster/PBInd.py:218-228 | the position found is the first one whose pin number equals the pin |
| PBInd.PBInd.GetCh | pulseblaster/PBInd.py:218-228 | a known pin gives its first row position, an unknown pin gives nothing (the source raises) |
| PBInd.SetEffect | pulseblaster/PBInd.py:190-216 | whatever `_set` does, every row keeps `smps` or `smps + 1` samples and there is still one row per pin |
| PBInd.ClockEffect | pulseblaster/PBInd.py:63-88 | whatever `make_clock` does, the timeline keeps its shape |
| PBInd.PBInd.Set | pulseblaster/PBInd.py:190-216 | result and new timeline are exactly `SetEffect`: the checks in source order (start alignment, length alignment, start range `0..smps`, stop range `<= smps`), nothing written for an empty interval, the unknown-pin error only for a non-empty one, and otherwise only the pin's row rewritten by `SetRow`; every row keeps `smps` or `smps + 1` samples |
| PBInd.PBInd.On | pulseblaster/PBInd.py:39-49 | `_set` with value high |
| PBInd.PBInd.Off | pulseblaster/PBInd.py:51-61 | `_set` with value low |
| Timeline.SetRowSlices | pulseblaster/PBInd.py:215 | the row `_set` writes is `row[:start] + [val] * (stop - start + 1) + row[stop:-1]`, with Python's `-1` slice end |
| Timeline.SetRowSamples | pulseblaster/PBInd.py:215 | samples before the interval are kept, the interval takes the value, and every later sample is the old sample one place to its left |
| Timeline.SetRow | pulseblaster/PBInd.py:215 | a write that ends before the last sample keeps the row length; one that ends at sample `len(row)` makes the row one longer |
| Timeline.PyTail | pulseblaster/PBInd.py:215 | `row[stop:-1]`: the samples from `stop` up to, not including, the last one, and empty when `stop + 1 >= len(row)` |
| Timeline.RoundDiv | pulseblaster/PBInd.py:33 | `round(a / b)` is within one of the floor. It is the nearest integer when there is no tie, and even on a tie. An exact quotient is returned unchanged |
| PBInd.PBInd.MakeClock | pulseblaster/PBInd.py:63-88 | result and new timeline are exactly `ClockEffect`: a too-short period and a misaligned period raise, in that order. Otherwise `floor(on_time / period)` periods are written on the pin's row, high half first, from time 0. An unknown pin raises on the first `on` and changes nothing |
| PBInd.ClockFits | pulseblaster/PBInd.py:83 | the periods the loop writes fit in the cycle, both in samples and in ns |
| PBInd.ClockTick | pulseblaster/PBInd.py:84-87 | one pass of the clock loop: the `on` and the `off` both pass and add exactly one period to the row |
| PBInd.ClockDone | pulseblaster/PBInd.py:80-88 | when the loop stops after the most periods that fit, the timeline it leaves is the one `ClockEffect` describes |
| Timeline.PeriodShift | pulseblaster/PBInd.py:84-87 | one period on any row keeps the samples before it, writes `h` highs then `h` lows, and moves every later sample two places right |
| Timeline.ClockOverRow | pulseblaster/PBInd.py:80-88 | on any row, `t` periods leave the clock pattern in the first `2ht` samples, and every later sample is the old one `2t` places to its left |
| Timeline.ClockPrefix | pulseblaster/PBInd.py:80-88 | after `t` periods on any row, the first `2ht` samples are exactly the clock pattern |
| Timeline.ClockTail | pulseblaster/PBInd.py:80-88 | after `t` periods on any row, every sample from `2ht` on is the old sample `2t` places to its left |
| Timeline.ClockFromZeros | pulseblaster/PBInd.py:80-88 | on an all-zero row, `t` clock periods give the pattern high, low, ... for `2ht` samples and zeros after, despite the tail shift of each write |
| PBInd.PBInd.HexFlag | pulseblaster/PBInd.py:230-237 | the flag is `Flag(pins, state)` |
| Compile.Flag | pulseblaster/PBInd.py:230-237 | bit `b` of the flag is set exactly when some high position has pin number `b` (the OR of `2**pins[d]`) |
| Bits.SetBit | pulseblaster/PBInd.py:236 | `x | 2**p` has exactly the bits of `x` and bit `p` |
| Bits.SetBitValue | pulseblaster/PBInd.py:236 | OR with `2**p` adds `2**p` exactly when that bit was clear |
| Compile.FlagIsWeightSum | pulseblaster/PBInd.py:230-237 | with distinct pin numbers the flag is the sum of the high pins' weights; an all-low state gives 0 |
| Compile.FlagInjective | pulseblaster/PBInd.py:230-237 | with distinct pin numbers, two different states give different flags |
| PBInd.PBInd.GetState | pulseblaster/PBInd.py:239-244 | the state is the first `n` rows' samples at the index, in row order |
| PBInd.PBInd.Validate | pulseblaster/PBInd.py:246-308 | the verdict is `ValidateSpec`. The loop's scan state after each column equals the reference scan, so the diagnostic reported is the one for the first shortest run |
| Validation.FirstMin | pulseblaster/PBInd.py:273-275 | the position found is a smallest element, and every earlier element is strictly larger (the scan replaces its minimum only on `<`) |
| Validation.RejectsIffShortRun | pulseblaster/PBInd.py:288-308 | the timeline is rejected exactly when some run, the final one included, is shorter than `int(minimum_pulse / res)` samples |
| Validation.DiagnosticIsFirstShortest | pulseblaster/PBInd.py:268-290 | the reported run is a shortest one with every earlier run strictly longer; the change list holds exactly the change points, in increasing order |
| Validation.DiagnosticStartChannels | pulseblaster/PBInd.py:277-280 | the start list is empty exactly when the run starts at sample 0; otherwise it lists the row positions that changed at the run's first sample |
| Validation.DiagnosticEndChannels | pulseblaster/PBInd.py:281-295 | the end list is empty exactly when the run reaches the end of the timeline; otherwise it lists the row positions that changed just after the run |
| Validation.HomogeneousVerdict | pulseblaster/PBInd.py:259-295 | a timeline that never changes is one run of the whole cycle. A zero-sample cycle counts as length 1, from the initial `current_streak = 1`. It is rejected exactly when that length is below the span |
| Validation.GlitchRejected | pulseblaster/PBInd.py:268-298 | a one-sample glitch is rejected when the span is at least 2. The diagnostic reports a streak of 1, lists the glitch among the changes, and starts at or before it |
| Runs.Changes | pulseblaster/PBInd.py:268-285 | the change points below `i` are exactly the columns in `1..i-1` that differ from the column before |
| Runs.ChangesIncreasing | pulseblaster/PBInd.py:283 | the change points are listed in increasing order, as `change_indices.append(i)` records them |
| Runs.StartsIncreasing | pulseblaster/PBInd.py:259-295 | the run starts, sample 0 and then every change point, increase strictly |
| Runs.RunConstant | pulseblaster/PBInd.py:268-270 | every column of a run equals the run's first column |
| Runs.Streaks | pulseblaster/PBInd.py:259-295 | one length per run, each at least 1 and equal to the run's end minus its start |
| Runs.Diff | pulseblaster/PBInd.py:278-281 | `np.where(a != b)` lists exactly the positions where the columns differ |
| Runs.DiffIncreasing | pulseblaster/PBInd.py:278-281 | those positions come in increasing order |
| PBInd.PBInd.WriteInstruction | pulseblaster/PBInd.py:126-188 | an empty row list issues nothing. Empty rows raise before anything is issued. Otherwise exactly the program `CompileSpec` is appended to the session, with loop-back address the session's next address |
| PBInd.PBInd.ScanColumns | pulseblaster/PBInd.py:132-169 | after the scan over columns `1..w-1`, the loop variables and the instructions issued are those of the reference scan state `EmitOf` |
| PBInd.PBInd.ScanStep | pulseblaster/PBInd.py:150-169 | one column: a change issues the current run's instruction and opens a new run, and no change leaves the state as it is |
| Compile.CompileSpec | pulseblaster/PBInd.py:150-185 | one instruction per run of identical columns |
| Compile.EmitComplete | pulseblaster/PBInd.py:171-185 | the scan followed by the closing instruction issues exactly the reference program, one instruction per run |
| Compile.CompileShape | pulseblaster/PBInd.py:150-185 | there is one instruction more than there are change points. Instruction `j` sets exactly the bits of the high pins of run `j` |
| Compile.AllLowRun | pulseblaster/PBInd.py:157 | a run during which every row is low compiles to an instruction with flag 0 |
| Compile.SinglePassOpcodes | pulseblaster/PBInd.py:137-185 | for `loops == 1` every instruction is CONTINUE. The non-final ones carry `loops`, and the last carries the first address, or 0 when it is the only one |
| Compile.RepeatOpcodes | pulseblaster/PBInd.py:143-185 | for `loops > 1` and at least one change: LOOP first, END_LOOP last with the first instruction's address, CONTINUE between. Every non-final instruction carries `loops` |
| Compile.InfiniteOpcodes | pulseblaster/PBInd.py:139-185 | for infinite loops: BRANCH last, back to the first address, or to 0 when it is the only instruction. CONTINUE with operand 0 before it |
| Compile.LoopsBalanced | pulseblaster/PBInd.py:137-185 | only the last instruction can be END_LOOP or BRANCH, only the first can be LOOP, and END_LOOP comes only after a LOOP |
| Compile.HomogeneousRepeat | pulseblaster/PBInd.py:174-185 | a timeline without changes and `loops > 1` compiles to one CONTINUE of the cycle times `loops`, with operand 0 |
| Compile.PrefixDuration | pulseblaster/PBInd.py:158 | the first `m` instructions end exactly at the start of run `m`: no gaps, no overlaps |
| Compile.DurationsSum | pulseblaster/PBInd.py:158-180 | the durations add up to one cycle, or to `loops` cycles for the homogeneous timeline in a loop |
| Compile.LastDuration | pulseblaster/PBInd.py:173-180 | the last instruction lasts from the last change to the end of the cycle (the "off by one" comment notwithstanding) |
| Compile.PlaybackMatchesTimeline | pulseblaster/PBInd.py:126-188 | playing the program back sample by sample reproduces the flag of every column of the timeline (the cycle `loops` times over for the homogeneous timeline in a loop) |
| Compile.MinimalEncoding | pulseblaster/PBInd.py:154-169 | with distinct pin numbers, consecutive instructions have different flags: runs are maximal |
| PBInd.PBInd.Program | pulseblaster/PBInd.py:99-114 | result and issued instructions are exactly `ProgramSpec`: the loop-count check first, then the validator, then the compiler, then STOP when auto_stop is set; an exception issues nothing after it |
| PBInd.ProgramOutcome | pulseblaster/PBInd.py:99-114 | `program` passes exactly when `loops >= 1`, the validator accepts and the cycle has a sample. A failure issues nothing. `loops == 0` raises first. A pass issues the compiled program, then STOP when auto_stop is set |
| PBInd.ProgramAccepted | pulseblaster/PBInd.py:99-114 | after an accepted `program`, every run lasts at least the minimum pulse. The issued program is the compiled one plus an optional STOP, and it plays back the timeline |
| PB.ArrayToBool | pulseblaster/pb.py:16-20 | the text is `"0b"` followed by `str(int(el))` of every element, in order (`BoolText`) |
| PB.BoolTextOfBits | pulseblaster/pb.py:16-20 | on a 0/1 array the text is `"0b"` and one digit per element, `2 + len(arr)` characters |
| PB.NatStringRoundTrip | pulseblaster/pb.py:19 | `str(n)` writes `n` in decimal: reading the digits back gives `n` |
| PB.ParseDigitsSucceeds | pulseblaster/pb.py:24 | the base-2 digit parse succeeds exactly on strings of the digits 0 and 1 |
| PB.ParsePrefixed | pulseblaster/pb.py:24 | `int("0b" + x, 2)` is the value of `x` when `x` is a non-empty binary string, and a ValueError otherwise |
| PB.HexRoundTrip | pulseblaster/pb.py:24 | `hex(v)` writes `v` in base 16 with no leading zero except for 0 itself |
| PB.ArrayToHex | pulseblaster/pb.py:22-25 | the result is `HexText(arr)`, i.e. `hex(int(_array_to_bool(arr), 2))` with its ValueError |
| PB.HexTextOfBits | pulseblaster/pb.py:22-25 | a non-empty 0/1 array gives `hex` of its value read with the first element as the most significant bit |
| PB.DigitsValue | pulseblaster/pb.py:16-24 | the digits of a 0/1 array parse back to its most-significant-first value |
| PB.HexTextSucceeds | pulseblaster/pb.py:22-25 | the call succeeds exactly on a non-empty array every element of which is written with 0s and 1s only. Any failure is the ValueError of `int(s, 2)`; an empty array leaves `"0b"`, which is rejected |
| PB.NonBitFails | pulseblaster/pb.py:22-25 | an element that is negative or between 2 and 9 makes the call raise |
| PB.TenIsTwoBits | pulseblaster/pb.py:19-24 | an element 10 is read as the two bits `10`: `[10]` gives `"0x2"` |
| PB.FlagsOfIndex | pulseblaster/pb.py:38-45 | the flag for index `i` is `_array_to_hex(states[i])` |
| PB.WriteSequence | pulseblaster/pb.py:35-46 | result and issued instructions are exactly `SequenceSpec`: one instruction per duration until a missing state or a rejected flag raises, and the END_LOOP operand is the LOOP's address |
| PB.SequenceValid | pulseblaster/pb.py:35-46 | on valid states, one instruction per duration is issued. Each carries hex of its state and its duration times 1000. The first is LOOP with operand `loops`, the last END_LOOP back to the LOOP's address, CONTINUE with operand `loops` between |
| PB.SequenceSingle | pulseblaster/pb.py:37-40 | a single duration gives a lone LOOP and no END_LOOP, because index 0 is checked first |
| PB.SequenceMissingState | pulseblaster/pb.py:36-46 | with fewer states than durations, one instruction per state present is issued, then the IndexError for index `len(states)` is raised |
| PB.SequenceRejectedState | pulseblaster/pb.py:36-46 | a state `_array_to_hex` rejects at index `k`, after valid ones, raises the ValueError after exactly `k` instructions |
| PB.SequenceFromAccepted | pulseblaster/pb.py:36-46 | with accepted flags, instruction `j` is the one its position calls for, for every `j` |
| PB.SequenceFromStops | pulseblaster/pb.py:36-46 | the first missing or rejected index ends the sequence with its error (IndexError or the flag's ValueError), after one instruction per earlier index |
| PB.SequenceAcceptedFields | pulseblaster/pb.py:36-46 | with every flag accepted, one instruction per duration with its flag and its duration times 1000, LOOP/`loops` first, END_LOOP/base last, CONTINUE/`loops` between |
| PB.FlagsOfBits | pulseblaster/pb.py:38-45 | on valid states, the flag of each index is `hex` of its state's most-significant-first value |
| PB.SequenceStep | pulseblaster/pb.py:36-46 | one pass of the loop: a missing or rejected state returns the error that ends the sequence, with the log as the specification has it; otherwise the instruction for index `i` is issued and the loop moves to `i + 1` |
| PB.IssueAt | pulseblaster/pb.py:37-46 | index 0 issues the LOOP and returns its address, the last index issues the END_LOOP back to that address, any other a CONTINUE |

## Left out

- Debug mode (`DEBUG_MODE`): the instruction text in `self.instructions`, `print_instructions`, the `print` calls, and `first_inst = 0` in debug mode. Only the live path, which issues instructions to the driver, is modelled.
- `print(loop)` in `write_sequence`: output only.
- The SpinCore API (`spinapi`) is not part of this model.
  - `pb_inst_pbonly` is the `Sink`: it appends one instruction and returns the next address. The session's first address is a parameter.
  - `pb_start_programming` and `pb_stop_programming` are not modelled.
    - In `program`, `not self._DEBUG_MODE & self._auto_stop` parses as `not (DEBUG_MODE & auto_stop)`, so in live mode programming starts whatever auto_stop is.
  - The unit constants `spinapi.ns` and `spinapi.ms` are taken as 1. A duration is the sample count times the resolution for `PBInd`, and the duration times 1000 for `write_sequence`.
- `initialize`, `close`, `reset`, `break_to` and `check_sequence` in `pb.py` only call the driver or raise NotImplementedError.
- Floating point. Times, lengths, periods and resolutions are integers, so `/` on exact multiples and `round` of a rational (half to even) are exact. Loop counts are naturals or `float('inf')`. Fractional or negative arguments, and float rounding error, are not modelled.
- `write_sequence` takes states as integer arrays, the values `int(el)` gives. The general syntax of `int(s, 2)` (underscores, whitespace, `0B`) is outside the model, since `str()` of an integer never produces it.
- PBInd.PBInd.Program: takes the loop count as a natural or infinity, so only `loops == 0` reaches the `loops < 1` error. Negative and fractional counts are not representable.
- PBInd.PBInd.MakeClock: requires `period != 0` or `minimum_pulse > 0`. With both zero the source's loop never advances and does not terminate.
- PBInd.PBInd.WriteInstruction: requires a row list that is empty or rectangular. `program` calls it only after the validator, which rejects every other shape. Direct calls on ragged rows are not modelled. The source takes the width from row 0 (PBInd.py:135), so a row shorter than row 0 raises IndexError in `_get_state`. The extra samples of a longer row are ignored without an error.
- PBInd.PBInd.Validate: a ragged or empty matrix gives a single `MalformedTimeline` error instead of numpy's exception. The error message's text (ns products, "initial state", "final state") is modelled as the diagnostic record it is formatted from.
- Concurrency and the session's actual hardware timing are outside the core.
- Pin numbers are naturals (`pins: seq<nat>`). A negative pin would make `2**pins[d]` a float, and the `|` in `_hex_flag` (PBInd.py:236) would raise TypeError. That error path is not modelled.
- The source's default arguments are not modelled: `DEBUG_MODE=0`, `on_time=4000`, `resolution=10`, `minimum_pulse=50` and `auto_stop=0` (PBInd.py:18-24), and `loops=1` of `write_sequence` (pb.py:35). Every argument is passed explicitly.
