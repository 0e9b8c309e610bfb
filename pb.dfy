/** pb.py: the bit-array helpers and write_sequence, which programs a list of
    states and durations as one LOOP ... END_LOOP block. Array elements are the
    integers int(el) makes of them; the hexadecimal flag is handed to the sink
    as the text Python's hex() produces. */
module PB {
  import opened Wrappers
  import opened Errors
  import opened Bits
  import opened Instructions

  // ----- str() of an integer -----

  function DigitChar(n: nat): char
    requires n < 10
  {
    "0123456789"[n]
  }

  /** str(n) for n >= 0: decimal digits, most significant first, no leading zero. */
  function NatString(n: nat): (s: string)
    ensures |s| >= 1
    decreases n
  {
    if n < 10 then [DigitChar(n)] else NatString(n / 10) + [DigitChar(n % 10)]
  }

  /** The number a string of decimal digits denotes. */
  function DecimalValue(s: string): nat
  {
    if |s| == 0 then 0
    else
      var c := s[|s| - 1];
      DecimalValue(s[..|s| - 1]) * 10 + (if '0' <= c <= '9' then (c as int) - ('0' as int) else 0)
  }

  /** NatString writes n in decimal: reading the digits back gives n. */
  lemma {:induction false} NatStringRoundTrip(n: nat)
    ensures DecimalValue(NatString(n)) == n
    decreases n
  {
    if n >= 10 {
      NatStringRoundTrip(n / 10);
      var s := NatString(n);
      assert s[..|s| - 1] == NatString(n / 10);
    }
  }

  /** str(n) for any integer: a minus sign before the digits of a negative number. */
  function IntString(n: int): (s: string)
    ensures |s| >= 1
  {
    if n < 0 then "-" + NatString(-n) else NatString(n)
  }

  // ----- _array_to_bool -----

  /** str(int(el)) of each element, concatenated in order. */
  function Digits(arr: seq<int>): (s: string)
    ensures |s| >= |arr|
  {
    if |arr| == 0 then "" else Digits(arr[..|arr| - 1]) + IntString(arr[|arr| - 1])
  }

  /** The text _array_to_bool builds. */
  function BoolText(arr: seq<int>): string
  {
    "0b" + Digits(arr)
  }

  /** One more element appends its str() to the text. */
  lemma DigitsSnoc(arr: seq<int>, i: nat)
    requires i < |arr|
    ensures "0b" + Digits(arr[..i + 1]) == ("0b" + Digits(arr[..i])) + IntString(arr[i])
  {
    assert arr[..i + 1][..i] == arr[..i];
  }

  /** _array_to_bool: appends str(int(el)) to "0b" for each element. */
  method ArrayToBool(arr: seq<int>) returns (bstr: string)
    ensures bstr == BoolText(arr)
  {
    bstr := "0b";
    var i := 0;
    while i < |arr|
      invariant 0 <= i <= |arr|
      invariant bstr == "0b" + Digits(arr[..i])
    {
      DigitsSnoc(arr, i);
      bstr := bstr + IntString(arr[i]);
      i := i + 1;
    }
    assert arr[..i] == arr;
  }

  /** Every element is 0 or 1. */
  predicate IsBitArray(arr: seq<int>)
  {
    forall i :: 0 <= i < |arr| ==> arr[i] == 0 || arr[i] == 1
  }

  /** On a 0/1 array the text is "0b" followed by one digit per element, in order. */
  lemma {:induction false} DigitsOfBits(arr: seq<int>)
    requires IsBitArray(arr)
    ensures var s := Digits(arr);
            && |s| == |arr|
            && forall i :: 0 <= i < |arr| ==> s[i] == BitChar(arr[i])
  {
    if |arr| > 0 {
      var init := arr[..|arr| - 1];
      DigitsOfBits(init);
      BitString(arr[|arr| - 1]);
      forall i | 0 <= i < |arr| - 1
        ensures Digits(arr)[i] == BitChar(arr[i])
      {
        assert init[i] == arr[i];
      }
    }
  }

  /** _array_to_bool on a 0/1 array: "0b" and one digit per element, 2 + len(arr) characters. */
  lemma BoolTextOfBits(arr: seq<int>)
    requires IsBitArray(arr)
    ensures var s := BoolText(arr);
            && |s| == 2 + |arr| && s[..2] == "0b"
            && forall i :: 0 <= i < |arr| ==> s[2 + i] == BitChar(arr[i])
  {
    DigitsOfBits(arr);
  }

  // ----- int(s, 2) -----

  predicate BinaryDigits(s: string)
  {
    forall i :: 0 <= i < |s| ==> s[i] == '0' || s[i] == '1'
  }

  /** The value of a string of binary digits, the first the most significant; None at
      the first character that is not a binary digit. */
  function ParseDigits(s: string): Option<nat>
  {
    if |s| == 0 then Some(0)
    else
      var p := ParseDigits(s[..|s| - 1]);
      var c := s[|s| - 1];
      if p.None? || (c != '0' && c != '1') then None
      else Some(2 * p.value + (if c == '1' then 1 else 0))
  }

  /** The parse succeeds exactly on strings of binary digits. */
  lemma {:induction false} ParseDigitsSucceeds(s: string)
    ensures ParseDigits(s).Some? <==> BinaryDigits(s)
  {
    if |s| > 0 {
      var init := s[..|s| - 1];
      ParseDigitsSucceeds(init);
      forall k | 0 <= k < |init| ensures init[k] == s[k] { }
    }
  }

  /** int(s, 2) on the texts _array_to_bool produces: an optional "0b" prefix,
      then at least one binary digit; anything else is a ValueError. */
  function ParseBase2(s: string): Result<nat, Error>
  {
    var digits := if |s| >= 2 && s[..2] == "0b" then s[2..] else s;
    var p := ParseDigits(digits);
    if |digits| == 0 || p.None? then Failure(InvalidBinaryLiteral) else Success(p.value)
  }

  /** int("0b" + x, 2): the value of x when x is a non-empty string of binary digits,
      a ValueError otherwise. */
  lemma ParsePrefixed(x: string)
    ensures ParseBase2("0b" + x)
              == if |x| == 0 || ParseDigits(x).None? then Failure(InvalidBinaryLiteral) else Success(ParseDigits(x).value)
  {
    var s := "0b" + x;
    assert s[..2] == "0b" && s[2..] == x;
  }

  // ----- hex() -----

  function HexChar(n: nat): char
    requires n < 16
  {
    "0123456789abcdef"[n]
  }

  function HexDigitValue(c: char): nat
  {
    if '0' <= c <= '9' then (c as int) - ('0' as int)
    else if 'a' <= c <= 'f' then (c as int) - ('a' as int) + 10
    else 0
  }

  /** Lower-case hexadecimal digits of v, most significant first, no leading zero. */
  function HexDigits(v: nat): (s: string)
    ensures |s| >= 1
    decreases v
  {
    if v < 16 then [HexChar(v)] else HexDigits(v / 16) + [HexChar(v % 16)]
  }

  /** The number a string of hexadecimal digits denotes. */
  function HexValue(s: string): nat
  {
    if |s| == 0 then 0 else HexValue(s[..|s| - 1]) * 16 + HexDigitValue(s[|s| - 1])
  }

  /** hex(v) for v >= 0. */
  function Hex(v: nat): string
  {
    "0x" + HexDigits(v)
  }

  /** hex() writes v in base 16: reading the digits back gives v, and only 0 has a leading '0'. */
  lemma {:induction false} HexRoundTrip(v: nat)
    ensures var s := HexDigits(v); HexValue(s) == v && (s[0] == '0' <==> v == 0)
    decreases v
  {
    var s := HexDigits(v);
    if v >= 16 {
      HexRoundTrip(v / 16);
      assert s[..|s| - 1] == HexDigits(v / 16);
      assert s[0] == HexDigits(v / 16)[0];
    }
  }

  // ----- _array_to_hex -----

  /** What _array_to_hex returns: hex(int(_array_to_bool(arr), 2)), where int(s, 2)
      reads the digits after the "0b" of _array_to_bool's text (see ParsePrefixed). */
  function HexText(arr: seq<int>): Result<string, Error>
  {
    var digits := Digits(arr);
    var p := ParseDigits(digits);
    if |digits| == 0 || p.None? then Failure(InvalidBinaryLiteral) else Success(Hex(p.value))
  }

  /** _array_to_hex. */
  method ArrayToHex(arr: seq<int>) returns (r: Result<string, Error>)
    ensures r == HexText(arr)
  {
    var bstr := ArrayToBool(arr);
    ParsePrefixed(Digits(arr));
    var v := ParseBase2(bstr);
    if v.Failure? {
      return Failure(v.error);
    }
    return Success(Hex(v.value));
  }

  /** The value of a 0/1 array read most significant bit first: 2^(n-1-i) for each i with arr[i] == 1. */
  function MsbValue(arr: seq<int>): (v: nat)
    requires IsBitArray(arr)
  {
    if |arr| == 0 then 0 else (if arr[0] == 1 then Pow2(|arr| - 1) else 0) + MsbValue(arr[1..])
  }

  /** Appending a bit doubles the value and adds the bit. */
  lemma {:induction false} MsbSnoc(arr: seq<int>, b: int)
    requires IsBitArray(arr) && (b == 0 || b == 1)
    ensures IsBitArray(arr + [b]) && MsbValue(arr + [b]) == 2 * MsbValue(arr) + b
  {
    var a := arr + [b];
    if |arr| > 0 {
      assert a[1..] == arr[1..] + [b];
      MsbSnoc(arr[1..], b);
      assert Pow2(|a| - 1) == 2 * Pow2(|arr| - 1);
    }
  }

  /** The digit str() writes for a bit. */
  function BitChar(b: int): char
  {
    if b == 1 then '1' else '0'
  }

  /** str() of a bit is its one binary digit. */
  lemma BitString(b: int)
    requires b == 0 || b == 1
    ensures IntString(b) == [BitChar(b)]
  {
    assert NatString(b) == [DigitChar(b)];
  }

  /** Parsing one more binary digit doubles the value and adds the bit. */
  lemma ParseSnocBit(x: string, b: int)
    requires b == 0 || b == 1
    requires ParseDigits(x).Some?
    ensures ParseDigits(x + [BitChar(b)]) == Some(2 * ParseDigits(x).value + b)
  {
    assert (x + [BitChar(b)])[..|x|] == x;
  }

  /** One binary digit per element of a 0/1 array, in order. */
  function BitChars(arr: seq<int>): (s: string)
    ensures |s| == |arr|
  {
    if |arr| == 0 then "" else BitChars(arr[..|arr| - 1]) + [BitChar(arr[|arr| - 1])]
  }

  /** A 0/1 array's digits parse back to its most-significant-first value. */
  lemma {:induction false} BitCharsValue(arr: seq<int>)
    requires IsBitArray(arr)
    ensures ParseDigits(BitChars(arr)) == Some(MsbValue(arr))
  {
    if |arr| > 0 {
      var init, b := arr[..|arr| - 1], arr[|arr| - 1];
      BitCharsValue(init);
      ParseSnocBit(BitChars(init), b);
      MsbSnoc(init, b);
      assert init + [b] == arr;
    }
  }

  /** On a 0/1 array, str() of each element is its binary digit. */
  lemma {:induction false} DigitsAreBitChars(arr: seq<int>)
    requires IsBitArray(arr)
    ensures Digits(arr) == BitChars(arr)
  {
    if |arr| > 0 {
      DigitsAreBitChars(arr[..|arr| - 1]);
      BitString(arr[|arr| - 1]);
    }
  }

  /** The digits of a 0/1 array denote its most-significant-first value. */
  lemma DigitsValue(arr: seq<int>)
    requires IsBitArray(arr)
    ensures ParseDigits(Digits(arr)) == Some(MsbValue(arr))
  {
    DigitsAreBitChars(arr);
    BitCharsValue(arr);
  }

  /** On a non-empty 0/1 array, _array_to_hex returns hex of the value read with the
      first element as the most significant bit. */
  lemma HexTextOfBits(arr: seq<int>)
    requires IsBitArray(arr) && |arr| > 0
    ensures HexText(arr) == Success(Hex(MsbValue(arr)))
  {
    DigitsValue(arr);
    ParsePrefixed(Digits(arr));
  }

  /** A concatenation is binary exactly when both parts are. */
  lemma BinaryAppend(t: string, u: string)
    ensures BinaryDigits(t + u) <==> BinaryDigits(t) && BinaryDigits(u)
  {
    if BinaryDigits(t + u) {
      forall k | 0 <= k < |t| ensures t[k] == '0' || t[k] == '1' {
        assert (t + u)[k] == t[k];
      }
      forall k | 0 <= k < |u| ensures u[k] == '0' || u[k] == '1' {
        assert (t + u)[|t| + k] == u[k];
      }
    }
  }

  /** The digits are binary exactly when every element's str() is. */
  lemma {:induction false} DigitsBinary(arr: seq<int>)
    ensures BinaryDigits(Digits(arr)) <==> forall i :: 0 <= i < |arr| ==> BinaryDigits(IntString(arr[i]))
  {
    if |arr| > 0 {
      var init := arr[..|arr| - 1];
      DigitsBinary(init);
      BinaryAppend(Digits(init), IntString(arr[|arr| - 1]));
      forall i | 0 <= i < |arr| - 1 ensures init[i] == arr[i] { }
    }
  }

  /** _array_to_hex succeeds exactly on non-empty arrays whose every element is written
      with binary digits only: an empty array leaves "0b", which int(s, 2) rejects. */
  lemma HexTextSucceeds(arr: seq<int>)
    ensures HexText(arr).Success? <==> |arr| > 0 && forall i :: 0 <= i < |arr| ==> BinaryDigits(IntString(arr[i]))
    ensures HexText(arr).Failure? ==> HexText(arr).error == InvalidBinaryLiteral
  {
    DigitsBinary(arr);
    ParseDigitsSucceeds(Digits(arr));
    ParsePrefixed(Digits(arr));
  }

  /** A negative element, or one from 2 to 9, makes _array_to_hex fail. */
  lemma NonBitFails(arr: seq<int>, i: nat)
    requires i < |arr| && (arr[i] < 0 || 2 <= arr[i] <= 9)
    ensures HexText(arr) == Failure(InvalidBinaryLiteral)
  {
    HexTextSucceeds(arr);
    assert IntString(arr[i])[0] != '0' && IntString(arr[i])[0] != '1';
  }

  /** An element 10 passes as the two bits "10": [10] gives hex 2. */
  lemma TenIsTwoBits()
    ensures HexText([10]) == Success("0x2")
  {
    assert NatString(10) == "10";
    assert Digits([10]) == "10";
    assert ParseDigits("1") == Some(1);
    assert ParseDigits("10") == Some(2);
    ParsePrefixed("10");
    assert HexDigits(2) == "2";
    assert Hex(2) == "0x2";
  }

  // ----- write_sequence -----

  /** write_sequence scales each duration by 1000 ms (the unit ms taken as 1). */
  function ScaledDuration(d: nat): nat
  {
    d * 1000
  }

  /** The flag of each state, as _array_to_hex returns it. */
  function FlagsOf(states: seq<seq<int>>): (flags: seq<Result<string, Error>>)
    ensures |flags| == |states|
  {
    if |states| == 0 then [] else [HexText(states[0])] + FlagsOf(states[1..])
  }

  /** The flag at index i is _array_to_hex of state i. */
  lemma {:induction false} FlagsOfIndex(states: seq<seq<int>>, i: nat)
    requires i < |states|
    ensures FlagsOf(states)[i] == HexText(states[i])
    decreases i
  {
    if i > 0 {
      FlagsOfIndex(states[1..], i - 1);
    }
  }

  /** The instruction write_sequence issues at index i of n durations: index 0 is a LOOP
      with operand loops, the last index an END_LOOP back to the address base of that
      LOOP, every other index a CONTINUE with operand loops. */
  function SequenceInstr(flag: string, i: nat, n: nat, loops: int, base: nat, d: nat): Instr<string>
  {
    if i == 0 then Instr(flag, Loop, loops, ScaledDuration(d))
    else if i == n - 1 then Instr(flag, EndLoop, base, ScaledDuration(d))
    else Instr(flag, Continue, loops, ScaledDuration(d))
  }

  /** What write_sequence issues from index i on, given the flag of each state: one
      instruction per index, until a missing state or a rejected flag raises there. */
  function SequenceFrom(durations: seq<nat>, flags: seq<Result<string, Error>>, loops: int, base: nat, i: nat)
    : (w: Issued<string>)
    requires i <= |durations|
    ensures |w.instrs| <= |durations| - i
    decreases |durations| - i
  {
    if i == |durations| then Issued(Pass, [])
    else if i >= |flags| then Issued(Fail(StateIndexOutOfRange(i)), [])
    else if flags[i].Failure? then Issued(Fail(flags[i].error), [])
    else
      var rest := SequenceFrom(durations, flags, loops, base, i + 1);
      Issued(rest.outcome, [SequenceInstr(flags[i].value, i, |durations|, loops, base, durations[i])] + rest.instrs)
  }

  /** What write_sequence issues on a sink whose next address is base. */
  function SequenceSpec(durations: seq<nat>, states: seq<seq<int>>, loops: int, base: nat): Issued<string>
  {
    SequenceFrom(durations, FlagsOf(states), loops, base, 0)
  }

  /** write_sequence(durations, states, loops). */
  method WriteSequence(durations: seq<nat>, states: seq<seq<int>>, loops: int, sink: Sink<string>)
    returns (r: Outcome<Error>)
    modifies sink
    ensures var w := SequenceSpec(durations, states, loops, old(sink.NextAddress()));
            r == w.outcome && sink.log == old(sink.log) + w.instrs
  {
    ghost var log0 := sink.log;
    ghost var first0 := sink.NextAddress();
    ghost var flags := FlagsOf(states);
    ghost var w := SequenceFrom(durations, flags, loops, first0, 0);
    var loop := 0;
    var i := 0;
    while i < |durations|
      invariant 0 <= i <= |durations|
      invariant sink.log + SequenceFrom(durations, flags, loops, first0, i).instrs == log0 + w.instrs
      invariant SequenceFrom(durations, flags, loops, first0, i).outcome == w.outcome
      invariant i == 0 ==> sink.NextAddress() == first0
      invariant i > 0 ==> loop == first0
    {
      var raised: Option<Error>;
      raised, loop := SequenceStep(durations, states, loops, sink, i, loop, flags, log0, first0, w);
      if raised.Some? {
        return Fail(raised.value);
      }
      i := i + 1;
    }
    return Pass;
  }

  /** The body of write_sequence's loop at index i: reads states[i], turns it into a
      flag and issues the instruction for index i, or returns the error raised on the
      way, which ends the sequence. */
  method SequenceStep(durations: seq<nat>, states: seq<seq<int>>, loops: int, sink: Sink<string>, i: nat,
                      loop: nat, ghost flags: seq<Result<string, Error>>, ghost log0: seq<Instr<string>>,
                      ghost first0: nat, ghost w: Issued<string>)
    returns (raised: Option<Error>, loop': nat)
    requires i < |durations| && flags == FlagsOf(states)
    requires sink.log + SequenceFrom(durations, flags, loops, first0, i).instrs == log0 + w.instrs
    requires SequenceFrom(durations, flags, loops, first0, i).outcome == w.outcome
    requires i == 0 ==> sink.NextAddress() == first0
    requires i > 0 ==> loop == first0
    modifies sink
    ensures raised.Some? ==> Fail(raised.value) == w.outcome && sink.log == log0 + w.instrs
    ensures raised.None? ==>
      && sink.log + SequenceFrom(durations, flags, loops, first0, i + 1).instrs == log0 + w.instrs
      && SequenceFrom(durations, flags, loops, first0, i + 1).outcome == w.outcome
      && loop' == first0
  {
    loop' := loop;
    if i >= |states| {
      return Some(StateIndexOutOfRange(i)), loop';
    }
    var flag := ArrayToHex(states[i]);
    FlagsOfIndex(states, i);
    if flag.Failure? {
      return Some(flag.error), loop';
    }
    loop' := IssueNext(durations, flags, loops, sink, i, loop, flag.value, log0, first0, w);
    return None, loop';
  }

  /** Issuing the instruction for an accepted flag at index i moves write_sequence's
      loop on to index i + 1. */
  method IssueNext(durations: seq<nat>, ghost flags: seq<Result<string, Error>>, loops: int, sink: Sink<string>,
                   i: nat, loop: nat, flag: string, ghost log0: seq<Instr<string>>, ghost first0: nat,
                   ghost w: Issued<string>)
    returns (loop': nat)
    requires i < |durations| && i < |flags| && flags[i] == Success(flag)
    requires sink.log + SequenceFrom(durations, flags, loops, first0, i).instrs == log0 + w.instrs
    requires SequenceFrom(durations, flags, loops, first0, i).outcome == w.outcome
    requires i == 0 ==> sink.NextAddress() == first0
    requires i > 0 ==> loop == first0
    modifies sink
    ensures sink.log + SequenceFrom(durations, flags, loops, first0, i + 1).instrs == log0 + w.instrs
    ensures SequenceFrom(durations, flags, loops, first0, i + 1).outcome == w.outcome
    ensures loop' == first0
  {
    ghost var before := sink.log;
    loop' := IssueAt(flag, i, |durations|, loops, durations[i], loop, sink, first0);
    ghost var inst := SequenceInstr(flag, i, |durations|, loops, first0, durations[i]);
    SequenceFromNext(durations, flags, loops, first0, i, inst);
    assert (before + [inst]) + SequenceFrom(durations, flags, loops, first0, i + 1).instrs
        == before + SequenceFrom(durations, flags, loops, first0, i).instrs;
  }

  /** One iteration of write_sequence's loop once the flag is known: index 0 issues the
      LOOP and records its address, the last index the END_LOOP back to that address,
      any other index a CONTINUE. */
  method IssueAt(flag: string, i: nat, n: nat, loops: int, d: nat, loop: nat, sink: Sink<string>, ghost base: nat)
    returns (loop': nat)
    requires i < n
    requires i == 0 ==> sink.NextAddress() == base
    requires i > 0 ==> loop == base
    modifies sink
    ensures sink.log == old(sink.log) + [SequenceInstr(flag, i, n, loops, base, d)]
    ensures loop' == base
  {
    loop' := loop;
    if i == 0 {
      loop' := sink.Issue(Instr(flag, Loop, loops, ScaledDuration(d)));
    } else if i == n - 1 {
      var _ := sink.Issue(Instr(flag, EndLoop, loop, ScaledDuration(d)));
    } else {
      var _ := sink.Issue(Instr(flag, Continue, loops, ScaledDuration(d)));
    }
  }

  /** A present, accepted flag at i issues its instruction and goes on at i + 1. */
  lemma SequenceFromNext(durations: seq<nat>, flags: seq<Result<string, Error>>, loops: int, base: nat, i: nat,
                         inst: Instr<string>)
    requires i < |durations| && i < |flags| && flags[i].Success?
    requires inst == SequenceInstr(flags[i].value, i, |durations|, loops, base, durations[i])
    ensures var w, rest := SequenceFrom(durations, flags, loops, base, i), SequenceFrom(durations, flags, loops, base, i + 1);
            w.outcome == rest.outcome && w.instrs == [inst] + rest.instrs
  {
  }

  /** Given accepted flags for every index, the instructions from index i on: one per
      duration, in order, each carrying its flag and its scaled duration, with the opcode
      and operand its position calls for. */
  lemma {:induction false} SequenceFromAccepted(durations: seq<nat>, flags: seq<Result<string, Error>>, loops: int,
                                                base: nat, i: nat)
    requires i <= |durations| <= |flags| && forall j :: 0 <= j < |durations| ==> flags[j].Success?
    ensures var w := SequenceFrom(durations, flags, loops, base, i);
            && w.outcome == Pass && |w.instrs| == |durations| - i
            && forall j :: i <= j < |durations| ==>
                 w.instrs[j - i] == SequenceInstr(flags[j].value, j, |durations|, loops, base, durations[j])
    decreases |durations| - i
  {
    if i < |durations| {
      SequenceFromAccepted(durations, flags, loops, base, i + 1);
    }
  }

  /** The first index whose flag is missing or rejected ends the sequence there: the
      instructions before it are issued and the error at it is raised. */
  lemma {:induction false} SequenceFromStops(durations: seq<nat>, flags: seq<Result<string, Error>>, loops: int,
                                             base: nat, k: nat, i: nat)
    requires k < |durations| && i <= k
    requires forall j :: 0 <= j < k ==> j < |flags| && flags[j].Success?
    requires k >= |flags| || flags[k].Failure?
    ensures var w := SequenceFrom(durations, flags, loops, base, i);
            && w.outcome == Fail(if k >= |flags| then StateIndexOutOfRange(k) else flags[k].error)
            && |w.instrs| == k - i
    decreases k - i
  {
    if i < k {
      SequenceFromStops(durations, flags, loops, base, k, i + 1);
    }
  }

  /** Every state write_sequence reads is present and a non-empty 0/1 array. */
  predicate ValidStates(durations: seq<nat>, states: seq<seq<int>>)
  {
    |states| >= |durations| && forall i :: 0 <= i < |durations| ==> |states[i]| > 0 && IsBitArray(states[i])
  }

  /** Accepted flags for every index: one instruction per duration carrying its flag
      and its duration times 1000, a LOOP with operand loops first, an END_LOOP back
      to base last and CONTINUEs with operand loops between. */
  lemma SequenceAcceptedFields(durations: seq<nat>, flags: seq<Result<string, Error>>, loops: int, base: nat)
    requires |durations| <= |flags| && forall j :: 0 <= j < |durations| ==> flags[j].Success?
    ensures var w := SequenceFrom(durations, flags, loops, base, 0);
            && w.outcome == Pass && |w.instrs| == |durations|
            && (forall j :: 0 <= j < |durations| ==>
                  w.instrs[j].flag == flags[j].value && w.instrs[j].duration == durations[j] * 1000)
            && (|durations| > 0 ==> w.instrs[0].opcode == Loop && w.instrs[0].operand == loops)
            && (|durations| > 1 ==>
                  w.instrs[|durations| - 1].opcode == EndLoop && w.instrs[|durations| - 1].operand == base)
            && (forall j :: 0 < j < |durations| - 1 ==>
                  w.instrs[j].opcode == Continue && w.instrs[j].operand == loops)
  {
    SequenceFromAccepted(durations, flags, loops, base, 0);
  }

  /** On valid states, the flag of each index is hex of the state's value. */
  lemma FlagsOfBits(durations: seq<nat>, states: seq<seq<int>>)
    requires ValidStates(durations, states)
    ensures forall j :: 0 <= j < |durations| ==> FlagsOf(states)[j] == Success(Hex(MsbValue(states[j])))
  {
    forall j | 0 <= j < |durations| ensures FlagsOf(states)[j] == Success(Hex(MsbValue(states[j]))) {
      FlagsOfIndex(states, j);
      HexTextOfBits(states[j]);
    }
  }

  /** write_sequence on valid states issues exactly one instruction per duration, each
      with hex of its state and its duration times 1000: a LOOP with operand loops first,
      an END_LOOP back to that LOOP's address last, CONTINUEs with operand loops
      between; loops == 1 is not treated specially. */
  lemma SequenceValid(durations: seq<nat>, states: seq<seq<int>>, loops: int, base: nat)
    requires ValidStates(durations, states)
    ensures var w := SequenceSpec(durations, states, loops, base);
            && w.outcome == Pass && |w.instrs| == |durations|
            && (forall j :: 0 <= j < |durations| ==>
                  w.instrs[j].flag == Hex(MsbValue(states[j])) && w.instrs[j].duration == durations[j] * 1000)
            && (|durations| > 0 ==> w.instrs[0].opcode == Loop && w.instrs[0].operand == loops)
            && (|durations| > 1 ==>
                  w.instrs[|durations| - 1].opcode == EndLoop && w.instrs[|durations| - 1].operand == base)
            && (forall j :: 0 < j < |durations| - 1 ==>
                  w.instrs[j].opcode == Continue && w.instrs[j].operand == loops)
  {
    FlagsOfBits(durations, states);
    SequenceAcceptedFields(durations, FlagsOf(states), loops, base);
  }

  /** A single duration gives a lone LOOP and no END_LOOP: index 0 is checked first. */
  lemma SequenceSingle(d: nat, state: seq<int>, loops: int, base: nat)
    requires |state| > 0 && IsBitArray(state)
    ensures SequenceSpec([d], [state], loops, base) == Issued(Pass, [Instr(Hex(MsbValue(state)), Loop, loops, d * 1000)])
  {
    SequenceValid([d], [state], loops, base);
  }

  /** Fewer states than durations: the instructions for the states present are issued,
      then reading the next state raises an IndexError. */
  lemma SequenceMissingState(durations: seq<nat>, states: seq<seq<int>>, loops: int, base: nat)
    requires |states| < |durations| && forall j :: 0 <= j < |states| ==> |states[j]| > 0 && IsBitArray(states[j])
    ensures var w := SequenceSpec(durations, states, loops, base);
            w.outcome == Fail(StateIndexOutOfRange(|states|)) && |w.instrs| == |states|
  {
    var flags := FlagsOf(states);
    forall j | 0 <= j < |states| ensures flags[j].Success? {
      FlagsOfIndex(states, j);
      HexTextOfBits(states[j]);
    }
    SequenceFromStops(durations, flags, loops, base, |states|, 0);
  }

  /** A state _array_to_hex rejects, after valid ones, raises its ValueError there, after
      the instructions of the states before it. */
  lemma SequenceRejectedState(durations: seq<nat>, states: seq<seq<int>>, loops: int, base: nat, k: nat)
    requires k < |durations| && k < |states| && HexText(states[k]).Failure?
    requires forall j :: 0 <= j < k ==> |states[j]| > 0 && IsBitArray(states[j])
    ensures var w := SequenceSpec(durations, states, loops, base);
            w.outcome == Fail(InvalidBinaryLiteral) && |w.instrs| == k
  {
    var flags := FlagsOf(states);
    forall j | 0 <= j < k ensures flags[j].Success? {
      FlagsOfIndex(states, j);
      HexTextOfBits(states[j]);
    }
    FlagsOfIndex(states, k);
    HexTextSucceeds(states[k]);
    SequenceFromStops(durations, flags, loops, base, k, 0);
  }
}
