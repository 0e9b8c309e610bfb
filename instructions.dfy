/** The sequencer's instruction format and the driver session that receives instructions. */
module Instructions {
  import opened Wrappers
  import opened Errors

  /** The opcodes of the device's instruction set that the compiler uses. */
  datatype Opcode = Continue | Stop | Loop | EndLoop | Branch

  /** One device instruction: output flags, opcode, operand and duration (ns).
      The flag type is a parameter: the compiler hands over an integer, the
      sequence writer of pb.py a hexadecimal string. */
  datatype Instr<F> = Instr(flag: F, opcode: Opcode, operand: int, duration: nat)

  /** What an operation that issues instructions returns: pass or the exception it
      raised, with the instructions it issued before returning. */
  datatype Issued<F> = Issued(outcome: Outcome<Error>, instrs: seq<Instr<F>>)

  /** Naturals with an infinite element: the source's float('inf'). */
  datatype ExtNat = Fin(n: nat) | Inf

  /** A loop count: a finite number of repetitions, or forever. */
  type Loops = ExtNat

  /** The smaller of an address and a running minimum that may still be infinite. */
  function MinExt(x: nat, e: ExtNat): (r: nat)
    ensures r <= x
    ensures e.Fin? ==> r <= e.n && (r == x || r == e.n)
  {
    if e.Fin? && e.n < x then e.n else x
  }

  /** Taking one more element of a sequence appends that element. */
  lemma {:induction false} SliceSnoc<T>(p: seq<T>, k: nat)
    requires k < |p|
    ensures p[..k + 1] == p[..k] + [p[k]]
  {
    assert p[..k + 1] == p[..k] + [p[k]];
  }

  /** The driver session as an append-only sink: each issued instruction is
      appended to the log, and its device address is base plus its index. */
  class Sink<F> {
    const base: nat
    var log: seq<Instr<F>>

    constructor (base: nat)
      ensures this.base == base && log == []
    {
      this.base := base;
      log := [];
    }

    /** The address the next issued instruction will receive. */
    function NextAddress(): nat
      reads this
    {
      base + |log|
    }

    method Issue(i: Instr<F>) returns (addr: nat)
      modifies this
      ensures log == old(log) + [i]
      ensures addr == old(NextAddress())
    {
      addr := base + |log|;
      log := log + [i];
    }
  }
}
