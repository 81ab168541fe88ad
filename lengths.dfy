/**
 * The size-dependent instruction counts of bpf.h (bpf.h:73-89, 171-173): how
 * many instructions loading one argument and comparing it take on each word size.
 */
module Lengths {
  import opened Target

  /** `BPF_LOAD_ARG_LEN` */
  function LoadArgLen(t: Target): (n: nat)
    ensures n == 1 <==> t.bits == Bits32
    ensures n == 4 <==> t.bits == Bits64
  {
    match t.bits
    case Bits32 => 1
    case Bits64 => 4
  }

  /** `BPF_COMP_LEN` */
  function CompLen(t: Target): (n: nat)
    ensures n == 1 <==> t.bits == Bits32
    ensures n == 3 <==> t.bits == Bits64
  {
    match t.bits
    case Bits32 => 1
    case Bits64 => 3
  }

  /** `BPF_ARG_COMP_LEN`, defined as `BPF_LOAD_ARG_LEN + BPF_COMP_LEN` */
  function ArgCompLen(t: Target): (n: nat)
    ensures n == 2 <==> t.bits == Bits32
    ensures n == 7 <==> t.bits == Bits64
  {
    LoadArgLen(t) + CompLen(t)
  }

  /** `ARCH_VALIDATION_LEN`: the length bpf.h announces for the architecture check. */
  const ARCH_VALIDATION_LEN: nat := 3
  /** `ALLOW_SYSCALL_LEN`: the length bpf.h announces for one allowed syscall. */
  const ALLOW_SYSCALL_LEN: nat := 2

  /** On 32 bits a comparison takes 1 load and 1 compare; on 64 bits 4 loads and 3 compares. */
  lemma ArgCompLenValues(t: Target)
    ensures t.bits == Bits32 ==> LoadArgLen(t) == 1 && CompLen(t) == 1 && ArgCompLen(t) == 2
    ensures t.bits == Bits64 ==> LoadArgLen(t) == 4 && CompLen(t) == 3 && ArgCompLen(t) == 7
    ensures ArgCompLen(t) == LoadArgLen(t) + CompLen(t)
  {
  }
}
