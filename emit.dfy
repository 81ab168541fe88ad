/**
 * The instruction setters of bpf.h (bpf.h:128-158): `set_bpf_instr` and the
 * macros built on it. Each fills exactly one caller-owned slot of a filter
 * array in place. Each returns 1, taken to be the number of instructions it
 * wrote; that value is assumed, since `set_bpf_instr`'s body is not in bpf.h.
 */
module Emit {
  import opened Wrappers
  import opened Filter
  import opened Labels
  import opened SeccompRet
  import opened SeccompData

  /** `set_bpf_instr(instr, code, k, jt, jf)`: slot i becomes `{code, jt, jf, k}`. */
  method SetBpfInstr(filter: array<Instr>, i: nat, code: bv16, k: bv32, jt: bv8, jf: bv8)
      returns (len: nat)
    requires i < filter.Length
    modifies filter
    ensures len == 1
    ensures filter[..] == old(filter[..])[i := Instr(code, jt, jf, k)]
  {
    filter[i] := Instr(code, jt, jf, k);
    len := 1;
  }

  /** `set_bpf_stmt(block, code, k)`: a statement, both jump offsets 0. */
  method SetBpfStmt(filter: array<Instr>, i: nat, code: bv16, k: bv32) returns (len: nat)
    requires i < filter.Length
    modifies filter
    ensures len == 1
    ensures filter[..] == old(filter[..])[i := Instr(code, 0, 0, k)]
  {
    len := SetBpfInstr(filter, i, code, k, 0, 0);
  }

  /** `set_bpf_jump(block, code, k, jt, jf)`: a conditional jump, jt and jf passed through. */
  method SetBpfJump(filter: array<Instr>, i: nat, code: bv16, k: bv32, jt: bv8, jf: bv8)
      returns (len: nat)
    requires i < filter.Length
    modifies filter
    ensures len == 1
    ensures filter[..] == old(filter[..])[i := Instr(code, jt, jf, k)]
  {
    len := SetBpfInstr(filter, i, code, k, jt, jf);
  }

  /** `set_bpf_lbl(block, id)`: the placeholder that declares label id at slot i. */
  method SetBpfLbl(filter: array<Instr>, i: nat, id: bv32) returns (len: nat)
    requires i < filter.Length
    modifies filter
    ensures len == 1
    ensures filter[..] == old(filter[..])[i := Instr(BPF_JMP + BPF_JA, LABEL_JT, LABEL_JF, id)]
    ensures MarkerOf(filter[i]) == Some(Declaration(id))
  {
    len := SetBpfJump(filter, i, BPF_JMP + BPF_JA, id, LABEL_JT, LABEL_JF);
  }

  /** `set_bpf_jump_lbl(block, id)`: the placeholder for a jump to label id. */
  method SetBpfJumpLbl(filter: array<Instr>, i: nat, id: bv32) returns (len: nat)
    requires i < filter.Length
    modifies filter
    ensures len == 1
    ensures filter[..] == old(filter[..])[i := Instr(BPF_JMP + BPF_JA, JUMP_JT, JUMP_JF, id)]
    ensures MarkerOf(filter[i]) == Some(Reference(id))
  {
    len := SetBpfJump(filter, i, BPF_JMP + BPF_JA, id, JUMP_JT, JUMP_JF);
  }

  /** `set_bpf_ret_kill(block)`: return "kill", no data. */
  method SetBpfRetKill(filter: array<Instr>, i: nat) returns (len: nat)
    requires i < filter.Length
    modifies filter
    ensures len == 1
    ensures filter[..] == old(filter[..])[i := Instr(BPF_RET + BPF_K, 0, 0, SECCOMP_RET_KILL)]
    ensures ActionOf(filter[i].k) == Some(Kill) && DataField(filter[i].k) == 0
  {
    len := SetBpfStmt(filter, i, BPF_RET + BPF_K, SECCOMP_RET_KILL);
    ActionRoundTrip(Kill);
  }

  /**
   * `set_bpf_ret_errno(block, errno)`: return "errno" with the low 16 bits of the
   * errno's 32-bit pattern as data; no errno can change the action.
   */
  method SetBpfRetErrno(filter: array<Instr>, i: nat, errno: bv32) returns (len: nat)
    requires i < filter.Length
    modifies filter
    ensures len == 1
    ensures filter[..] == old(filter[..])[i := Instr(BPF_RET + BPF_K, 0, 0, ErrnoReturn(errno))]
    ensures ActionOf(filter[i].k) == Some(Errno) && DataField(filter[i].k) == DataField(errno)
  {
    len := SetBpfStmt(filter, i, BPF_RET + BPF_K, SECCOMP_RET_ERRNO | (errno & SECCOMP_RET_DATA));
  }

  /** `set_bpf_ret_allow(block)`: return "allow", no data. */
  method SetBpfRetAllow(filter: array<Instr>, i: nat) returns (len: nat)
    requires i < filter.Length
    modifies filter
    ensures len == 1
    ensures filter[..] == old(filter[..])[i := Instr(BPF_RET + BPF_K, 0, 0, SECCOMP_RET_ALLOW)]
    ensures ActionOf(filter[i].k) == Some(Allow) && DataField(filter[i].k) == 0
  {
    len := SetBpfStmt(filter, i, BPF_RET + BPF_K, SECCOMP_RET_ALLOW);
    ActionRoundTrip(Allow);
  }

  /**
   * `bpf_load_syscall_nr(filter)`: an absolute word load at `syscall_nr`, which
   * reads the syscall number of whatever record the kernel supplies.
   */
  method BpfLoadSyscallNr(filter: array<Instr>, i: nat) returns (len: nat)
    requires i < filter.Length
    modifies filter
    ensures len == 1
    ensures filter[..] == old(filter[..])[i := Instr(BPF_LD + BPF_W + BPF_ABS, 0, 0, 0)]
    ensures forall d: SeccompData, o ::
              LoadAbs(Image(d, o), filter[i].k as nat, o) == Some(ToU32(d.nr))
  {
    len := SetBpfStmt(filter, i, BPF_LD + BPF_W + BPF_ABS, SyscallNrOffset as bv32);
    forall d: SeccompData, o
      ensures LoadAbs(Image(d, o), filter[i].k as nat, o) == Some(ToU32(d.nr))
    {
      LoadSyscallNr(d, o);
    }
  }
}
