/**
 * Seccomp filter return values (bpf.h:35-44): a 32-bit value whose upper 16
 * bits select the action and whose lower 16 bits, `SECCOMP_RET_DATA`, carry
 * auxiliary data such as the errno to report.
 */
module SeccompRet {
  import opened Wrappers

  /** kill the calling thread immediately */
  const SECCOMP_RET_KILL: bv32 := 0x0000_0000
  /** return SIGSYS */
  const SECCOMP_RET_TRAP: bv32 := 0x0003_0000
  /** return -1 and set errno */
  const SECCOMP_RET_ERRNO: bv32 := 0x0005_0000
  /** allow */
  const SECCOMP_RET_ALLOW: bv32 := 0x7fff_0000
  /** mask for the return data */
  const SECCOMP_RET_DATA: bv32 := 0x0000_ffff

  /** The action half of a return value: everything outside `SECCOMP_RET_DATA`. */
  function ActionField(v: bv32): bv32
  {
    v & !SECCOMP_RET_DATA
  }

  /** The data half of a return value. */
  function DataField(v: bv32): bv32
  {
    v & SECCOMP_RET_DATA
  }

  /** The actions bpf.h names. */
  datatype Action = Kill | Trap | Errno | Allow

  /** The `SECCOMP_RET_*` constant of an action; none of them has a data bit set. */
  function ActionValue(a: Action): (v: bv32)
    ensures DataField(v) == 0 && ActionField(v) == v
  {
    match a
    case Kill => SECCOMP_RET_KILL
    case Trap => SECCOMP_RET_TRAP
    case Errno => SECCOMP_RET_ERRNO
    case Allow => SECCOMP_RET_ALLOW
  }

  /** The action a return value selects, if its action half is one bpf.h names. */
  function ActionOf(v: bv32): (a: Option<Action>)
    ensures a.Some? ==> ActionValue(a.value) == ActionField(v)
    ensures a.None? ==> forall b :: ActionValue(b) != ActionField(v)
  {
    var act := ActionField(v);
    if act == SECCOMP_RET_KILL then Some(Kill)
    else if act == SECCOMP_RET_TRAP then Some(Trap)
    else if act == SECCOMP_RET_ERRNO then Some(Errno)
    else if act == SECCOMP_RET_ALLOW then Some(Allow)
    else None
  }

  /**
   * The immediate of `set_bpf_ret_errno`: `SECCOMP_RET_ERRNO | (errno & SECCOMP_RET_DATA)`,
   * for the errno's 32-bit pattern. Whatever the errno, the action stays "errno"
   * and only its low 16 bits reach the data field.
   */
  function ErrnoReturn(errno: bv32): (k: bv32)
    ensures ActionOf(k) == Some(Errno)
    ensures DataField(k) == DataField(errno)
  {
    SECCOMP_RET_ERRNO | (errno & SECCOMP_RET_DATA)
  }

  /** The action and data halves split a return value into two disjoint parts. */
  lemma FieldsPartition(v: bv32)
    ensures ActionField(v) | DataField(v) == v
    ensures ActionField(v) & DataField(v) == 0
  {
  }

  /** The four action constants are pairwise distinct. */
  lemma ActionValuesDistinct(a: Action, b: Action)
    ensures ActionValue(a) == ActionValue(b) <==> a == b
  {
  }

  /** Decoding an action constant gives the action back. */
  lemma ActionRoundTrip(a: Action)
    ensures ActionOf(ActionValue(a)) == Some(a)
  {
  }

  /** An errno that fits in 16 bits (every errno value does) reaches the data field unchanged. */
  lemma ErrnoPreserved(errno: bv32)
    requires errno <= SECCOMP_RET_DATA
    ensures DataField(ErrnoReturn(errno)) == errno
  {
    assert DataField(errno) == errno;
  }
}
