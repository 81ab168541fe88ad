/**
 * Label support (bpf.h:106-126): the common jump targets, the sentinel jump
 * fields that mark an instruction as a label declaration or as a jump to a
 * label, and the label table `struct bpf_labels`.
 */
module Labels {
  import opened Wrappers
  import opened Filter

  /** Common jump targets: `NEXT`, `SKIP` and `SKIPN(n)`, relative offsets in jt/jf. */
  const NEXT: bv8 := 0
  const SKIP: bv8 := 1

  /** `SKIPN(n)` is the jump offset past n instructions; `NEXT` and `SKIP` are its cases 0 and 1. */
  function SkipN(n: bv8): (off: bv8)
    ensures off as int == n as int
    ensures n == 0 ==> off == NEXT
    ensures n == 1 ==> off == SKIP
  {
    n
  }

  /** jt/jf of a jump to a label, before the jumps are resolved. */
  const JUMP_JT: bv8 := 0xff
  const JUMP_JF: bv8 := 0xff
  /** jt/jf of the instruction that declares a label. */
  const LABEL_JT: bv8 := 0xfe
  const LABEL_JF: bv8 := 0xfe

  const MAX_BPF_LABEL_LEN: nat := 32
  const BPF_LABELS_MAX: nat := 256

  /** `struct __bpf_label`: a label's name (`label`) and the instruction index it stands for. */
  datatype BpfLabel = BpfLabel(name: string, location: bv32)

  /** The fixed array `labels[BPF_LABELS_MAX]`. */
  type LabelSlots = s: seq<BpfLabel> | |s| == BPF_LABELS_MAX
    witness seq(BPF_LABELS_MAX, _ => BpfLabel("", 0))

  /** `struct bpf_labels`: how many slots are in use, and the slots. */
  datatype BpfLabels = BpfLabels(count: int, labels: LabelSlots)

  /** What an unconditional jump still carrying sentinels stands for. */
  datatype Marker = Declaration(id: bv32) | Reference(id: bv32)

  /**
   * The marker an instruction carries: an unconditional jump (`BPF_JMP+BPF_JA`)
   * whose jt and jf are both `LABEL_JT`/`LABEL_JF` declares label k, one whose
   * jt and jf are both `JUMP_JT`/`JUMP_JF` jumps to label k.
   */
  function MarkerOf(ins: Instr): (r: Option<Marker>)
    ensures r.Some? ==> ins.code == BPF_JMP + BPF_JA && r.value.id == ins.k
    ensures r == Some(Declaration(ins.k)) <==>
            ins.code == BPF_JMP + BPF_JA && ins.jt == LABEL_JT && ins.jf == LABEL_JF
    ensures r == Some(Reference(ins.k)) <==>
            ins.code == BPF_JMP + BPF_JA && ins.jt == JUMP_JT && ins.jf == JUMP_JF
  {
    if ins.code != BPF_JMP + BPF_JA then None
    else if ins.jt == LABEL_JT && ins.jf == LABEL_JF then Some(Declaration(ins.k))
    else if ins.jt == JUMP_JT && ins.jf == JUMP_JF then Some(Reference(ins.k))
    else None
  }

  /**
   * The two sentinel pairs never coincide, so no instruction can be read as both
   * a declaration and a reference, and a concrete offset (`NEXT`, `SKIP`) is
   * neither sentinel.
   */
  lemma SentinelsDistinct(ins: Instr)
    ensures LABEL_JT != JUMP_JT && LABEL_JF != JUMP_JF
    ensures ins.jt == LABEL_JT || ins.jf == LABEL_JF ==> !(MarkerOf(ins).Some? && MarkerOf(ins).value.Reference?)
    ensures ins.jt == JUMP_JT || ins.jf == JUMP_JF ==> !(MarkerOf(ins).Some? && MarkerOf(ins).value.Declaration?)
    ensures ins.jt in {NEXT, SKIP} || ins.jf in {NEXT, SKIP} ==> MarkerOf(ins) == None
  {
  }
}
