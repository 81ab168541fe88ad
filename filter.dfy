/**
 * The classic-BPF instruction that bpf.h fills in, `struct sock_filter` from
 * <linux/filter.h>, and the opcode parts bpf.h combines.
 */
module Filter {
  /** `struct sock_filter { __u16 code; __u8 jt; __u8 jf; __u32 k; }` */
  datatype Instr = Instr(code: bv16, jt: bv8, jf: bv8, k: bv32)

  // Instruction classes, sizes, modes and sources of <linux/filter.h>.
  const BPF_LD: bv16 := 0x00
  const BPF_JMP: bv16 := 0x05
  const BPF_RET: bv16 := 0x06
  const BPF_W: bv16 := 0x00
  const BPF_ABS: bv16 := 0x20
  const BPF_JA: bv16 := 0x00
  const BPF_K: bv16 := 0x00
}
