# minijail seccomp-BPF instruction layer

A Dafny model of the instruction and encoding layer of minijail's seccomp-BPF
emitter, as its header `bpf.h` defines it:

- **Instruction setters.** `set_bpf_instr` and the macros built on it
  (`set_bpf_stmt`, `set_bpf_jump`, `set_bpf_lbl`, `set_bpf_jump_lbl`,
  `set_bpf_ret_kill`, `set_bpf_ret_errno`, `set_bpf_ret_allow`,
  `bpf_load_syscall_nr`). Each is a method over an `array<Instr>`. It writes
  one slot in place, leaves every other slot as it was, and returns the length
  1.
- **Label sentinels.** The `LABEL_JT`/`LABEL_JF` pair (0xfe) marks a label
  declaration. The `JUMP_JT`/`JUMP_JF` pair (0xff) marks a jump to a label.
  `Labels.MarkerOf` reads an instruction as one or the other. The file also
  declares the shape of `struct bpf_labels`.
- **Seccomp return values.** There are four action constants and the
  `SECCOMP_RET_DATA` mask. A return value splits into an action half and a
  16-bit data half. `set_bpf_ret_errno` builds its immediate as
  `SECCOMP_RET_ERRNO | (errno & SECCOMP_RET_DATA)`.
- **`struct seccomp_data`.** The record is modelled as the 64-byte memory image
  the kernel fills in the machine's byte order. A load at `syscall_nr` or
  `arch_nr` is proved to read that field, and on 64-bit targets a load at
  `HI_ARG(i)` reads the high half of `args[i]`. For the low half the model
  uses a corrected offset, `SeccompData.LoArg`, which applies the header's
  byte-order choice on both word sizes; a load there reads the low half on
  every target. The header's own `LO_ARG` (`SeccompData.LoArgAsWritten`)
  agrees with it on every target except 32-bit big-endian, where it reads the
  high half (see Findings).
- **Constants.** The `BPF_*_LEN` lengths for each word size, and the
  `enum operator` values `EQ`..`GE` (128..133) with their decoding.

bpf.h picks the word size (`BITS32`/`BITS64`) and the byte-order branch with
the preprocessor. The model takes them as a `Target.Target` value, fixed for a
build. Its one `order` field is both the machine's byte order and the branch
bpf.h takes; see "## Left out" for when those can differ. The functions that depend on them take a target as a parameter, and
the lemmas hold for every target.

Files:
- `target.dfy`: the build configuration.
- `filter.dfy`: `struct sock_filter` and the opcode constants of
  `<linux/filter.h>`.
- `seccomp_ret.dfy`: the return-value encoding.
- `seccomp_data.dfy`: the record layout and the offsets.
- `labels.dfy`: the jump targets, the sentinels and the label table type.
- `operators.dfy`: the comparison operators.
- `lengths.dfy`: the instruction-count constants.
- `emit.dfy`: the setters.
- `wrappers.dfy`: `Option`.

## Model

| member | source | states |
|---|---|---|
| `Emit.SetBpfInstr` | bpf.h:129-131 | slot i becomes `{code, jt, jf, k}` with exactly the given fields, no other slot changes, and the length returned is 1 |
| `Emit.SetBpfStmt` | bpf.h:133-134 | slot i becomes `{code, 0, 0, k}`, only slot i changes, length 1 |
| `Emit.SetBpfJump` | bpf.h:136-137 | slot i becomes `{code, jt, jf, k}` with jt and jf passed through unchanged, only slot i changes, length 1 |
| `Emit.SetBpfLbl` | bpf.h:139-141 | slot i becomes `BPF_JMP+BPF_JA` with k = id and jt = jf = 0xfe, which reads as the declaration of label id; only slot i changes, length 1 |
| `Emit.SetBpfJumpLbl` | bpf.h:143-145 | slot i becomes `BPF_JMP+BPF_JA` with k = id and jt = jf = 0xff, which reads as a reference to label id; only slot i changes, length 1 |
| `Emit.SetBpfRetKill` | bpf.h:147-148 | slot i becomes `BPF_RET+BPF_K` returning `SECCOMP_RET_KILL`, whose action is kill and whose data is 0; only slot i changes |
| `Emit.SetBpfRetErrno` | bpf.h:150-152 | slot i becomes `BPF_RET+BPF_K` whose immediate has the errno action and the errno's low 16 bits as data; only slot i changes |
| `Emit.SetBpfRetAllow` | bpf.h:154-155 | slot i becomes `BPF_RET+BPF_K` returning `SECCOMP_RET_ALLOW`, whose action is allow and whose data is 0; only slot i changes |
| `Emit.BpfLoadSyscallNr` | bpf.h:157-158 | slot i becomes an `LD+W+ABS` statement with k = 0, and that load reads the syscall number of every record in either byte order |
| `Labels.SkipN` | bpf.h:106-109 | `SKIPN(n)` is the offset n itself, and `NEXT` and `SKIP` are its cases 0 and 1 |
| `Labels.MarkerOf` | bpf.h:112-115 | the model's reading of the sentinels (not code from bpf.h): an instruction declares label k exactly when it is `JMP+JA` with jt = jf = 0xfe, references label k exactly when it is `JMP+JA` with jt = jf = 0xff, and any marker carries the instruction's k |
| `Labels.SentinelsDistinct` | bpf.h:112-115 | the declaration and reference sentinels differ in both jt and jf; an instruction carrying the label sentinel in jt or jf never reads as a reference, one carrying the jump sentinel never reads as a declaration, and `NEXT`/`SKIP` offsets are never read as markers |
| `SeccompRet.ActionValue` | bpf.h:39-44 | no action constant has a bit inside `SECCOMP_RET_DATA` |
| `SeccompRet.ActionOf` | bpf.h:39-44 | decoding a value's action half gives the action whose constant equals that half, or nothing when no constant does |
| `SeccompRet.ErrnoReturn` | bpf.h:150-152 | for every errno, the `set_bpf_ret_errno` immediate keeps the errno action and carries exactly the errno's low 16 bits as data |
| `SeccompRet.FieldsPartition` | bpf.h:44 | the action half and the data half of a value are disjoint and together make up the value |
| `SeccompRet.ActionValuesDistinct` | bpf.h:39-42 | KILL, TRAP, ERRNO and ALLOW are pairwise distinct |
| `SeccompRet.ActionRoundTrip` | bpf.h:39-44 | decoding an action constant gives the action back |
| `SeccompRet.ErrnoPreserved` | bpf.h:150-152 | an errno that fits in 16 bits reaches the data field unchanged |
| `SeccompData.Image` | bpf.h:46-51 | the record occupies 64 bytes |
| `SeccompData.ArgsBytes` | bpf.h:50 | `args[6]` occupies 8 bytes per element |
| `SeccompData.ToU32` | bpf.h:47 | the signed `nr` is stored as its two's-complement 32-bit pattern |
| `SeccompData.ArgOffset` | bpf.h:82 | `args[idx]` lies at `16 + 8*idx`, and its 8 bytes lie inside the 64-byte record exactly when idx is 0..5 |
| `SeccompData.ImageHeader` | bpf.h:46-54 | `nr` is at byte 0, `arch` at byte 4 and `instruction_pointer` at bytes 8..15 |
| `SeccompData.ImageArg` | bpf.h:46-51 | `args[idx]` occupies the 8 bytes from `offsetof(struct seccomp_data, args[idx])` |
| `SeccompData.LoadSyscallNr` | bpf.h:53 | a word load at `syscall_nr` reads the record's syscall number, in either byte order |
| `SeccompData.LoadArchNr` | bpf.h:54 | a word load at `arch_nr` reads the record's architecture, in either byte order |
| `SeccompData.LoArgAsWritten` | bpf.h:82-98 | the header's `LO_ARG`: the base of `args[idx]` on 32-bit targets whatever the byte order; on 64-bit targets the base exactly when little-endian, else base + 4; its word fits in the record exactly when idx < 6 |
| `SeccompData.LoArg` | bpf.h:93-98 | the corrected `LO_ARG`: on every word size, the base of `args[idx]` exactly when little-endian, else base + 4; 4-aligned, and its word fits in the record exactly when idx < 6 |
| `SeccompData.HiArg` | bpf.h:96-99 | `HI_ARG`, defined on 64-bit targets only: the base of `args[idx]` exactly when big-endian, else base + 4; 4-aligned, and its word fits in the record exactly when idx < 6 |
| `SeccompData.LoadLoArg` | bpf.h:93-98 | a word load at the corrected `LO_ARG` offset (`LoArg`) reads the less significant 32 bits of `args[idx]` for idx 0..5, on every word size and byte order; the header's `LO_ARG` is that offset except on 32-bit big-endian (`LoArgAsWrittenAgrees`) |
| `SeccompData.LoadHiArg` | bpf.h:93-99 | on 64-bit targets a word load at `HI_ARG(idx)` reads the more significant 32 bits of `args[idx]` |
| `SeccompData.LoadArgRecombines` | bpf.h:93-99 | on 64-bit targets the words loaded at the header's `HI_ARG` and `LO_ARG`, high times 2^32 plus low, give back the whole argument |
| `SeccompData.ArgHalves` | bpf.h:94-99 | on 64-bit targets the header's `LO_ARG` and `HI_ARG` are the two disjoint 4-byte halves of `args[idx]`, exactly 4 apart: low at the base on little-endian, high at the base on big-endian; both lie inside the record exactly when idx is 0..5 |
| `SeccompData.LoArgAsWrittenAgrees` | bpf.h:74-104 | `LO_ARG` as written equals the byte-order-correct offset exactly when the target is 64-bit or little-endian |
| `SeccompData.LoArgAsWrittenLoadsHigh` | bpf.h:74-82 | on a 32-bit big-endian target, the word at `LO_ARG(idx)` as written is the high 32 bits of `args[idx]`, for every record |
| `SeccompData.LoArgAsWrittenBigEndian32` | bpf.h:82 | on a 32-bit big-endian target, `LO_ARG(0)` as written reads 0 for an argument whose low 32 bits are 1 |
| `Operators.OperatorValue` | bpf.h:25-33 | every operator's value lies in `MIN_OPERATOR`..`MIN_OPERATOR+5` |
| `Operators.OperatorOf` | bpf.h:25-33 | an integer denotes an operator exactly when it lies in 128..133, and then it is that operator's value |
| `Operators.OperatorRoundTrip` | bpf.h:25-33 | decoding an operator's value gives the operator back |
| `Operators.OperatorValuesConsecutive` | bpf.h:25-33 | EQ..GE are 128..133 in declaration order, and distinct operators have distinct values |
| `Lengths.LoadArgLen` | bpf.h:76-87 | `BPF_LOAD_ARG_LEN` is 1 exactly on 32-bit targets and 4 exactly on 64-bit targets |
| `Lengths.CompLen` | bpf.h:77-88 | `BPF_COMP_LEN` is 1 exactly on 32-bit targets and 3 exactly on 64-bit targets |
| `Lengths.ArgCompLen` | bpf.h:75-89 | `BPF_ARG_COMP_LEN` is 2 exactly on 32-bit targets and 7 exactly on 64-bit targets, as the comments at bpf.h:75 and 86 announce |
| `Lengths.ArgCompLenValues` | bpf.h:74-89 | `BPF_ARG_COMP_LEN = BPF_LOAD_ARG_LEN + BPF_COMP_LEN`, which is 1 + 1 = 2 on 32 bits and 4 + 3 = 7 on 64 bits |

## Findings

| source | as written | input that shows it | evidently intended | confidence | as-written member | corrected member |
|---|---|---|---|---|---|---|
| bpf.h:74-82 | on `BITS32`, `LO_ARG(idx)` is `offsetof(struct seccomp_data, args[idx])` whatever the byte order; the byte-order branch (bpf.h:93-102) exists only for `BITS64` | a 32-bit big-endian build (big-endian ARM satisfies `__arm__`) with `args[0] == 1`: the word at `LO_ARG(0)` reads 0 | as the comment at bpf.h:93 says, load the logically correct half: `args[idx]` + 4 on big-endian | medium: depends on 32-bit big-endian builds being meant to work. Big-endian ARM is the only such build bpf.h admits (bpf.h:56-71), and bpf.h:68 sets `ARCH_NR` to `AUDIT_ARCH_ARM`, the little-endian ARM value of `<linux/audit.h>`, while a big-endian ARM task reports `AUDIT_ARCH_ARMEB`. An architecture check against `ARCH_NR` would then reject every syscall before any `LO_ARG` load runs, which hides the defect in practice and suggests such builds were never targeted; not executed | `SeccompData.LoArgAsWrittenBigEndian32` | `SeccompData.LoadLoArg` |

`SeccompData.LoArgAsWritten` is the header's definition. `SeccompData.LoArg`
applies the byte-order choice on both word sizes. `LoadLoArg` is stated over
`LoArg`; the 64-bit lemmas `LoadArgRecombines` and `ArgHalves` are stated over
the header's `LO_ARG` (`LoArgAsWritten`). The two offsets agree on every target
except 32-bit big-endian (`SeccompData.LoArgAsWrittenAgrees`).

## Left out

- The bodies of `bpf_resolve_jumps`, `bpf_label_id`, `bpf_load_arg`, `bpf_comp_jeq32`/`bpf_comp_jeq64` (and the `bpf_comp_jeq` alias that picks one per word size), `bpf_arg_comp`, `bpf_validate_arch`, `bpf_allow_syscall` and `bpf_allow_syscall_args` (bpf.h:161-180). The header declares them, but they are defined in bpf.c, which is not part of this model. So label resolution, long-jump handling and the 64-bit compare sequences are not modelled.
- `ARCH_VALIDATION_LEN` and `ALLOW_SYSCALL_LEN` (bpf.h:172-173) are kept as constants only. Nothing claims they match what the builders emit, because those builders' bodies are not part of this model.
- `struct bpf_labels` (bpf.h:117-126) is declared as a type (`Labels.BpfLabels`) with capacity 256 and names of at most 32 bytes by convention. The header shows no operation on it, so no behaviour is modelled.
- `free_label_strings` only frees memory and is not modelled.
- `dump_bpf_prog` and `dump_bpf_filter` are debug output (I/O) and are not modelled.
- `ARCH_NR` (bpf.h:56-71) is an architecture constant from `<linux/audit.h>`. Nothing in the modelled layer uses it.
- The model reads bpf.h's `defined(__LITTLE_ENDIAN)` / `defined(__BIG_ENDIAN)` tests (bpf.h:94, 97) as the machine's byte order: one `Target.order` selects the `LO_ARG`/`HI_ARG` branch and also lays out the record. That holds when exactly one of the two macros is defined and it names the machine's order, as with the kernel's `<asm/byteorder.h>`. bpf.h does not show which header defines them; with glibc's `<endian.h>` both are defined on every machine, the little-endian branch wins, and on a 64-bit big-endian machine `HI_ARG` would then address the low half. No state where branch and machine order differ is modelled, so `LoadHiArg`, `LoadLoArg`, `LoadArgRecombines` and `ArgHalves` are stated only for matching orders.
- Argument indices are natural numbers (`idx: nat`) throughout `SeccompData`. The macros accept any integer expression and `bpf_load_arg` takes an `int argidx` (bpf.h:167); a negative index is undefined in ISO C, so no defined behaviour is lost.
- `LO_ARG` and `HI_ARG` expand without parentheses (bpf.h:96, 98). They are modelled as plain sums, so operator-precedence surprises at a use site are not captured.
- Values of `__BITS_PER_LONG` other than 32 and 64 leave both `BITS32` and `BITS64` undefined. Unlike the architecture and byte-order branches (bpf.h:70, 101), that path has no `#error`: the header then defines none of `BPF_LOAD_ARG_LEN`, `BPF_COMP_LEN`, `BPF_ARG_COMP_LEN`, `LO_ARG`, `HI_ARG` or the `bpf_comp_jeq` alias. `Target.WordSize` has only the two cases.
- `set_bpf_instr` is only declared in the header; its body is in bpf.c, which is not part of this model. The returned length of 1 is assumed: the header's `size_t` results and its `*_LEN` instruction counts suggest that each emitter returns the number of instructions it wrote, but the header does not state it. Slot i of an `array<Instr>` stands for the C pointer to one `struct sock_filter`.
- The macros' arguments are taken at `set_bpf_instr`'s parameter types: a 16-bit code, a 32-bit k and 8-bit jt/jf. `Emit.SetBpfRetErrno` takes the errno's 32-bit two's-complement pattern, which is what C produces when `errno & SECCOMP_RET_DATA` converts a signed errno to `unsigned int`.
- `SeccompData.LoadAbs` describes what the kernel does with a `BPF_LD+BPF_W+BPF_ABS` load in a seccomp filter. The load is accepted only for a word-aligned offset inside the 64-byte record, and it then reads a native-order 32-bit word. This behaviour belongs to Linux, not to bpf.h; the model uses it only to give the offsets their meaning.
