/**
 * `struct seccomp_data`, the record a seccomp filter reads (bpf.h:46-54), and the
 * byte offsets bpf.h derives from it with `offsetof`: `syscall_nr`, `arch_nr`,
 * `LO_ARG` and `HI_ARG` (bpf.h:82, 93-102).
 *
 * The record is modelled as the 64-byte memory image the kernel fills in the
 * machine's byte order, so that an offset is not just a number: loading the
 * 32-bit word at that offset yields the field it is meant to address.
 */
module SeccompData {
  import opened Wrappers
  import opened Target

  const W32: int := 0x1_0000_0000

  type U8 = x: nat | x < 0x100
  type U32 = x: nat | x < 0x1_0000_0000
  type U64 = x: nat | x < 0x1_0000_0000_0000_0000
  type I32 = x: int | -0x8000_0000 <= x < 0x8000_0000

  /** `__u64 args[6]` */
  type Args = s: seq<U64> | |s| == 6 witness [0, 0, 0, 0, 0, 0]

  /** `struct seccomp_data { int nr; __u32 arch; __u64 instruction_pointer; __u64 args[6]; }` */
  datatype SeccompData = SeccompData(nr: I32, arch: U32, instructionPointer: U64, args: Args)

  /** `sizeof(struct seccomp_data)`: no field needs padding, each offset below is a multiple of its size. */
  const SeccompDataSize: nat := 64
  /** `syscall_nr`, that is `offsetof(struct seccomp_data, nr)` */
  const SyscallNrOffset: nat := 0
  /** `arch_nr`, that is `offsetof(struct seccomp_data, arch)` */
  const ArchNrOffset: nat := 4
  /** `offsetof(struct seccomp_data, instruction_pointer)` */
  const InstructionPointerOffset: nat := 8
  /** `offsetof(struct seccomp_data, args)` */
  const ArgsOffset: nat := 16
  /** `sizeof(__u32)`, the distance between the two halves of an argument */
  const HalfSize: nat := 4

  /** `offsetof(struct seccomp_data, args[idx])`; only indices 0..5 name an argument inside the record. */
  function ArgOffset(idx: nat): (off: nat)
    ensures off + 8 <= SeccompDataSize <==> idx < 6
    ensures off % 8 == 0 && off >= ArgsOffset
  {
    ArgsOffset + 8 * idx
  }

  /** `LO_ARG(idx)` as bpf.h writes it: on BITS32 the base of `args[idx]` whatever the byte order. */
  function LoArgAsWritten(t: Target, idx: nat): (off: nat)
    ensures off == ArgOffset(idx) || off == ArgOffset(idx) + HalfSize
    ensures t.bits == Bits32 ==> off == ArgOffset(idx)
    ensures t.bits == Bits64 ==> (off == ArgOffset(idx) <==> t.order == LittleEndian)
    ensures off + 4 <= SeccompDataSize <==> idx < 6
  {
    match t.bits
    case Bits32 => ArgOffset(idx)
    case Bits64 => if t.order == LittleEndian then ArgOffset(idx) else ArgOffset(idx) + HalfSize
  }

  /**
   * `LO_ARG(idx)` with the byte-order choice applied on every word size: the
   * offset of the less significant 32-bit half of `args[idx]`.
   */
  function LoArg(t: Target, idx: nat): (off: nat)
    ensures off == ArgOffset(idx) || off == ArgOffset(idx) + HalfSize
    ensures off == ArgOffset(idx) <==> t.order == LittleEndian
    ensures off % 4 == 0
    ensures off + 4 <= SeccompDataSize <==> idx < 6
  {
    if t.order == LittleEndian then ArgOffset(idx) else ArgOffset(idx) + HalfSize
  }

  /** `HI_ARG(idx)`, defined by bpf.h on BITS64 only: the more significant half of `args[idx]`. */
  function HiArg(t: Target, idx: nat): (off: nat)
    requires t.bits == Bits64
    ensures off == ArgOffset(idx) || off == ArgOffset(idx) + HalfSize
    ensures off == ArgOffset(idx) <==> t.order == BigEndian
    ensures off % 4 == 0
    ensures off + 4 <= SeccompDataSize <==> idx < 6
  {
    match t.order
    case LittleEndian => ArgOffset(idx) + HalfSize
    case BigEndian => ArgOffset(idx)
  }

  /** C's conversion of an `int` to `__u32`: the two's-complement bit pattern. */
  function ToU32(x: int): (r: U32)
    ensures 0 <= x < W32 ==> r == x
    ensures -W32 <= x < 0 ==> r == x + W32
  {
    x % W32
  }

  /** The less significant 32 bits of a 64-bit value. */
  function Low32(v: U64): U32
  {
    v % W32
  }

  /** The more significant 32 bits of a 64-bit value. */
  function High32(v: U64): U32
  {
    v / W32
  }

  /** 256 to the power k. */
  function Place(k: nat): nat
    requires k < 8
  {
    [1, 0x100, 0x1_0000, 0x100_0000, 0x1_0000_0000, 0x100_0000_0000,
     0x1_0000_0000_0000, 0x100_0000_0000_0000][k]
  }

  /** The k-th least significant byte of v. */
  function ByteOf(v: nat, k: nat): U8
    requires k < 8
  {
    (v / Place(k)) % 0x100
  }

  /** The four bytes, lowest address first, that hold the 32-bit value v in byte order o. */
  function Bytes4(v: nat, o: ByteOrder): seq<U8>
  {
    if o == LittleEndian then [ByteOf(v, 0), ByteOf(v, 1), ByteOf(v, 2), ByteOf(v, 3)]
    else [ByteOf(v, 3), ByteOf(v, 2), ByteOf(v, 1), ByteOf(v, 0)]
  }

  /** The eight bytes, lowest address first, that hold the 64-bit value v in byte order o. */
  function Bytes8(v: nat, o: ByteOrder): seq<U8>
  {
    if o == LittleEndian then
      [ByteOf(v, 0), ByteOf(v, 1), ByteOf(v, 2), ByteOf(v, 3), ByteOf(v, 4), ByteOf(v, 5), ByteOf(v, 6), ByteOf(v, 7)]
    else
      [ByteOf(v, 7), ByteOf(v, 6), ByteOf(v, 5), ByteOf(v, 4), ByteOf(v, 3), ByteOf(v, 2), ByteOf(v, 1), ByteOf(v, 0)]
  }

  /** The 32-bit word at byte offset off of m, read in byte order o. */
  function LoadWord(m: seq<U8>, off: nat, o: ByteOrder): U32
    requires off + 4 <= |m|
  {
    var b0, b1, b2, b3: int := m[off], m[off + 1], m[off + 2], m[off + 3];
    if o == LittleEndian then b0 + 0x100 * b1 + 0x1_0000 * b2 + 0x100_0000 * b3
    else b3 + 0x100 * b2 + 0x1_0000 * b1 + 0x100_0000 * b0
  }

  /** The bytes of an argument array, one 8-byte slot per element, in order. */
  function ArgsBytes(args: seq<U64>, o: ByteOrder): (b: seq<U8>)
    ensures |b| == 8 * |args|
  {
    if args == [] then [] else Bytes8(args[0], o) + ArgsBytes(args[1..], o)
  }

  /** The record as the kernel lays it out in memory: the fields in declaration order, no padding. */
  function Image(d: SeccompData, o: ByteOrder): (m: seq<U8>)
    ensures |m| == SeccompDataSize
  {
    Bytes4(ToU32(d.nr), o) + Bytes4(d.arch, o) + Bytes8(d.instructionPointer, o)
    + ArgsBytes(d.args, o)
  }

  /**
   * A `BPF_LD+BPF_W+BPF_ABS` load with immediate k, run against the record:
   * the kernel admits it only for a word-aligned k inside the record (otherwise
   * the whole filter is refused, None here) and reads a native 32-bit word.
   */
  function LoadAbs(m: seq<U8>, k: nat, o: ByteOrder): Option<U32>
    requires |m| == SeccompDataSize
  {
    if k < SeccompDataSize && k % 4 == 0 then Some(LoadWord(m, k, o)) else None
  }

  // ---------------------------------------------------------------------------
  // Byte-level facts

  /** A 32-bit value is the sum of its four bytes at their places. */
  lemma WordOfBytes(w: U32)
    ensures ByteOf(w, 0) + 0x100 * ByteOf(w, 1) + 0x1_0000 * ByteOf(w, 2) + 0x100_0000 * ByteOf(w, 3) == w
  {
    var b0, q1 := w % 0x100, w / 0x100;
    var b1, q2 := q1 % 0x100, q1 / 0x100;
    var b2, b3 := q2 % 0x100, q2 / 0x100;
    assert w == b3 * 0x100_0000 + (b2 * 0x1_0000 + b1 * 0x100 + b0);
    DivUnique(w, 3, b3, b2 * 0x1_0000 + b1 * 0x100 + b0);
    assert w == (b3 * 0x100 + b2) * 0x1_0000 + (b1 * 0x100 + b0);
    DivUnique(w, 2, b3 * 0x100 + b2, b1 * 0x100 + b0);
    DivUnique(w, 1, q1, b0);
    DivUnique(w, 0, w, 0);
  }

  /** Reading back the four bytes that store a 32-bit value gives the value. */
  lemma WordRoundTrip(m: seq<U8>, off: nat, w: U32, o: ByteOrder)
    requires off + 4 <= |m| && m[off..off + 4] == Bytes4(w, o)
    ensures LoadWord(m, off, o) == w
  {
    var b := Bytes4(w, o);
    assert m[off] == b[0] && m[off + 1] == b[1] && m[off + 2] == b[2] && m[off + 3] == b[3];
    WordOfBytes(w);
  }

  /** Division with remainder by one of the places 1, 256, 65536, 2^24 is unique. */
  lemma DivUnique(x: int, k: nat, q: int, r: int)
    requires k < 4 && 0 <= r < Place(k) && x == q * Place(k) + r
    ensures x / Place(k) == q && x % Place(k) == r
  {
    if k == 0 {} else if k == 1 {} else if k == 2 {} else {}
  }

  /** Bytes 0..3 of a value are the bytes of its low 32 bits. */
  lemma LowByte(v: U64, k: nat)
    requires k < 4
    ensures ByteOf(v, k) == ByteOf(v % W32, k)
  {
    var q, r := v / W32, v % W32;
    var p := Place(k);
    var c := W32 / (p * 0x100);
    assert W32 == c * 0x100 * p by {
      if k == 0 {} else if k == 1 {} else if k == 2 {} else {}
    }
    var r1, r0 := r / p, r % p;
    assert v == (q * c * 0x100 + r1) * p + r0;
    DivUnique(v, k, q * c * 0x100 + r1, r0);
    DivUnique(q * c * 0x100 + r1, 1, q * c + r1 / 0x100, r1 % 0x100);
    DivUnique(r, k, r1, r0);
  }

  /** Bytes 4..7 of a value are the bytes of its high 32 bits. */
  lemma HighByte(v: U64, k: nat)
    requires k < 4
    ensures ByteOf(v, 4 + k) == ByteOf(v / W32, k)
  {
  }

  /** The first and last four bytes of an 8-byte value, in memory order. */
  lemma Halves(v: U64, o: ByteOrder)
    ensures Bytes8(v, o)[..4] == Bytes4(if o == LittleEndian then Low32(v) else High32(v), o)
    ensures Bytes8(v, o)[4..] == Bytes4(if o == LittleEndian then High32(v) else Low32(v), o)
  {
    forall k | 0 <= k < 4
      ensures ByteOf(v, k) == ByteOf(Low32(v), k) && ByteOf(v, 4 + k) == ByteOf(High32(v), k)
    {
      LowByte(v, k);
      HighByte(v, k);
    }
  }

  // ---------------------------------------------------------------------------
  // Layout of the record

  /** A window of a concatenation that lies inside one of its parts. */
  lemma WindowOfConcat<T>(a: seq<T>, b: seq<T>, lo: nat, hi: nat)
    requires lo <= hi <= |a| + |b|
    ensures hi <= |a| ==> (a + b)[lo..hi] == a[lo..hi]
    ensures |a| <= lo ==> (a + b)[lo..hi] == b[lo - |a|..hi - |a|]
  {
  }

  /** Element i of the argument array occupies bytes 8i..8i+7 of its bytes. */
  lemma {:induction false} ArgsBytesAt(args: seq<U64>, o: ByteOrder, i: nat)
    requires i < |args|
    ensures ArgsBytes(args, o)[8 * i..8 * i + 8] == Bytes8(args[i], o)
  {
    var first, rest := Bytes8(args[0], o), ArgsBytes(args[1..], o);
    assert ArgsBytes(args, o) == first + rest;
    WindowOfConcat(first, rest, 8 * i, 8 * i + 8);
    if i > 0 {
      ArgsBytesAt(args[1..], o, i - 1);
      assert 8 * i - 8 == 8 * (i - 1) && 8 * i + 8 - 8 == 8 * (i - 1) + 8;
      assert args[1..][i - 1] == args[i];
    }
  }

  /** `nr`, `arch` and `instruction_pointer` sit at `syscall_nr`, `arch_nr` and offset 8. */
  lemma ImageHeader(d: SeccompData, o: ByteOrder)
    ensures Image(d, o)[SyscallNrOffset..SyscallNrOffset + 4] == Bytes4(ToU32(d.nr), o)
    ensures Image(d, o)[ArchNrOffset..ArchNrOffset + 4] == Bytes4(d.arch, o)
    ensures Image(d, o)[InstructionPointerOffset..ArgsOffset] == Bytes8(d.instructionPointer, o)
  {
  }

  /** `args[idx]` occupies the eight bytes from `offsetof(struct seccomp_data, args[idx])`. */
  lemma ImageArg(d: SeccompData, o: ByteOrder, idx: nat)
    requires idx < 6
    ensures Image(d, o)[ArgOffset(idx)..ArgOffset(idx) + 8] == Bytes8(d.args[idx], o)
  {
    var head := Bytes4(ToU32(d.nr), o) + Bytes4(d.arch, o) + Bytes8(d.instructionPointer, o);
    assert Image(d, o) == head + ArgsBytes(d.args, o);
    ArgsBytesAt(d.args, o, idx);
    assert Image(d, o)[ArgOffset(idx)..ArgOffset(idx) + 8] == ArgsBytes(d.args, o)[8 * idx..8 * idx + 8];
  }

  // ---------------------------------------------------------------------------
  // What a load at each offset reads

  /** Loading the word at `syscall_nr` yields the syscall number (as the kernel's 32-bit pattern). */
  lemma LoadSyscallNr(d: SeccompData, o: ByteOrder)
    ensures LoadAbs(Image(d, o), SyscallNrOffset, o) == Some(ToU32(d.nr))
  {
    ImageHeader(d, o);
    WordRoundTrip(Image(d, o), SyscallNrOffset, ToU32(d.nr), o);
  }

  /** Loading the word at `arch_nr` yields the audit architecture. */
  lemma LoadArchNr(d: SeccompData, o: ByteOrder)
    ensures LoadAbs(Image(d, o), ArchNrOffset, o) == Some(d.arch)
  {
    ImageHeader(d, o);
    WordRoundTrip(Image(d, o), ArchNrOffset, d.arch, o);
  }

  /** The halves of an 8-element window are the 4-element windows at its start and at its middle. */
  lemma SliceOfSlot<T>(s: seq<T>, base: nat)
    requires base + 8 <= |s|
    ensures s[base..base + 4] == s[base..base + 8][..4]
    ensures s[base + 4..base + 8] == s[base..base + 8][4..]
  {
  }

  /** A load at the 32-bit word with index `word` of the record reads that word's four bytes. */
  lemma LoadWordAt(m: seq<U8>, word: nat, w: U32, o: ByteOrder)
    requires |m| == SeccompDataSize && 4 * word + 4 <= |m|
    requires m[4 * word..4 * word + 4] == Bytes4(w, o)
    ensures LoadAbs(m, 4 * word, o) == Some(w)
  {
    WordRoundTrip(m, 4 * word, w, o);
  }

  /**
   * In a record whose slot for `args[idx]` holds v, the words at the slot's
   * base and at base + 4: low then high on little-endian, high then low on big-endian.
   */
  lemma LoadArgHalves(m: seq<U8>, v: U64, o: ByteOrder, idx: nat)
    requires |m| == SeccompDataSize && idx < 6
    requires m[ArgOffset(idx)..ArgOffset(idx) + 8] == Bytes8(v, o)
    ensures LoadAbs(m, ArgOffset(idx), o) == Some(if o == LittleEndian then Low32(v) else High32(v))
    ensures LoadAbs(m, ArgOffset(idx) + HalfSize, o) == Some(if o == LittleEndian then High32(v) else Low32(v))
  {
    var base := ArgOffset(idx);
    var first, second := if o == LittleEndian then Low32(v) else High32(v),
                         if o == LittleEndian then High32(v) else Low32(v);
    Halves(v, o);
    SliceOfSlot(m, base);
    assert m[base..base + 4] == Bytes4(first, o);
    assert m[base + 4..base + 8] == Bytes4(second, o);
    assert base == 4 * (2 * idx + 4) && base + 4 == 4 * (2 * idx + 5);
    LoadWordAt(m, 2 * idx + 4, first, o);
    LoadWordAt(m, 2 * idx + 5, second, o);
  }

  /**
   * The corrected `LO_ARG` (`LoArg`) loads the less significant 32 bits of
   * `args[idx]` on every target; the header's `LO_ARG` agrees except on 32-bit
   * big-endian (`LoArgAsWrittenAgrees`).
   */
  lemma LoadLoArg(t: Target, d: SeccompData, idx: nat)
    requires idx < 6
    ensures LoadAbs(Image(d, t.order), LoArg(t, idx), t.order) == Some(Low32(d.args[idx]))
  {
    ImageArg(d, t.order, idx);
    LoadArgHalves(Image(d, t.order), d.args[idx], t.order, idx);
  }

  /** On BITS64, `HI_ARG(idx)` loads the more significant 32 bits of `args[idx]`. */
  lemma LoadHiArg(t: Target, d: SeccompData, idx: nat)
    requires t.bits == Bits64 && idx < 6
    ensures LoadAbs(Image(d, t.order), HiArg(t, idx), t.order) == Some(High32(d.args[idx]))
  {
    ImageArg(d, t.order, idx);
    LoadArgHalves(Image(d, t.order), d.args[idx], t.order, idx);
  }

  /** Loading both halves on BITS64 recovers the whole 64-bit argument. */
  lemma LoadArgRecombines(t: Target, d: SeccompData, idx: nat)
    requires t.bits == Bits64 && idx < 6
    ensures var m := Image(d, t.order);
            LoadAbs(m, HiArg(t, idx), t.order).Some? && LoadAbs(m, LoArgAsWritten(t, idx), t.order).Some?
            && LoadAbs(m, HiArg(t, idx), t.order).value * W32
               + LoadAbs(m, LoArgAsWritten(t, idx), t.order).value == d.args[idx]
  {
    LoArgAsWrittenAgrees(t, idx);
    LoadLoArg(t, d, idx);
    LoadHiArg(t, d, idx);
  }

  /**
   * The two halves: disjoint 4-byte words of `args[idx]`, exactly 4 apart, low
   * at the base on little-endian and high at the base on big-endian.
   */
  lemma ArgHalves(t: Target, idx: nat)
    requires t.bits == Bits64
    ensures {LoArgAsWritten(t, idx), HiArg(t, idx)} == {ArgOffset(idx), ArgOffset(idx) + HalfSize}
    ensures LoArgAsWritten(t, idx) != HiArg(t, idx)
    ensures t.order == LittleEndian ==>
              LoArgAsWritten(t, idx) == ArgOffset(idx) && HiArg(t, idx) == LoArgAsWritten(t, idx) + 4
    ensures t.order == BigEndian ==>
              HiArg(t, idx) == ArgOffset(idx) && LoArgAsWritten(t, idx) == HiArg(t, idx) + 4
    ensures idx < 6 <==>
              HiArg(t, idx) + 4 <= SeccompDataSize && LoArgAsWritten(t, idx) + 4 <= SeccompDataSize
  {
  }

  // ---------------------------------------------------------------------------
  // `LO_ARG` as written on BITS32

  /** Wherever the header's branch on byte order applies, `LO_ARG` as written is the corrected one. */
  lemma LoArgAsWrittenAgrees(t: Target, idx: nat)
    ensures LoArgAsWritten(t, idx) == LoArg(t, idx) <==> t.bits == Bits64 || t.order == LittleEndian
  {
  }

  /** As written, `LO_ARG(idx)` on a 32-bit big-endian build loads the more significant half. */
  lemma LoArgAsWrittenLoadsHigh(d: SeccompData, idx: nat)
    requires idx < 6
    ensures var t := Target(Bits32, BigEndian);
            LoadAbs(Image(d, t.order), LoArgAsWritten(t, idx), t.order) == Some(High32(d.args[idx]))
  {
    ImageArg(d, BigEndian, idx);
    LoadArgHalves(Image(d, BigEndian), d.args[idx], BigEndian, idx);
  }

  /**
   * On a 32-bit big-endian build, `LO_ARG(0)` as written addresses the more
   * significant word of `args[0]`: an argument 1 reads back as 0.
   */
  lemma LoArgAsWrittenBigEndian32()
    ensures var t := Target(Bits32, BigEndian);
            var d := SeccompData(0, 0, 0, [1, 0, 0, 0, 0, 0]);
            LoadAbs(Image(d, t.order), LoArgAsWritten(t, 0), t.order) == Some(0)
            && Low32(d.args[0]) == 1
  {
    var d := SeccompData(0, 0, 0, [1, 0, 0, 0, 0, 0]);
    LoArgAsWrittenLoadsHigh(d, 0);
    assert High32(d.args[0]) == 0;
  }
}
