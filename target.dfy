/**
 * The compile-time configuration that bpf.h selects with the preprocessor:
 * the width of `long` (`__BITS_PER_LONG`, which defines BITS32 or BITS64) and
 * a byte order. `order` stands both for the machine's byte order (how the
 * kernel lays out `struct seccomp_data`) and for the `LO_ARG`/`HI_ARG` branch
 * that bpf.h's `defined(__LITTLE_ENDIAN)` / `defined(__BIG_ENDIAN)` tests
 * select; the model assumes the two agree. The model takes it as a parameter,
 * fixed for a whole build.
 */
module Target {
  datatype WordSize = Bits32 | Bits64
  datatype ByteOrder = LittleEndian | BigEndian
  datatype Target = Target(bits: WordSize, order: ByteOrder)
}
