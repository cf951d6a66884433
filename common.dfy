/** The record the kernel probe pushes for every capability check, with the
    fixed-width integer types it is made of (capable-common/src/lib.rs). The
    widths are kept as bounded integers so that every truncating cast in the
    user-space code has to be written out. */
module CapableCommon {

  type u8 = x: int | 0 <= x < 0x100
  type u32 = x: int | 0 <= x < 0x1_0000_0000
  type u64 = x: int | 0 <= x < 0x1_0000_0000_0000_0000
  type i32 = x: int | -0x8000_0000 <= x < 0x8000_0000
  type i64 = x: int | -0x8000_0000_0000_0000 <= x < 0x8000_0000_0000_0000

  const I32_MAX: i32 := 0x7FFF_FFFF
  const TWO_POW_32: nat := 0x1_0000_0000

  type Pid = i32
  type Nsid = u32
  type StackId = i64
  type Uid = u32
  type Gid = u32

  /** One capability check: the checking process and its parent, the packed
      uid/gid and parent/own pid-namespace inodes, the capability number and
      the id of the kernel stack trace recorded with it. */
  datatype Request = Request(
    pid: Pid,
    ppid: Pid,
    uidGid: u64,
    pnsidNsid: u64,
    capability: u8,
    stackId: StackId)

  /** A Rust `as u32` cast: keeps the low 32 bits (two's complement for
      negative values, which Dafny's Euclidean `%` reproduces). */
  function AsU32(x: int): u32 {
    x % TWO_POW_32
  }
}
