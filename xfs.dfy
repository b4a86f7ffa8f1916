// The XFS and DMAPI definitions the HSM glue consumes: the bulkstat record
// (xfs_bstat_t), the getbmapx extent record, and the header constants
// tested against them. The numeric values of these constants come from
// system headers that are not part of this model; they are written with
// the values the Linux/XFS headers use, and no proof depends on more than
// their being fixed, distinct bits.

module Xfs {

  /** S_IFMT and S_IFREG of <sys/stat.h>. */
  const S_IFMT: bv16 := 0xF000
  const S_IFREG: bv16 := 0x8000

  /** XFS_XFLAG_HASATTR: the inode may carry extended attributes. */
  const XFS_XFLAG_HASATTR: bv32 := 0x8000_0000

  /** Bit numbers of the DMAPI events DMF manages. */
  const DM_EVENT_READ: bv32 := 16
  const DM_EVENT_WRITE: bv32 := 17
  const DM_EVENT_TRUNCATE: bv32 := 18
  const DM_EVENT_DESTROY: bv32 := 20

  /** The event bits that offline, unmigrating and partial DMF files carry. */
  const DMF_EV_BITS: bv32 := (1 << DM_EVENT_DESTROY) | (1 << DM_EVENT_READ)
                            | (1 << DM_EVENT_WRITE) | (1 << DM_EVENT_TRUNCATE)

  /** The fields of xfs_bstat_t that the HSM glue reads or writes. The
      caller owns the record and HsmModifyInode updates it in place. */
  class Bstat {
    var mode: bv16
    var xflags: bv32
    var dmevmask: bv32
    var size: int
  }

  predicate IsRegular(mode: bv16) {
    mode & S_IFMT == S_IFREG
  }

  predicate MayHaveAttrs(xflags: bv32) {
    xflags & XFS_XFLAG_HASATTR != 0
  }

  predicate HasDmfEvents(dmevmask: bv32) {
    dmevmask & DMF_EV_BITS != 0
  }

  /** The three cheap tests that can rule a file out before its DMF
      attribute is fetched. */
  predicate PassesQuickTests(st: Bstat)
    reads st
  {
    IsRegular(st.mode) && MayHaveAttrs(st.xflags) && HasDmfEvents(st.dmevmask)
  }

  /** One struct getbmapx. Offsets and lengths are in 512-byte basic blocks;
      element 0 of an array of them is the header whose `entries` counts the
      extents that follow. */
  datatype Getbmapx = Getbmapx(
    offset: int,
    block: int,
    length: int,
    count: int,
    entries: int,
    iflags: int,
    oflags: int)

  /** The block number getbmapx uses for a hole. */
  const HOLE_BLOCK: int := -1

  const BBSIZE: nat := 512

  /** BTOBB: bytes to basic blocks, rounding up. The macro lives in an XFS
      header outside this model; this is its meaning for the non-negative
      sizes of regular files. */
  function Btobb(bytes: int): (r: int)
    ensures bytes >= 0 ==> r >= 0 && (r - 1) * BBSIZE < bytes <= r * BBSIZE
  {
    (bytes + BBSIZE - 1) / BBSIZE
  }
}
