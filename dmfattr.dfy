// The DMF extended attribute as XFS stores it (XFSattrvalue0_t,
// XFSattrvalue1_t and XFSattrregion_t): its byte layout, what makes an
// attribute describe a file that may be dumped as offline, and the
// offline-only value HsmAddNewAttribute writes in its place.

module DmfAttr {
  import opened BigEndian

  const DMF_ATTR_NAME: string := "SGI_DMI_DMFATTR"

  /** Capacity of the file context's attribute buffer. */
  const ATTR_BUF_SIZE: nat := 5000

  // Header common to both formats (XFSattrvalue0_t).
  const FSYS_OFF: nat := 0
  const VERSION_OFF: nat := 1
  const STATE_OFF: nat := 2
  const STATE_LEN: nat := 2
  const FLAGS_OFF: nat := STATE_OFF + STATE_LEN
  const FLAGS_LEN: nat := 2
  const BFID_OFF: nat := FLAGS_OFF + FLAGS_LEN
  const BFID_LEN: nat := 16
  const FORMAT0_LEN: nat := BFID_OFF + BFID_LEN

  // Fields format 1 adds (XFSattrvalue1_t).
  const SITETAG_OFF: nat := FORMAT0_LEN
  const SITETAG_LEN: nat := 4
  const REGCNT_OFF: nat := SITETAG_OFF + SITETAG_LEN
  const REGCNT_LEN: nat := 2
  const FORMAT1_HDR_LEN: nat := REGCNT_OFF + REGCNT_LEN

  // One region descriptor (XFSattrregion_t), at its offset from the start
  // of the region; the first region starts right after the format-1 header.
  const RG_OFFSET_OFF: nat := 0
  const RG_OFFSET_LEN: nat := 8
  const RG_SIZE_OFF: nat := RG_OFFSET_OFF + RG_OFFSET_LEN
  const RG_SIZE_LEN: nat := 8
  const RG_STATE_OFF: nat := RG_SIZE_OFF + RG_SIZE_LEN
  const RG_STATE_LEN: nat := 2
  const RG_FLAGS_OFF: nat := RG_STATE_OFF + RG_STATE_LEN
  const RG_FBITS_OFF: nat := RG_FLAGS_OFF + 1
  const REGION_LEN: nat := RG_FBITS_OFF + 1

  const MIN_FORMAT1_ATTR_LEN: nat := FORMAT1_HDR_LEN + REGION_LEN

  /** The only supported fsys value: XFS DMAPI without managed regions. */
  const FSYS_TYPE_XFS: byte := 1

  const DMF_ATTR_FORMAT_0: byte := 0
  const DMF_ATTR_FORMAT_1: byte := 1

  const DMF_ST_DUALSTATE: nat := 2
  const DMF_ST_OFFLINE: nat := 3
  const DMF_ST_UNMIGRATING: nat := 4
  const DMF_ST_PARTIAL: nat := 6

  /** Managed-region event flags of an offline region: the three disjoint
      bits 0x1, 0x2 and 0x4 or-ed together, which is their sum. */
  const DMF_MR_FLAGS: byte := 0x1 + 0x2 + 0x4

  /** The DMF states in which a file can be dumped as if it were offline. */
  predicate InterestingState(state: int) {
    state == DMF_ST_DUALSTATE || state == DMF_ST_OFFLINE
    || state == DMF_ST_UNMIGRATING || state == DMF_ST_PARTIAL
  }

  /** The attribute value `v`, taken on its own, is a DMF attribute of a
      supported format, of a length that format allows, in an interesting
      state: format 0 is exactly its header, format 1 holds at least one
      region after its header. */
  predicate CandidateAttribute(v: seq<byte>) {
    && |v| > VERSION_OFF
    && v[FSYS_OFF] == FSYS_TYPE_XFS
    && (|| (v[VERSION_OFF] == DMF_ATTR_FORMAT_0 && |v| == FORMAT0_LEN)
        || (v[VERSION_OFF] == DMF_ATTR_FORMAT_1 && |v| >= MIN_FORMAT1_ATTR_LEN))
    && InterestingState(Value(v[STATE_OFF..STATE_OFF + STATE_LEN]))
  }

  /** The test HsmInitFileContext applies to its buffer: it reads fsys,
      version and state at their fixed offsets in the whole buffer `b`,
      whatever the fetched length `len` is. */
  predicate BufferQualifies(b: seq<byte>, len: int)
    requires |b| == ATTR_BUF_SIZE
  {
    && b[FSYS_OFF] == FSYS_TYPE_XFS
    && (if b[VERSION_OFF] == DMF_ATTR_FORMAT_0 then len == FORMAT0_LEN
        else if b[VERSION_OFF] == DMF_ATTR_FORMAT_1 then len >= MIN_FORMAT1_ATTR_LEN
        else false)
    && InterestingState(Value(b[STATE_OFF..STATE_OFF + STATE_LEN]))
  }

  /** Reading at fixed offsets past the fetched length never changes the
      verdict: the buffer test accepts exactly when the fetched bytes alone
      form a candidate attribute, so stale bytes left from an earlier file
      cannot make a file a candidate. */
  lemma StaleBytesIgnored(b: seq<byte>, len: int)
    requires |b| == ATTR_BUF_SIZE && 0 <= len <= ATTR_BUF_SIZE
    ensures BufferQualifies(b, len) <==> CandidateAttribute(b[..len])
  {
    if len >= FORMAT0_LEN {
      assert b[..len][STATE_OFF..STATE_OFF + STATE_LEN] == b[STATE_OFF..STATE_OFF + STATE_LEN];
    }
  }

  /** A candidate attribute is always at least a whole format-0 header. */
  lemma CandidateLength(v: seq<byte>)
    requires CandidateAttribute(v)
    ensures |v| >= FORMAT0_LEN
  {
  }

  /** HsmAddNewAttribute keeps format 1 only for a format-1 attribute whose
      site tag is non-zero; it writes format 0 otherwise. */
  predicate HasSiteTag(b: seq<byte>)
    requires |b| == ATTR_BUF_SIZE
  {
    b[VERSION_OFF] == DMF_ATTR_FORMAT_1 && Value(b[SITETAG_OFF..SITETAG_OFF + SITETAG_LEN]) != 0
  }

  /** The attribute buffer and its valid length. */
  datatype AttrBuffer = AttrBuffer(bytes: seq<byte>, len: nat)

  /** The region count and the single region of an offline-only format-1
      attribute: one region, from offset 0 over `filesize` bytes, offline,
      with the offline event flags and no flag bits. */
  function OfflineRegion(filesize: int): (w: seq<byte>)
    ensures |w| == REGCNT_LEN + REGION_LEN
  {
    Bytes(1, REGCNT_LEN) + Bytes(0, RG_OFFSET_LEN) + Bytes(ToU64(filesize), RG_SIZE_LEN)
    + Bytes(DMF_ST_OFFLINE, RG_STATE_LEN) + [DMF_MR_FLAGS, 0]
  }

  /** The buffer HsmAddNewAttribute leaves behind: the cached attribute `b`
      rewritten into an offline-only value of a file of `filesize` bytes. A
      format-1 attribute with a site tag keeps its header and gets exactly
      one region; any other becomes a format-0 header. Either way the global
      state becomes offline. */
  function OfflineAttribute(b: seq<byte>, filesize: int): (r: AttrBuffer)
    requires |b| == ATTR_BUF_SIZE
    ensures |r.bytes| == ATTR_BUF_SIZE && r.len <= ATTR_BUF_SIZE
  {
    var offline := Bytes(DMF_ST_OFFLINE, STATE_LEN);
    if HasSiteTag(b) then
      AttrBuffer(Splice(Splice(b, REGCNT_OFF, OfflineRegion(filesize)), STATE_OFF, offline),
                 MIN_FORMAT1_ATTR_LEN)
    else
      AttrBuffer(Splice(b, VERSION_OFF, [DMF_ATTR_FORMAT_0] + offline), FORMAT0_LEN)
  }

  /** The field-by-field stores of HsmAddNewAttribute's format-1 branch
      write exactly OfflineRegion after the site tag. */
  lemma RegionStores(b: seq<byte>, filesize: int)
    requires |b| == ATTR_BUF_SIZE
    ensures
      var rg := FORMAT1_HDR_LEN;
      var b1 := Splice(b, REGCNT_OFF, Bytes(1, REGCNT_LEN));
      var b2 := Splice(b1, rg + RG_OFFSET_OFF, Bytes(0, RG_OFFSET_LEN));
      var b3 := Splice(b2, rg + RG_SIZE_OFF, Bytes(ToU64(filesize), RG_SIZE_LEN));
      var b4 := Splice(b3, rg + RG_STATE_OFF, Bytes(DMF_ST_OFFLINE, RG_STATE_LEN));
      b4[rg + RG_FLAGS_OFF := DMF_MR_FLAGS][rg + RG_FBITS_OFF := 0]
        == Splice(b, REGCNT_OFF, OfflineRegion(filesize))
  {
    var rg := FORMAT1_HDR_LEN;
    var w1, w2 := Bytes(1, REGCNT_LEN), Bytes(0, RG_OFFSET_LEN);
    var w3, w4 := Bytes(ToU64(filesize), RG_SIZE_LEN), Bytes(DMF_ST_OFFLINE, RG_STATE_LEN);
    var b1 := Splice(b, REGCNT_OFF, w1);
    var b2 := Splice(b1, rg + RG_OFFSET_OFF, w2);
    SpliceAdjacent(b, REGCNT_OFF, w1, w2);
    var b3 := Splice(b2, rg + RG_SIZE_OFF, w3);
    SpliceAdjacent(b, REGCNT_OFF, w1 + w2, w3);
    var b4 := Splice(b3, rg + RG_STATE_OFF, w4);
    SpliceAdjacent(b, REGCNT_OFF, w1 + w2 + w3, w4);
    assert b4[rg + RG_FLAGS_OFF := DMF_MR_FLAGS] == Splice(b4, rg + RG_FLAGS_OFF, [DMF_MR_FLAGS]);
    SpliceAdjacent(b, REGCNT_OFF, w1 + w2 + w3 + w4, [DMF_MR_FLAGS]);
    var b5 := b4[rg + RG_FLAGS_OFF := DMF_MR_FLAGS];
    assert b5[rg + RG_FBITS_OFF := 0] == Splice(b5, rg + RG_FBITS_OFF, [0]);
    SpliceAdjacent(b, REGCNT_OFF, w1 + w2 + w3 + w4 + [DMF_MR_FLAGS], [0]);
    assert w1 + w2 + w3 + w4 + [DMF_MR_FLAGS] + [0] == OfflineRegion(filesize);
  }

  /** HsmAddNewAttribute's format-0 branch: the version byte and then the
      state field. */
  lemma Format0Stores(b: seq<byte>)
    requires |b| == ATTR_BUF_SIZE
    ensures Splice(b[VERSION_OFF := DMF_ATTR_FORMAT_0], STATE_OFF, Bytes(DMF_ST_OFFLINE, STATE_LEN))
         == Splice(b, VERSION_OFF, [DMF_ATTR_FORMAT_0] + Bytes(DMF_ST_OFFLINE, STATE_LEN))
  {
    assert b[VERSION_OFF := DMF_ATTR_FORMAT_0] == Splice(b, VERSION_OFF, [DMF_ATTR_FORMAT_0]);
    SpliceAdjacent(b, VERSION_OFF, [DMF_ATTR_FORMAT_0], Bytes(DMF_ST_OFFLINE, STATE_LEN));
  }

  /** Decoded, OfflineRegion holds a region count of one and a region that
      starts at 0, spans `filesize` bytes (as u_int64_t), is offline and
      carries the offline event flags and no flag bits. */
  lemma OfflineRegionFields(filesize: int)
    ensures var w := OfflineRegion(filesize);
      && Value(w[0..2]) == 1
      && Value(w[2..10]) == 0
      && Value(w[10..18]) == ToU64(filesize)
      && Value(w[18..20]) == DMF_ST_OFFLINE
      && w[20] == DMF_MR_FLAGS && w[21] == 0
  {
    var w := OfflineRegion(filesize);
    assert w[0..2] == Bytes(1, REGCNT_LEN);
    assert w[2..10] == Bytes(0, RG_OFFSET_LEN);
    assert w[10..18] == Bytes(ToU64(filesize), RG_SIZE_LEN);
    assert w[18..20] == Bytes(DMF_ST_OFFLINE, RG_STATE_LEN);
    RoundTrip(1, REGCNT_LEN);
    RoundTrip(0, RG_OFFSET_LEN);
    Pow256Eight();
    RoundTrip(ToU64(filesize), RG_SIZE_LEN);
    RoundTrip(DMF_ST_OFFLINE, RG_STATE_LEN);
  }

  /** Where the format-1 rewrite writes: the global state and everything from
      the region count to the end of the first region. */
  lemma Format1Layout(b: seq<byte>, filesize: int)
    requires |b| == ATTR_BUF_SIZE && HasSiteTag(b)
    ensures var r := OfflineAttribute(b, filesize).bytes;
      && r[..STATE_OFF] == b[..STATE_OFF]
      && r[STATE_OFF..FLAGS_OFF] == Bytes(DMF_ST_OFFLINE, STATE_LEN)
      && r[FLAGS_OFF..REGCNT_OFF] == b[FLAGS_OFF..REGCNT_OFF]
      && r[REGCNT_OFF..MIN_FORMAT1_ATTR_LEN] == OfflineRegion(filesize)
      && r[MIN_FORMAT1_ATTR_LEN..] == b[MIN_FORMAT1_ATTR_LEN..]
  {
    var w := OfflineRegion(filesize);
    var s := Bytes(DMF_ST_OFFLINE, STATE_LEN);
    var b1 := Splice(b, REGCNT_OFF, w);
    SpliceWrites(b1, STATE_OFF, s);
    SpliceKeeps(b1, STATE_OFF, s, 0, STATE_OFF);
    SpliceKeeps(b, REGCNT_OFF, w, 0, STATE_OFF);
    SpliceKeeps(b1, STATE_OFF, s, REGCNT_OFF, MIN_FORMAT1_ATTR_LEN);
    SpliceWrites(b, REGCNT_OFF, w);
    SpliceKeeps(b1, STATE_OFF, s, FLAGS_OFF, REGCNT_OFF);
    SpliceKeeps(b, REGCNT_OFF, w, FLAGS_OFF, REGCNT_OFF);
    SpliceKeeps(b1, STATE_OFF, s, MIN_FORMAT1_ATTR_LEN, ATTR_BUF_SIZE);
    SpliceKeeps(b, REGCNT_OFF, w, MIN_FORMAT1_ATTR_LEN, ATTR_BUF_SIZE);
  }

  /** The fields of the first region, located in a buffer whose bytes
      26 to 48 are the region `w`. */
  lemma RegionSlices(r: seq<byte>, w: seq<byte>)
    requires |r| >= MIN_FORMAT1_ATTR_LEN && r[REGCNT_OFF..MIN_FORMAT1_ATTR_LEN] == w
    ensures r[REGCNT_OFF..REGCNT_OFF + REGCNT_LEN] == w[0..2]
    ensures r[FORMAT1_HDR_LEN + RG_OFFSET_OFF..FORMAT1_HDR_LEN + RG_SIZE_OFF] == w[2..10]
    ensures r[FORMAT1_HDR_LEN + RG_SIZE_OFF..FORMAT1_HDR_LEN + RG_STATE_OFF] == w[10..18]
    ensures r[FORMAT1_HDR_LEN + RG_STATE_OFF..FORMAT1_HDR_LEN + RG_FLAGS_OFF] == w[18..20]
    ensures r[FORMAT1_HDR_LEN + RG_FLAGS_OFF] == w[20] && r[FORMAT1_HDR_LEN + RG_FBITS_OFF] == w[21]
  {
    SliceOfSlice(r, REGCNT_OFF, MIN_FORMAT1_ATTR_LEN, 0, 2);
    SliceOfSlice(r, REGCNT_OFF, MIN_FORMAT1_ATTR_LEN, 2, 10);
    SliceOfSlice(r, REGCNT_OFF, MIN_FORMAT1_ATTR_LEN, 10, 18);
    SliceOfSlice(r, REGCNT_OFF, MIN_FORMAT1_ATTR_LEN, 18, 20);
  }

  /** The format-1 rewrite: one region covering the whole file, offline,
      with the offline event flags; the global state becomes offline; fsys,
      version, flags, bitfile id and site tag are kept, and so is everything
      past the first region. */
  lemma OfflineFormat1(b: seq<byte>, filesize: int)
    requires |b| == ATTR_BUF_SIZE && HasSiteTag(b)
    ensures var r := OfflineAttribute(b, filesize);
      && r.len == MIN_FORMAT1_ATTR_LEN
      && r.bytes[FSYS_OFF] == b[FSYS_OFF]
      && r.bytes[VERSION_OFF] == DMF_ATTR_FORMAT_1
      && r.bytes[FLAGS_OFF..REGCNT_OFF] == b[FLAGS_OFF..REGCNT_OFF]
      && Value(r.bytes[STATE_OFF..STATE_OFF + STATE_LEN]) == DMF_ST_OFFLINE
      && Value(r.bytes[REGCNT_OFF..REGCNT_OFF + REGCNT_LEN]) == 1
      && Value(r.bytes[FORMAT1_HDR_LEN + RG_OFFSET_OFF..FORMAT1_HDR_LEN + RG_SIZE_OFF]) == 0
      && Value(r.bytes[FORMAT1_HDR_LEN + RG_SIZE_OFF..FORMAT1_HDR_LEN + RG_STATE_OFF]) == ToU64(filesize)
      && Value(r.bytes[FORMAT1_HDR_LEN + RG_STATE_OFF..FORMAT1_HDR_LEN + RG_FLAGS_OFF]) == DMF_ST_OFFLINE
      && r.bytes[FORMAT1_HDR_LEN + RG_FLAGS_OFF] == DMF_MR_FLAGS
      && r.bytes[FORMAT1_HDR_LEN + RG_FBITS_OFF] == 0
      && r.bytes[MIN_FORMAT1_ATTR_LEN..] == b[MIN_FORMAT1_ATTR_LEN..]
  {
    var r := OfflineAttribute(b, filesize).bytes;
    Format1Layout(b, filesize);
    OfflineRegionFields(filesize);
    RoundTrip(DMF_ST_OFFLINE, STATE_LEN);
    RegionSlices(r, OfflineRegion(filesize));
    assert r[FSYS_OFF] == r[..STATE_OFF][FSYS_OFF];
    assert r[VERSION_OFF] == r[..STATE_OFF][VERSION_OFF];
  }

  /** The format-0 rewrite: version 0, the 22-byte header, global state
      offline; everything else in the buffer is kept. */
  lemma OfflineFormat0(b: seq<byte>, filesize: int)
    requires |b| == ATTR_BUF_SIZE && !HasSiteTag(b)
    ensures var r := OfflineAttribute(b, filesize);
      && r.len == FORMAT0_LEN
      && r.bytes[FSYS_OFF] == b[FSYS_OFF]
      && r.bytes[VERSION_OFF] == DMF_ATTR_FORMAT_0
      && Value(r.bytes[STATE_OFF..STATE_OFF + STATE_LEN]) == DMF_ST_OFFLINE
      && r.bytes[FLAGS_OFF..] == b[FLAGS_OFF..]
  {
    var w := [DMF_ATTR_FORMAT_0] + Bytes(DMF_ST_OFFLINE, STATE_LEN);
    var r := Splice(b, VERSION_OFF, w);
    SpliceWrites(b, VERSION_OFF, w);
    assert r[STATE_OFF..STATE_OFF + STATE_LEN] == w[1..];
    SpliceKeeps(b, VERSION_OFF, w, FLAGS_OFF, ATTR_BUF_SIZE);
    RoundTrip(DMF_ST_OFFLINE, STATE_LEN);
  }

  /** The rewritten value is itself a candidate attribute, as long as the
      original was for an XFS DMAPI filesystem. */
  lemma OfflineIsCandidate(b: seq<byte>, filesize: int)
    requires |b| == ATTR_BUF_SIZE && b[FSYS_OFF] == FSYS_TYPE_XFS
    ensures var r := OfflineAttribute(b, filesize);
      CandidateAttribute(r.bytes[..r.len]) && BufferQualifies(r.bytes, r.len)
  {
    var r := OfflineAttribute(b, filesize);
    if HasSiteTag(b) {
      OfflineFormat1(b, filesize);
    } else {
      OfflineFormat0(b, filesize);
    }
    StaleBytesIgnored(r.bytes, r.len);
  }

  /** HsmAddNewAttribute is idempotent: rewriting an already rewritten buffer
      selects the same format and changes nothing, so a retried call hands
      out the same value and length. */
  lemma OfflineIdempotent(b: seq<byte>, filesize: int)
    requires |b| == ATTR_BUF_SIZE
    ensures var r := OfflineAttribute(b, filesize);
      && HasSiteTag(r.bytes) == HasSiteTag(b)
      && OfflineAttribute(r.bytes, filesize) == r
  {
    var r := OfflineAttribute(b, filesize);
    var s := Bytes(DMF_ST_OFFLINE, STATE_LEN);
    if HasSiteTag(b) {
      var w := OfflineRegion(filesize);
      var b1 := Splice(b, REGCNT_OFF, w);
      SpliceKeeps(b1, STATE_OFF, s, SITETAG_OFF, SITETAG_OFF + SITETAG_LEN);
      SpliceKeeps(b, REGCNT_OFF, w, SITETAG_OFF, SITETAG_OFF + SITETAG_LEN);
      assert HasSiteTag(r.bytes);
      SpliceCommute(b1, STATE_OFF, s, REGCNT_OFF, w);
      SpliceTwice(b, REGCNT_OFF, w);
      SpliceTwice(b1, STATE_OFF, s);
    } else {
      var w := [DMF_ATTR_FORMAT_0] + s;
      assert r.bytes[VERSION_OFF] == DMF_ATTR_FORMAT_0;
      SpliceTwice(b, VERSION_OFF, w);
    }
  }
}
