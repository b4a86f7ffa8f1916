// The HSM API xfsdump calls to dump DMF dual-residency files as if they
// were offline: the filesystem and file contexts, the classifier that
// decides whether a file is a candidate, the two estimators, and the
// operations that rewrite a candidate's bulkstat record, extent map and
// DMF attribute.

module Hsm {
  import opened BigEndian
  import opened DmfAttr
  import opened Xfs

  datatype Option<T> = None | Some(value: T)

  /** HSM_API_VERSION_1 of hsmapi.h: the only API version this library serves. */
  const HSM_API_VERSION_1: int := 1

  /** ATTR_ROOT of <attr/attributes.h>: the root attribute namespace. */
  const ATTR_ROOT: int := 0x0002

  /** dm_fsid_t: the DMAPI filesystem id, used opaquely. */
  type Fsid = U64

  /** dmf_fs_ctxt_t: read-only once built, shared by all dump streams. */
  datatype FsysContext = FsysContext(dumpversion: int, fsid: Fsid)

  /** HsmInitFsysContext. `resolved` is what resolving the mount point to a
      DMAPI fsid produced (path_to_fshandle and dm_handle_to_fsid), None when
      that failed; the version is checked before any resolution is tried. */
  function InitFsysContext(dumpversion: int, resolved: Option<Fsid>): (r: Option<FsysContext>)
    ensures r.Some? <==> dumpversion == HSM_API_VERSION_1 && resolved.Some?
    ensures r.Some? ==> r.value.dumpversion == HSM_API_VERSION_1 && r.value.fsid == resolved.value
  {
    if dumpversion != HSM_API_VERSION_1 then None
    else match resolved
      case None => None
      case Some(fsid) => Some(FsysContext(dumpversion, fsid))
  }

  /** What building a handle for the file and fetching its root attribute
      SGI_DMI_DMFATTR into the 5000-byte buffer produced (dm_make_handle and
      attr_multi_by_handle). */
  datatype AttrFetch = NoHandle | NoAttribute | Fetched(value: seq<byte>)

  /** The classifier's verdict as a function of the file's bulkstat record
      and the fetched attribute alone. */
  predicate IsCandidate(st: Bstat, fetch: AttrFetch)
    reads st
  {
    PassesQuickTests(st) && fetch.Fetched? && CandidateAttribute(fetch.value)
  }

  /** The value returned by a routine (`ret`) together with the value left in
      its off64_t out-parameter, which is only written on success. */
  datatype Estimate = Estimate(ret: int, out: int)

  /** HsmEstimateFileSpace: the same three quick tests as the classifier and
      nothing else; a file that passes them is estimated at 0 bytes, any
      other leaves `bytes` alone and asks for the default estimate. */
  function EstimateFileSpace(st: Bstat, bytes: int): (r: Estimate)
    reads st
    ensures r.ret == 1 <==> PassesQuickTests(st)
    ensures r.ret == 0 || r.ret == 1
    ensures r.out == if r.ret == 1 then 0 else bytes
  {
    if !IsRegular(st.mode) then Estimate(0, bytes)
    else if !MayHaveAttrs(st.xflags) then Estimate(0, bytes)
    else if !HasDmfEvents(st.dmevmask) then Estimate(0, bytes)
    else Estimate(1, 0)
  }

  /** Every file the classifier accepts also gets the space estimate of 0. */
  lemma CandidateHasSpaceEstimate(st: Bstat, fetch: AttrFetch, bytes: int)
    requires IsCandidate(st, fetch)
    ensures EstimateFileSpace(st, bytes) == Estimate(1, 0)
  {
  }

  /** HsmFilterExistingAttribute's answer: `ret` 0 means the attribute is
      corrupt; `skip` 1 means it is left out of the dump. */
  datatype FilterResult = FilterResult(ret: int, skip: int)

  /** HsmAddNewAttribute's answer: no attribute (a NULL name), or the name,
      the value buffer and its size. */
  datatype NewAttr = NoAttr | NewAttr(name: string, value: array<byte>, size: int)

  /** The extent map HsmModifyExtentMap leaves: unchanged when the header
      says there are no entries or the file is not a candidate; otherwise
      one hole from the current extent's offset to the end of the file, or
      no entries when that offset is already at or past the end. */
  function CollapsedExtents(m: seq<Getbmapx>, candidate: bool, filesize: int): (r: seq<Getbmapx>)
    requires |m| >= 2
    ensures |r| == |m| && r[2..] == m[2..]
    ensures forall i | 0 <= i < |m| :: r[i].offset == m[i].offset
    ensures m[0].entries <= 0 || !candidate ==> r == m
    ensures m[0].entries > 0 && candidate && m[1].offset < Btobb(filesize) ==>
      && r[0] == m[0].(entries := 1)
      && r[1] == m[1].(block := HOLE_BLOCK, length := Btobb(filesize) - m[1].offset)
      && r[1].offset + r[1].length == Btobb(filesize)
    ensures m[0].entries > 0 && candidate && m[1].offset >= Btobb(filesize) ==>
      r[0] == m[0].(entries := 0) && r[1] == m[1]
  {
    if m[0].entries <= 0 || !candidate then m
    else
      var length := Btobb(filesize) - m[1].offset;
      if length > 0 then
        m[0 := m[0].(entries := 1)][1 := m[1].(block := HOLE_BLOCK, length := length)]
      else
        m[0 := m[0].(entries := 0)]
  }

  /** A candidate whose extent map is read from the start of the file is
      reported as one hole spanning the whole file. */
  lemma WholeFileHole(m: seq<Getbmapx>, filesize: int)
    requires |m| >= 2 && m[0].entries > 0 && m[1].offset == 0 && filesize > 0
    ensures var r := CollapsedExtents(m, true, filesize);
      && r[0].entries == 1 && r[1].offset == 0
      && r[1].block == HOLE_BLOCK && r[1].length * BBSIZE >= filesize
  {
  }

  /** dmf_f_ctxt_t: one dump stream's context for the file it is dumping. */
  class FileContext {
    var fsys: FsysContext
    var filesize: int
    var candidate: bool
    var attrlen: int
    const attrval: array<byte>

    /** The buffer has its fixed capacity, the cached length fits in it, and
        a candidate's cached attribute is always a well-formed DMF attribute
        in an interesting state (at least a whole format-0 header). */
    ghost predicate Valid()
      reads this, attrval
    {
      && attrval.Length == ATTR_BUF_SIZE
      && 0 <= attrlen <= ATTR_BUF_SIZE
      && (candidate ==> CandidateAttribute(attrval[..attrlen]))
    }

    /** HsmAllocateFileContext: copies the filesystem context and starts as
        a non-candidate. The C leaves filesize, attrlen and the buffer
        uninitialised; here they start at zero. */
    constructor (fs: FsysContext)
      ensures Valid() && fresh(attrval)
      ensures fsys == fs && !candidate
    {
      fsys := fs;
      filesize := 0;
      candidate := false;
      attrlen := 0;
      attrval := new byte[ATTR_BUF_SIZE];
    }

    /** HsmInitFileContext: resets the candidate flag; when the three quick
        tests pass and the attribute is fetched, copies it into the buffer
        (bytes past its length keep their old contents) and makes the file a
        candidate exactly when that attribute qualifies, caching its size.
        It always returns 0. */
    method InitFileContext(st: Bstat, fetch: AttrFetch) returns (r: int)
      requires Valid()
      requires fetch.Fetched? ==> |fetch.value| <= ATTR_BUF_SIZE
      modifies this`candidate, this`filesize, this`attrlen, attrval
      ensures Valid() && fsys == old(fsys)
      ensures r == 0
      ensures candidate <==> IsCandidate(st, fetch)
      ensures filesize == if candidate then st.size else old(filesize)
      ensures PassesQuickTests(st) && fetch.Fetched? ==>
        && attrlen == |fetch.value|
        && attrval[..attrlen] == fetch.value
        && attrval[attrlen..] == old(attrval[|fetch.value|..])
      ensures !(PassesQuickTests(st) && fetch.Fetched?) ==>
        attrlen == old(attrlen) && attrval[..] == old(attrval[..])
    {
      r := 0;
      candidate := false;
      if !IsRegular(st.mode) {
        return;
      }
      if !MayHaveAttrs(st.xflags) {
        return;
      }
      if !HasDmfEvents(st.dmevmask) {
        return;
      }
      if !fetch.Fetched? {
        return;
      }
      StoreFetched(fetch.value);
      StaleBytesIgnored(attrval[..], attrlen);
      assert attrval[..][..attrlen] == fetch.value;
      var qualifies := ClassifyBuffer();
      if qualifies {
        candidate := true;
        filesize := st.size;
      }
    }

    /** attr_multi_by_handle's ATTR_OP_GET into the context's buffer: the
        value's bytes go to the front of the buffer and its length becomes
        `attrlen`; bytes past it keep what an earlier file left there. */
    method StoreFetched(value: seq<byte>)
      requires attrval.Length == ATTR_BUF_SIZE && |value| <= ATTR_BUF_SIZE
      modifies this`attrlen, attrval
      ensures attrlen == |value|
      ensures attrval[..attrlen] == value
      ensures attrval[attrlen..] == old(attrval[|value|..])
    {
      forall i | 0 <= i < |value| {
        attrval[i] := value[i];
      }
      attrlen := |value|;
    }

    /** The tests HsmInitFileContext makes on the fetched buffer, reading
        fsys, version and state at their fixed offsets. */
    method ClassifyBuffer() returns (qualifies: bool)
      requires attrval.Length == ATTR_BUF_SIZE
      ensures qualifies == BufferQualifies(attrval[..], attrlen)
    {
      qualifies := false;
      if attrval[FSYS_OFF] != FSYS_TYPE_XFS {
        return;
      }
      if attrval[VERSION_OFF] == DMF_ATTR_FORMAT_0 {
        if attrlen != FORMAT0_LEN {
          return;
        }
      } else if attrval[VERSION_OFF] == DMF_ATTR_FORMAT_1 {
        if attrlen < MIN_FORMAT1_ATTR_LEN {
          return;
        }
      } else {
        return;
      }
      var state := MsbLoad(attrval, STATE_OFF, STATE_LEN);
      assert attrval[STATE_OFF..STATE_OFF + STATE_LEN] == attrval[..][STATE_OFF..STATE_OFF + STATE_LEN];
      if state == DMF_ST_DUALSTATE || state == DMF_ST_UNMIGRATING
         || state == DMF_ST_PARTIAL || state == DMF_ST_OFFLINE {
        qualifies := true;
      }
    }

    /** HsmModifyInode: a candidate's event mask becomes exactly the DMF
        event bits, so it passes the event test from then on. */
    method ModifyInode(st: Bstat) returns (r: int)
      modifies st`dmevmask
      ensures r == 1
      ensures st.dmevmask == if candidate then DMF_EV_BITS else old(st.dmevmask)
      ensures candidate ==> HasDmfEvents(st.dmevmask)
    {
      if candidate {
        st.dmevmask := DMF_EV_BITS;
      }
      r := 1;
    }

    /** HsmModifyExtentMap: rewrites the header `bmap[0]` and the current
        extent `bmap[1]` in place as CollapsedExtents says. */
    method ModifyExtentMap(bmap: array<Getbmapx>) returns (r: int)
      requires bmap.Length >= 2
      modifies bmap
      ensures r == 1
      ensures bmap[..] == CollapsedExtents(old(bmap[..]), candidate, filesize)
    {
      r := 1;
      if bmap[0].entries <= 0 {
        return;
      }
      if !candidate {
        return;
      }
      var length := Btobb(filesize) - bmap[1].offset;
      if length > 0 {
        bmap[0] := bmap[0].(entries := 1);
        bmap[1] := bmap[1].(block := HOLE_BLOCK, length := length);
      } else {
        bmap[0] := bmap[0].(entries := 0);
      }
    }

    /** HsmFilterExistingAttribute: only a candidate's root attribute named
        SGI_DMI_DMFATTR is touched; it is reported corrupt when shorter than
        a format-0 header and skipped otherwise. The context is only read,
        so a repeated call gives the same answer. */
    function FilterExistingAttribute(name: string, valuesz: nat, flag: int): (r: FilterResult)
      reads this
      ensures r.ret == 0 || r.ret == 1
      ensures r.skip == 0 || r.skip == 1
      ensures r.ret == 0 <==>
        candidate && flag == ATTR_ROOT && name == DMF_ATTR_NAME && valuesz < FORMAT0_LEN
      ensures r.skip == 1 <==>
        candidate && flag == ATTR_ROOT && name == DMF_ATTR_NAME && valuesz >= FORMAT0_LEN
    {
      if !candidate then FilterResult(1, 0)
      else if flag != ATTR_ROOT then FilterResult(1, 0)
      else if name != DMF_ATTR_NAME then FilterResult(1, 0)
      else if valuesz < FORMAT0_LEN then FilterResult(0, 0)
      else FilterResult(1, 1)
    }

    /** Whether HsmAddNewAttribute hands out a replacement attribute for this
        cursor and namespace. */
    predicate AddsAttribute(cursor: int, flag: int)
      reads this
    {
      candidate && flag == ATTR_ROOT && cursor <= 0
    }

    /** The original attribute is only suppressed when a replacement of the
        same name is added at cursor 0 in the same namespace. */
    lemma SkippedIsReplaced(name: string, valuesz: nat, flag: int)
      requires FilterExistingAttribute(name, valuesz, flag).skip == 1
      ensures AddsAttribute(0, flag) && name == DMF_ATTR_NAME
    {
    }

    /** HsmAddNewAttribute's choice of format: format 1 is kept only for a
        format-1 attribute whose site tag is non-zero. */
    method KeepsSiteTag() returns (keep: bool)
      requires attrval.Length == ATTR_BUF_SIZE
      ensures keep == HasSiteTag(attrval[..])
    {
      keep := false;
      if attrval[VERSION_OFF] == DMF_ATTR_FORMAT_1 {
        var sitetag := MsbLoad(attrval, SITETAG_OFF, SITETAG_LEN);
        assert attrval[SITETAG_OFF..SITETAG_OFF + SITETAG_LEN]
            == attrval[..][SITETAG_OFF..SITETAG_OFF + SITETAG_LEN];
        keep := sitetag != 0;
      }
    }

    /** HsmAddNewAttribute's format-1 branch: the region count and the
        first region become one offline region the size of the file. */
    method WriteOfflineRegion()
      requires attrval.Length == ATTR_BUF_SIZE
      modifies attrval
      ensures attrval[..] == Splice(old(attrval[..]), REGCNT_OFF, OfflineRegion(filesize))
    {
      var rg := FORMAT1_HDR_LEN;
      MsbStore(attrval, REGCNT_OFF, 1, REGCNT_LEN);
      MsbStore(attrval, rg + RG_OFFSET_OFF, 0, RG_OFFSET_LEN);
      MsbStore(attrval, rg + RG_SIZE_OFF, ToU64(filesize), RG_SIZE_LEN);
      MsbStore(attrval, rg + RG_STATE_OFF, DMF_ST_OFFLINE, RG_STATE_LEN);
      attrval[rg + RG_FLAGS_OFF] := DMF_MR_FLAGS;
      attrval[rg + RG_FBITS_OFF] := 0;
      RegionStores(old(attrval[..]), filesize);
    }

    /** HsmAddNewAttribute: at cursor 0 in the root namespace, a candidate's
        cached attribute is rewritten in place into its offline-only form
        (OfflineAttribute) and handed out under the DMF name with the new
        length; otherwise nothing is added and nothing changes. */
    method AddNewAttribute(cursor: int, flag: int) returns (r: int, added: NewAttr)
      requires Valid()
      modifies this`attrlen, attrval
      ensures Valid()
      ensures r == 1
      ensures added.NewAttr? <==> AddsAttribute(cursor, flag)
      ensures !AddsAttribute(cursor, flag) ==>
        attrlen == old(attrlen) && attrval[..] == old(attrval[..])
      ensures AddsAttribute(cursor, flag) ==>
        && AttrBuffer(attrval[..], attrlen) == OfflineAttribute(old(attrval[..]), filesize)
        && added == NewAttr(DMF_ATTR_NAME, attrval, attrlen)
    {
      r := 1;
      added := NoAttr;
      if !candidate {
        return;
      }
      if flag != ATTR_ROOT {
        return;
      }
      if cursor > 0 {
        return;
      }
      ghost var b := attrval[..];
      assert b[..attrlen][FSYS_OFF] == b[FSYS_OFF];
      var keepFormat1 := KeepsSiteTag();
      if keepFormat1 {
        attrlen := MIN_FORMAT1_ATTR_LEN;
        WriteOfflineRegion();
      } else {
        attrval[VERSION_OFF] := DMF_ATTR_FORMAT_0;
        attrlen := FORMAT0_LEN;
        Format0Stores(b);
      }
      MsbStore(attrval, STATE_OFF, DMF_ST_OFFLINE, STATE_LEN);
      assert AttrBuffer(attrval[..], attrlen) == OfflineAttribute(b, filesize);
      OfflineIsCandidate(b, filesize);
      added := NewAttr(DMF_ATTR_NAME, attrval, attrlen);
    }
  }

  /** HsmEstimateFileOffset: classifies the file in a context of its own
      (the implicit HsmAllocateFileContext) and, for a candidate, answers
      the file size whatever `bytecount` is; otherwise it leaves
      `byteoffset` alone and asks for the default estimate. The context is
      not visible to the caller. */
  method EstimateFileOffset(fs: FsysContext, st: Bstat, bytecount: int, byteoffset: int,
                            fetch: AttrFetch) returns (r: Estimate)
    requires fetch.Fetched? ==> |fetch.value| <= ATTR_BUF_SIZE
    ensures r.ret == 1 <==> IsCandidate(st, fetch)
    ensures r.ret == 0 || r.ret == 1
    ensures r.out == if r.ret == 1 then st.size else byteoffset
  {
    var ctx := new FileContext(fs);
    // HsmInitFileContext always returns 0, so its error branch is never taken.
    var _ := ctx.InitFileContext(st, fetch);
    if ctx.candidate {
      r := Estimate(1, st.size);
    } else {
      r := Estimate(0, byteoffset);
    }
  }

  /** xfsdump may repeat HsmAddNewAttribute with the same cursor when the
      value did not fit its buffer: the retry hands out the same name, the
      same value bytes and the same size. */
  method AddNewAttributeRetried(ctx: FileContext, cursor: int, flag: int)
      returns (first: NewAttr, firstValue: seq<byte>, second: NewAttr, secondValue: seq<byte>)
    requires ctx.Valid()
    modifies ctx`attrlen, ctx.attrval
    ensures ctx.Valid()
    ensures first == second
    ensures first.NewAttr? ==> firstValue == secondValue == ctx.attrval[..ctx.attrlen]
  {
    var r;
    r, first := ctx.AddNewAttribute(cursor, flag);
    firstValue := ctx.attrval[..ctx.attrlen];
    ghost var once := ctx.attrval[..];
    r, second := ctx.AddNewAttribute(cursor, flag);
    secondValue := ctx.attrval[..ctx.attrlen];
    if first.NewAttr? {
      OfflineIdempotent(old(ctx.attrval[..]), ctx.filesize);
    }
  }
}
