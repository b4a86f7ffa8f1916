# DMF dual-residency projection for xfsdump (hsmapi.c)

xfsdump's HSM glue lets a dump treat a file that the DMF hierarchical
storage manager keeps both on disk and on tape ("dual-state", "partial",
"unmigrating") as if it were offline only. The dump then stores holes
instead of the data, and carries a rewritten DMF attribute that says
"offline". This project models that glue in Dafny:

- `bigendian.dfy` (module `BigEndian`): the most-significant-byte-first
  codec `msb_store`/`msb_load`, as loops over a byte array. They are proved
  against the pure specification `Value`/`Bytes`/`Splice`, together with
  the codec's round trip and its truncation modulo 256^n.
- `dmfattr.dfy` (module `DmfAttr`): the byte layout of the `SGI_DMI_DMFATTR`
  attribute. This covers format 0 (22 bytes), and format 1 (a 28-byte
  header and 20-byte regions). It also holds:
  - the classifier's acceptance predicate;
  - the offline-only rewrite as a function on the 5000-byte buffer;
  - the lemmas about that rewrite: field by field, still a candidate, and
    idempotent.
- `xfs.dfy` (module `Xfs`): the fields of `xfs_bstat_t` the glue reads or
  writes (a class, since `HsmModifyInode` updates it in place), and the
  `getbmapx` record. It also holds the header constants and `BTOBB`.
- `hsm.dfy` (module `Hsm`): the filesystem context, and the file context
  `dmf_f_ctxt_t` as a class with its 5000-byte `attrval` array. Its methods
  are `HsmInitFileContext`, `HsmModifyInode`, `HsmModifyExtentMap`,
  `HsmFilterExistingAttribute` and `HsmAddNewAttribute`. The module also
  holds the two estimators.

Bytes are the newtype `byte` (0 to 255). `u_int64_t` is the subset type
`U64`. msb_load's loss of bits shifted past 64 is written out as a
reduction modulo 2^64.

## Model

| member | source | states |
|---|---|---|
| BigEndian.MsbStore | dump/hsmapi.c:122-134 | the buffer afterwards is the old buffer with the `length` low-order bytes of `src`, most significant first, written at `off`; no other byte changes |
| BigEndian.MsbLoad | dump/hsmapi.c:143-155 | the result is the big-endian value of the `length` bytes at `off`, reduced modulo 2^64; for at most 8 bytes it is that value exactly |
| BigEndian.StoreThenLoad | dump/hsmapi.c:122-155 | loading a field just stored gives back the value modulo 256^length, and the value itself when it fits in `length` bytes |
| BigEndian.ValueOfBytes | dump/hsmapi.c:122-134 | the bytes msb_store writes denote `v mod 256^n`: higher bits are silently dropped |
| BigEndian.RoundTrip | dump/hsmapi.c:122-155 | decoding the stored bytes is exact for every value below 256^n |
| BigEndian.BytesOfValue | dump/hsmapi.c:122-155 | re-encoding a decoded field at its own width gives the same bytes |
| BigEndian.ValueBound | dump/hsmapi.c:143-155 | an n-byte field never decodes to 256^n or more, so a field of at most 8 bytes never wraps |
| BigEndian.ToU64 | dump/hsmapi.c:696 | passing an `off64_t` file size where a `u_int64_t` is expected keeps non-negative values and adds 2^64 to negative ones |
| DmfAttr.StaleBytesIgnored | dump/hsmapi.c:453-485 | the classifier's tests, which read fsys, version and state at fixed buffer offsets whatever the fetched length, accept exactly when the fetched bytes on their own form a candidate attribute; stale bytes from an earlier file never change the verdict |
| DmfAttr.CandidateLength | dump/hsmapi.c:37-43 | a candidate attribute is always at least a whole 22-byte format-0 header |
| DmfAttr.OfflineRegionFields | dump/hsmapi.c:45-51 | the region written for an offline file decodes to count 1, offset 0, size = file size (as u_int64_t), state offline, flags 7, fbits 0 |
| DmfAttr.RegionStores | dump/hsmapi.c:693-699 | the four msb_store calls and two byte writes of the format-1 branch together write exactly that region after the site tag |
| DmfAttr.Format0Stores | dump/hsmapi.c:700-707 | setting the version byte and then the state field writes format 0 and the offline state as one contiguous field |
| DmfAttr.Format1Layout | dump/hsmapi.c:686-708 | the format-1 rewrite changes only the state field and bytes 26-47; everything else in the buffer is kept |
| DmfAttr.OfflineFormat1 | dump/hsmapi.c:686-708 | a format-1 attribute with a non-zero site tag becomes 48 bytes with fsys, version, flags, bitfile id and site tag kept, state offline and one whole-file offline region |
| DmfAttr.OfflineFormat0 | dump/hsmapi.c:700-708 | any other attribute becomes a 22-byte format-0 attribute in the offline state with fsys, flags and bitfile id kept |
| DmfAttr.OfflineIsCandidate | dump/hsmapi.c:686-708 | the replacement attribute is itself a well-formed candidate attribute that the classifier would accept |
| DmfAttr.OfflineIdempotent | dump/hsmapi.c:640-643 | the rewrite keeps the site-tag test's answer, so a second rewrite takes the same branch and changes nothing |
| Xfs.Btobb | dump/hsmapi.c:555 | for a non-negative size, the basic-block count is the least number of 512-byte blocks covering it |
| Hsm.InitFsysContext | dump/hsmapi.c:177-216 | a context exists exactly when the caller asks for API version 1 and the mount point resolves to a DMAPI fsid; it records both |
| Hsm.EstimateFileSpace | dump/hsmapi.c:254-279 | returns 1 with an estimate of 0 bytes exactly when the file is regular, may have attributes and carries a DMF event bit; otherwise returns 0 and leaves the estimate alone |
| Hsm.CandidateHasSpaceEstimate | dump/hsmapi.c:267-278 | every file the classifier accepts is also estimated at 0 bytes |
| Hsm.EstimateFileOffset | dump/hsmapi.c:298-327 | returns 1 with the file size as offset exactly when a fresh context would classify the file a candidate, whatever `bytecount` is; otherwise returns 0 and leaves the offset alone |
| Hsm.CollapsedExtents | dump/hsmapi.c:533-567 | the collapsed map keeps its length, every offset and every element past the first extent; it is unchanged without entries or without a candidate; otherwise the current extent becomes a hole reaching exactly BTOBB(file size), or the header says EOF |
| Hsm.WholeFileHole | dump/hsmapi.c:555-564 | a candidate's map read from offset 0 becomes a single hole whose length covers the whole file |
| Hsm.FileContext.constructor | dump/hsmapi.c:346-362 | a new file context copies the filesystem context and is not a candidate |
| Hsm.FileContext.InitFileContext | dump/hsmapi.c:401-487 | always returns 0; the file becomes a candidate exactly when the three quick tests pass, the attribute is fetched and it is a candidate attribute, and then the file size is cached; the fetched bytes are copied to the front of the buffer with stale bytes kept after them; buffer and length stay untouched when a quick test fails or nothing is fetched |
| Hsm.FileContext.StoreFetched | dump/hsmapi.c:441-452 | the fetched value fills the front of the buffer and sets the length; bytes past it are kept |
| Hsm.FileContext.ClassifyBuffer | dump/hsmapi.c:453-485 | the buffer tests (fsys, version and length, decoded state) accept exactly when the buffer qualifies |
| Hsm.FileContext.ModifyInode | dump/hsmapi.c:504-515 | returns 1; a candidate's event mask becomes exactly the DMF event bits; a non-candidate's is untouched |
| Hsm.FileContext.ModifyExtentMap | dump/hsmapi.c:533-567 | returns 1 and leaves the array equal to CollapsedExtents of the old array |
| Hsm.FileContext.FilterExistingAttribute | dump/hsmapi.c:593-625 | reports the attribute corrupt exactly when a candidate's root `SGI_DMI_DMFATTR` is shorter than 22 bytes, and skips it exactly when it is at least 22 bytes; any other attribute is kept |
| Hsm.FileContext.SkippedIsReplaced | dump/hsmapi.c:578-580 | a skipped attribute is always one that HsmAddNewAttribute replaces at cursor 0 under the same name |
| Hsm.FileContext.KeepsSiteTag | dump/hsmapi.c:686-687 | format 1 is kept exactly for a format-1 attribute with a non-zero site tag |
| Hsm.FileContext.WriteOfflineRegion | dump/hsmapi.c:688-699 | the region count and first region become the offline region; nothing else changes |
| Hsm.FileContext.AddNewAttribute | dump/hsmapi.c:654-713 | returns 1; adds an attribute exactly for a candidate at cursor 0 in the root namespace, and then the buffer and length are the offline rewrite of the old buffer, handed out as `SGI_DMI_DMFATTR` with that length; otherwise adds nothing and changes nothing; the context stays valid |
| Hsm.AddNewAttributeRetried | dump/hsmapi.c:640-643 | calling HsmAddNewAttribute twice with the same cursor and flag hands out the same name, value bytes and size |

## Left out

- HsmInitFsysContext's handle resolution (`path_to_fshandle`,
  `dm_handle_to_fsid`, `free_handle`) and its `malloc` are calls into
  libraries outside this model. Their outcome is the parameter `resolved`,
  and a failed `malloc` is folded into its `None`.
- `dm_make_handle` and `attr_multi_by_handle` in HsmInitFileContext are
  DMAPI and attr library calls. Their outcome is the parameter `AttrFetch`:
  no handle, no attribute, or the fetched bytes (at most 5000).
- `free_handle` and the allocation failures of HsmAllocateFileContext are
  not modelled. HsmDeleteFsysContext and HsmDeleteFileContext only call
  `free` and are not modelled.
- Sharing one filesystem context between dump streams is a concurrency note
  with no logic behind it.
- Header constants: `S_IFMT`, `S_IFREG`, `XFS_XFLAG_HASATTR`, the
  `DM_EVENT_*` bit numbers, `ATTR_ROOT` and `HSM_API_VERSION_1` come from
  system headers that are not part of this model. They carry the Linux/XFS
  header values, and no proof depends on more than their being fixed,
  distinct bits.
- Xfs.Btobb: `BTOBB` is an XFS header macro that is not part of this model.
  It is modelled as rounding up to 512-byte blocks, which is only stated for
  non-negative sizes; for a negative size Dafny's Euclidean division may
  differ from the C macro.
- Hsm.CollapsedExtents: the extent offsets and lengths are unbounded
  integers, so a 64-bit overflow of `BTOBB(filesize) - bmv_offset` is not
  modelled.
- Hsm.FileContext.constructor: `malloc` leaves `filesize`, `attrlen` and the
  buffer uninitialised. The model starts them at zero. No operation reads
  them before HsmInitFileContext has set them for a candidate.
- Hsm.FileContext.FilterExistingAttribute: `strcmp` on C strings is string
  equality, and the `u_int32_t` size is a natural number.
- Hsm.EstimateFileSpace: the filesystem context argument is unused by the
  routine and is not a parameter.
- Hsm.EstimateFileOffset: the routine's stack context has an uninitialised
  buffer, while the model allocates a zeroed one. `StaleBytesIgnored` shows
  that the verdict does not depend on those bytes.
- Hsm.FileContext.InitFileContext: the bulkstat fields `bs_ino` and `bs_gen`
  only feed the handle construction, which is a parameter, so they are not
  fields of `Bstat`.
