/**
 * The transition values of the two sketch aggregates as the countmin header
 * lays them out: `cmtransval` (one counter matrix per dyadic level) and
 * `mfvtransval` (one counter matrix, a slot array of `offsetcnt` pairs and,
 * after it, the stored values, reached by byte offsets from the start of the
 * struct). The postgres header size and the `sizeof` of each struct are
 * not fixed here: they are the fields of a `Sizes` record.
 */
module SketchLayout {
  import opened CountMin

  /** The platform-dependent sizes the size and offset macros use. */
  datatype Sizes = Sizes(
    varHdrSz: nat,          // VARHDRSZ, the variable-length header
    cmTransvalSize: nat,    // sizeof(cmtransval)
    mfvTransvalSize: nat,   // sizeof(mfvtransval), up to the empty mfvs[0]
    offsetCntSize: nat)     // sizeof(offsetcnt)

  // ---------------------------------------------------------------------------
  // cmtransval: RANGES counter matrices
  // ---------------------------------------------------------------------------

  datatype CmTransval = CmTransval(typOid: nat, outFuncOid: nat, sketches: seq<seq<seq<int>>>)

  /** One DEPTH x NUMCOUNTERS matrix for each of the RANGES dyadic levels. */
  ghost predicate CmWellFormed(t: CmTransval)
  {
    |t.sketches| == RANGES && forall level :: 0 <= level < RANGES ==> Shaped(t.sketches[level])
  }

  /** A zeroed cmtransval for a data type and its output function. */
  function NewCmTransval(typOid: nat, outFuncOid: nat): (t: CmTransval)
    ensures CmWellFormed(t) && t.typOid == typOid && t.outFuncOid == outFuncOid
    ensures forall level :: 0 <= level < RANGES ==> t.sketches[level] == Zero()
  {
    CmTransval(typOid, outFuncOid, seq(RANGES, level => Zero()))
  }

  /** CM_TRANSVAL_SZ: the header followed by one cmtransval. */
  function CmTransvalSz(sz: Sizes): (r: nat)
    ensures r >= sz.cmTransvalSize
  {
    sz.varHdrSz + sz.cmTransvalSize
  }

  // ---------------------------------------------------------------------------
  // mfvtransval: a matrix, num_mfvs slots, then the values
  // ---------------------------------------------------------------------------

  /** `offsetcnt`: where value i is stored and its count. */
  datatype OffsetCnt = OffsetCnt(offset: int, cnt: int)

  datatype MfvTransval = MfvTransval(
    numMfvs: int,
    nextMfv: int,
    nextOffset: int,
    typOid: nat,
    outFuncOid: nat,
    sketch: seq<seq<int>>,
    mfvs: seq<OffsetCnt>)

  /** Offset, from the struct start, of the first byte after the slot array. */
  function SlotsEnd(sz: Sizes, numMfvs: nat): nat
  {
    sz.mfvTransvalSize + numMfvs * sz.offsetCntSize
  }

  /** MFV_TRANSVAL_SZ(i): header, struct and i slots, with no value yet. */
  function MfvTransvalSz(sz: Sizes, i: nat): (r: nat)
    ensures r - sz.varHdrSz == SlotsEnd(sz, i)
    ensures forall j: nat :: j <= i ==> MfvTransvalSz(sz, j) <= r
  {
    sz.varHdrSz + SlotsEnd(sz, i)
  }

  /**
   * The layout invariant of an mfvtransval held in a blob of `varSize`
   * bytes: next_mfv slots of num_mfvs are used, the values start after the
   * slot array, every used slot points into the value area, and next_offset
   * stays inside the blob.
   */
  ghost predicate MfvWellFormed(sz: Sizes, varSize: int, tv: MfvTransval)
    ensures MfvWellFormed(sz, varSize, tv) ==> 0 <= tv.numMfvs && MfvTransvalSz(sz, tv.numMfvs) <= varSize
  {
    && Shaped(tv.sketch)
    && 0 <= tv.nextMfv <= tv.numMfvs
    && |tv.mfvs| == tv.numMfvs
    && SlotsEnd(sz, tv.numMfvs) <= tv.nextOffset <= varSize - sz.varHdrSz
    && forall i :: 0 <= i < tv.nextMfv ==> SlotsEnd(sz, tv.numMfvs) <= tv.mfvs[i].offset < tv.nextOffset
  }

  /** MFV_TRANSVAL_CAPACITY: the bytes of the blob after next_offset. */
  function MfvTransvalCapacity(sz: Sizes, varSize: int, tv: MfvTransval): (r: int)
    ensures MfvWellFormed(sz, varSize, tv) ==> 0 <= r && sz.varHdrSz + tv.nextOffset + r == varSize
  {
    varSize - sz.varHdrSz - tv.nextOffset
  }

  /**
   * mfv_transval_getval(tvp, i): the offset, from the struct start, of the
   * i'th value. In a well-formed transval a used slot's value lies in the
   * value area: past the slot array and inside the blob.
   */
  function MfvTransvalGetval(tv: MfvTransval, i: int): (r: int)
    requires 0 <= i < |tv.mfvs|
    ensures forall sz: Sizes, varSize: int :: MfvWellFormed(sz, varSize, tv) && i < tv.nextMfv ==>
      SlotsEnd(sz, tv.numMfvs) <= r < varSize - sz.varHdrSz
  {
    tv.mfvs[i].offset
  }

  /**
   * Storing a value of `valueSize` bytes by the layout convention: the next
   * free slot records next_offset and the count, and next_offset moves past
   * the value.
   */
  function PlaceValue(tv: MfvTransval, valueSize: nat, cnt: int): (r: MfvTransval)
    requires 0 <= tv.nextMfv < |tv.mfvs|
    ensures r.nextMfv == tv.nextMfv + 1 && r.numMfvs == tv.numMfvs && |r.mfvs| == |tv.mfvs|
  {
    tv.(nextMfv := tv.nextMfv + 1,
        nextOffset := tv.nextOffset + valueSize,
        mfvs := tv.mfvs[tv.nextMfv := OffsetCnt(tv.nextOffset, cnt)])
  }

  /**
   * A value that fits the free space keeps the transval well formed: the new
   * slot points at the old next_offset, the earlier slots still point at
   * their values, and the free space shrinks by the value's size.
   */
  lemma PlaceValueLayout(sz: Sizes, varSize: int, tv: MfvTransval, valueSize: nat, cnt: int)
    requires MfvWellFormed(sz, varSize, tv) && tv.nextMfv < tv.numMfvs
    requires 0 < valueSize <= MfvTransvalCapacity(sz, varSize, tv)
    ensures MfvWellFormed(sz, varSize, PlaceValue(tv, valueSize, cnt))
    ensures MfvTransvalGetval(PlaceValue(tv, valueSize, cnt), tv.nextMfv) == tv.nextOffset
    ensures PlaceValue(tv, valueSize, cnt).mfvs[tv.nextMfv].cnt == cnt
    ensures forall i :: 0 <= i < tv.nextMfv ==>
      MfvTransvalGetval(PlaceValue(tv, valueSize, cnt), i) == MfvTransvalGetval(tv, i)
    ensures MfvTransvalCapacity(sz, varSize, PlaceValue(tv, valueSize, cnt))
         == MfvTransvalCapacity(sz, varSize, tv) - valueSize
  {
  }

  /** An mfvtransval with num_mfvs empty slots, before any value is stored. */
  function NewMfvTransval(sz: Sizes, numMfvs: nat, typOid: nat, outFuncOid: nat): (tv: MfvTransval)
    ensures tv.nextMfv == 0 && tv.numMfvs == numMfvs
  {
    MfvTransval(numMfvs, 0, SlotsEnd(sz, numMfvs), typOid, outFuncOid, Zero(),
      seq(numMfvs, i => OffsetCnt(0, 0)))
  }

  /**
   * A blob of MFV_TRANSVAL_SZ(n) + extra bytes holding a new transval is
   * well formed and has exactly `extra` bytes free for values.
   */
  lemma NewMfvLayout(sz: Sizes, n: nat, extra: nat, typOid: nat, outFuncOid: nat)
    ensures MfvWellFormed(sz, MfvTransvalSz(sz, n) + extra, NewMfvTransval(sz, n, typOid, outFuncOid))
    ensures MfvTransvalCapacity(sz, MfvTransvalSz(sz, n) + extra, NewMfvTransval(sz, n, typOid, outFuncOid)) == extra
  {
  }
}
