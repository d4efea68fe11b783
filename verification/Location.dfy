/** File ids and locations packed into 32-bit words.

    A shift by k is written as a multiplication or division by 2^k, a mask of the
    low k bits as a remainder, and the union of disjoint bit fields as a sum;
    BitForms justifies each rewriting on 32-bit vectors.  A failed EXPECT is None. */
module Location {
  import opened Types

  type Word = n: nat | n < 0x1_0000_0000
  type Size = n: nat | n < 0x1_0000_0000_0000_0000

  const OUTPUT_FILE_BIT: nat := 0x8000_0000
  const MAX_FILES_INPUT: nat := 511
  const MAX_FILES_OUTPUT: nat := 31
  const MAX_OFFSET_INPUT: nat := 0x3F_FFFF
  const MAX_OFFSET_OUTPUT: nat := 0x3FF_FFFF

  /** The bit expressions of the packing and the arithmetic used for them here. */
  lemma BitForms(f: bv32, o: bv32, p: bv32)
    ensures p & 0x8000_0000 != 0 <==> p >= 0x8000_0000
    ensures p & !0x8000_0000 == p % 0x8000_0000
    ensures p & 31 == p % 32
    ensures p & 0x3F_FFFF == p % 0x40_0000 && p & 0x3FF_FFFF == p % 0x400_0000
    ensures p >> 22 == p / 0x40_0000 && p >> 26 == p / 0x400_0000
    ensures f < 512 && o <= 0x3F_FFFF ==> (f << 22) | (o & 0x3F_FFFF) == f * 0x40_0000 + o
    ensures f < 32 && o <= 0x3FF_FFFF ==> (f << 26) | 0x8000_0000 | o == f * 0x400_0000 + 0x8000_0000 + o
    ensures f < 512 ==> f | 0x8000_0000 == f + 0x8000_0000
  {
  }

  // ---- files ------------------------------------------------------------------------

  predicate IsOutputFile(f: Word) {
    f >= OUTPUT_FILE_BIT
  }

  predicate CheckLimit(raw: Word) {
    raw % OUTPUT_FILE_BIT < MAX_FILES_INPUT || (raw % OUTPUT_FILE_BIT < MAX_FILES_OUTPUT && IsOutputFile(raw))
  }

  function FromRaw(raw: Word): Option<Word> {
    if CheckLimit(raw) then Some(raw) else None
  }

  /** The increment of a 64-bit size wraps. */
  function Next(idx: Size): Size {
    (idx + 1) % 0x1_0000_0000_0000_0000
  }

  function MakeInput(idx: Size): Option<Word> {
    if Next(idx) < MAX_FILES_INPUT then FromRaw(Next(idx)) else None
  }

  function MakeOutput(idx: Size): Option<Word> {
    if Next(idx) < MAX_FILES_OUTPUT then FromRaw(Next(idx) + OUTPUT_FILE_BIT) else None
  }

  /** Zero-based position in the table of input or output files; the decrement of
      a 32-bit word wraps. */
  function AsIndex(f: Word): Option<Word> {
    if f == 0 then None else Some((f % OUTPUT_FILE_BIT + 0xFFFF_FFFF) % 0x1_0000_0000)
  }

  /** Which ids exist: 0 to 510, with or without the output bit. */
  lemma FileLimits(raw: Word)
    ensures FromRaw(raw) ==
            if raw <= 510 || 0x8000_0000 <= raw <= 0x8000_0000 + 510 then Some(raw) else None
  {
  }

  /** The factories give ids to the first 510 input and the first 30 output files, one
      less each than their fields hold; the largest index wraps to the invalid id. */
  lemma FactoryLimits(idx: Size)
    ensures MakeInput(idx) == if idx < 510 then Some(idx + 1)
                              else if idx == 0xFFFF_FFFF_FFFF_FFFF then Some(0) else None
    ensures MakeOutput(idx) == if idx < 30 then Some(0x8000_0000 + idx + 1)
                               else if idx == 0xFFFF_FFFF_FFFF_FFFF then Some(0x8000_0000) else None
  {
  }

  /** Every id but 0 has a table position; the bare output bit has one outside all
      tables. */
  lemma IndexOfId(f: Word)
    ensures AsIndex(f) == if f == 0 then None
                          else if f == 0x8000_0000 then Some(0xFFFF_FFFF)
                          else if f < 0x8000_0000 then Some(f - 1) else Some(f - 0x8000_0001)
  {
  }

  // ---- locations ----------------------------------------------------------------------

  function MakeLoc(f: Word, off: Size): Option<Word>
    requires CheckLimit(f)
  {
    if IsOutputFile(f) then
      if off <= MAX_OFFSET_OUTPUT then Some(f % 32 * 0x400_0000 + OUTPUT_FILE_BIT + off) else None
    else
      if off <= MAX_OFFSET_INPUT then Some(f * 0x40_0000 + off) else None
  }

  predicate IsOutput(p: Word) {
    p >= OUTPUT_FILE_BIT
  }

  function RawFile(p: Word): Word {
    if IsOutput(p) then p / 0x400_0000 % 32 + OUTPUT_FILE_BIT else p / 0x40_0000
  }

  function FileIdx(p: Word): Option<Word> {
    FromRaw(RawFile(p))
  }

  function Offset(p: Word): Word {
    if IsOutput(p) then p % 0x400_0000 else p % 0x40_0000
  }

  /** Decoding gives the offset back always, and the file back exactly when the
      index of an output file fits its five bits; input files always fit. */
  lemma DecodePacked(f: Word, off: Size)
    requires CheckLimit(f) && MakeLoc(f, off).Some?
    ensures var p := MakeLoc(f, off).value;
            Offset(p) == off && IsOutput(p) == IsOutputFile(f)
    ensures FileIdx(MakeLoc(f, off).value) == Some(f) <==> !IsOutputFile(f) || f % OUTPUT_FILE_BIT <= MAX_FILES_OUTPUT
  {
  }

  /** Locations in files from the factories decode to that file and offset, and to
      the table position unless the increment of the index wrapped. */
  lemma DecodeMade(idx: Size, off: Size, f: Word)
    requires MakeInput(idx) == Some(f) || MakeOutput(idx) == Some(f)
    requires MakeLoc(f, off).Some?
    ensures var p := MakeLoc(f, off).value;
            FileIdx(p) == Some(f) && Offset(p) == off && (Next(idx) != 0 ==> AsIndex(RawFile(p)) == Some(idx))
  {
    MadeIsIndexed(idx, f);
    DecodePacked(f, off);
  }

  lemma MadeIsIndexed(idx: Size, f: Word)
    requires MakeInput(idx) == Some(f) || MakeOutput(idx) == Some(f)
    ensures CheckLimit(f) && (IsOutputFile(f) ==> f % OUTPUT_FILE_BIT <= MAX_FILES_OUTPUT)
    ensures Next(idx) != 0 ==> AsIndex(f) == Some(idx)
  {
    FactoryLimits(idx);
  }

  /** Every word whose file part passes the limit check is the packing of what it
      decodes to. */
  lemma PackDecoded(p: Word)
    requires CheckLimit(RawFile(p))
    ensures MakeLoc(RawFile(p), Offset(p)) == Some(p)
  {
  }

  /** Two output ids that the limit check accepts share all their locations. */
  lemma OutputAliasing(off: Size)
    ensures var a: Word, b: Word := OUTPUT_FILE_BIT + 1, OUTPUT_FILE_BIT + 33;
            CheckLimit(a) && CheckLimit(b) && MakeLoc(a, off) == MakeLoc(b, off)
  {
  }

  // ---- order ----------------------------------------------------------------------------

  /** Order of locations: file first, then offset. */
  predicate LocLess(p: Word, q: Word) {
    RawFile(p) < RawFile(q) || (RawFile(p) == RawFile(q) && Offset(p) < Offset(q))
  }

  /** The packed words are ordered just as the locations they stand for, input
      files before output files; in particular equal words are equal locations. */
  lemma PackedOrder(p: Word, q: Word)
    ensures p < q <==> LocLess(p, q)
    ensures p == q <==> RawFile(p) == RawFile(q) && Offset(p) == Offset(q)
  {
  }

  datatype Range = Range(begin: Word, end: Word) {
    predicate Valid() {
      begin != 0 && end != 0 && RawFile(begin) == RawFile(end) && !LocLess(end, begin)
    }
  }

  /** Neither before the begin nor behind the end, in the order of locations. */
  predicate Between(r: Range, p: Word) {
    !LocLess(p, r.begin) && !LocLess(r.end, p)
  }

  /** A range is valid exactly when it lies in one file and runs forward, neither end
      being the invalid location 0. */
  lemma ValidRange(r: Range)
    ensures r.Valid() <==> 0 < r.begin <= r.end && RawFile(r.begin) == RawFile(r.end)
  {
    PackedOrder(r.end, r.begin);
  }

  /** The packed interval test means: between the ends.  For a valid range that is
      the same file and an offset inside. */
  lemma PackedInterval(r: Range, p: Word)
    ensures r.begin <= p <= r.end <==> Between(r, p)
    ensures r.Valid() ==>
              (Between(r, p) <==> RawFile(p) == RawFile(r.begin) && Offset(r.begin) <= Offset(p) <= Offset(r.end))
  {
    PackedOrder(p, r.begin);
    PackedOrder(r.end, p);
  }

  // ---- name lookup ------------------------------------------------------------------------

  datatype NameMap = NameMap(from: Range, to: Range, fromName: string, toName: string)

  /** First mapping whose name satisfies `matches` and whose range contains the
      location; `side` picks the range of a mapping that is looked at. */
  method FindNameInMappings(mappings: seq<NameMap>, p: Word, matches: NameMap -> bool, side: NameMap -> Range)
    returns (r: Option<NameMap>)
    ensures r == None ==> forall v :: v in mappings ==> !(matches(v) && Between(side(v), p))
    ensures r.Some? ==> exists i :: 0 <= i < |mappings| && r == Some(mappings[i])
                                    && matches(mappings[i]) && Between(side(mappings[i]), p)
                                    && forall j :: 0 <= j < i ==> !(matches(mappings[j]) && Between(side(mappings[j]), p))
  {
    for i := 0 to |mappings|
      invariant forall j :: 0 <= j < i ==> !(matches(mappings[j]) && Between(side(mappings[j]), p))
    {
      var v := mappings[i];
      PackedInterval(side(v), p);
      if matches(v) && p >= side(v).begin && p <= side(v).end {
        return Some(v);
      }
    }
    return None;
  }

  // ---- cache keys ---------------------------------------------------------------------------

  /** 64-bit key of the line/column cache: file in the high half, offset in the low. */
  function LineColumnKey(p: Word): Size {
    RawFile(p) * 0x1_0000_0000 + Offset(p)
  }

  /** Different locations never share a cache key. */
  lemma KeyInjective(p: Word, q: Word)
    requires LineColumnKey(p) == LineColumnKey(q)
    ensures p == q
  {
    PackedOrder(p, q);
  }
}
