/** What `read_mds` accepts and what it decodes, stated against the byte
    layout of the descriptor rather than against the order of the reads. */
module HeaderFacts {
  import opened Bytes
  import opened Failures
  import opened Parse

  /** The signature, version and format checks that open `read_mds`. */
  predicate Prelude(f: seq<byte>)
  {
    |f| > FormatOffset && f[..16] == Signature && f[VersionOffset] == SupportedVersion
    && (f[FormatOffset] == CdFormat || f[FormatOffset] == DvdFormat)
  }

  function PointerOf(f: seq<byte>): nat
    requires |f| >= PointerOffset + 2
  {
    ReadLe(f, PointerOffset, 2)
  }

  /** Every condition a descriptor must meet to decode, field by field. */
  predicate WellFormedHeader(f: seq<byte>)
  {
    && Prelude(f)
    && |f| >= PointerOffset + 2
    && var ptr := PointerOf(f);
    && ptr != 0
    && (f[FormatOffset] == CdFormat ==> |f| > ModeOffset)
    && ptr < |f|
    && (f[ptr] == 1 || f[ptr] == 2)
    && IntervalOffset(ptr, f[ptr]) + 6 <= |f|
    && var itv := ReadLe(f, IntervalOffset(ptr, f[ptr]), 2);
    && ValidInterval(itv)
    && SectorCountOffset(ptr, itv) + 3 <= |f|
  }

  lemma ByteField(f: seq<byte>, pos: nat)
    requires pos < |f|
    ensures ReadLe(f, pos, 1) == f[pos]
  {
  }

  /** The table part of WellFormedHeader, for a pointer `ptr`. */
  predicate TableWellFormed(f: seq<byte>, ptr: nat)
  {
    && ptr < |f|
    && (f[ptr] == 1 || f[ptr] == 2)
    && IntervalOffset(ptr, f[ptr]) + 6 <= |f|
    && ValidInterval(ReadLe(f, IntervalOffset(ptr, f[ptr]), 2))
    && SectorCountOffset(ptr, ReadLe(f, IntervalOffset(ptr, f[ptr]), 2)) + 3 <= |f|
  }

  /** DecodeTable succeeds exactly on a well-formed table part, and then
      reads each field at its place. */
  lemma {:induction false} TableAccepts(f: seq<byte>, format: Format, ptr: nat, lay: nat, mode: string)
    ensures DecodeTable(f, format, ptr, lay, mode).Ok? <==> TableWellFormed(f, ptr)
    ensures DecodeTable(f, format, ptr, lay, mode).Ok? ==>
      var m := DecodeTable(f, format, ptr, lay, mode).value;
      && m == Mds(format, ptr, lay, mode, f[ptr], m.itv, m.smp, m.sct)
      && m.itv == ReadLe(f, IntervalOffset(ptr, f[ptr]), 2)
      && m.smp == ReadLe(f, IntervalOffset(ptr, f[ptr]) + 4, 2)
      && m.sct == ReadLe(f, SectorCountOffset(ptr, m.itv), 3)
  {
    if ptr < |f| {
      ByteField(f, ptr);
    }
  }

  /** DecodePointer succeeds exactly on a nonzero pointer, a mode byte for
      a CD, and a well-formed table part. */
  lemma {:induction false} PointerAccepts(f: seq<byte>, format: Format)
    ensures DecodePointer(f, format).Ok? <==>
      && |f| >= PointerOffset + 2 && PointerOf(f) != 0
      && (format == CD ==> |f| > ModeOffset)
      && TableWellFormed(f, PointerOf(f))
    ensures DecodePointer(f, format).Ok? ==>
      var m := DecodePointer(f, format).value;
      var ptr := PointerOf(f);
      && m.ptr == ptr && m.lay == LayerCount(ptr)
      && m.mode == (if format == CD then CdMode(f[ModeOffset] % 16) else DvdMode(m.lay))
      && m.loc == f[ptr]
      && m.itv == ReadLe(f, IntervalOffset(ptr, f[ptr]), 2)
      && m.smp == ReadLe(f, IntervalOffset(ptr, f[ptr]) + 4, 2)
      && m.sct == ReadLe(f, SectorCountOffset(ptr, m.itv), 3)
  {
    if |f| >= PointerOffset + 2 && PointerOf(f) != 0 {
      var ptr := PointerOf(f);
      var lay := LayerCount(ptr);
      if format == CD {
        if |f| > ModeOffset {
          ByteField(f, ModeOffset);
          TableAccepts(f, format, ptr, lay, CdMode(f[ModeOffset] % 16));
        }
      } else {
        TableAccepts(f, format, ptr, lay, DvdMode(lay));
      }
    }
  }

  /** A descriptor decodes exactly when it is well formed, and then every
      field is the one stored at its place in the layout. */
  lemma {:induction false} DecodeHeaderAccepts(f: seq<byte>)
    ensures DecodeHeader(f).Ok? <==> WellFormedHeader(f)
    ensures DecodeHeader(f).Ok? ==>
      var m := DecodeHeader(f).value;
      && m.format == (if f[FormatOffset] == CdFormat then CD else DVD)
      && m.ptr == PointerOf(f)
      && m.lay == LayerCount(m.ptr)
      && m.mode == (if m.format == CD then CdMode(f[ModeOffset] % 16) else DvdMode(m.lay))
      && m.loc == f[m.ptr]
      && m.itv == ReadLe(f, IntervalOffset(m.ptr, m.loc), 2)
      && m.smp == ReadLe(f, IntervalOffset(m.ptr, m.loc) + 4, 2)
      && m.sct == ReadLe(f, SectorCountOffset(m.ptr, m.itv), 3)
  {
    if |f| > FormatOffset {
      ByteField(f, VersionOffset);
      ByteField(f, FormatOffset);
      if Prelude(f) {
        PointerAccepts(f, if f[FormatOffset] == CdFormat then CD else DVD);
      }
    }
  }

  /** The fatal conditions, each reached once the checks before it pass. */
  lemma {:induction false} DecodeHeaderRejects(f: seq<byte>)
    ensures |f| >= 16 && f[..16] != Signature ==> DecodeHeader(f) == Err(NoMds)
    ensures |f| > FormatOffset && f[..16] == Signature && f[VersionOffset] != SupportedVersion
            ==> DecodeHeader(f) == Err(UnsupportedVersion)
    ensures |f| > FormatOffset && f[..16] == Signature && f[VersionOffset] == SupportedVersion
            && f[FormatOffset] != CdFormat && f[FormatOffset] != DvdFormat
            ==> DecodeHeader(f) == Err(UnknownDiscFormat)
    ensures Prelude(f) && |f| >= PointerOffset + 2 && PointerOf(f) == 0 ==> DecodeHeader(f) == Err(NoDpm)
    ensures Prelude(f) && |f| > ModeOffset && PointerOf(f) != 0 && PointerOf(f) < |f|
            && f[PointerOf(f)] != 1 && f[PointerOf(f)] != 2
            ==> DecodeHeader(f) == Err(UnknownHeaderStructure)
  {
    if |f| > FormatOffset {
      ByteField(f, VersionOffset);
      ByteField(f, FormatOffset);
    }
    if |f| > ModeOffset {
      ByteField(f, ModeOffset);
    }
    if |f| >= PointerOffset + 2 && PointerOf(f) < |f| {
      ByteField(f, PointerOf(f));
    }
  }

  /** An interval outside {50, 256, 500, 2048} is fatal, however the rest of
      the descriptor looks. */
  lemma {:induction false} UnknownIntervalIsFatal(f: seq<byte>)
    requires Prelude(f) && |f| > ModeOffset && PointerOf(f) != 0 && PointerOf(f) < |f|
    requires f[PointerOf(f)] == 1 || f[PointerOf(f)] == 2
    requires IntervalOffset(PointerOf(f), f[PointerOf(f)]) + 6 <= |f|
    requires !ValidInterval(ReadLe(f, IntervalOffset(PointerOf(f), f[PointerOf(f)]), 2))
    ensures DecodeHeader(f) == Err(UnknownInterval)
  {
    ByteField(f, VersionOffset);
    ByteField(f, FormatOffset);
    ByteField(f, ModeOffset);
    ByteField(f, PointerOf(f));
  }
}

/** Descriptors built from known field values, and the round trip through
    `read_mds`. */
module HeaderRoundTrip {
  import opened Bytes
  import opened Failures
  import opened Parse
  import opened HeaderFacts

  /** The values written into a synthetic descriptor. */
  datatype Fields = Fields(format: Format, ptr: nat, nibble: nat, loc: nat, itv: nat, smp: nat, sct: nat)

  predicate Fits(h: Fields)
  {
    && 0 < h.ptr < Radix(2) && h.nibble < 16 && (h.loc == 1 || h.loc == 2)
    && ValidInterval(h.itv) && h.smp < Radix(2) && h.sct < Radix(3)
  }

  function FormatByte(format: Format): byte
  {
    if format == CD then CdFormat else DvdFormat
  }

  /** The descriptor `read_mds` should return for these fields. */
  function Expected(h: Fields): Mds
  {
    var lay := LayerCount(h.ptr);
    Mds(h.format, h.ptr, lay, if h.format == CD then CdMode(h.nibble) else DvdMode(lay),
        h.loc, h.itv, h.smp, h.sct)
  }

  /** `f` holds the fields at the places the layout gives them. */
  predicate Holds(f: seq<byte>, h: Fields)
  {
    var io := IntervalOffset(h.ptr, h.loc);
    var so := SectorCountOffset(h.ptr, h.itv);
    && |f| > ModeOffset && h.ptr < |f| && io + 6 <= |f| && so + 3 <= |f|
    && f[..16] == Signature
    && f[VersionOffset] == SupportedVersion
    && f[FormatOffset] == FormatByte(h.format)
    && f[PointerOffset..PointerOffset + 2] == EncodeLe(h.ptr, 2)
    && (h.format == CD ==> f[ModeOffset] % 16 == h.nibble)
    && f[h.ptr] == h.loc
    && f[io..io + 2] == EncodeLe(h.itv, 2)
    && f[io + 4..io + 6] == EncodeLe(h.smp, 2)
    && f[so..so + 3] == EncodeLe(h.sct, 3)
  }

  /** Decoding a descriptor that holds known fields returns exactly them:
      the little-endian reads of widths 2, 2, 2 and 3 invert the encoding. */
  lemma {:induction false} DecodeHolds(f: seq<byte>, h: Fields)
    requires Fits(h) && Holds(f, h)
    ensures DecodeHeader(f) == Ok(Expected(h))
  {
    var io := IntervalOffset(h.ptr, h.loc);
    var so := SectorCountOffset(h.ptr, h.itv);
    FieldReads(f, PointerOffset, 2, h.ptr);
    FieldReads(f, io, 2, h.itv);
    FieldReads(f, io + 4, 2, h.smp);
    FieldReads(f, so, 3, h.sct);
    assert PointerOf(f) == h.ptr;
    assert WellFormedHeader(f);
    DecodeHeaderAccepts(f);
  }

  /** The byte a synthetic descriptor holds at position `i`; zero outside
      the fields. */
  function ByteAt(h: Fields, i: nat): byte
    requires Fits(h)
  {
    var io := IntervalOffset(h.ptr, h.loc);
    var so := SectorCountOffset(h.ptr, h.itv);
    if i < 16 then Signature[i]
    else if i == VersionOffset then SupportedVersion
    else if i == FormatOffset then FormatByte(h.format)
    else if PointerOffset <= i < PointerOffset + 2 then EncodeLe(h.ptr, 2)[i - PointerOffset]
    else if i == ModeOffset then h.nibble
    else if i == h.ptr then h.loc
    else if io <= i < io + 2 then EncodeLe(h.itv, 2)[i - io]
    else if io + 4 <= i < io + 6 then EncodeLe(h.smp, 2)[i - io - 4]
    else if so <= i < so + 3 then EncodeLe(h.sct, 3)[i - so]
    else 0
  }

  /** A descriptor of `ptr + 32` bytes holding the fields; the table must
      lie far enough from the fixed fields (beyond 0x200) for none to
      overlap. */
  function BuildHeader(h: Fields): (f: seq<byte>)
    requires Fits(h) && h.ptr >= 0x200
    ensures |f| == h.ptr + 32
  {
    seq(h.ptr + 32, i requires 0 <= i < h.ptr + 32 => ByteAt(h, i))
  }

  lemma {:induction false} BuildHeaderHolds(h: Fields)
    requires Fits(h) && h.ptr >= 0x200
    ensures Holds(BuildHeader(h), h)
  {
    var f := BuildHeader(h);
    var io := IntervalOffset(h.ptr, h.loc);
    var so := SectorCountOffset(h.ptr, h.itv);
    assert f[..16] == Signature;
    assert f[PointerOffset..PointerOffset + 2] == EncodeLe(h.ptr, 2);
    assert f[io..io + 2] == EncodeLe(h.itv, 2);
    assert f[io + 4..io + 6] == EncodeLe(h.smp, 2);
    assert f[so..so + 3] == EncodeLe(h.sct, 3);
  }

  /** Round trip: a descriptor built from known values decodes to exactly
      those values. */
  lemma BuildThenDecode(h: Fields)
    requires Fits(h) && h.ptr >= 0x200
    ensures DecodeHeader(BuildHeader(h)) == Ok(Expected(h))
  {
    BuildHeaderHolds(h);
    DecodeHolds(BuildHeader(h), h);
  }
}
