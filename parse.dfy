/** The descriptor decoder (`read_mds`) and the sample decoder (`read_dpm`)
    of parse.c, over a file held as a byte sequence. */
module Parse {
  import opened Bytes
  import opened Failures

  datatype Format = CD | DVD

  /** The decoded descriptor (the MDS record). */
  datatype Mds = Mds(
    format: Format,  // cd / dvd: exactly one of the two is set
    ptr: nat,        // offset of the DPM block
    lay: nat,        // layer count; 0 when the pointer is not one of the two known values
    mode: string,    // human-readable sub-mode, "" when unknown
    loc: nat,        // table location code, 1 or 2
    itv: nat,        // sectors between two samples
    smp: nat,        // sample count
    sct: nat)        // sector count

  /** "MEDIA DESCRIPTOR" in ASCII. */
  const Signature: seq<byte> :=
    [0x4D, 0x45, 0x44, 0x49, 0x41, 0x20, 0x44, 0x45, 0x53, 0x43, 0x52, 0x49, 0x50, 0x54, 0x4F, 0x52]

  const VersionOffset := 0x11
  const FormatOffset := 0x12
  const PointerOffset := 0x54
  const ModeOffset := 0x168
  const SupportedVersion := 0x05
  const CdFormat := 0x00
  const DvdFormat := 0x10
  const SingleLayerPointer := 0x10E8
  const DualLayerPointer := 0x20EC
  /** Offset of the sector count for the intervals 50 and 500. */
  const FixedSectorCountOffset := 100

  /** C's `unsigned int` arithmetic wraps modulo 2^32. */
  const Word: nat := 0x1_0000_0000

  /** A read of `width` bytes at `pos`, or Truncated when it leaves the file. */
  function Field(f: seq<byte>, pos: nat, width: nat): Result<nat>
  {
    if pos + width <= |f| then Ok(ReadLe(f, pos, width)) else Err(Truncated)
  }

  predicate ValidInterval(itv: nat)
  {
    itv == 50 || itv == 256 || itv == 500 || itv == 2048
  }

  /** The layer count selected by the table pointer; other values leave it 0. */
  function LayerCount(ptr: nat): nat
  {
    if ptr == SingleLayerPointer then 1 else if ptr == DualLayerPointer then 2 else 0
  }

  /** The CD sub-mode named by the low nibble of the byte at 0x168. */
  function CdMode(nibble: nat): string
  {
    if nibble == 0x09 then "audio"
    else if nibble == 0x0A then "mode 1"
    else if nibble == 0x0B then "mode 2"
    else if nibble == 0x0C then "mode 2 form 1"
    else if nibble == 0x0D then "mode 2 form 2"
    else ""
  }

  function DvdMode(lay: nat): string
  {
    if lay == 1 then "single layer" else if lay == 2 then "double layer" else ""
  }

  /** Where the interval field sits for a location code (1 or 2). */
  function IntervalOffset(ptr: nat, loc: nat): nat
  {
    if loc == 1 then ptr + 16 else ptr + 20
  }

  /** Where the 3-byte sector count sits: 100 for the intervals 50 and 500,
      `ptr - 128` (an unsigned 32-bit subtraction) for 256 and 2048. */
  function SectorCountOffset(ptr: nat, itv: nat): nat
  {
    if itv == 50 || itv == 500 then FixedSectorCountOffset
    else if ptr >= 128 then ptr - 128 else ptr + Word - 128
  }

  /** The descriptor `read_mds` decodes from `f`, or the condition that
      stops it, checked in the order of the source. */
  function DecodeHeader(f: seq<byte>): (r: Result<Mds>)
    ensures r == Err(NoMds) <==> |f| >= |Signature| && f[..|Signature|] != Signature
    ensures r.Ok? ==> && ValidInterval(r.value.itv) && r.value.ptr != 0
                      && (r.value.loc == 1 || r.value.loc == 2)
                      && r.value.lay == LayerCount(r.value.ptr)
  {
    if |f| < |Signature| then Err(Truncated)
    else if f[..|Signature|] != Signature then Err(NoMds)
    else
      var version :- Field(f, VersionOffset, 1);
      if version != SupportedVersion then Err(UnsupportedVersion)
      else
        var fmt :- Field(f, FormatOffset, 1);
        if fmt != CdFormat && fmt != DvdFormat then Err(UnknownDiscFormat)
        else DecodePointer(f, if fmt == CdFormat then CD else DVD)
  }

  /** The table pointer, the layer count and the mode. */
  function DecodePointer(f: seq<byte>, format: Format): (r: Result<Mds>)
    ensures r.Err? ==> r.error in {Truncated, NoDpm, UnknownHeaderStructure, UnknownInterval}
    ensures r.Ok? ==> && r.value.format == format && r.value.ptr != 0
                      && r.value.lay == LayerCount(r.value.ptr)
                      && (format == DVD ==> r.value.mode == DvdMode(r.value.lay))
  {
    var ptr :- Field(f, PointerOffset, 2);
    if ptr == 0 then Err(NoDpm)
    else
      var lay := LayerCount(ptr);
      if format == CD then
        var b :- Field(f, ModeOffset, 1);
        DecodeTable(f, format, ptr, lay, CdMode(b % 16))
      else DecodeTable(f, format, ptr, lay, DvdMode(lay))
  }

  /** The location code at the table pointer, the interval, the sample
      count and the sector count. */
  function DecodeTable(f: seq<byte>, format: Format, ptr: nat, lay: nat, mode: string): (r: Result<Mds>)
    ensures r.Err? ==> r.error in {Truncated, UnknownHeaderStructure, UnknownInterval}
    ensures r.Ok? ==> && r.value.format == format && r.value.ptr == ptr
                      && r.value.lay == lay && r.value.mode == mode
                      && (r.value.loc == 1 || r.value.loc == 2) && ValidInterval(r.value.itv)
                      && r.value.smp < Radix(2) && r.value.sct < Radix(3)
  {
    var loc :- Field(f, ptr, 1);
    if loc != 1 && loc != 2 then Err(UnknownHeaderStructure)
    else
      var itv :- Field(f, IntervalOffset(ptr, loc), 2);
      var smp :- Field(f, IntervalOffset(ptr, loc) + 4, 2);
      if !ValidInterval(itv) then Err(UnknownInterval)
      else
        var sct :- Field(f, SectorCountOffset(ptr, itv), 3);
        Ok(Mds(format, ptr, lay, mode, loc, itv, smp, sct))
  }

  /** `read_mds`: the fields are read one after another, moving a running
      offset, and each fatal condition of the source becomes an error. */
  method ReadMds(f: seq<byte>) returns (r: Result<Mds>)
    ensures r == DecodeHeader(f)
  {
    if |f| < 16 {
      return Err(Truncated);
    }
    if f[..16] != Signature {
      return Err(NoMds);
    }
    if |f| < VersionOffset + 1 {
      return Err(Truncated);
    }
    var b := ReadLe(f, VersionOffset, 1);
    if b != SupportedVersion {
      return Err(UnsupportedVersion);
    }
    if |f| < FormatOffset + 1 {
      return Err(Truncated);
    }
    b := ReadLe(f, FormatOffset, 1);
    var format;
    if b == CdFormat {
      format := CD;
    } else if b == DvdFormat {
      format := DVD;
    } else {
      return Err(UnknownDiscFormat);
    }
    assert DecodeHeader(f) == DecodePointer(f, format);
    if |f| < PointerOffset + 2 {
      return Err(Truncated);
    }
    var ptr := ReadLe(f, PointerOffset, 2);
    var lay := 0;
    if ptr == 0 {
      return Err(NoDpm);
    } else if ptr == SingleLayerPointer {
      lay := 1;
    } else if ptr == DualLayerPointer {
      lay := 2;
    }
    var mode := "";
    if format == CD {
      if |f| < ModeOffset + 1 {
        return Err(Truncated);
      }
      b := ReadLe(f, ModeOffset, 1) % 16;
      mode := CdMode(b);
    } else if lay == 1 {
      mode := "single layer";
    } else if lay == 2 {
      mode := "double layer";
    }
    assert DecodeHeader(f) == DecodeTable(f, format, ptr, lay, mode);
    r := ReadTable(f, format, ptr, lay, mode);
  }

  /** The second half of `read_mds`, from the location code on. */
  method ReadTable(f: seq<byte>, format: Format, ptr: nat, lay: nat, mode: string) returns (r: Result<Mds>)
    ensures r == DecodeTable(f, format, ptr, lay, mode)
    ensures r.Ok? ==> ValidInterval(r.value.itv) && (r.value.loc == 1 || r.value.loc == 2)
  {
    if |f| < ptr + 1 {
      return Err(Truncated);
    }
    var loc := ReadLe(f, ptr, 1);
    var offset: nat;
    if loc == 1 {
      offset := ptr + 16;
    } else if loc == 2 {
      offset := ptr + 20;
    } else {
      return Err(UnknownHeaderStructure);
    }
    if |f| < offset + 2 {
      return Err(Truncated);
    }
    var itv := ReadLe(f, offset, 2);
    offset := offset + 4;
    if |f| < offset + 2 {
      return Err(Truncated);
    }
    var smp := ReadLe(f, offset, 2);
    if itv == 50 || itv == 500 {
      offset := FixedSectorCountOffset;
    } else if itv == 256 || itv == 2048 {
      offset := if ptr >= 128 then ptr - 128 else ptr + Word - 128;
    } else {
      return Err(UnknownInterval);
    }
    if |f| < offset + 3 {
      return Err(Truncated);
    }
    var sct := ReadLe(f, offset, 3);
    r := Ok(Mds(format, ptr, lay, mode, loc, itv, smp, sct));
  }
}
