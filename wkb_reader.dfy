/** `wkb_to_numpy` as the source runs it (robosat_pink/tools/rasterize.py:74-110): a
    cursor advanced by successive reads on an in-memory byte stream, a loop over the
    bands that carries band 0's pixel type, and an output array allocated at band 0 and
    filled one band at a time. Each step is proved against `Wkb.Decode`. */
module WkbReader {
  import opened Common
  import opened Wkb

  /** `io.BytesIO`: fixed contents and a read position. */
  class ByteStream {
    const data: seq<byte>
    var pos: nat

    ghost predicate Valid()
      reads this
    {
      pos <= |data|
    }

    constructor(data: seq<byte>)
      ensures this.data == data && pos == 0 && Valid()
    {
      this.data := data;
      pos := 0;
    }

    /** `read(n)`: up to `n` bytes; fewer, possibly none, at the end of the data. */
    method Read(n: nat) returns (chunk: seq<byte>)
      requires Valid()
      modifies this
      ensures Valid()
      ensures pos == Min(old(pos) + n, |data|)
      ensures chunk == data[old(pos)..pos]
      ensures |chunk| == pos - old(pos) <= n
    {
      var next := Min(pos + n, |data|);
      chunk := data[pos..next];
      pos := next;
    }
  }

  /** `width * height * size`, the bytes numpy takes for a band's pixel block. */
  lemma BlockBytes(width: nat, height: nat, size: nat)
    requires SizeOk(size)
    ensures width * height * size == Scale(Cells(height, width), size)
  {
    var cells := Cells(height, width);
    CellsIsProduct(height, width);
    assert cells == width * height;
    ScaleIsProduct(cells, size);
  }

  /** One pass of the band loop (rasterize.py:93-108 without the array): the flag byte, the
      offline check, the table lookup, the no-data skip, the mixed-type check against band
      0's code and the read of the pixel block. */
  method ReadBand(wkb: ByteStream, band: nat, width: nat, height: nat, pixtype: Option<nat>)
    returns (s: BandOutcome)
    requires wkb.Valid()
    modifies wkb
    ensures wkb.Valid()
    ensures s == BandStep(wkb.data, old(wkb.pos), band, width, height, pixtype) && wkb.pos == s.at
  {
    var bitsRead := wkb.Read(1);
    if |bitsRead| < 1 {
      return Stop(Truncated, wkb.pos);
    }
    var bits := bitsRead[0];
    if OfflineBit(bits) {
      return Stop(OfflineBand, wkb.pos);
    }
    var code := PixelCode(bits);
    if code >= |PixelSizes| {
      return Stop(UnknownPixelType(code), wkb.pos);
    }
    TablesAgree(code);
    var size := PixelSizes[code];
    var _ := wkb.Read(size);
    if band != 0 && pixtype != Some(code) {
      return Stop(MixedPixelType, wkb.pos);
    }
    var n := width * height * size;
    BlockBytes(width, height, size);
    ghost var pos2 := wkb.pos;
    var block := wkb.Read(n);
    if |block| < n {
      return Stop(Truncated, wkb.pos);
    }
    ChunkIsSlice(wkb.data, pos2, n);
    return Next(wkb.pos, code, block);
  }

  /** The flag byte and the 60-byte header (rasterize.py:86-89); None when either read
      comes up short, which makes `struct.unpack` raise. */
  method ReadHeader(wkb: ByteStream) returns (h: Option<Header>)
    requires wkb.Valid()
    modifies wkb
    ensures wkb.Valid()
    ensures h.None? ==> old(wkb.pos) + 61 > |wkb.data| && wkb.pos == |wkb.data|
    ensures h.Some? ==> old(wkb.pos) + 61 <= |wkb.data| && wkb.pos == old(wkb.pos) + 61
                        && h.value == HeaderAt(wkb.data, old(wkb.pos))
  {
    var flag := wkb.Read(1);
    if |flag| < 1 {
      return None;
    }
    var order := ByteOrderOf(flag[0]);
    var meta := wkb.Read(60);
    if |meta| < 60 {
      return None;
    }
    return Some(ParseHeader(order, meta));
  }

  /** The band loop (rasterize.py:91-110). The output array is `np.zeros((height, width,
      bands), dtype)` allocated at band 0, one zeroed pixel block per band, each then
      overwritten by `out[:, :, band] = ...`. */
  method ReadBands(wkb: ByteStream, h: Header) returns (out: Result<Option<Grid>, DecodeError>)
    requires wkb.Valid()
    modifies wkb
    ensures wkb.Valid()
    ensures var d := DecodeBands(wkb.data, old(wkb.pos), 0, h.bands, h.width, h.height, None, []);
            out == d.result && wkb.pos == d.pos
  {
    ghost var start := wkb.pos;
    var blocks: array?<seq<byte>> := null;
    var dtype := B1;
    var pixtype: Option<nat> := None;
    ghost var stored: seq<seq<byte>> := [];
    var band := 0;
    while band < h.bands
      invariant wkb.Valid() && band <= h.bands && |stored| == band
      invariant pixtype.Some? ==> pixtype.value < |PixelSizes| && dtype == PixelDtypes[pixtype.value]
      invariant (band == 0) == pixtype.None? == (blocks == null)
      invariant blocks != null ==> fresh(blocks) && blocks.Length == h.bands && blocks[..band] == stored
      invariant DecodeBands(wkb.data, wkb.pos, band, h.bands, h.width, h.height, pixtype, stored)
                == DecodeBands(wkb.data, start, 0, h.bands, h.width, h.height, None, [])
      decreases h.bands - band
    {
      ghost var here := wkb.pos;
      var s := ReadBand(wkb, band, h.width, h.height, pixtype);
      if s.Stop? {
        DecodeBandsStop(wkb.data, here, band, h.bands, h.width, h.height, pixtype, stored, s.error, s.at);
        return Err(s.error);
      }
      DecodeBandsNext(wkb.data, here, band, h.bands, h.width, h.height, pixtype, stored, s.at, s.code, s.block);
      if band == 0 {
        blocks := new seq<byte>[h.bands](_ => ZeroBlock(PixelDtypes[s.code], Cells(h.height, h.width)));
        dtype := PixelDtypes[s.code];
        pixtype := Some(s.code);
      } else {
        BandStepAccounting(wkb.data, here, band, h.width, h.height, pixtype);
      }
      blocks[band] := s.block;
      stored := stored + [s.block];
      band := band + 1;
    }
    if blocks == null {
      return Ok(None);
    }
    assert blocks[..] == blocks[..band];
    return Ok(Some(Grid(h.height, h.width, h.bands, dtype, blocks[..])));
  }

  /** Once the header at `start` is read as `h`, decoding is the band loop just after it. */
  lemma DecodeFromHeader(data: seq<byte>, start: nat, h: Header)
    requires start + 61 <= |data| && h == HeaderAt(data, start)
    ensures Decode(data, start) == DecodeBands(data, start + 61, 0, h.bands, h.width, h.height, None, [])
  {
  }

  /** `wkb_to_numpy` on a stream, None when there is no stream: the flag byte, the header,
      then the band loop, each a read further along the same stream. */
  method WkbToNumpy(wkb: ByteStream?) returns (out: Result<Option<Grid>, DecodeError>)
    requires wkb != null ==> wkb.Valid()
    modifies wkb
    ensures wkb == null ==> out == Ok(None)
    ensures wkb != null ==> && wkb.Valid()
                            && out == Decode(wkb.data, old(wkb.pos)).result
                            && wkb.pos == Decode(wkb.data, old(wkb.pos)).pos
  {
    if wkb == null {
      return Ok(None);
    }
    ghost var start := wkb.pos;
    var h := ReadHeader(wkb);
    if h.None? {
      DecodeAfterHeader(wkb.data, start);
      return Err(Truncated);
    }
    out := ReadBands(wkb, h.value);
    DecodeFromHeader(wkb.data, start, h.value);
  }
}
