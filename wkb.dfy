/** The PostGIS WKB raster layout as `wkb_to_numpy` reads it
    (robosat_pink/tools/rasterize.py:74-110), written as functions over the
    bytes of a stream and absolute positions in it. `WkbReader.WkbToNumpy`
    is the stream-advancing method; this module is its specification, a
    writer of the layout (`EncodeRaster`) and the lemmas relating the two. */
module Wkb {
  import opened Common

  /** An octet of the stream. */
  newtype byte = x: int | 0 <= x < 256

  /** `bits & 128`: bit 7 of a band's flag byte, set when the band is stored out-of-line. */
  predicate OfflineBit(bits: byte)
  {
    bits >= 128
  }

  /** `bits & 15`: the low four bits of a band's flag byte, its pixel-type code. */
  function PixelCode(bits: byte): (code: nat)
    ensures code < 16
  {
    (bits % 16) as nat
  }

  // ---------------------------------------------------------------------
  // Pixel types

  /** The numpy element types the decoder asks for, named after their dtype strings. */
  datatype Dtype = B1 | U1 | I1 | I2 | U2 | I4 | U4 | F4 | F8

  /** The two lookup tables indexed by the band's pixel-type code (`bits & 15`). */
  const PixelSizes: seq<nat> := [1, 1, 1, 1, 1, 2, 2, 4, 4, 4, 8]
  const PixelDtypes: seq<Dtype> := [B1, U1, U1, I1, U1, I2, U2, I4, U4, F4, F8]

  /** numpy's item size of each element type. */
  function ItemSize(t: Dtype): (size: nat)
    ensures SizeOk(size)
  {
    match t
    case B1 | U1 | I1 => 1
    case I2 | U2 => 2
    case I4 | U4 | F4 => 4
    case F8 => 8
  }

  /** The byte width the decoder reads for a code is the item size of the dtype it reinterprets them as. */
  lemma TablesAgree(code: nat)
    requires code < |PixelSizes|
    ensures |PixelDtypes| == |PixelSizes|
    ensures PixelSizes[code] == ItemSize(PixelDtypes[code]) && SizeOk(PixelSizes[code])
  {
  }

  /** The item sizes that occur: 1, 2, 4 and 8 bytes. */
  predicate SizeOk(size: nat)
  {
    size == 1 || size == 2 || size == 4 || size == 8
  }

  /** The bytes `n` items of `size` bytes take, `n * size`, spelled out per item size
      so that the decoder's definitions stay linear. */
  function Scale(n: nat, size: nat): nat
    requires SizeOk(size)
  {
    if size == 1 then n else if size == 2 then 2 * n else if size == 4 then 4 * n else 8 * n
  }

  lemma ScaleIsProduct(n: nat, size: nat)
    requires SizeOk(size)
    ensures Scale(n, size) == n * size
  {
  }

  /** The number of cells of a `height x width` band, counted row by row. */
  function Cells(height: nat, width: nat): nat
  {
    if height == 0 then 0 else Cells(height - 1, width) + width
  }

  lemma {:induction false} CellsIsProduct(height: nat, width: nat)
    ensures Cells(height, width) == height * width
  {
    if height > 0 {
      CellsIsProduct(height - 1, width);
    }
  }

  /** A band has cells exactly when it has both rows and columns. */
  lemma {:induction false} CellsPositive(height: nat, width: nat)
    ensures Cells(height, width) > 0 <==> height > 0 && width > 0
  {
    if height > 0 {
      CellsPositive(height - 1, width);
    }
  }

  /** One array element. Integers are decoded; floats are kept as their raw bytes. */
  datatype Pixel = Bool(bit: bool) | UInt(u: nat) | SInt(i: int) | Float(raw: seq<byte>)

  function Pow256(n: nat): (p: nat)
    ensures p >= 1
  {
    if n == 0 then 1 else 256 * Pow256(n - 1)
  }

  /** Unsigned value of bytes stored least significant first. */
  function UnsignedLE(bs: seq<byte>): (v: nat)
    ensures v < Pow256(|bs|)
  {
    if bs == [] then 0 else bs[0] as nat + 256 * UnsignedLE(bs[1..])
  }

  /** The `n` little-endian bytes of `v`: what a writer of the format emits. */
  function LEBytes(v: nat, n: nat): (bs: seq<byte>)
    requires v < Pow256(n)
    ensures |bs| == n && UnsignedLE(bs) == v
  {
    if n == 0 then []
    else
      var lo, hi := v % 256, v / 256;
      assert v == 256 * hi + lo;
      var rest := LEBytes(hi, n - 1);
      assert ([lo as byte] + rest)[1..] == rest;
      [lo as byte] + rest
  }

  /** Two's-complement reading of an `n`-byte unsigned value: the values from half the
      range up stand for negatives, each `2^(8n)` below its unsigned reading. */
  function Signed(v: nat, n: nat): (i: int)
    requires 1 <= n && v < Pow256(n)
    ensures -128 * Pow256(n - 1) <= i < 128 * Pow256(n - 1)
    ensures i == v || i == v - Pow256(n)
    ensures i < 0 <==> v >= 128 * Pow256(n - 1)
  {
    if v < 128 * Pow256(n - 1) then v else v - Pow256(n)
  }

  function Reverse(bs: seq<byte>): (r: seq<byte>)
    ensures |r| == |bs|
  {
    if bs == [] then [] else Reverse(bs[1..]) + [bs[0]]
  }

  /** One item's bytes read as an element of type `t`, as numpy does on a
      little-endian host (the dtype strings carry no byte-order prefix). */
  function DecodeItem(t: Dtype, chunk: seq<byte>): Pixel
    requires |chunk| == ItemSize(t)
  {
    match t
    case B1 => Bool(chunk[0] != 0)
    case U1 | U2 | U4 => UInt(UnsignedLE(chunk))
    case I1 | I2 | I4 => SInt(Signed(UnsignedLE(chunk), |chunk|))
    case F4 | F8 => Float(chunk)
  }

  /** The element `np.zeros` fills an array of type `t` with. */
  function ZeroPixel(t: Dtype): Pixel
  {
    match t
    case B1 => Bool(false)
    case U1 | U2 | U4 => UInt(0)
    case I1 | I2 | I4 => SInt(0)
    case F4 | F8 => Float(seq(ItemSize(t), _ => 0 as byte))
  }

  lemma MulStep(k: nat, count: nat, s: nat)
    requires k < count
    ensures k * s + s == (k + 1) * s <= count * s
  {
  }

  /** Item `k` of a buffer of `count` items of type `t`, as an `np.ndarray` over it reads it. */
  function ItemIn(block: seq<byte>, t: Dtype, count: nat, k: nat): Pixel
    requires |block| == Scale(count, ItemSize(t)) && k < count
  {
    DecodeItem(t, block[Scale(k, ItemSize(t))..Scale(k + 1, ItemSize(t))])
  }

  /** The buffer behind `np.zeros(count, t)`: every byte zero. */
  function ZeroBlock(t: Dtype, count: nat): (block: seq<byte>)
    ensures |block| == Scale(count, ItemSize(t))
  {
    seq(Scale(count, ItemSize(t)), _ => 0 as byte)
  }

  /** Zero bytes read as the unsigned value 0. */
  lemma {:induction false} ZeroBytesLE(bs: seq<byte>)
    requires forall j :: 0 <= j < |bs| ==> bs[j] == 0
    ensures UnsignedLE(bs) == 0
  {
    if bs != [] {
      ZeroBytesLE(bs[1..]);
    }
  }

  /** Every item of a zero buffer is the zero of its type. */
  lemma ZeroBlockItems(t: Dtype, count: nat, k: nat)
    requires k < count
    ensures ItemIn(ZeroBlock(t, count), t, count, k) == ZeroPixel(t)
  {
    var s := ItemSize(t);
    var chunk := ZeroBlock(t, count)[Scale(k, s)..Scale(k + 1, s)];
    assert |chunk| == s;
    assert forall j :: 0 <= j < |chunk| ==> chunk[j] == 0;
    ZeroBytesLE(chunk);
    if t == F4 || t == F8 {
      assert chunk == seq(s, _ => 0 as byte);
    }
  }

  // ---------------------------------------------------------------------
  // The decoded array

  /** The array of shape (height, width, bands) that `wkb_to_numpy` returns. numpy's
      `np.ndarray(buffer=...)` is a view of bytes, so band `b` is kept as the bytes of
      its row-major `height x width` block, `blocks[b]`, and read through `dtype`. */
  datatype Grid = Grid(height: nat, width: nat, bands: nat, dtype: Dtype, blocks: seq<seq<byte>>)
  {
    ghost predicate Valid()
    {
      |blocks| == bands
      && forall b :: 0 <= b < bands ==> |blocks[b]| == Scale(Cells(height, width), ItemSize(dtype))
    }

    /** `out[r, c, b]`. */
    function At(r: nat, c: nat, b: nat): Pixel
      requires Valid() && r < height && c < width && b < bands
    {
      CellInPlane(r, c, height, width);
      ItemIn(blocks[b], dtype, Cells(height, width), Cells(r, width) + c)
    }
  }

  /** `np.zeros((height, width, bands), dtype=t)`. */
  function ZeroGrid(height: nat, width: nat, bands: nat, t: Dtype): (g: Grid)
    ensures g.Valid() && g.height == height && g.width == width && g.bands == bands && g.dtype == t
  {
    Grid(height, width, bands, t, seq(bands, _ => ZeroBlock(t, Cells(height, width))))
  }

  /** Every element of `np.zeros(...)` is the zero of its type. */
  lemma ZeroGridCells(height: nat, width: nat, bands: nat, t: Dtype, r: nat, c: nat, b: nat)
    requires r < height && c < width && b < bands
    ensures ZeroGrid(height, width, bands, t).At(r, c, b) == ZeroPixel(t)
  {
    CellInPlane(r, c, height, width);
    ZeroBlockItems(t, Cells(height, width), Cells(r, width) + c);
  }

  /** Cell (r, c) sits at row-major offset `Cells(r, width) + c`, inside the band. */
  lemma {:induction false} CellInPlane(r: nat, c: nat, height: nat, width: nat)
    requires r < height && c < width
    ensures Cells(r, width) + c < Cells(height, width)
  {
    if r < height - 1 {
      CellInPlane(r, c, height - 1, width);
    }
  }

  // ---------------------------------------------------------------------
  // The byte-order flag and the header

  datatype ByteOrder = BigEndian | LittleEndian

  /** Python values, as far as the byte-order test needs them. */
  datatype PyValue = PyInt(i: int) | PyTuple(items: seq<PyValue>)

  /** `struct.unpack("<b", ...)`'s signed reading of one byte. */
  function SignedByte(b: byte): int
  {
    if b < 128 then b as int else b as int - 256
  }

  /** The order chosen from the first byte: `struct.unpack` returns a 1-tuple and
      the source compares that tuple, not its item, with the integer 0. */
  function ByteOrderOf(flag: byte): ByteOrder
  {
    if PyTuple([PyInt(SignedByte(flag))]) == PyInt(0) then BigEndian else LittleEndian
  }

  /** A tuple is never equal to an integer, so every raster is read little-endian,
      even one whose flag byte is 0 (big-endian in the PostGIS layout). */
  lemma ByteOrderAlwaysLittle(flag: byte)
    ensures ByteOrderOf(flag) == LittleEndian
  {
  }

  function Unsigned(order: ByteOrder, bs: seq<byte>): nat
  {
    if order == LittleEndian then UnsignedLE(bs) else UnsignedLE(Reverse(bs))
  }

  /** The fields of format `HHddddddIHH`; the six doubles stay raw bytes. */
  datatype Header = Header(version: nat, bands: nat, geo: seq<byte>, srid: nat, width: nat, height: nat)

  function ParseHeader(order: ByteOrder, h: seq<byte>): Header
    requires |h| == 60
  {
    Header(Unsigned(order, h[0..2]), Unsigned(order, h[2..4]), h[4..52],
           Unsigned(order, h[52..56]), Unsigned(order, h[56..58]), Unsigned(order, h[58..60]))
  }

  /** The header of the raster starting at `start`. */
  function HeaderAt(data: seq<byte>, start: nat): Header
    requires start + 61 <= |data|
  {
    ParseHeader(ByteOrderOf(data[start]), data[start + 1..start + 61])
  }

  // ---------------------------------------------------------------------
  // The decoder

  datatype DecodeError =
    | Truncated                   // struct.error, or numpy's "buffer is too small": an Exception
    | OfflineBand                 // sys.exit at rasterize.py:95
    | UnknownPixelType(code: nat) // IndexError on the 11-entry tables: an Exception
    | MixedPixelType              // sys.exit at rasterize.py:106
  {
    /** Ends the process (`SystemExit`) rather than raising an `Exception`. */
    predicate Fatal()
    {
      OfflineBand? || MixedPixelType?
    }

    function ExitMessage(): string
      requires Fatal()
    {
      if OfflineBand? then "OffLine PostGIS WKB Data not supported."
      else "Mixed PostGIS WBK Data type not supported."
    }
  }

  /** What the decoder returns (None: `out` stayed None) and where it left the stream. */
  datatype Decoded = Decoded(result: Result<Option<Grid>, DecodeError>, pos: nat)

  /** One pass of the band loop with the stream at `pos`: it either stops with an error at
      the position the stream reached, or yields band `band`'s code and pixel block. */
  datatype BandOutcome = Stop(error: DecodeError, at: nat) | Next(at: nat, code: nat, block: seq<byte>)

  /** The `len` bytes of `data` from `from` on, taken one at a time. */
  function Chunk(data: seq<byte>, from: nat, len: nat): (c: seq<byte>)
    requires from + len <= |data|
    ensures |c| == len
    decreases len
  {
    if len == 0 then [] else [data[from]] + Chunk(data, from + 1, len - 1)
  }

  lemma {:induction false} ChunkIsSlice(data: seq<byte>, from: nat, len: nat)
    requires from + len <= |data|
    ensures Chunk(data, from, len) == data[from..from + len]
    decreases len
  {
    if len > 0 {
      ChunkIsSlice(data, from + 1, len - 1);
      assert data[from..from + len] == [data[from]] + data[from + 1..from + len];
    }
  }

  /** Reading one band: a flag byte, the no-data value (skipped), the pixel block. A read of
      `n` bytes returns fewer at the end of the data; the no-data skip tolerates that, the
      flag unpack and numpy's buffer check do not. `pixtype` is band 0's code once read. */
  function BandStep(data: seq<byte>, pos: nat, band: nat, width: nat, height: nat,
                    pixtype: Option<nat>): (s: BandOutcome)
    requires pos <= |data|
    ensures pos <= s.at <= |data|
    ensures s.Next? ==> s.code < |PixelSizes|
                        && |s.block| == Scale(Cells(height, width), ItemSize(PixelDtypes[s.code]))
  {
    var pos1 := Min(pos + 1, |data|);
    if pos1 - pos < 1 then Stop(Truncated, pos1)
    else
      var bits := data[pos];
      if OfflineBit(bits) then Stop(OfflineBand, pos1)
      else
        var code := PixelCode(bits);
        if code >= |PixelSizes| then Stop(UnknownPixelType(code), pos1)
        else
          TablesAgree(code);
          var size := PixelSizes[code];
          var pos2 := Min(pos1 + size, |data|);
          if band != 0 && pixtype != Some(code) then Stop(MixedPixelType, pos2)
          else
            var n := Scale(Cells(height, width), size);
            var pos3 := Min(pos2 + n, |data|);
            if pos3 - pos2 < n then Stop(Truncated, pos3)
            else Next(pos3, code, Chunk(data, pos2, n))
  }

  /** The band loop from band `band` on; `blocks` holds the bands stored so far. */
  function DecodeBands(data: seq<byte>, pos: nat, band: nat, bands: nat, width: nat, height: nat,
                       pixtype: Option<nat>, blocks: seq<seq<byte>>): (d: Decoded)
    requires pos <= |data| && band <= bands
    requires pixtype.Some? ==> pixtype.value < |PixelSizes|
    ensures pos <= d.pos <= |data|
    decreases bands - band
  {
    if band == bands then
      match pixtype
      case None => Decoded(Ok(None), pos)
      case Some(code) => Decoded(Ok(Some(Grid(height, width, bands, PixelDtypes[code], blocks))), pos)
    else
      match BandStep(data, pos, band, width, height, pixtype)
      case Stop(e, at) => Decoded(Err(e), at)
      case Next(at, code, block) =>
        DecodeBands(data, at, band + 1, bands, width, height, Some(code), blocks + [block])
  }

  /** `wkb_to_numpy` on a stream holding `data`, positioned at `start`. */
  function Decode(data: seq<byte>, start: nat): (d: Decoded)
    requires start <= |data|
    ensures start <= d.pos <= |data|
  {
    // The flag byte and the 60 header bytes: a short read of either leaves the stream at
    // its end and makes `struct.unpack` raise.
    if start + 61 > |data| then Decoded(Err(Truncated), |data|)
    else
      var h := HeaderAt(data, start);
      DecodeBands(data, start + 61, 0, h.bands, h.width, h.height, None, [])
  }

  // ---------------------------------------------------------------------
  // Byte accounting, shape and the ignored flag byte, on arbitrary input

  /** Bytes a band of `size`-byte items occupies: flag, no-data value, pixel block. */
  function BandWireSize(width: nat, height: nat, size: nat): nat
    requires SizeOk(size)
  {
    1 + size + Scale(Cells(height, width), size)
  }

  lemma BandWireSizeIsProduct(width: nat, height: nat, size: nat)
    requires SizeOk(size)
    ensures BandWireSize(width, height, size) == 1 + size + width * height * size
  {
    CellsIsProduct(height, width);
    ScaleIsProduct(Cells(height, width), size);
  }

  /** Where a successful band pass leaves the stream: one band further on, or at the end of
      the data when the no-data value ran short and the pixel block is empty. */
  lemma BandStepAccounting(data: seq<byte>, pos: nat, band: nat, width: nat, height: nat, pixtype: Option<nat>)
    requires pos <= |data|
    ensures var s := BandStep(data, pos, band, width, height, pixtype);
            s.Next? ==>
              var unit := BandWireSize(width, height, ItemSize(PixelDtypes[s.code]));
              && pos < |data| && s.code == PixelCode(data[pos])
              && (band != 0 ==> pixtype == Some(s.code))
              && (s.at == pos + unit || (s.at == |data| < pos + unit && Cells(height, width) == 0))
  {
    var s := BandStep(data, pos, band, width, height, pixtype);
    if s.Next? {
      TablesAgree(PixelCode(data[pos]));
    }
  }

  /** No band can be read once the data is exhausted. */
  lemma BandStepAtEnd(data: seq<byte>, band: nat, width: nat, height: nat, pixtype: Option<nat>)
    ensures BandStep(data, |data|, band, width, height, pixtype) == Stop(Truncated, |data|)
  {
  }

  /** The array the band loop returns has the shape the header announced. */
  lemma {:induction false} DecodeBandsShape(data: seq<byte>, pos: nat, band: nat, bands: nat,
                                            width: nat, height: nat, pixtype: Option<nat>,
                                            blocks: seq<seq<byte>>)
    requires pos <= |data| && band <= bands
    requires pixtype.Some? ==> pixtype.value < |PixelSizes|
    requires (band == 0) == pixtype.None?
    requires |blocks| == band
    requires pixtype.Some? ==> forall b :: 0 <= b < band ==>
               |blocks[b]| == Scale(Cells(height, width), ItemSize(PixelDtypes[pixtype.value]))
    ensures var d := DecodeBands(data, pos, band, bands, width, height, pixtype, blocks);
            d.result.Ok? && d.result.value.Some? ==>
              var g := d.result.value.value;
              && g.Valid() && g.height == height && g.width == width && g.bands == bands
              && (pixtype.Some? ==> g.dtype == PixelDtypes[pixtype.value])
    ensures var d := DecodeBands(data, pos, band, bands, width, height, pixtype, blocks);
            d.result == Ok(None) ==> band == bands == 0 && d.pos == pos
    decreases bands - band
  {
    if band < bands {
      var s := BandStep(data, pos, band, width, height, pixtype);
      if s.Next? {
        BandStepAccounting(data, pos, band, width, height, pixtype);
        DecodeBandsShape(data, s.at, band + 1, bands, width, height, Some(s.code), blocks + [s.block]);
      }
    }
  }

  lemma SpanStep(k: nat, rest: nat, unit: nat)
    requires k == rest + 1
    ensures k * unit == unit + rest * unit
  {
  }

  /** One band of `unit` bytes followed by `rest` more, or a last band cut short at the end. */
  lemma SpanCombine(pos: nat, at: nat, len: nat, unit: nat, k: nat, rest: nat, dpos: nat, cells: nat)
    requires k == rest + 1 && at <= len
    requires at == pos + unit || (at == len < pos + unit && cells == 0)
    requires at == pos + unit ==> dpos == Min(at + rest * unit, len)
    requires at == pos + unit && cells > 0 ==> dpos == at + rest * unit
    requires at != pos + unit ==> rest == 0 && dpos == at
    ensures dpos == Min(pos + k * unit, len)
    ensures cells > 0 ==> dpos == pos + k * unit
  {
    SpanStep(k, rest, unit);
  }

  /** One band read in full or cut short at the end of the data, then the rest of the band
      loop: if the rest ends `rest` bands of `unit` bytes further on (or at the end of the
      data), the whole loop ends `rest + 1` bands further on. */
  lemma AccountingStep(data: seq<byte>, pos: nat, band: nat, bands: nat, width: nat, height: nat,
                       pixtype: Option<nat>, blocks: seq<seq<byte>>, at: nat, code: nat, block: seq<byte>,
                       k: nat, rest: nat)
    requires pos <= |data| && band < bands && k == bands - band && rest + 1 == k
    requires pixtype.Some? ==> pixtype.value < |PixelSizes|
    requires BandStep(data, pos, band, width, height, pixtype) == Next(at, code, block)
    requires var d := DecodeBands(data, at, band + 1, bands, width, height, Some(code), blocks + [block]);
             var unit := BandWireSize(width, height, ItemSize(PixelDtypes[code]));
             d.result.Ok? && d.result.value.Some? ==>
               && d.pos == Min(at + rest * unit, |data|)
               && (Cells(height, width) > 0 ==> d.pos == at + rest * unit)
    ensures DecodeBands(data, pos, band, bands, width, height, pixtype, blocks)
            == DecodeBands(data, at, band + 1, bands, width, height, Some(code), blocks + [block])
    ensures var d := DecodeBands(data, pos, band, bands, width, height, pixtype, blocks);
            var unit := BandWireSize(width, height, ItemSize(PixelDtypes[code]));
            d.result.Ok? && d.result.value.Some? ==>
              && d.pos == Min(pos + k * unit, |data|)
              && (Cells(height, width) > 0 ==> d.pos == pos + k * unit)
  {
    BandStepAccounting(data, pos, band, width, height, pixtype);
    // Past a no-data value cut short by the end of the data, no further band can be read.
    BandStepAtEnd(data, band + 1, width, height, Some(code));
    DecodeBandsNext(data, pos, band, bands, width, height, pixtype, blocks, at, code, block);
    var d := DecodeBands(data, at, band + 1, bands, width, height, Some(code), blocks + [block]);
    if d.result.Ok? && d.result.value.Some? {
      var unit := BandWireSize(width, height, ItemSize(PixelDtypes[code]));
      assert at != pos + unit ==> rest == 0 && d.pos == at;
      SpanCombine(pos, at, |data|, unit, k, rest, d.pos, Cells(height, width));
    }
  }

  /** From band 1 on the pixel type is fixed, and every band read takes the same number of
      bytes, except that the last no-data value may run short when the pixel block is
      empty. */
  lemma {:induction false} RestAccounting(data: seq<byte>, pos: nat, band: nat, bands: nat,
                                          width: nat, height: nat, code: nat, blocks: seq<seq<byte>>)
    requires pos <= |data| && 0 < band <= bands && code < |PixelSizes|
    ensures var d := DecodeBands(data, pos, band, bands, width, height, Some(code), blocks);
            var unit := BandWireSize(width, height, ItemSize(PixelDtypes[code]));
            d.result.Ok? && d.result.value.Some? ==>
              && d.result.value.value.dtype == PixelDtypes[code]
              && d.pos == Min(pos + (bands - band) * unit, |data|)
              && (Cells(height, width) > 0 ==> d.pos == pos + (bands - band) * unit)
    decreases bands - band
  {
    if band < bands {
      var s := BandStep(data, pos, band, width, height, Some(code));
      if s.Next? {
        BandStepAccounting(data, pos, band, width, height, Some(code));
        RestAccounting(data, s.at, band + 1, bands, width, height, code, blocks + [s.block]);
        AccountingStep(data, pos, band, bands, width, height, Some(code), blocks, s.at, code, s.block,
                       bands - band, bands - (band + 1));
      }
    }
  }

  /** On success the decoder has consumed the flag byte, the 60-byte header and, per band,
      a flag byte, a no-data value and a `width*height` block of the band's item size, and
      returns a `height x width x bands` array of band 0's pixel type; only an empty block
      lets the last no-data value run short. No bands leaves the result None after exactly 61 bytes. */
  lemma DecodeAccounting(data: seq<byte>, start: nat)
    requires start <= |data|
    ensures var d := Decode(data, start);
            d.result.Ok? && d.result.value.Some? ==>
              var g := d.result.value.value;
              var bandBytes := g.bands * BandWireSize(g.width, g.height, ItemSize(g.dtype));
              && start + 61 < |data| && g.dtype == PixelDtypes[PixelCode(data[start + 61])]
              && g.Valid() && g.bands == HeaderAt(data, start).bands
              && g.width == HeaderAt(data, start).width && g.height == HeaderAt(data, start).height
              && d.pos == Min(start + 61 + bandBytes, |data|)
              && (g.width > 0 && g.height > 0 ==> d.pos == start + 61 + bandBytes)
    ensures var d := Decode(data, start);
            d.result == Ok(None) ==> start + 61 <= |data| && HeaderAt(data, start).bands == 0 && d.pos == start + 61
  {
    DecodeAfterHeader(data, start);
    if start + 61 <= |data| {
      var h := HeaderAt(data, start);
      LoopAccounting(data, start + 61, h.bands, h.width, h.height);
    }
  }

  /** `DecodeAccounting` for the band loop that follows the header. */
  lemma LoopAccounting(data: seq<byte>, pos: nat, bands: nat, width: nat, height: nat)
    requires pos <= |data|
    ensures var d := DecodeBands(data, pos, 0, bands, width, height, None, []);
            d.result.Ok? && d.result.value.Some? ==>
              var g := d.result.value.value;
              var bandBytes := g.bands * BandWireSize(g.width, g.height, ItemSize(g.dtype));
              && g.Valid() && g.bands == bands && g.width == width && g.height == height
              && pos < |data| && g.dtype == PixelDtypes[PixelCode(data[pos])]
              && d.pos == Min(pos + bandBytes, |data|)
              && (g.width > 0 && g.height > 0 ==> d.pos == pos + bandBytes)
    ensures var d := DecodeBands(data, pos, 0, bands, width, height, None, []);
            d.result == Ok(None) ==> bands == 0 && d.pos == pos
  {
    DecodeBandsShape(data, pos, 0, bands, width, height, None, []);
    CellsPositive(height, width);
    DecodeBandsAccounting(data, pos, bands, width, height);
    if bands > 0 {
      // Band 0 fixes the pixel type; from band 1 on the shape lemma carries it.
      var s := BandStep(data, pos, 0, width, height, None);
      if s.Next? {
        BandStepAccounting(data, pos, 0, width, height, None);
        DecodeBandsNext(data, pos, 0, bands, width, height, None, [], s.at, s.code, s.block);
        assert [] + [s.block] == [s.block];
        DecodeBandsShape(data, s.at, 1, bands, width, height, Some(s.code), [s.block]);
      }
    }
  }

  /** Band 0 fixes the pixel type, and with it the size of every band. */
  lemma DecodeBandsAccounting(data: seq<byte>, pos: nat, bands: nat, width: nat, height: nat)
    requires pos <= |data|
    ensures var d := DecodeBands(data, pos, 0, bands, width, height, None, []);
            d.result.Ok? && d.result.value.Some? ==>
              var span := bands * BandWireSize(width, height, ItemSize(d.result.value.value.dtype));
              && d.pos == Min(pos + span, |data|)
              && (Cells(height, width) > 0 ==> d.pos == pos + span)
  {
    if bands > 0 {
      var s := BandStep(data, pos, 0, width, height, None);
      if s.Next? {
        RestAccounting(data, s.at, 1, bands, width, height, s.code, [] + [s.block]);
        AccountingStep(data, pos, 0, bands, width, height, None, [], s.at, s.code, s.block, bands, bands - 1);
      }
    }
  }

  /** The decoder either raises on a header cut short or runs the band loop after it. */
  lemma DecodeAfterHeader(data: seq<byte>, start: nat)
    requires start <= |data|
    ensures start + 61 <= |data| ==>
              var h := HeaderAt(data, start);
              Decode(data, start) == DecodeBands(data, start + 61, 0, h.bands, h.width, h.height, None, [])
    ensures start + 61 > |data| ==> Decode(data, start) == Decoded(Err(Truncated), |data|)
  {
  }

  /** A chunk depends on nothing but its own bytes. */
  lemma {:induction false} ChunkReadsAhead(data: seq<byte>, other: seq<byte>, from: nat, len: nat)
    requires from + len <= |data| == |other|
    requires forall j :: from <= j < |data| ==> other[j] == data[j]
    ensures Chunk(other, from, len) == Chunk(data, from, len)
    decreases len
  {
    if len > 0 {
      ChunkReadsAhead(data, other, from + 1, len - 1);
    }
  }

  /** A band pass reads nothing before the position it starts from. */
  lemma BandStepReadsAhead(data: seq<byte>, other: seq<byte>, pos: nat, band: nat, width: nat, height: nat,
                           pixtype: Option<nat>)
    requires pos <= |data| == |other|
    requires forall j :: pos <= j < |data| ==> other[j] == data[j]
    ensures BandStep(other, pos, band, width, height, pixtype) == BandStep(data, pos, band, width, height, pixtype)
  {
    if pos < |data| {
      var code := PixelCode(data[pos]);
      if !OfflineBit(data[pos]) && code < |PixelSizes| {
        TablesAgree(code);
        var pos2 := Min(pos + 1 + PixelSizes[code], |data|);
        var n := Scale(Cells(height, width), PixelSizes[code]);
        if pos2 + n <= |data| {
          ChunkReadsAhead(data, other, pos2, n);
        }
      }
    }
  }

  /** The band loop reads nothing before the position it starts from. */
  lemma {:induction false} DecodeBandsReadsAhead(data: seq<byte>, other: seq<byte>, pos: nat, band: nat,
                                                 bands: nat, width: nat, height: nat,
                                                 pixtype: Option<nat>, blocks: seq<seq<byte>>)
    requires pos <= |data| == |other| && band <= bands
    requires pixtype.Some? ==> pixtype.value < |PixelSizes|
    requires forall j :: pos <= j < |data| ==> other[j] == data[j]
    ensures DecodeBands(other, pos, band, bands, width, height, pixtype, blocks)
            == DecodeBands(data, pos, band, bands, width, height, pixtype, blocks)
    decreases bands - band
  {
    if band < bands {
      BandStepReadsAhead(data, other, pos, band, width, height, pixtype);
      var s := BandStep(data, pos, band, width, height, pixtype);
      if s.Next? {
        DecodeBandsReadsAhead(data, other, s.at, band + 1, bands, width, height, Some(s.code), blocks + [s.block]);
      }
    }
  }

  /** The byte-order flag has no effect on the outcome: any value of the first byte
      decodes exactly like any other. */
  lemma DecodeIgnoresByteOrderFlag(data: seq<byte>, start: nat, flag: byte)
    requires start < |data|
    ensures Decode(data[start := flag], start) == Decode(data, start)
  {
    var other := data[start := flag];
    if start + 61 <= |data| {
      ByteOrderAlwaysLittle(flag);
      ByteOrderAlwaysLittle(data[start]);
      DecodeAfterHeader(data, start);
      DecodeAfterHeader(other, start);
      assert other[start + 1..start + 61] == data[start + 1..start + 61];
      assert HeaderAt(other, start) == HeaderAt(data, start);
      var h := HeaderAt(data, start);
      DecodeBandsReadsAhead(data, other, start + 61, 0, h.bands, h.width, h.height, None, []);
    }
  }

  // ---------------------------------------------------------------------
  // The layout written out, and what the decoder makes of it

  /** One band on the wire: flag byte, no-data value, pixel block. */
  datatype BandWire = BandWire(flags: byte, nodata: seq<byte>, pixels: seq<byte>)

  function EncodeBand(b: BandWire): seq<byte>
  {
    [b.flags] + b.nodata + b.pixels
  }

  function EncodeBands(bs: seq<BandWire>): seq<byte>
  {
    if bs == [] then [] else EncodeBand(bs[0]) + EncodeBands(bs[1..])
  }

  predicate HeaderFits(h: Header)
  {
    h.version < Pow256(2) && h.bands < Pow256(2) && |h.geo| == 48 && h.srid < Pow256(4)
    && h.width < Pow256(2) && h.height < Pow256(2)
  }

  function EncodeHeader(h: Header): (bs: seq<byte>)
    requires HeaderFits(h)
    ensures |bs| == 60
  {
    LEBytes(h.version, 2) + LEBytes(h.bands, 2) + h.geo + LEBytes(h.srid, 4)
    + LEBytes(h.width, 2) + LEBytes(h.height, 2)
  }

  /** A raster as a writer of the layout lays it out: flag byte, header, bands. */
  function EncodeRaster(flag: byte, h: Header, bs: seq<BandWire>): seq<byte>
    requires HeaderFits(h)
  {
    [flag] + EncodeHeader(h) + EncodeBands(bs)
  }

  /** A band the decoder accepts for pixel-type `code`: stored in-line, tagged with
      that code, with a no-data value and a pixel block of the sizes the table gives. */
  predicate WellFormedBand(b: BandWire, code: nat, width: nat, height: nat)
  {
    && code < |PixelSizes|
    && !OfflineBit(b.flags) && PixelCode(b.flags) == code
    && |b.nodata| == ItemSize(PixelDtypes[code])
    && |b.pixels| == Scale(Cells(height, width), ItemSize(PixelDtypes[code]))
  }

  /** The pixel blocks of a run of bands, in order. */
  function Blocks(bs: seq<BandWire>): (blocks: seq<seq<byte>>)
    ensures |blocks| == |bs| && forall k :: 0 <= k < |bs| ==> blocks[k] == bs[k].pixels
  {
    seq(|bs|, k requires 0 <= k < |bs| => bs[k].pixels)
  }

  lemma ParseEncodedHeader(h: Header)
    requires HeaderFits(h)
    ensures ParseHeader(LittleEndian, EncodeHeader(h)) == h
  {
    var e := EncodeHeader(h);
    assert e[0..2] == LEBytes(h.version, 2);
    assert e[2..4] == LEBytes(h.bands, 2);
    assert e[4..52] == h.geo;
    assert e[52..56] == LEBytes(h.srid, 4);
    assert e[56..58] == LEBytes(h.width, 2);
    assert e[58..60] == LEBytes(h.height, 2);
  }

  /** A window onto `data` holding `[flags] + nodata + pixels` holds each part where it belongs. */
  lemma WindowParts(data: seq<byte>, pos: nat, flags: byte, nodata: seq<byte>, pixels: seq<byte>)
    requires pos + 1 + |nodata| + |pixels| <= |data|
    requires data[pos..pos + 1 + |nodata| + |pixels|] == [flags] + nodata + pixels
    ensures data[pos] == flags
    ensures data[pos + 1 + |nodata|..pos + 1 + |nodata| + |pixels|] == pixels
  {
    var w := data[pos..pos + 1 + |nodata| + |pixels|];
    assert w[0] == data[pos];
    forall j | 0 <= j < |pixels|
      ensures data[pos + 1 + |nodata|..pos + 1 + |nodata| + |pixels|][j] == pixels[j]
    {
      assert w[1 + |nodata| + j] == pixels[j];
    }
  }

  /** Where a band's flag byte and pixel block lie once it is written at `pos`. */
  lemma EncodedBandBytes(data: seq<byte>, pos: nat, b: BandWire)
    requires pos + |EncodeBand(b)| <= |data| && data[pos..pos + |EncodeBand(b)|] == EncodeBand(b)
    ensures data[pos] == b.flags
    ensures data[pos + 1 + |b.nodata|..pos + |EncodeBand(b)|] == b.pixels
  {
    assert |EncodeBand(b)| == 1 + |b.nodata| + |b.pixels|;
    WindowParts(data, pos, b.flags, b.nodata, b.pixels);
  }

  /** A well-formed band at `pos` is read whole and its pixel block stored as written. */
  lemma BandStepEncoded(data: seq<byte>, pos: nat, band: nat, width: nat, height: nat, code: nat,
                        pixtype: Option<nat>, b: BandWire)
    requires WellFormedBand(b, code, width, height)
    requires pos + |EncodeBand(b)| <= |data| && Chunk(data, pos, |EncodeBand(b)|) == EncodeBand(b)
    requires band != 0 ==> pixtype == Some(code)
    ensures BandStep(data, pos, band, width, height, pixtype) == Next(pos + |EncodeBand(b)|, code, b.pixels)
  {
    TablesAgree(code);
    var len := |EncodeBand(b)|;
    ChunkIsSlice(data, pos, len);
    EncodedBandBytes(data, pos, b);
    ChunkIsSlice(data, pos + 1 + |b.nodata|, |b.pixels|);
  }

  /** `bs` lies in `data` from `pos` on, band after band, each one well-formed for `code`. */
  predicate RunAt(data: seq<byte>, pos: nat, bs: seq<BandWire>, code: nat, width: nat, height: nat)
  {
    && (forall k :: 0 <= k < |bs| ==> WellFormedBand(bs[k], code, width, height))
    && pos + |EncodeBands(bs)| <= |data|
    && data[pos..pos + |EncodeBands(bs)|] == EncodeBands(bs)
  }

  /** From `pos` on, the band passes read the bands of `bs` one after the other, each
      whole and stored as written. */
  predicate StepsThrough(data: seq<byte>, pos: nat, band: nat, width: nat, height: nat, code: nat,
                         pixtype: Option<nat>, bs: seq<BandWire>)
    decreases |bs|
  {
    bs == [] ||
    (&& pos <= |data|
     && BandStep(data, pos, band, width, height, pixtype) == Next(pos + |EncodeBand(bs[0])|, code, bs[0].pixels)
     && StepsThrough(data, pos + |EncodeBand(bs[0])|, band + 1, width, height, code, Some(code), bs[1..]))
  }

  /** The first band of a run is its first `|EncodeBand(bs[0])|` bytes, and the rest of the
      run follows it. */
  lemma RunAtSplit(data: seq<byte>, pos: nat, bs: seq<BandWire>, code: nat, width: nat, height: nat)
    requires RunAt(data, pos, bs, code, width, height) && bs != []
    ensures var mid := pos + |EncodeBand(bs[0])|;
            && WellFormedBand(bs[0], code, width, height)
            && mid <= |data| && data[pos..mid] == EncodeBand(bs[0])
            && RunAt(data, mid, bs[1..], code, width, height)
  {
    var head, tail := EncodeBand(bs[0]), EncodeBands(bs[1..]);
    var mid := pos + |head|;
    assert EncodeBands(bs) == head + tail;
    assert data[pos..mid] == (head + tail)[..|head|];
    assert data[mid..mid + |tail|] == (head + tail)[|head|..];
    assert forall k :: 0 <= k < |bs| - 1 ==> bs[1..][k] == bs[k + 1];
  }

  /** The bands of `bs` in `data` from `pos` on, taken band by band. */
  predicate LaidOut(data: seq<byte>, pos: nat, bs: seq<BandWire>, code: nat, width: nat, height: nat)
    decreases |bs|
  {
    bs == [] ||
    (&& WellFormedBand(bs[0], code, width, height)
     && pos + |EncodeBand(bs[0])| <= |data|
     && Chunk(data, pos, |EncodeBand(bs[0])|) == EncodeBand(bs[0])
     && LaidOut(data, pos + |EncodeBand(bs[0])|, bs[1..], code, width, height))
  }

  lemma {:induction false} RunIsLaidOut(data: seq<byte>, pos: nat, bs: seq<BandWire>, code: nat,
                                        width: nat, height: nat)
    requires RunAt(data, pos, bs, code, width, height)
    ensures LaidOut(data, pos, bs, code, width, height)
    decreases |bs|
  {
    if bs != [] {
      RunAtSplit(data, pos, bs, code, width, height);
      ChunkIsSlice(data, pos, |EncodeBand(bs[0])|);
      RunIsLaidOut(data, pos + |EncodeBand(bs[0])|, bs[1..], code, width, height);
    }
  }

  /** Well-formed bands laid out one after the other are read one after the other. */
  lemma {:induction false} EncodedStepsThrough(data: seq<byte>, pos: nat, band: nat, width: nat, height: nat,
                                               code: nat, pixtype: Option<nat>, bs: seq<BandWire>)
    requires LaidOut(data, pos, bs, code, width, height)
    requires band != 0 ==> pixtype == Some(code)
    ensures StepsThrough(data, pos, band, width, height, code, pixtype, bs)
    decreases |bs|
  {
    if bs != [] {
      BandStepEncoded(data, pos, band, width, height, code, pixtype, bs[0]);
      EncodedStepsThrough(data, pos + |EncodeBand(bs[0])|, band + 1, width, height, code, Some(code), bs[1..]);
    }
  }

  /** Decoding a run of well-formed bands of one pixel type stores each band's block and
      leaves the stream just past them. */
  lemma {:induction false} DecodeEncodedBands(data: seq<byte>, pos: nat, band: nat, bands: nat,
                                              width: nat, height: nat, code: nat, pixtype: Option<nat>,
                                              blocks: seq<seq<byte>>, bs: seq<BandWire>,
                                              end: nat, last: nat, stored: seq<seq<byte>>)
    requires code < |PixelSizes| && pos <= |data|
    requires StepsThrough(data, pos, band, width, height, code, pixtype, bs)
    requires band + |bs| <= bands
    requires band != 0 ==> pixtype == Some(code)
    requires band == 0 ==> pixtype == None && bs != []
    requires end == pos + |EncodeBands(bs)| && last == band + |bs|
    requires stored == blocks + Blocks(bs)
    ensures end <= |data|
    ensures DecodeBands(data, pos, band, bands, width, height, pixtype, blocks)
            == DecodeBands(data, end, last, bands, width, height, Some(code), stored)
    decreases |bs|
  {
    if bs == [] {
      assert blocks + Blocks(bs) == blocks;
    } else {
      var mid, rest, next := pos + |EncodeBand(bs[0])|, bs[1..], blocks + [bs[0].pixels];
      DecodeBandsNext(data, pos, band, bands, width, height, pixtype, blocks, mid, code, bs[0].pixels);
      assert EncodeBands(bs) == EncodeBand(bs[0]) + EncodeBands(rest);
      assert next + Blocks(rest) == stored;
      DecodeEncodedBands(data, mid, band + 1, bands, width, height, code, Some(code),
                         next, rest, end, last, stored);
    }
  }

  /** A band that fails to read ends the band loop with that band's error. */
  lemma DecodeBandsStop(data: seq<byte>, pos: nat, band: nat, bands: nat, width: nat, height: nat,
                        pixtype: Option<nat>, blocks: seq<seq<byte>>, e: DecodeError, at: nat)
    requires pos <= |data| && band < bands
    requires pixtype.Some? ==> pixtype.value < |PixelSizes|
    requires BandStep(data, pos, band, width, height, pixtype) == Stop(e, at)
    ensures DecodeBands(data, pos, band, bands, width, height, pixtype, blocks) == Decoded(Err(e), at)
  {
  }

  /** A band that reads whole lets the band loop go on to the next one with its block stored. */
  lemma DecodeBandsNext(data: seq<byte>, pos: nat, band: nat, bands: nat, width: nat, height: nat,
                        pixtype: Option<nat>, blocks: seq<seq<byte>>, at: nat, code: nat, block: seq<byte>)
    requires pos <= |data| && band < bands
    requires pixtype.Some? ==> pixtype.value < |PixelSizes|
    requires BandStep(data, pos, band, width, height, pixtype) == Next(at, code, block)
    ensures DecodeBands(data, pos, band, bands, width, height, pixtype, blocks)
            == DecodeBands(data, at, band + 1, bands, width, height, Some(code), blocks + [block])
  {
  }

  /** Bytes whose header is a written header: the decoder reads it back and runs the band
      loop just after it. */
  lemma DecodeAfterEncodedHeader(data: seq<byte>, h: Header)
    requires HeaderFits(h) && 61 <= |data| && data[1..61] == EncodeHeader(h)
    ensures Decode(data, 0) == DecodeBands(data, 61, 0, h.bands, h.width, h.height, None, [])
  {
    ByteOrderAlwaysLittle(data[0]);
    ParseEncodedHeader(h);
    assert HeaderAt(data, 0) == h;
    DecodeAfterHeader(data, 0);
  }

  /** Bytes that start with a raster's flag byte, header and a run of well-formed bands of
      one pixel type: the decoder reaches the end of that run with the bands stored. */
  lemma DecodeEncodedPrefix(flag: byte, h: Header, good: seq<BandWire>, code: nat, rest: seq<byte>)
    requires HeaderFits(h) && |good| <= h.bands && code < |PixelSizes|
    requires forall k :: 0 <= k < |good| ==> WellFormedBand(good[k], code, h.width, h.height)
    ensures var data := EncodeRaster(flag, h, good) + rest;
            Decode(data, 0)
            == DecodeBands(data, |EncodeRaster(flag, h, good)|, |good|, h.bands, h.width, h.height,
                           if |good| == 0 then None else Some(code), Blocks(good))
  {
    var data := EncodeRaster(flag, h, good) + rest;
    var end := |EncodeRaster(flag, h, good)|;
    EncodedRasterSteps(flag, h, good, code, rest);
    DecodeAfterEncodedHeader(data, h);
    if good == [] {
      assert Blocks(good) == [] && end == 61;
    } else {
      assert [] + Blocks(good) == Blocks(good);
      DecodeEncodedBands(data, 61, 0, h.bands, h.width, h.height, code, None, [], good,
                         end, |good|, Blocks(good));
    }
  }

  /** Where a written raster puts its header and its bands. */
  lemma EncodedRasterSteps(flag: byte, h: Header, good: seq<BandWire>, code: nat, rest: seq<byte>)
    requires HeaderFits(h) && code < |PixelSizes|
    requires forall k :: 0 <= k < |good| ==> WellFormedBand(good[k], code, h.width, h.height)
    ensures var data := EncodeRaster(flag, h, good) + rest;
            && |EncodeRaster(flag, h, good)| == 61 + |EncodeBands(good)| <= |data|
            && data[1..61] == EncodeHeader(h)
            && StepsThrough(data, 61, 0, h.width, h.height, code, None, good)
  {
    var data := EncodeRaster(flag, h, good) + rest;
    var eh := EncodeHeader(h);
    var eb := EncodeBands(good);
    assert data == [flag] + eh + eb + rest;
    assert data[1..61] == eh;
    assert data[61..61 + |eb|] == eb;
    assert RunAt(data, 61, good, code, h.width, h.height);
    RunIsLaidOut(data, 61, good, code, h.width, h.height);
    EncodedStepsThrough(data, 61, 0, h.width, h.height, code, None, good);
  }

  /** Round trip: a raster written as `bands` well-formed bands of one pixel type decodes to
      the array of shape (height, width, bands) whose band `b` is band `b`'s pixel block, and
      the stream stops right after it; with no bands the result is None. Trailing bytes are
      not read. */
  lemma DecodeEncodedRaster(flag: byte, h: Header, bs: seq<BandWire>, code: nat, trailing: seq<byte>)
    requires HeaderFits(h) && |bs| == h.bands && code < |PixelSizes|
    requires forall k :: 0 <= k < |bs| ==> WellFormedBand(bs[k], code, h.width, h.height)
    ensures Decode(EncodeRaster(flag, h, bs) + trailing, 0)
            == Decoded(if |bs| == 0 then Ok(None)
                       else Ok(Some(Grid(h.height, h.width, h.bands, PixelDtypes[code], Blocks(bs)))),
                       |EncodeRaster(flag, h, bs)|)
  {
    DecodeEncodedPrefix(flag, h, bs, code, trailing);
  }

  /** Element (r, c) of band b of the decoded array is item `k` of band b's pixel block,
      read as the code's element type, where `k` counts the cells of the rows above and
      the `c` before it (`r*width + c`, by `CellsIsProduct`). */
  lemma BlocksLayout(bs: seq<BandWire>, code: nat, width: nat, height: nat, r: nat, c: nat, b: nat)
    requires code < |PixelSizes|
    requires forall k :: 0 <= k < |bs| ==> WellFormedBand(bs[k], code, width, height)
    requires r < height && c < width && b < |bs|
    ensures var g := Grid(height, width, |bs|, PixelDtypes[code], Blocks(bs));
            var s := ItemSize(PixelDtypes[code]);
            var k := Cells(r, width) + c;
            && g.Valid()
            && (k + 1) * s <= |bs[b].pixels|
            && g.At(r, c, b) == DecodeItem(PixelDtypes[code], bs[b].pixels[k * s..(k + 1) * s])
  {
    var s := ItemSize(PixelDtypes[code]);
    var k := Cells(r, width) + c;
    CellInPlane(r, c, height, width);
    ScaleIsProduct(k, s);
    ScaleIsProduct(k + 1, s);
    ScaleIsProduct(Cells(height, width), s);
    MulStep(k, Cells(height, width), s);
  }

  /** The 8-bit unsigned single-band raster the PostGIS query returns decodes to a
      one-band uint8 array holding its pixel bytes as they were written, whatever the
      band's other flag bits (a no-data flag, say) besides the offline bit. */
  lemma Decode8BUI(flag: byte, h: Header, bits: byte, nodata: byte, pixels: seq<byte>)
    requires HeaderFits(h) && h.bands == 1 && |pixels| == h.width * h.height
    requires !OfflineBit(bits) && PixelCode(bits) == 4
    ensures Decode(EncodeRaster(flag, h, [BandWire(bits, [nodata], pixels)]), 0)
            == Decoded(Ok(Some(Grid(h.height, h.width, 1, U1, [pixels]))),
                       |EncodeRaster(flag, h, [BandWire(bits, [nodata], pixels)])|)
    ensures Grid(h.height, h.width, 1, U1, [pixels]).Valid()
  {
    var bs := [BandWire(bits, [nodata], pixels)];
    CellsIsProduct(h.height, h.width);
    assert WellFormedBand(bs[0], 4, h.width, h.height);
    DecodeEncodedRaster(flag, h, bs, 4, []);
    assert EncodeRaster(flag, h, bs) + [] == EncodeRaster(flag, h, bs);
    assert Blocks(bs) == [pixels];
  }

  /** In a one-band uint8 array, cell (r, c) is the byte after the `Cells(r, width)` bytes
      of the rows above and the `c` before it in its row, read unsigned. */
  lemma U1GridAt(height: nat, width: nat, pixels: seq<byte>, r: nat, c: nat)
    requires Grid(height, width, 1, U1, [pixels]).Valid()
    requires r < height && c < width
    ensures Cells(r, width) + c < |pixels|
            && Grid(height, width, 1, U1, [pixels]).At(r, c, 0) == UInt(pixels[Cells(r, width) + c] as nat)
  {
    var k := Cells(r, width) + c;
    CellInPlane(r, c, height, width);
    assert Scale(k, ItemSize(U1)) == k && Scale(k + 1, ItemSize(U1)) == k + 1;
    assert pixels[k..k + 1] == [pixels[k]];
  }

  // ---------------------------------------------------------------------
  // The fatal and the raising cases

  /** A band stored out-of-line ends the run: after any run of accepted bands, a flag byte
      with bit 7 set yields the offline-band exit and no array. */
  lemma DecodeRejectsOfflineBand(flag: byte, h: Header, good: seq<BandWire>, code: nat, bits: byte, rest: seq<byte>)
    requires HeaderFits(h) && |good| < h.bands && code < |PixelSizes|
    requires forall k :: 0 <= k < |good| ==> WellFormedBand(good[k], code, h.width, h.height)
    requires OfflineBit(bits)
    ensures Decode(EncodeRaster(flag, h, good) + ([bits] + rest), 0).result == Err(OfflineBand)
  {
    DecodeEncodedPrefix(flag, h, good, code, [bits] + rest);
    var data := EncodeRaster(flag, h, good) + ([bits] + rest);
    assert data[|EncodeRaster(flag, h, good)|] == bits;
  }

  /** Every band after the first must carry band 0's pixel-type code; a band with another
      (known) code yields the mixed-type exit. */
  lemma DecodeRejectsMixedPixelType(flag: byte, h: Header, good: seq<BandWire>, code: nat, bits: byte, rest: seq<byte>)
    requires HeaderFits(h) && 0 < |good| < h.bands && code < |PixelSizes|
    requires forall k :: 0 <= k < |good| ==> WellFormedBand(good[k], code, h.width, h.height)
    requires !OfflineBit(bits) && PixelCode(bits) < |PixelSizes| && PixelCode(bits) != code
    ensures Decode(EncodeRaster(flag, h, good) + ([bits] + rest), 0).result == Err(MixedPixelType)
  {
    DecodeEncodedPrefix(flag, h, good, code, [bits] + rest);
    var data := EncodeRaster(flag, h, good) + ([bits] + rest);
    assert data[|EncodeRaster(flag, h, good)|] == bits;
  }

  /** Codes 11 to 15 lie outside the 11-entry tables: the lookup raises, which is an
      ordinary exception rather than an exit. */
  lemma DecodeRejectsUnknownPixelType(flag: byte, h: Header, good: seq<BandWire>, code: nat, bits: byte, rest: seq<byte>)
    requires HeaderFits(h) && |good| < h.bands && code < |PixelSizes|
    requires forall k :: 0 <= k < |good| ==> WellFormedBand(good[k], code, h.width, h.height)
    requires !OfflineBit(bits) && PixelCode(bits) >= |PixelSizes|
    ensures Decode(EncodeRaster(flag, h, good) + ([bits] + rest), 0).result
            == Err(UnknownPixelType(PixelCode(bits)))
  {
    DecodeEncodedPrefix(flag, h, good, code, [bits] + rest);
    var data := EncodeRaster(flag, h, good) + ([bits] + rest);
    assert data[|EncodeRaster(flag, h, good)|] == bits;
  }

  /** A pixel block cut short by the end of the data raises (numpy's buffer check). */
  lemma DecodeRejectsShortBlock(flag: byte, h: Header, good: seq<BandWire>, code: nat, last: BandWire)
    requires HeaderFits(h) && |good| < h.bands && code < |PixelSizes|
    requires forall k :: 0 <= k < |good| ==> WellFormedBand(good[k], code, h.width, h.height)
    requires !OfflineBit(last.flags) && PixelCode(last.flags) == code
    requires |last.nodata| == PixelSizes[code] && |last.pixels| < h.width * h.height * PixelSizes[code]
    ensures Decode(EncodeRaster(flag, h, good) + EncodeBand(last), 0).result == Err(Truncated)
  {
    TablesAgree(code);
    CellsIsProduct(h.height, h.width);
    ScaleIsProduct(Cells(h.height, h.width), PixelSizes[code]);
    DecodeEncodedPrefix(flag, h, good, code, EncodeBand(last));
    var data := EncodeRaster(flag, h, good) + EncodeBand(last);
    var p := |EncodeRaster(flag, h, good)|;
    assert data[p] == last.flags;
    assert |data| == p + 1 + PixelSizes[code] + |last.pixels|;
  }

  /** Fewer than the 61 bytes of flag and header raise before any band is read. */
  lemma DecodeRejectsShortHeader(data: seq<byte>, start: nat)
    requires start <= |data| < start + 61
    ensures Decode(data, start) == Decoded(Err(Truncated), |data|)
  {
  }
}
