/** The decoder object of src/PNGDecoder.ts: it reads the signature and
    the chunks through its cursor, collects the header fields and the
    compressed data, splits the inflated data into scanlines, reverses
    their filters in place and fills an image row by row.

    DEFLATE decompression (`pako.inflate`) is a parameter of `DecodeBitmap`. */
module Decoder {
  import opened Common
  import Cursor
  import opened Chunks
  import opened Scanlines
  import PixelGrid

  /** The bytes of each row, present in the image's row list. */
  function Present(rows: seq<seq<byte>>): (r: PixelGrid.Rows)
    ensures |r| == |rows|
  {
    seq(|rows|, i requires 0 <= i < |rows| => Some(rows[i]))
  }

  /** The scanlines after reconstruction: filter bytes kept, bytes replaced. */
  function WithData(rows: seq<Scanline>, data: seq<seq<byte>>): (r: seq<Scanline>)
    requires |rows| == |data|
    ensures |r| == |rows|
  {
    seq(|rows|, i requires 0 <= i < |rows| => Scanline(rows[i].filter, data[i]))
  }

  /** All scanlines have the length of the first, which `unfilter` uses
      for every row. */
  ghost predicate Uniform(rows: seq<Scanline>)
  {
    forall i :: 0 <= i < |rows| ==> |rows[i].data| == |rows[0].data|
  }

  /** Which read of `decodeBitmapSimple` fails when `available` bytes hold
      fewer than the rows asked for, each of `size + 1` bytes: the filter
      byte read if the bytes end on a row boundary, the row read otherwise. */
  function ShortRowError(available: nat, size: nat): Error
    decreases available
  {
    if available == 0 then NoMoreData
    else if available <= size then NotEnoughData
    else ShortRowError(available - (size + 1), size)
  }

  /** Bytes per row for a header, when its colour type is supported. */
  function RowSize(h: Header): (size: nat)
    requires 0 <= h.width && Channels(h.colorType).Ok?
  {
    var c := Channels(h.colorType).value;
    ScanlineSizeIsCeiling(h.width, c, h.bitDepth);
    ScanlineSize(h.width, c, h.bitDepth)
  }

  function PixelSize(h: Header): nat
    requires Channels(h.colorType).Ok?
  {
    BytesPerPixel(h.bitDepth, Channels(h.colorType).value)
  }

  /** The scanlines `decodeBitmapSimple` reads from the inflated bytes:
      `height` rows, each a filter byte and `RowSize` bytes, and any bytes
      after them ignored. */
  function SplitRows(h: Header, raw: seq<byte>): (r: Result<seq<Scanline>>)
    requires 0 <= h.width
    ensures r.Ok? <==> h.height <= 0 ||
                       (0 < |raw| && Channels(h.colorType).Ok? && h.height * (RowSize(h) + 1) <= |raw|)
    ensures r.Ok? && 0 < h.height ==> r.value == RowsOf(raw, h.height, RowSize(h))
    ensures r.Ok? && h.height <= 0 ==> r.value == []
    ensures 0 < h.height && |raw| == 0 ==> r == Err(NoMoreData)
    ensures r.Err? && Channels(h.colorType).Ok? ==> r.error == ShortRowError(|raw|, RowSize(h))
  {
    if h.height <= 0 then Ok([])
    else if |raw| == 0 then Err(NoMoreData)
    else
      match Channels(h.colorType)
      case Err(e) => Err(e)
      case Ok(_) =>
        if h.height * (RowSize(h) + 1) <= |raw| then Ok(RowsOf(raw, h.height, RowSize(h)))
        else Err(ShortRowError(|raw|, RowSize(h)))
  }

  /** The scanlines after `unfilter` and the rows of the image it fills. */
  datatype Picture = Picture(scanlines: seq<Scanline>, rows: seq<seq<byte>>)

  /** What `decodeBitmapSimple` produces from the inflated bytes. */
  function DecodeRows(h: Header, raw: seq<byte>): (r: Result<Picture>)
    requires 0 <= h.width
    ensures r.Ok? ==> 0 < h.height && Channels(h.colorType).Ok? && |r.value.rows| == h.height &&
                      h.height * (RowSize(h) + 1) <= |raw|
    ensures r.Ok? ==> r.value.rows == UnfilterRows(RowsOf(raw, h.height, RowSize(h)), PixelSize(h))
    ensures r.Ok? ==> r.value.scanlines == WithData(RowsOf(raw, h.height, RowSize(h)), r.value.rows)
    ensures h.height <= 0 ==> r == Err(NoScanlines)
  {
    match SplitRows(h, raw)
    case Err(e) => Err(e)
    case Ok(rows) =>
      if |rows| == 0 then Err(NoScanlines)
      else
        var recon := UnfilterRows(rows, PixelSize(h));
        Ok(Picture(WithData(rows, recon), recon))
  }

  /** Decoding inverts encoding: rows filtered with any filter choices and
      serialized, followed by any bytes, decode to the original rows. */
  lemma DecodeEncodedRows(h: Header, filters: seq<byte>, pixels: seq<seq<byte>>, tail: seq<byte>)
    requires 0 <= h.width && 0 < h.height && Channels(h.colorType).Ok? && 0 < PixelSize(h)
    requires |filters| == |pixels| == h.height
    requires forall i :: 0 <= i < |pixels| ==> |pixels[i]| == RowSize(h)
    ensures var r := DecodeRows(h, Serialize(EncodeRows(filters, pixels, PixelSize(h))) + tail);
            r.Ok? && r.value.rows == pixels
  {
    var size := RowSize(h);
    var rows := EncodeRows(filters, pixels, PixelSize(h));
    var raw := Serialize(rows) + tail;
    SerializeLength(rows, size);
    RowsOfSerialize(rows, size, tail);
    assert 0 < |raw| && h.height * (size + 1) <= |raw|;
    assert SplitRows(h, raw) == Ok(rows);
    UnfilterRowsInvertsEncode(filters, pixels, PixelSize(h));
    assert DecodeRows(h, raw).value.rows == UnfilterRows(rows, PixelSize(h));
  }

  /** After `i` whole rows, the bytes left decide the failing read. */
  lemma {:induction false} ShortRowAfterRows(i: nat, size: nat, rem: nat)
    requires rem <= size
    ensures ShortRowError(i * (size + 1) + rem, size) == if rem == 0 then NoMoreData else NotEnoughData
    decreases i
  {
    if i > 0 {
      assert i * (size + 1) + rem - (size + 1) == (i - 1) * (size + 1) + rem;
      ShortRowAfterRows(i - 1, size, rem);
    }
  }

  lemma RowsOfStep(data: seq<byte>, i: nat, size: nat)
    requires (i + 1) * (size + 1) <= |data|
    ensures i * (size + 1) + size + 1 == (i + 1) * (size + 1)
    ensures RowsOf(data, i + 1, size) ==
            RowsOf(data, i, size) + [Scanline(data[i * (size + 1)], data[i * (size + 1) + 1 .. (i + 1) * (size + 1)])]
  {
    RowBounds(i, i + 1, size);
    assert i * (size + 1) <= (i + 1) * (size + 1);
  }

  /** Split rows all have the requested size. */
  lemma RowsOfUniform(data: seq<byte>, count: nat, size: nat)
    requires count * (size + 1) <= |data|
    ensures forall i :: 0 <= i < count ==> |RowsOf(data, count, size)[i].data| == size
    ensures Uniform(RowsOf(data, count, size))
  {
    forall i | 0 <= i < count ensures |RowsOf(data, count, size)[i].data| == size {
      RowBounds(i, count, size);
    }
  }

  /** When the inflated bytes end `rem` bytes into row `i`, short of the
      rows the header asks for, the split fails with the error of the read
      that runs out. */
  lemma SplitRowsShort(h: Header, raw: seq<byte>, i: nat, rem: nat)
    requires 0 <= h.width && Channels(h.colorType).Ok? && i < h.height
    requires rem <= RowSize(h) && |raw| == i * (RowSize(h) + 1) + rem
    ensures SplitRows(h, raw) == Err(if rem == 0 then NoMoreData else NotEnoughData)
  {
    RowBounds(i, h.height, RowSize(h));
    ShortRowAfterRows(i, RowSize(h), rem);
  }

  class PNGDecoder {
    var streamer: Cursor.Streamer
    var height: int
    var width: int
    var bitDepth: byte
    var colorType: byte
    var compressionMethod: byte
    var filterMethod: byte
    var interlaceMethod: byte
    var compressedData: Option<seq<byte>>
    var scanlines: seq<Scanline>
    var image: PixelGrid.Image?

    /** The fields that chunks update. */
    function Fields(): State
      reads this
    {
      State(Header(width, height, bitDepth, colorType, compressionMethod, filterMethod, interlaceMethod),
            compressedData)
    }

    /** A decoder over `data` with every field at its initial value; the
        signature is checked by `Open`. */
    constructor (data: seq<byte>)
      ensures fresh(streamer) && streamer.data == data
      ensures Fields() == State(INITIAL_HEADER, None)
      ensures scanlines == [] && image == null
    {
      streamer := new Cursor.Streamer(data);
      height, width := 0, 0;
      bitDepth, colorType, compressionMethod, filterMethod, interlaceMethod := 0, 0, 0, 0, 0;
      compressedData := None;
      scanlines := [];
      image := null;
    }

    /** `new PNGDecoder(data)`: construction followed by the signature check. */
    static method Open(data: seq<byte>) returns (d: PNGDecoder, r: Result<()>)
      ensures fresh(d) && fresh(d.streamer)
      ensures r == SignatureCheck(data)
      ensures d.streamer.data == data[SignatureConsumed(data)..]
      ensures d.Fields() == State(INITIAL_HEADER, None) && d.scanlines == [] && d.image == null
    {
      d := new PNGDecoder(data);
      r := d.ValidateHeader();
    }

    /** Reads the eight signature bytes one at a time, stopping at the first
        wrong one. */
    method ValidateHeader() returns (r: Result<()>)
      modifies streamer
      ensures r == SignatureCheck(old(streamer.data))
      ensures streamer.data == old(streamer.data)[SignatureConsumed(old(streamer.data))..]
    {
      ghost var data := streamer.data;
      var i := 0;
      while i < |SIGNATURE|
        invariant 0 <= i <= 8 && i <= |data|
        invariant data[..i] == SIGNATURE[..i]
        invariant streamer.data == data[i..]
      {
        var b := streamer.Read();
        if b.Err? {
          MatchedPrefixFrom(data, 0, i);
          MatchedPrefixMeaning(data, 0);
          return Err(b.error);
        }
        if b.value != SIGNATURE[i] {
          MatchedPrefixFrom(data, 0, i);
          MatchedPrefixMeaning(data, 0);
          return Err(CorruptedHeader);
        }
        assert data[..i + 1] == data[..i] + [data[i]];
        assert SIGNATURE[..i + 1] == SIGNATURE[..i] + [SIGNATURE[i]];
        i := i + 1;
      }
      MatchedPrefixMeaning(data, 0);
      return Ok(());
    }

    /** Reads chunks until the cursor is empty. */
    method DecodeChunks() returns (r: Result<()>)
      modifies this, streamer
      ensures streamer == old(streamer) && scanlines == old(scanlines) && image == old(image)
      ensures match ParseChunks(old(Fields()), old(streamer.data))
              case Ok(st) => r == Ok(()) && Fields() == st && streamer.data == []
              case Err(e) => r == Err(e)
    {
      while !streamer.AtEnd()
        invariant streamer == old(streamer) && scanlines == old(scanlines) && image == old(image)
        invariant ParseChunks(Fields(), streamer.data) == ParseChunks(old(Fields()), old(streamer.data))
        decreases |streamer.data|
      {
        r := ProcessChunks();
        if r.Err? {
          return;
        }
      }
      return Ok(());
    }

    /** Reads one chunk and hands its payload to the handler for its type. */
    method ProcessChunks() returns (r: Result<()>)
      modifies this, streamer
      ensures streamer == old(streamer) && scanlines == old(scanlines) && image == old(image)
      ensures match ReadChunk(old(streamer.data))
              case Err(e) => r == Err(e) && Fields() == old(Fields())
              case Ok(f) =>
                streamer.data == f.rest && Fields() == ChunkEffect(old(Fields()), f.chunk) &&
                r == (match ChunkError(f.chunk) case Some(e) => Err(e) case None => Ok(()))
    {
      ghost var data := streamer.data;
      var chunkSize := streamer.ReadInt32();
      if chunkSize.Err? {
        return Err(chunkSize.error);
      }
      var chunkType := streamer.ReadString(4);
      if chunkType.Err? {
        return Err(chunkType.error);
      }
      var chunkData := streamer.ReadBytes(chunkSize.value);
      if chunkData.Err? {
        return Err(chunkData.error);
      }
      var chunkCrc := streamer.ReadInt32();
      if chunkCrc.Err? {
        return Err(chunkCrc.error);
      }
      assert data[4..][4..] == data[8..];
      if chunkType.value == IHDR {
        r := ProcessIHDR(chunkData.value);
      } else if chunkType.value == IDAT {
        ProcessIDAT(chunkData.value);
        r := Ok(());
      } else {
        // tEXt, zTXt and tIME only log; IEND and unknown types do nothing.
        r := Ok(());
      }
    }

    /** Appends an IDAT payload to the compressed data. */
    method ProcessIDAT(payload: seq<byte>)
      modifies this
      ensures compressedData == AppendIDAT(old(compressedData), payload)
      ensures Fields().header == old(Fields()).header
      ensures streamer == old(streamer) && scanlines == old(scanlines) && image == old(image)
    {
      if compressedData.None? {
        compressedData := Some(payload);
        return;
      }
      var merged := compressedData.value + payload;
      compressedData := Some(merged);
    }

    /** Sets the header fields from an IHDR payload, reading it with a
        cursor of its own. */
    method ProcessIHDR(payload: seq<byte>) returns (r: Result<()>)
      modifies this
      ensures Fields().header == IHDRUpdate(old(Fields()).header, payload)
      ensures compressedData == old(compressedData)
      ensures r == (match IHDRError(payload) case Some(e) => Err(e) case None => Ok(()))
      ensures streamer == old(streamer) && scanlines == old(scanlines) && image == old(image)
    {
      var s := new Cursor.Streamer(payload);
      var w := s.ReadInt32();
      if w.Err? {
        return Err(w.error);
      }
      width := w.value;
      var h := s.ReadInt32();
      if h.Err? {
        return Err(h.error);
      }
      assert payload[4..][..4] == payload[4..8];
      height := h.value;
      r := ReadByteFields(s, payload);
    }

    /** The rest of `processIHDR`: the five one-byte fields, read in order
        from `s`, which holds the payload after its first eight bytes. */
    method ReadByteFields(s: Cursor.Streamer, payload: seq<byte>) returns (r: Result<()>)
      requires 8 <= |payload| && s.data == payload[8..]
      modifies this, s
      ensures width == old(width) && height == old(height)
      ensures bitDepth == if |payload| < 9 then old(bitDepth) else payload[8]
      ensures colorType == if |payload| < 10 then old(colorType) else payload[9]
      ensures compressionMethod == if |payload| < 11 then old(compressionMethod) else payload[10]
      ensures filterMethod == if |payload| < 12 then old(filterMethod) else payload[11]
      ensures interlaceMethod == if |payload| < 13 then old(interlaceMethod) else payload[12]
      ensures compressedData == old(compressedData)
      ensures r == if 13 <= |payload| then Ok(()) else Err(NoMoreData)
      ensures streamer == old(streamer) && scanlines == old(scanlines) && image == old(image)
    {
      var b := s.Read();
      if b.Err? {
        return Err(b.error);
      }
      bitDepth := b.value;
      assert s.data == payload[9..];
      b := s.Read();
      if b.Err? {
        return Err(b.error);
      }
      colorType := b.value;
      assert s.data == payload[10..];
      b := s.Read();
      if b.Err? {
        return Err(b.error);
      }
      compressionMethod := b.value;
      assert s.data == payload[11..];
      b := s.Read();
      if b.Err? {
        return Err(b.error);
      }
      filterMethod := b.value;
      assert s.data == payload[12..];
      b := s.Read();
      if b.Err? {
        return Err(b.error);
      }
      interlaceMethod := b.value;
      return Ok(());
    }

    /** `computeScanlineSizeForWidth`: fails through `channels` on an
        unsupported colour type. */
    function ComputeScanlineSizeForWidth(w: int): (r: Result<int>)
      reads this
      ensures r.Ok? <==> colorType == 2 || colorType == 6
      ensures r.Err? ==> r.error == UnsupportedColorType(colorType)
      ensures r.Ok? && 0 <= w ==>
                0 <= r.value && w * Channels(colorType).value * bitDepth <= 8 * r.value <
                                w * Channels(colorType).value * bitDepth + 8
      ensures r.Ok? && w == 0 ==> r.value == 0
    {
      match Channels(colorType)
      case Err(e) => Err(e)
      case Ok(c) =>
        ScanlineSizeIsCeiling(if 0 <= w then w else 0, c, bitDepth);
        Ok(ScanlineSize(w, c, bitDepth))
    }

    /** Inflates the compressed data and decodes it; interlaced images are
        refused after inflating and before any row is read. */
    method DecodeBitmap(inflate: Option<seq<byte>> -> Result<seq<byte>>) returns (r: Result<()>)
      requires scanlines == []
      requires ParseChunks(Fields(), streamer.data).Ok? ==> 0 <= ParseChunks(Fields(), streamer.data).value.header.width
      modifies this, streamer
      ensures streamer == old(streamer)
      ensures match ParseChunks(old(Fields()), old(streamer.data))
              case Err(e) => r == Err(e)
              case Ok(st) =>
                Fields() == st && streamer.data == [] &&
                match inflate(st.compressed)
                case Err(e) => r == Err(e) && scanlines == [] && image == old(image)
                case Ok(raw) =>
                  if st.header.interlaceMethod != 0 then
                    r == Err(Adam7Unsupported) && scanlines == [] && image == old(image)
                  else
                    match DecodeRows(st.header, raw)
                    case Err(e) => r == Err(e)
                    case Ok(pic) =>
                      r == Ok(()) && scanlines == pic.scanlines && image != null &&
                      image.height == st.header.height && image.width == st.header.width &&
                      image.data == Present(pic.rows)
    {
      r := DecodeChunks();
      if r.Err? {
        return;
      }
      var decompressed := inflate(compressedData);
      if decompressed.Err? {
        return Err(decompressed.error);
      }
      if interlaceMethod == 0 {
        r := DecodeBitmapSimple(decompressed.value);
      } else {
        return Err(Adam7Unsupported);
      }
    }

    /** Splits the inflated bytes into `height` scanlines, creates the image
        and reconstructs the rows into it. */
    method DecodeBitmapSimple(raw: seq<byte>) returns (r: Result<()>)
      requires 0 <= width && scanlines == []
      modifies this
      ensures Fields() == old(Fields()) && streamer == old(streamer)
      ensures match DecodeRows(old(Fields()).header, raw)
              case Err(e) => r == Err(e)
              case Ok(pic) =>
                r == Ok(()) && scanlines == pic.scanlines && image != null && fresh(image) &&
                image.height == height && image.width == width && image.data == Present(pic.rows)
    {
      r := ReadScanlines(raw);
      if r.Err? {
        return;
      }
      ghost var h := Fields().header;
      if 0 < height {
        RowsOfUniform(raw, height, RowSize(h));
      }
      image := new PixelGrid.Image(height, width, None);
      r := Unfilter();
    }

    /** The loop of `decodeBitmapSimple`: one filter byte and one row of
        `computeScanlineSizeForWidth(width)` bytes per scanline, `height`
        times, pushed onto `scanlines`. */
    method ReadScanlines(raw: seq<byte>) returns (r: Result<()>)
      requires 0 <= width && scanlines == []
      modifies this
      ensures Fields() == old(Fields()) && streamer == old(streamer) && image == old(image)
      ensures match SplitRows(old(Fields()).header, raw)
              case Err(e) => r == Err(e)
              case Ok(rows) => r == Ok(()) && scanlines == rows
    {
      ghost var h := Fields().header;
      var s := new Cursor.Streamer(raw);
      var i := 0;
      while i < height
        invariant Fields() == old(Fields()) && streamer == old(streamer) && image == old(image)
        invariant 0 <= i && (i == 0 || i <= height)
        invariant i == 0 ==> s.data == raw && scanlines == []
        invariant 0 < i ==> Channels(colorType).Ok? && 0 < |raw| &&
                            i * (RowSize(h) + 1) <= |raw| &&
                            s.data == raw[i * (RowSize(h) + 1)..] &&
                            scanlines == RowsOf(raw, i, RowSize(h))
      {
        var filter := s.Read();
        if filter.Err? {
          if 0 < i {
            SplitRowsShort(h, raw, i, 0);
          }
          return Err(filter.error);
        }
        var scanlineSize := ComputeScanlineSizeForWidth(width);
        if scanlineSize.Err? {
          return Err(scanlineSize.error);
        }
        ghost var size := RowSize(h);
        ghost var start := i * (size + 1);
        assert s.data == raw[start + 1..];
        var data := s.ReadBytes(scanlineSize.value);
        if data.Err? {
          SplitRowsShort(h, raw, i, |raw| - start);
          return Err(data.error);
        }
        RowBounds(i, i + 1, size);
        assert (i + 1) * (size + 1) <= |raw|;
        RowsOfStep(raw, i, size);
        assert data.value == raw[start + 1..(i + 1) * (size + 1)];
        scanlines := scanlines + [Scanline(filter.value, data.value)];
        i := i + 1;
      }
      return Ok(());
    }

    /** One scanline's bytes copied into a buffer of `bytesPerScanline`
        bytes, whose filter is reversed in place. */
    static method ReconstructRow(scanline: Scanline, prior: seq<byte>, bytesPerScanline: nat, bpp: nat)
      returns (row: seq<byte>)
      requires |scanline.data| == bytesPerScanline
      ensures row == Scanlines.Unfilter(scanline.filter, scanline.data, prior, bpp)
    {
      var buffer := new byte[bytesPerScanline](k requires 0 <= k < bytesPerScanline => scanline.data[k]);
      assert buffer[..] == scanline.data;
      UnfilterInPlace(buffer, scanline.filter, prior, bpp);
      row := buffer[..];
    }

    /** Reverses each scanline's filter in place, top to bottom, against the
        already reconstructed scanline above, and adds each reconstructed row
        to the image. */
    method Unfilter() returns (r: Result<()>)
      requires image != null && Uniform(scanlines)
      requires image.data == [] && (scanlines == [] || |scanlines| <= image.height)
      modifies this, image
      ensures Fields() == old(Fields()) && streamer == old(streamer) && image == old(image)
      ensures image.height == old(image.height) && image.width == old(image.width)
      ensures old(scanlines) == [] ==> r == Err(NoScanlines) && scanlines == old(scanlines) && image.data == []
      ensures old(scanlines) != [] && Channels(colorType).Err? ==>
                r == Err(Channels(colorType).error) && scanlines == old(scanlines) && image.data == []
      ensures old(scanlines) != [] && Channels(colorType).Ok? ==>
                var rows := UnfilterRows(old(scanlines), BytesPerPixel(bitDepth, Channels(colorType).value));
                r == Ok(()) && scanlines == WithData(old(scanlines), rows) && image.data == Present(rows)
    {
      if |scanlines| == 0 {
        return Err(NoScanlines);
      }
      var bytesPerScanline := |scanlines[0].data|;
      var channels := Channels(colorType);
      if channels.Err? {
        return Err(channels.error);
      }
      var bytesPerCompletePixel := BytesPerPixel(bitDepth, channels.value);
      ghost var original := scanlines;
      ghost var rows := UnfilterRows(original, bytesPerCompletePixel);
      // The scanlines are updated in a local copy, adopted after the loop;
      // nothing reads the field in between.
      var lines := scanlines;
      var target := image;
      var i := 0;
      while i < |lines|
        modifies target
        invariant target.height == old(image.height) && target.width == old(image.width)
        invariant |lines| == |original| && 0 <= i <= |original|
        invariant forall k :: 0 <= k < i ==> lines[k] == Scanline(original[k].filter, rows[k])
        invariant forall k :: i <= k < |original| ==> lines[k] == original[k]
        invariant |target.data| == i
        invariant forall k :: 0 <= k < i ==> target.data[k] == Some(rows[k])
      {
        var scanline := lines[i];
        var prior := if i > 0 then lines[i - 1].data else [];
        var row := ReconstructRow(scanline, prior, bytesPerScanline, bytesPerCompletePixel);
        UnfilterRowsAt(original, bytesPerCompletePixel, i);
        assert row == rows[i];
        lines := lines[i := Scanline(scanline.filter, row)];
        var added := target.AddRow(row);
        i := i + 1;
      }
      scanlines := lines;
      assert scanlines == WithData(original, rows);
      assert image.data == Present(rows);
      return Ok(());
    }
  }
}
