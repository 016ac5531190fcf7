/** The pixel grid of src/Image.ts: rows of bytes, three bytes per pixel,
    with bounds-checked pixel access and nearest-neighbour resizing.

    The grid's rows live in a JavaScript array, which can have holes
    (`setPixel` on a row past the end); a hole is `None`. Reading a byte
    past the end of a row yields `undefined`, modelled as `Undefined`. */
module PixelGrid {
  import opened Common

  /** A JavaScript number (integers only) or `undefined`. */
  datatype Channel = Num(n: int) | Undefined

  datatype Pixel = Pixel(r: Channel, g: Channel, b: Channel)

  type Rows = seq<Option<seq<byte>>>

  /** What storing a channel into a `Uint8Array` keeps: the value modulo 256,
      and 0 for `undefined`. */
  function ToUint8(c: Channel): byte
  {
    match c
    case Num(n) => n % 256
    case Undefined => 0
  }

  function ChannelAt(row: seq<byte>, k: nat): Channel
  {
    if k < |row| then Num(row[k]) else Undefined
  }

  function ChannelOf(p: Pixel, c: nat): Channel
  {
    if c == 0 then p.r else if c == 1 then p.g else p.b
  }

  /** `getPixel` as written: both coordinates are checked against the width. */
  function PixelAt(rows: Rows, width: int, x: nat, y: nat): (r: Result<Pixel>)
    ensures r.Ok? <==> x < width && y < width && y < |rows| && rows[y].Some?
    ensures r.Err? ==> r.error == (if x >= width then XOutOfRange(x)
                                   else if y >= width then YOutOfRange(y)
                                   else MissingRow(y))
    ensures r.Ok? ==> r.value.r == ChannelAt(rows[y].value, 3 * x) &&
                      r.value.g == ChannelAt(rows[y].value, 3 * x + 1) &&
                      r.value.b == ChannelAt(rows[y].value, 3 * x + 2)
  {
    if x >= width then Err(XOutOfRange(x))
    else if y >= width then Err(YOutOfRange(y))
    else if y >= |rows| || rows[y].None? then Err(MissingRow(y))
    else
      var row := rows[y].value;
      Ok(Pixel(ChannelAt(row, 3 * x), ChannelAt(row, 3 * x + 1), ChannelAt(row, 3 * x + 2)))
  }

  /** `getPixel` with the row checked against the height, as the image's
      shape intends. */
  function PixelAtChecked(rows: Rows, height: int, width: int, x: nat, y: nat): (r: Result<Pixel>)
  {
    if x >= width then Err(XOutOfRange(x))
    else if y >= height then Err(YOutOfRange(y))
    else if y >= |rows| || rows[y].None? then Err(MissingRow(y))
    else
      var row := rows[y].value;
      Ok(Pixel(ChannelAt(row, 3 * x), ChannelAt(row, 3 * x + 1), ChannelAt(row, 3 * x + 2)))
  }

  /** Every row present and `3 * width` bytes long, `height` rows in all. */
  ghost predicate Complete(rows: Rows, height: int, width: int)
  {
    |rows| == height &&
    forall y :: 0 <= y < |rows| ==> rows[y].Some? && |rows[y].value| == 3 * width
  }

  /** In a complete grid, the checked lookup succeeds exactly inside the
      grid and yields three defined bytes there. */
  lemma CheckedLookupInsideGrid(rows: Rows, height: int, width: int, x: nat, y: nat)
    requires Complete(rows, height, width)
    ensures PixelAtChecked(rows, height, width, x, y).Ok? <==> x < width && y < height
    ensures x < width && y < height ==>
              var p := PixelAtChecked(rows, height, width, x, y).value;
              p == Pixel(Num(rows[y].value[3 * x]), Num(rows[y].value[3 * x + 1]), Num(rows[y].value[3 * x + 2]))
  {
  }

  /** Wherever the lookup as written succeeds inside the grid, the checked
      lookup gives the same pixel. */
  lemma CheckedAgrees(rows: Rows, height: int, width: int, x: nat, y: nat)
    requires PixelAt(rows, width, x, y).Ok? && y < height
    ensures PixelAtChecked(rows, height, width, x, y) == PixelAt(rows, width, x, y)
  {
  }

  /** A grid two rows high and one pixel wide: its second row is inside the
      grid, yet `getPixel` as written rejects it because 1 is not below the
      width. */
  lemma TallGridRowRejected()
    ensures var rows: Rows := [Some([1, 2, 3]), Some([4, 5, 6])];
            Complete(rows, 2, 1) &&
            PixelAt(rows, 1, 0, 1) == Err(YOutOfRange(1)) &&
            PixelAtChecked(rows, 2, 1, 0, 1) == Ok(Pixel(Num(4), Num(5), Num(6)))
  {
  }

  /** Writing into a `Uint8Array` past its end has no effect. */
  function Put(row: seq<byte>, k: nat, v: byte): (r: seq<byte>)
    ensures |r| == |row|
  {
    if k < |row| then row[k := v] else row
  }

  /** The three bytes of pixel `x` set to the pixel's channels. */
  function Paint(row: seq<byte>, x: nat, p: Pixel): (r: seq<byte>)
    ensures |r| == |row|
  {
    Put(Put(Put(row, 3 * x, ToUint8(p.r)), 3 * x + 1, ToUint8(p.g)), 3 * x + 2, ToUint8(p.b))
  }

  function Zeros(n: nat): (r: seq<byte>)
    ensures |r| == n
  {
    seq(n, _ => 0)
  }

  /** Assignment `rows[y] = row` on a JavaScript array: past the end, the
      array grows and the slots in between are holes. */
  function SetRow(rows: Rows, y: nat, row: seq<byte>): (r: Rows)
  {
    if y < |rows| then rows[y := Some(row)]
    else rows + seq(y - |rows|, _ => None) + [Some(row)]
  }

  /** The row `setPixel` writes into: row `y` if present, else a fresh row
      of `3 * width` zero bytes. */
  function BaseRow(rows: Rows, width: int, y: nat): seq<byte>
  {
    if y < |rows| && rows[y].Some? then rows[y].value
    else if 0 <= width then Zeros(width * 3) else []
  }

  /** The grid after `setPixel(x, y, p)`. */
  function StorePixel(rows: Rows, width: int, x: nat, y: nat, p: Pixel): (r: Result<Rows>)
    ensures r.Ok? <==> x < width && y < width
    ensures r.Err? ==> r.error == (if x >= width then XOutOfRange(x) else YOutOfRange(y))
    ensures r.Ok? ==> |r.value| == (if y < |rows| then |rows| else y + 1)
    ensures r.Ok? ==> forall i :: 0 <= i < |r.value| && i != y ==>
                        r.value[i] == (if i < |rows| then rows[i] else None)
    ensures r.Ok? ==>
              var base := BaseRow(rows, width, y);
              r.value[y].Some? && |r.value[y].value| == |base| &&
              (forall k :: 0 <= k < |base| && (k < 3 * x || 3 * x + 2 < k) ==> r.value[y].value[k] == base[k]) &&
              (3 * x + 2 < |base| ==>
                 r.value[y].value[3 * x] == ToUint8(p.r) &&
                 r.value[y].value[3 * x + 1] == ToUint8(p.g) &&
                 r.value[y].value[3 * x + 2] == ToUint8(p.b))
  {
    if x >= width then Err(XOutOfRange(x))
    else if y >= width then Err(YOutOfRange(y))
    else
      Ok(SetRow(rows, y, Paint(BaseRow(rows, width, y), x, p)))
  }

  /** `setPixel` with the row checked against the height, as the image's
      shape intends. */
  function StorePixelChecked(rows: Rows, height: int, width: int, x: nat, y: nat, p: Pixel): (r: Result<Rows>)
    ensures r.Ok? <==> x < width && y < height
    ensures r.Err? ==> r.error == (if x >= width then XOutOfRange(x) else YOutOfRange(y))
  {
    if x >= width then Err(XOutOfRange(x))
    else if y >= height then Err(YOutOfRange(y))
    else Ok(SetRow(rows, y, Paint(BaseRow(rows, width, y), x, p)))
  }

  /** Inside a grid no taller than it is wide, the checked store writes
      what the store as written writes. */
  lemma CheckedStoreAgrees(rows: Rows, height: int, width: int, x: nat, y: nat, p: Pixel)
    requires y < height <= width
    ensures StorePixelChecked(rows, height, width, x, y, p) == StorePixel(rows, width, x, y, p)
  {
  }

  /** The same grid two rows high and one pixel wide: `setPixel` as written
      refuses to write its second row, the checked store writes it. */
  lemma TallGridRowNotWritable(p: Pixel)
    ensures var rows: Rows := [Some([1, 2, 3]), Some([4, 5, 6])];
            Complete(rows, 2, 1) &&
            StorePixel(rows, 1, 0, 1, p) == Err(YOutOfRange(1)) &&
            StorePixelChecked(rows, 2, 1, 0, 1, p).Ok?
  {
  }

  /** Reading a pixel right after writing it gives back the pixel written,
      for byte-valued channels and a row long enough to hold it (a row that
      `setPixel` creates always is). */
  lemma GetAfterSet(rows: Rows, width: int, x: nat, y: nat, p: Pixel)
    requires StorePixel(rows, width, x, y, p).Ok?
    requires 3 * x + 2 < |BaseRow(rows, width, y)|
    requires forall c :: 0 <= c < 3 ==> ChannelOf(p, c).Num? && 0 <= ChannelOf(p, c).n < 256
    ensures PixelAt(StorePixel(rows, width, x, y, p).value, width, x, y) == Ok(p)
  {
    assert ChannelOf(p, 0) == p.r && ChannelOf(p, 1) == p.g && ChannelOf(p, 2) == p.b;
  }

  // ---------------------------------------------------------------------
  // Nearest-neighbour resampling

  /** Source coordinate of target coordinate `i` when a dimension of
      `oldSize` is scaled to `newSize` (the source divides by the float
      `newSize / oldSize`; here the division is exact). */
  function SourceIndex(i: nat, oldSize: nat, newSize: nat): nat
    requires 0 < newSize
  {
    MulNonNegative(i, oldSize);
    i * oldSize / newSize
  }

  lemma MulNonNegative(a: nat, b: nat)
    ensures 0 <= a * b
  {
  }

  lemma SourceIndexInRange(i: nat, oldSize: nat, newSize: nat)
    requires i < newSize
    ensures SourceIndex(i, oldSize, newSize) < oldSize || oldSize == 0
  {
    if 0 < oldSize {
      var q := SourceIndex(i, oldSize, newSize);
      assert q * newSize <= i * oldSize;
      assert i * oldSize < newSize * oldSize by {
        assert (newSize - i) * oldSize > 0;
      }
    }
  }

  /** Whether `getPixel`, as written, can read the source of target pixel (x, y). */
  predicate SourceReadable(rows: Rows, oldH: nat, oldW: nat, newH: nat, newW: nat, x: nat, y: nat)
    requires 0 < newH && 0 < newW
  {
    PixelAt(rows, oldW, SourceIndex(x, oldW, newW), SourceIndex(y, oldH, newH)).Ok?
  }

  /** When `resize` runs to the end: nothing to fill, or every target row
      passes `setPixel`'s check against the new width and every source pixel
      is readable. */
  ghost predicate ResizeSucceeds(rows: Rows, oldH: nat, oldW: nat, newH: int, newW: int)
  {
    newH <= 0 || newW <= 0 ||
    (newH <= newW &&
     forall y: nat, x: nat :: y < newH && x < newW ==> SourceReadable(rows, oldH, oldW, newH, newW, x, y))
  }

  /** Byte `c` of target pixel (x, y): that channel of the nearest source
      pixel, looked up with the checked bounds. */
  function ResampledByte(rows: Rows, oldH: nat, oldW: nat, newH: nat, newW: nat, x: nat, y: nat, c: nat): byte
    requires 0 < newH && 0 < newW
  {
    match PixelAtChecked(rows, oldH, oldW, SourceIndex(x, oldW, newW), SourceIndex(y, oldH, newH))
    case Ok(p) => ToUint8(ChannelOf(p, c))
    case Err(_) => 0
  }

  /** Target row `y` with its first `x` pixels filled and zeros after them. */
  function PartialRow(rows: Rows, oldH: nat, oldW: nat, newH: nat, newW: nat, y: nat, x: nat): (r: seq<byte>)
    requires 0 < newH && 0 < newW
    ensures |r| == 3 * newW
  {
    seq(3 * newW, k requires 0 <= k < 3 * newW =>
      if k < 3 * x then ResampledByte(rows, oldH, oldW, newH, newW, k / 3, y, k % 3) else 0)
  }

  /** The rows of the resized grid. */
  function ResampledRows(rows: Rows, oldH: nat, oldW: nat, newH: int, newW: int): (r: Rows)
    ensures 0 < newH && 0 < newW ==> |r| == newH
    ensures newH <= 0 || newW <= 0 ==> r == []
    ensures forall y :: 0 <= y < |r| ==> r[y].Some? && |r[y].value| == 3 * newW
  {
    if newH <= 0 || newW <= 0 then []
    else seq(newH, y requires 0 <= y < newH => Some(PartialRow(rows, oldH, oldW, newH, newW, y, newW)))
  }

  lemma PartialRowStep(rows: Rows, oldH: nat, oldW: nat, newH: nat, newW: nat, y: nat, x: nat, base: seq<byte>, p: Pixel)
    requires 0 < newH && 0 < newW && x < newW
    requires base == if x == 0 then Zeros(3 * newW) else PartialRow(rows, oldH, oldW, newH, newW, y, x)
    requires forall c :: 0 <= c < 3 ==> ToUint8(ChannelOf(p, c)) == ResampledByte(rows, oldH, oldW, newH, newW, x, y, c)
    ensures Paint(base, x, p) == PartialRow(rows, oldH, oldW, newH, newW, y, x + 1)
  {
    var row := Paint(base, x, p);
    var want := PartialRow(rows, oldH, oldW, newH, newW, y, x + 1);
    assert ChannelOf(p, 0) == p.r && ChannelOf(p, 1) == p.g && ChannelOf(p, 2) == p.b;
    forall k | 0 <= k < 3 * newW ensures row[k] == want[k] {
      if 3 * x <= k < 3 * x + 3 {
        assert k / 3 == x && k % 3 == k - 3 * x;
      } else if k < 3 * x {
        assert x > 0;
      }
    }
  }

  class Image {
    var height: int
    var width: int
    var data: Rows

    /** `data` is the supplied rows, or an empty list when none are given. */
    constructor (height: int, width: int, data: Option<Rows>)
      ensures this.height == height && this.width == width
      ensures this.data == if data.Some? then data.value else []
    {
      this.height := height;
      this.width := width;
      if data.Some? {
        this.data := data.value;
      } else {
        this.data := [];
      }
    }

    /** Appends a row unless there are already `height` of them. */
    method AddRow(row: seq<byte>) returns (r: Result<()>)
      modifies this
      ensures old(|data|) == height ==> r == Err(RowsFull) && data == old(data)
      ensures old(|data|) != height ==> r == Ok(()) && data == old(data) + [Some(row)]
      ensures height == old(height) && width == old(width)
      ensures old(|data|) < height ==> |data| <= height
    {
      if |data| == height {
        return Err(RowsFull);
      }
      data := data + [Some(row)];
      return Ok(());
    }

    method GetPixel(x: nat, y: nat) returns (r: Result<Pixel>)
      ensures r == PixelAt(data, width, x, y)
      ensures r.Ok? <==> x < width && y < width && y < |data| && data[y].Some?
      ensures r.Ok? ==> r.value.r == ChannelAt(data[y].value, 3 * x) &&
                        r.value.g == ChannelAt(data[y].value, 3 * x + 1) &&
                        r.value.b == ChannelAt(data[y].value, 3 * x + 2)
    {
      if x >= width {
        return Err(XOutOfRange(x));
      }
      if y >= width {
        return Err(YOutOfRange(y));
      }
      var x3 := x * 3;
      if y >= |data| || data[y].None? {
        return Err(MissingRow(y));
      }
      var row := data[y].value;
      return Ok(Pixel(ChannelAt(row, x3), ChannelAt(row, x3 + 1), ChannelAt(row, x3 + 2)));
    }

    method SetPixel(x: nat, y: nat, pixel: Pixel) returns (r: Result<()>)
      modifies this
      ensures match StorePixel(old(data), width, x, y, pixel)
              case Ok(rows) => r == Ok(()) && data == rows
              case Err(e) => r == Err(e) && data == old(data)
      ensures height == old(height) && width == old(width)
    {
      if x >= width {
        return Err(XOutOfRange(x));
      }
      if y >= width {
        return Err(YOutOfRange(y));
      }
      var x3 := x * 3;
      if y >= |data| || data[y].None? {
        data := SetRow(data, y, Zeros(width * 3));
      }
      var row := data[y].value;
      row := Put(row, x3, ToUint8(pixel.r));
      row := Put(row, x3 + 1, ToUint8(pixel.g));
      row := Put(row, x3 + 2, ToUint8(pixel.b));
      data := data[y := Some(row)];
      return Ok(());
    }

    /** One pass of the inner loop of `resize`: target row `y` of `scaled`,
        pixel by pixel, through `getPixel` on this image and `setPixel` on
        `scaled`. */
    method FillRow(scaled: Image, y: nat) returns (r: Result<()>)
      requires scaled != this
      requires 0 < height && 0 < width && 0 < scaled.width && y < scaled.height
      requires scaled.data == ResampledRows(data, height, width, scaled.height, scaled.width)[..y]
      modifies scaled
      ensures scaled.height == old(scaled.height) && scaled.width == old(scaled.width)
      ensures r.Ok? ==> y < scaled.width &&
                        scaled.data == ResampledRows(data, height, width, scaled.height, scaled.width)[..y]
                                       + [Some(PartialRow(data, height, width, scaled.height, scaled.width, y, scaled.width))]
      ensures r.Ok? <==> y < scaled.width &&
                         forall x: nat :: x < scaled.width ==> SourceReadable(data, height, width, scaled.height, scaled.width, x, y)
    {
      var rows, oldH, oldW, newH, newW := data, height, width, scaled.height, scaled.width;
      ghost var done := ResampledRows(rows, oldH, oldW, newH, newW)[..y];
      var x := 0;
      while x < newW
        invariant 0 <= x <= newW
        invariant scaled.height == newH && scaled.width == newW
        invariant scaled.data == if x == 0 then done
                                 else done + [Some(PartialRow(rows, oldH, oldW, newH, newW, y, x))]
        invariant 0 < x ==> y < newW
        invariant forall x': nat :: x' < x ==> SourceReadable(rows, oldH, oldW, newH, newW, x', y)
      {
        r := CopyNearest(scaled, x, y);
        if r.Err? {
          return;
        }
        x := x + 1;
      }
      return Ok(());
    }

    /** The body of the inner loop of `resize`: target pixel (x, y) of
        `scaled` is set to the nearest source pixel of this image. */
    method CopyNearest(scaled: Image, x: nat, y: nat) returns (r: Result<()>)
      requires scaled != this
      requires 0 < height && 0 < width && x < scaled.width && y < scaled.height
      requires scaled.data ==
                 if x == 0 then ResampledRows(data, height, width, scaled.height, scaled.width)[..y]
                 else ResampledRows(data, height, width, scaled.height, scaled.width)[..y]
                      + [Some(PartialRow(data, height, width, scaled.height, scaled.width, y, x))]
      modifies scaled
      ensures scaled.height == old(scaled.height) && scaled.width == old(scaled.width)
      ensures r.Ok? <==> y < scaled.width && SourceReadable(data, height, width, scaled.height, scaled.width, x, y)
      ensures r.Ok? ==> scaled.data == ResampledRows(data, height, width, scaled.height, scaled.width)[..y]
                                       + [Some(PartialRow(data, height, width, scaled.height, scaled.width, y, x + 1))]
    {
      var rows, oldH, oldW, newH, newW := data, height, width, scaled.height, scaled.width;
      var yNearest := SourceIndex(y, oldH, newH);
      var xNearest := SourceIndex(x, oldW, newW);
      var pixel := GetPixel(xNearest, yNearest);
      if pixel.Err? {
        return Err(pixel.error);
      }
      ghost var before := scaled.data;
      var stored := scaled.SetPixel(x, y, pixel.value);
      if stored.Err? {
        return Err(stored.error);
      }
      ResizeStep(rows, oldH, oldW, newH, newW, x, y, pixel.value, before);
      return Ok(());
    }

    /** Nearest-neighbour resampling to `newHeight` by `newWidth`, built in a
        new image through `getPixel` and `setPixel` and then adopted. */
    method Resize(newHeight: int, newWidth: int) returns (r: Result<()>)
      requires 0 < height && 0 < width
      modifies this
      ensures r.Ok? <==> ResizeSucceeds(old(data), old(height), old(width), newHeight, newWidth)
      ensures r.Ok? ==> height == newHeight && width == newWidth &&
                        data == ResampledRows(old(data), old(height), old(width), newHeight, newWidth)
      ensures r.Err? ==> height == old(height) && width == old(width) && data == old(data)
    {
      var scaled := new Image(newHeight, newWidth, None);
      if newWidth <= 0 || newHeight <= 0 {
        // Neither loop body runs: the new image has no rows.
        data, height, width := scaled.data, scaled.height, scaled.width;
        return Ok(());
      }
      var y := 0;
      while y < newHeight
        invariant data == old(data) && height == old(height) && width == old(width)
        invariant 0 <= y <= newHeight
        invariant scaled != this
        invariant scaled.height == newHeight && scaled.width == newWidth
        invariant scaled.data == ResampledRows(data, height, width, newHeight, newWidth)[..y]
        invariant y <= newWidth
        invariant forall y': nat, x': nat :: y' < y && x' < newWidth ==>
                    SourceReadable(data, height, width, newHeight, newWidth, x', y')
      {
        var filled := FillRow(scaled, y);
        if filled.Err? {
          return Err(filled.error);
        }
        ghost var done := ResampledRows(data, height, width, newHeight, newWidth);
        assert done[..y + 1] == done[..y] + [done[y]];
        y := y + 1;
      }
      ghost var all := ResampledRows(data, height, width, newHeight, newWidth);
      assert all[..y] == all;
      data, height, width := scaled.data, scaled.height, scaled.width;
      return Ok(());
    }
  }

  /** The source pixel read for target pixel (x, y) carries the resampled
      bytes of that target pixel. */
  lemma ResampledChannels(rows: Rows, oldH: nat, oldW: nat, newH: nat, newW: nat, x: nat, y: nat, p: Pixel)
    requires 0 < oldH && 0 < oldW && x < newW && y < newH
    requires PixelAt(rows, oldW, SourceIndex(x, oldW, newW), SourceIndex(y, oldH, newH)) == Ok(p)
    ensures forall c :: 0 <= c < 3 ==> ToUint8(ChannelOf(p, c)) == ResampledByte(rows, oldH, oldW, newH, newW, x, y, c)
  {
    SourceIndexInRange(y, oldH, newH);
    CheckedAgrees(rows, oldH, oldW, SourceIndex(x, oldW, newW), SourceIndex(y, oldH, newH));
  }

  /** `setPixel` on the row just past `done`: at the first pixel it appends a
      painted zero row, afterwards it paints the last row in place. */
  lemma StoreIntoLastRow(done: Rows, width: nat, x: nat, p: Pixel, last: seq<byte>)
    requires x < width && |done| < width
    ensures x == 0 ==> StorePixel(done, width, x, |done|, p) == Ok(done + [Some(Paint(Zeros(width * 3), x, p))])
    ensures StorePixel(done + [Some(last)], width, x, |done|, p) == Ok(done + [Some(Paint(last, x, p))])
  {
    var y := |done|;
    assert BaseRow(done, width, y) == Zeros(width * 3);
    assert StorePixel(done, width, x, y, p) == Ok(SetRow(done, y, Paint(Zeros(width * 3), x, p)));
    assert |SetRow(done, y, Paint(Zeros(width * 3), x, p))| == y + 1;
    var painted := Some(Paint(Zeros(width * 3), x, p));
    var none: Rows := seq(y - |done|, _ => None);
    assert none == [];
    assert SetRow(done, y, painted.value) == done + none + [painted];
    assert done + none + [painted] == done + [painted];
    assert (done + [Some(last)])[y := Some(Paint(last, x, p))] == done + [Some(Paint(last, x, p))];
  }

  /** One `setPixel` of the resize loop, given the target rows built so far
      (`before`): it stores the resampled bytes of target pixel (x, y), so
      row `y` gains its pixel `x`. */
  lemma ResizeStep(rows: Rows, oldH: nat, oldW: nat, newH: nat, newW: nat, x: nat, y: nat, p: Pixel, before: Rows)
    requires 0 < oldH && 0 < oldW && x < newW && y < newH && y < newW
    requires PixelAt(rows, oldW, SourceIndex(x, oldW, newW), SourceIndex(y, oldH, newH)) == Ok(p)
    requires before == if x == 0 then ResampledRows(rows, oldH, oldW, newH, newW)[..y]
                       else ResampledRows(rows, oldH, oldW, newH, newW)[..y] + [Some(PartialRow(rows, oldH, oldW, newH, newW, y, x))]
    ensures StorePixel(before, newW, x, y, p)
            == Ok(ResampledRows(rows, oldH, oldW, newH, newW)[..y] + [Some(PartialRow(rows, oldH, oldW, newH, newW, y, x + 1))])
  {
    ResampledChannels(rows, oldH, oldW, newH, newW, x, y, p);
    var done := ResampledRows(rows, oldH, oldW, newH, newW)[..y];
    var base := if x == 0 then Zeros(3 * newW) else PartialRow(rows, oldH, oldW, newH, newW, y, x);
    StoreIntoLastRow(done, newW, x, p, base);
    PartialRowStep(rows, oldH, oldW, newH, newW, y, x, base, p);
  }
}
