/** Scanline reconstruction (src/PNGDecoder.ts, `channels`,
    `computeScanlineSizeForWidth`, `decodeBitmapSimple` and `unfilter`):
    row sizes, the split of the inflated stream into filter-tagged rows, and
    the reversal of the five filter types of section 6 of RFC 2083.

    `Unfilter` is the reference meaning of one row's reconstruction,
    `Filter` the encoder's forward filter; each undoes the other. The
    in-place loops of the decoder are `UnfilterInPlace`, proved against
    `Unfilter`. */
module Scanlines {
  import opened Common

  // Filter type byte values.
  const NONE: byte := 0
  const SUB: byte := 1
  const UP: byte := 2
  const AVERAGE: byte := 3
  const PAETH: byte := 4

  /** One row of the inflated stream: its filter byte and its bytes. */
  datatype Scanline = Scanline(filter: byte, data: seq<byte>)

  /** The `channels` getter: only RGB (colour type 2) and RGBA (6) are supported. */
  function Channels(colorType: int): (r: Result<nat>)
    ensures r.Ok? <==> colorType == 2 || colorType == 6
    ensures colorType == 2 ==> r == Ok(3)
    ensures colorType == 6 ==> r == Ok(4)
    ensures r.Err? ==> r.error == UnsupportedColorType(colorType)
  {
    if colorType == 2 then Ok(3)
    else if colorType == 6 then Ok(4)
    else Err(UnsupportedColorType(colorType))
  }

  /** `computeScanlineSizeForWidth`, with the channel count already known. */
  function ScanlineSize(width: int, channels: nat, bitDepth: int): int
  {
    (width * channels * bitDepth + 7) / 8
  }

  /** The row size is the number of whole bytes needed for the row's bits. */
  lemma ScanlineSizeIsCeiling(width: nat, channels: nat, bitDepth: nat)
    ensures var bits := width * channels * bitDepth;
            var size := ScanlineSize(width, channels, bitDepth);
            0 <= size && bits <= 8 * size < bits + 8
    ensures width == 0 ==> ScanlineSize(width, channels, bitDepth) == 0
  {
    var bits := width * channels * bitDepth;
    assert 0 <= bits;
  }

  lemma ScanlineSizeMonotone(w1: nat, w2: nat, channels: nat, bitDepth: nat)
    requires w1 <= w2
    ensures ScanlineSize(w1, channels, bitDepth) <= ScanlineSize(w2, channels, bitDepth)
  {
    var d := w2 - w1;
    assert w2 * channels * bitDepth == w1 * channels * bitDepth + d * channels * bitDepth;
    assert 0 <= d * channels * bitDepth;
  }

  /** `bytesPerCompletePixel` in `unfilter`. */
  function BytesPerPixel(bitDepth: byte, channels: nat): nat
  {
    ((bitDepth + 7) / 8) * channels
  }

  /** A pixel takes no whole byte only at bit depth 0, and then every row is empty. */
  lemma EmptyRowsWithoutWholePixels(width: nat, bitDepth: byte, channels: nat)
    requires 0 < channels
    requires BytesPerPixel(bitDepth, channels) == 0
    ensures bitDepth == 0
    ensures ScanlineSize(width, channels, bitDepth) == 0
  {
  }

  // ---------------------------------------------------------------------
  // Splitting the inflated stream into rows

  lemma RowBounds(i: nat, count: nat, size: nat)
    requires i < count
    ensures i * (size + 1) + size + 1 == (i + 1) * (size + 1)
    ensures (i + 1) * (size + 1) <= count * (size + 1)
  {
    var d := count - (i + 1);
    assert count * (size + 1) == (i + 1) * (size + 1) + d * (size + 1);
  }

  /** The first `count` rows of `data`, each a filter byte followed by
      `size` bytes, laid end to end. */
  function RowsOf(data: seq<byte>, count: nat, size: nat): (rows: seq<Scanline>)
    requires count * (size + 1) <= |data|
    ensures |rows| == count
  {
    seq(count, i requires 0 <= i < count =>
      RowBounds(i, count, size);
      Scanline(data[i * (size + 1)], data[i * (size + 1) + 1 .. (i + 1) * (size + 1)]))
  }

  /** The encoder's side of the split: rows laid end to end, each behind
      its filter byte. */
  function Serialize(rows: seq<Scanline>): (data: seq<byte>)
    decreases |rows|
  {
    if |rows| == 0 then []
    else Serialize(rows[..|rows| - 1]) + [rows[|rows| - 1].filter] + rows[|rows| - 1].data
  }

  lemma {:induction false} SerializeLength(rows: seq<Scanline>, size: nat)
    requires forall i :: 0 <= i < |rows| ==> |rows[i].data| == size
    ensures |Serialize(rows)| == |rows| * (size + 1)
    decreases |rows|
  {
    if |rows| > 0 {
      var n := |rows| - 1;
      SerializeLength(rows[..n], size);
      assert n * (size + 1) + size + 1 == (n + 1) * (size + 1);
    }
  }

  /** Splitting serialized rows of `size` bytes gives back the rows, whatever
      bytes follow them. */
  lemma {:induction false} RowsOfSerialize(rows: seq<Scanline>, size: nat, tail: seq<byte>)
    requires forall i :: 0 <= i < |rows| ==> |rows[i].data| == size
    ensures |rows| * (size + 1) <= |Serialize(rows) + tail|
    ensures RowsOf(Serialize(rows) + tail, |rows|, size) == rows
    decreases |rows|
  {
    SerializeLength(rows, size);
    if |rows| > 0 {
      var n := |rows| - 1;
      var last := [rows[n].filter] + rows[n].data;
      var data := Serialize(rows) + tail;
      SerializeLength(rows[..n], size);
      assert data == Serialize(rows[..n]) + (last + tail);
      RowsOfSerialize(rows[..n], size, last + tail);
      var split := RowsOf(data, |rows|, size);
      forall i | 0 <= i < |rows| ensures split[i] == rows[i] {
        if i < n {
          assert split[i] == RowsOf(data, n, size)[i];
        } else {
          RowBounds(n, n + 1, size);
          assert data[n * (size + 1)] == rows[n].filter;
          assert data[n * (size + 1) + 1 .. (n + 1) * (size + 1)] == rows[n].data;
        }
      }
    }
  }

  // ---------------------------------------------------------------------
  // Predictors

  function Abs(x: int): nat {
    if x < 0 then -x else x
  }

  /** The Paeth predictor of section 6.5 of RFC 2083: the neighbour nearest
      to `left + above - upperLeft`, ties going to `left`, then `above`. */
  function Paeth(left: int, above: int, upperLeft: int): (r: int)
    ensures r == left || r == above || r == upperLeft
    ensures var p := left + above - upperLeft;
            Abs(p - r) <= Abs(p - left) && Abs(p - r) <= Abs(p - above) && Abs(p - r) <= Abs(p - upperLeft)
    ensures var p := left + above - upperLeft;
            (r != left ==> Abs(p - r) < Abs(p - left)) &&
            (r != left && r != above ==> Abs(p - r) < Abs(p - above))
  {
    var p := left + above - upperLeft;
    var pLeft, pAbove, pUpperLeft := Abs(p - left), Abs(p - above), Abs(p - upperLeft);
    if pLeft <= pAbove && pLeft <= pUpperLeft then left
    else if pAbove <= pUpperLeft then above
    else upperLeft
  }

  /** The amount added back to a filtered byte, by filter type. None and
      the types above 4 add nothing. */
  function Predictor(filter: byte, left: byte, above: byte, upperLeft: byte): (r: int)
    ensures 0 <= r < 256
    ensures filter == NONE || filter > PAETH ==> r == 0
  {
    if filter == SUB then left
    else if filter == UP then above
    else if filter == AVERAGE then (left as int + above) / 2
    else if filter == PAETH then Paeth(left, above, upperLeft)
    else 0
  }

  /** The byte `bpp` places to the left of position `|done|`, where `done`
      holds the bytes already reconstructed and `current` the byte being
      reconstructed; 0 for the first pixel. With `bpp == 0` the source reads
      the byte itself before it is updated. */
  function LeftOf(done: seq<byte>, current: byte, bpp: nat): byte
  {
    var j := |done|;
    if j < bpp then 0 else if bpp == 0 then current else done[j - bpp]
  }

  /** The byte above position `j`; `prior` is the reconstructed previous
      row, or empty for the first row. */
  function AboveOf(prior: seq<byte>, j: nat): byte
  {
    if j < |prior| then prior[j] else 0
  }

  function UpperLeftOf(prior: seq<byte>, j: nat, bpp: nat): byte
  {
    if j < bpp || |prior| <= j - bpp then 0 else prior[j - bpp]
  }

  /** Reconstruction of the byte at position `|done|` of a row. */
  function ReconstructByte(filter: byte, done: seq<byte>, current: byte, prior: seq<byte>, bpp: nat): byte
  {
    var j := |done|;
    (current + Predictor(filter, LeftOf(done, current, bpp), AboveOf(prior, j), UpperLeftOf(prior, j, bpp))) % 256
  }

  /** The reconstructed row, built left to right; `UnfilterAt` states what
      each of its bytes is. */
  function Unfilter(filter: byte, filtered: seq<byte>, prior: seq<byte>, bpp: nat): (r: seq<byte>)
    ensures |r| == |filtered|
    decreases |filtered|
  {
    if |filtered| == 0 then []
    else
      var n := |filtered| - 1;
      var done := Unfilter(filter, filtered[..n], prior, bpp);
      done + [ReconstructByte(filter, done, filtered[n], prior, bpp)]
  }

  lemma UnfilterStep(filter: byte, s: seq<byte>, prior: seq<byte>, bpp: nat, j: nat)
    requires j < |s|
    ensures Unfilter(filter, s[..j + 1], prior, bpp)
            == Unfilter(filter, s[..j], prior, bpp)
               + [ReconstructByte(filter, Unfilter(filter, s[..j], prior, bpp), s[j], prior, bpp)]
  {
    assert s[..j + 1][..j] == s[..j];
  }

  /** Reconstruction reads nothing to the right: a prefix of the row
      reconstructs to the same prefix. */
  lemma {:induction false} UnfilterPrefix(filter: byte, filtered: seq<byte>, prior: seq<byte>, bpp: nat, k: nat)
    requires k <= |filtered|
    ensures Unfilter(filter, filtered[..k], prior, bpp) == Unfilter(filter, filtered, prior, bpp)[..k]
    decreases |filtered|
  {
    if k < |filtered| {
      var n := |filtered| - 1;
      UnfilterPrefix(filter, filtered[..n], prior, bpp, k);
      assert filtered[..n][..k] == filtered[..k];
      var done := Unfilter(filter, filtered[..n], prior, bpp);
      assert Unfilter(filter, filtered, prior, bpp)[..k] == done[..k];
    } else {
      assert filtered[..k] == filtered;
    }
  }

  /** Every reconstructed byte is its filtered value plus the predictor of
      the bytes reconstructed before it (and of the row above), modulo 256. */
  lemma UnfilterAt(filter: byte, filtered: seq<byte>, prior: seq<byte>, bpp: nat, j: nat)
    requires j < |filtered|
    ensures var r := Unfilter(filter, filtered, prior, bpp);
            r[j] == ReconstructByte(filter, r[..j], filtered[j], prior, bpp)
  {
    var r := Unfilter(filter, filtered, prior, bpp);
    UnfilterPrefix(filter, filtered, prior, bpp, j + 1);
    UnfilterPrefix(filter, filtered, prior, bpp, j);
    UnfilterStep(filter, filtered, prior, bpp, j);
    assert r[..j + 1] == r[..j] + [r[j]];
  }

  /** None, and any filter byte above 4, leaves the row as it is. */
  lemma {:induction false} UnfilterIdentity(filter: byte, filtered: seq<byte>, prior: seq<byte>, bpp: nat)
    requires filter == NONE || filter > PAETH
    ensures Unfilter(filter, filtered, prior, bpp) == filtered
    decreases |filtered|
  {
    if |filtered| > 0 {
      var n := |filtered| - 1;
      UnfilterIdentity(filter, filtered[..n], prior, bpp);
      assert filtered[..n] + [filtered[n]] == filtered;
    }
  }

  /** Sub leaves the bytes of the first pixel as they are. */
  lemma {:induction false} SubKeepsFirstPixel(filtered: seq<byte>, prior: seq<byte>, bpp: nat, k: nat)
    requires k <= bpp && k <= |filtered|
    ensures Unfilter(SUB, filtered, prior, bpp)[..k] == filtered[..k]
    decreases k
  {
    if k > 0 {
      SubKeepsFirstPixel(filtered, prior, bpp, k - 1);
      var r := Unfilter(SUB, filtered, prior, bpp);
      UnfilterAt(SUB, filtered, prior, bpp, k - 1);
      assert r[..k] == r[..k - 1] + [r[k - 1]];
      assert filtered[..k] == filtered[..k - 1] + [filtered[k - 1]];
    }
  }

  lemma SubHead(filtered: seq<byte>, prior: seq<byte>, bpp: nat, k: nat)
    requires k <= bpp && k <= |filtered|
    ensures Unfilter(SUB, filtered[..k], prior, bpp) == filtered[..k]
  {
    SubKeepsFirstPixel(filtered, prior, bpp, k);
    UnfilterPrefix(SUB, filtered, prior, bpp, k);
  }

  /** On the first row (no row above), Up leaves the row as it is. */
  lemma UpOnFirstRow(filtered: seq<byte>, bpp: nat)
    ensures Unfilter(UP, filtered, [], bpp) == filtered
  {
    var r := Unfilter(UP, filtered, [], bpp);
    forall j | 0 <= j < |r| ensures r[j] == filtered[j] {
      UnfilterAt(UP, filtered, [], bpp, j);
    }
  }

  // ---------------------------------------------------------------------
  // The forward filter and the round trips

  lemma ModularCancel(a: byte, p: int)
    ensures ((a - p) % 256 + p) % 256 == a
    ensures ((a + p) % 256 - p) % 256 == a
  {
  }

  /** The encoder's filter of section 6 of RFC 2083: each byte minus the
      predictor of the original (unfiltered) neighbours, modulo 256. */
  function Filter(filter: byte, raw: seq<byte>, prior: seq<byte>, bpp: nat): (f: seq<byte>)
    requires 0 < bpp
    ensures |f| == |raw|
  {
    seq(|raw|, j requires 0 <= j < |raw| =>
      (raw[j] - Predictor(filter, if j < bpp then 0 else raw[j - bpp], AboveOf(prior, j), UpperLeftOf(prior, j, bpp))) % 256)
  }

  lemma FilterPrefix(filter: byte, raw: seq<byte>, prior: seq<byte>, bpp: nat, k: nat)
    requires 0 < bpp && k <= |raw|
    ensures Filter(filter, raw, prior, bpp)[..k] == Filter(filter, raw[..k], prior, bpp)
  {
  }

  /** Reconstruction undoes the forward filter. */
  lemma {:induction false} UnfilterInvertsFilter(filter: byte, raw: seq<byte>, prior: seq<byte>, bpp: nat)
    requires 0 < bpp
    ensures Unfilter(filter, Filter(filter, raw, prior, bpp), prior, bpp) == raw
    decreases |raw|
  {
    if |raw| > 0 {
      var n := |raw| - 1;
      var f := Filter(filter, raw, prior, bpp);
      FilterPrefix(filter, raw, prior, bpp, n);
      UnfilterInvertsFilter(filter, raw[..n], prior, bpp);
      assert Unfilter(filter, f[..n], prior, bpp) == raw[..n];
      UnfilterStep(filter, f, prior, bpp, n);
      assert f[..n + 1] == f;
      var left: byte := if n < bpp then 0 else raw[n - bpp];
      assert LeftOf(raw[..n], f[n], bpp) == left;
      var p := Predictor(filter, left, AboveOf(prior, n), UpperLeftOf(prior, n, bpp));
      assert f[n] == (raw[n] - p) % 256;
      assert Unfilter(filter, f, prior, bpp) == raw[..n] + [(f[n] + p) % 256];
      ModularCancel(raw[n], p);
      assert raw[..n] + [raw[n]] == raw;
    }
  }

  /** The forward filter undoes reconstruction: the filtered row is
      recovered from the row it reconstructs to. */
  lemma FilterInvertsUnfilter(filter: byte, filtered: seq<byte>, prior: seq<byte>, bpp: nat)
    requires 0 < bpp
    ensures Filter(filter, Unfilter(filter, filtered, prior, bpp), prior, bpp) == filtered
  {
    var r := Unfilter(filter, filtered, prior, bpp);
    var f := Filter(filter, r, prior, bpp);
    forall j | 0 <= j < |filtered| ensures f[j] == filtered[j] {
      UnfilterAt(filter, filtered, prior, bpp, j);
      var p := Predictor(filter, LeftOf(r[..j], filtered[j], bpp), AboveOf(prior, j), UpperLeftOf(prior, j, bpp));
      ModularCancel(filtered[j], p);
    }
  }

  // ---------------------------------------------------------------------
  // Whole images: each row is reconstructed against the reconstructed row above

  /** Every row reconstructed in order, each against the reconstructed row
      above it; `UnfilterRowsAt` states what each row is. */
  function UnfilterRows(rows: seq<Scanline>, bpp: nat): (r: seq<seq<byte>>)
    ensures |r| == |rows|
    decreases |rows|
  {
    if |rows| == 0 then []
    else
      var n := |rows| - 1;
      var done := UnfilterRows(rows[..n], bpp);
      done + [Unfilter(rows[n].filter, rows[n].data, if n == 0 then [] else done[n - 1], bpp)]
  }

  lemma {:induction false} UnfilterRowsPrefix(rows: seq<Scanline>, bpp: nat, k: nat)
    requires k <= |rows|
    ensures UnfilterRows(rows[..k], bpp) == UnfilterRows(rows, bpp)[..k]
    decreases |rows|
  {
    if k < |rows| {
      var n := |rows| - 1;
      UnfilterRowsPrefix(rows[..n], bpp, k);
      assert rows[..n][..k] == rows[..k];
      var done := UnfilterRows(rows[..n], bpp);
      assert UnfilterRows(rows, bpp)[..k] == done[..k];
    } else {
      assert rows[..k] == rows;
    }
  }

  /** Row `i` is the reconstruction of scanline `i` against reconstructed row
      `i - 1` (against nothing for the first row). */
  lemma UnfilterRowsAt(rows: seq<Scanline>, bpp: nat, i: nat)
    requires i < |rows|
    ensures var r := UnfilterRows(rows, bpp);
            r[i] == Unfilter(rows[i].filter, rows[i].data, if i == 0 then [] else r[i - 1], bpp)
  {
    var r := UnfilterRows(rows, bpp);
    UnfilterRowsPrefix(rows, bpp, i + 1);
    var r' := UnfilterRows(rows[..i + 1], bpp);
    assert rows[..i + 1][..i] == rows[..i];
    assert r'[i] == r[i];
    if i > 0 {
      UnfilterRowsPrefix(rows, bpp, i);
      assert r'[i - 1] == r[i - 1];
    }
  }

  /** An encoder's output: row `i` filtered with filter type `filters[i]`
      against the original row above it. */
  function EncodeRows(filters: seq<byte>, raw: seq<seq<byte>>, bpp: nat): (rows: seq<Scanline>)
    requires 0 < bpp && |filters| == |raw|
    ensures |rows| == |raw|
  {
    seq(|raw|, i requires 0 <= i < |raw| =>
      Scanline(filters[i], Filter(filters[i], raw[i], if i == 0 then [] else raw[i - 1], bpp)))
  }

  lemma {:induction false} DecodedRowAt(filters: seq<byte>, raw: seq<seq<byte>>, bpp: nat, i: nat)
    requires 0 < bpp && |filters| == |raw| && i < |raw|
    ensures UnfilterRows(EncodeRows(filters, raw, bpp), bpp)[i] == raw[i]
    decreases i
  {
    var rows := EncodeRows(filters, raw, bpp);
    UnfilterRowsAt(rows, bpp, i);
    if i == 0 {
      UnfilterInvertsFilter(filters[0], raw[0], [], bpp);
    } else {
      DecodedRowAt(filters, raw, bpp, i - 1);
      UnfilterInvertsFilter(filters[i], raw[i], raw[i - 1], bpp);
    }
  }

  /** Decoding a whole encoded image gives back every original row, whatever
      filter each row was encoded with. */
  lemma UnfilterRowsInvertsEncode(filters: seq<byte>, raw: seq<seq<byte>>, bpp: nat)
    requires 0 < bpp && |filters| == |raw|
    ensures UnfilterRows(EncodeRows(filters, raw, bpp), bpp) == raw
  {
    forall i | 0 <= i < |raw| ensures UnfilterRows(EncodeRows(filters, raw, bpp), bpp)[i] == raw[i] {
      DecodedRowAt(filters, raw, bpp, i);
    }
  }

  // ---------------------------------------------------------------------
  // The in-place loops of `unfilter`, one row at a time

  /** Reverses the filter of one row in place; `prior` is the reconstructed
      row above, or empty on the first row. None and unknown filter types
      leave the row as it is. */
  method UnfilterInPlace(row: array<byte>, filter: byte, prior: seq<byte>, bpp: nat)
    modifies row
    ensures row[..] == Unfilter(filter, old(row[..]), prior, bpp)
  {
    if filter == SUB {
      UnfilterSub(row, prior, bpp);
    } else if filter == UP {
      UnfilterUp(row, prior, bpp);
    } else if filter == AVERAGE {
      UnfilterAverage(row, prior, bpp);
    } else if filter == PAETH {
      UnfilterPaeth(row, prior, bpp);
    } else {
      UnfilterIdentity(filter, row[..], prior, bpp);
    }
  }

  /** Sub: from the second pixel on, add the reconstructed byte to the left. */
  method UnfilterSub(row: array<byte>, prior: seq<byte>, bpp: nat)
    modifies row
    ensures row[..] == Unfilter(SUB, old(row[..]), prior, bpp)
  {
    ghost var orig := row[..];
    var n := row.Length;
    var j := if bpp < n then bpp else n;
    SubHead(orig, prior, bpp, j);
    while j < n
      invariant j <= n
      invariant j < n ==> bpp <= j
      invariant row[..j] == Unfilter(SUB, orig[..j], prior, bpp)
      invariant row[j..] == orig[j..]
    {
      UnfilterStep(SUB, orig, prior, bpp, j);
      assert row[j] == orig[j];
      var left := row[j - bpp];
      assert left == LeftOf(row[..j], orig[j], bpp);
      row[j] := (row[j] as int + left) % 256;
      j := j + 1;
    }
    assert row[..] == row[..n] && orig == orig[..n];
  }

  /** Up: add the byte above. */
  method UnfilterUp(row: array<byte>, prior: seq<byte>, bpp: nat)
    modifies row
    ensures row[..] == Unfilter(UP, old(row[..]), prior, bpp)
  {
    ghost var orig := row[..];
    var n := row.Length;
    var j := 0;
    while j < n
      invariant j <= n
      invariant row[..j] == Unfilter(UP, orig[..j], prior, bpp)
      invariant row[j..] == orig[j..]
    {
      UnfilterStep(UP, orig, prior, bpp, j);
      assert row[j] == orig[j];
      var above := AboveOf(prior, j);
      row[j] := (row[j] as int + above) % 256;
      j := j + 1;
    }
    assert row[..] == row[..n] && orig == orig[..n];
  }

  /** Average: add the floor of the mean of the left and upper bytes. */
  method UnfilterAverage(row: array<byte>, prior: seq<byte>, bpp: nat)
    modifies row
    ensures row[..] == Unfilter(AVERAGE, old(row[..]), prior, bpp)
  {
    ghost var orig := row[..];
    var n := row.Length;
    var j := 0;
    while j < n
      invariant j <= n
      invariant row[..j] == Unfilter(AVERAGE, orig[..j], prior, bpp)
      invariant row[j..] == orig[j..]
    {
      UnfilterStep(AVERAGE, orig, prior, bpp, j);
      assert row[j] == orig[j];
      var left := if j < bpp then 0 else row[j - bpp];
      var above := AboveOf(prior, j);
      var average := (left as int + above) / 2;
      row[j] := (row[j] as int + average) % 256;
      j := j + 1;
    }
    assert row[..] == row[..n] && orig == orig[..n];
  }

  /** Paeth: add whichever of left, above and upper-left `Paeth` picks. */
  method UnfilterPaeth(row: array<byte>, prior: seq<byte>, bpp: nat)
    modifies row
    ensures row[..] == Unfilter(PAETH, old(row[..]), prior, bpp)
  {
    ghost var orig := row[..];
    var n := row.Length;
    var j := 0;
    while j < n
      invariant j <= n
      invariant row[..j] == Unfilter(PAETH, orig[..j], prior, bpp)
      invariant row[j..] == orig[j..]
    {
      UnfilterStep(PAETH, orig, prior, bpp, j);
      assert row[j] == orig[j];
      var left := if j < bpp then 0 else row[j - bpp];
      var above := AboveOf(prior, j);
      var upperLeft := UpperLeftOf(prior, j, bpp);
      var nearest := Paeth(left, above, upperLeft);
      row[j] := (row[j] as int + nearest) % 256;
      assert row[j + 1..] == orig[j + 1..];
      j := j + 1;
    }
    assert row[..] == row[..n] && orig == orig[..n];
  }
}
