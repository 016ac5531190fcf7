/** Shared vocabulary of the decoder: bytes, optional values, results and
    the errors the decoder throws, plus big-endian integer decoding. */
module Common {

  /** One element of a `Uint8Array`. */
  type byte = x: int | 0 <= x < 256

  datatype Option<T> = None | Some(value: T) {
    function GetOr(default: T): T {
      if Some? then value else default
    }
  }

  /** The failures the decoder raises. Each names the condition it reports. */
  datatype Error =
    | NoMoreData                     // Streamer.read on an empty buffer
    | NotEnoughData                  // Streamer.readBytes asked for more than remains
    | CorruptedHeader                // signature mismatch
    | UnsupportedColorType(colorType: int)
    | Adam7Unsupported               // interlaced image
    | NoScanlines                    // unfilter on an empty scanline list (a TypeError)
    | RowsFull                       // Image.addRow on a full image
    | XOutOfRange(x: int)
    | YOutOfRange(y: int)
    | MissingRow(y: int)             // indexing an absent image row (a TypeError)
    | CodecError                     // reported by the external inflate

  datatype Result<T> = Ok(value: T) | Err(error: Error)

  const TWO_31: int := 0x8000_0000
  const TWO_32: int := 0x1_0000_0000

  function Pow256(n: nat): (p: nat)
    ensures p > 0
  {
    if n == 0 then 1 else 256 * Pow256(n - 1)
  }

  /** The unsigned value of `s` read most significant byte first. */
  function BigEndian(s: seq<byte>): (n: nat)
    ensures n < Pow256(|s|)
  {
    if |s| == 0 then 0 else BigEndian(s[..|s| - 1]) * 256 + s[|s| - 1]
  }

  lemma BigEndian4(s: seq<byte>)
    requires |s| == 4
    ensures BigEndian(s) == (s[0] as int) * 0x100_0000 + (s[1] as int) * 0x1_0000 + (s[2] as int) * 0x100 + s[3]
  {
    assert s[..3][..2] == s[..2];
    assert s[..2][..1] == s[..1];
    assert s[..1][..0] == [];
    assert BigEndian(s[..1]) == s[0];
    assert BigEndian(s[..2]) == (s[0] as int) * 256 + s[1];
    assert BigEndian(s[..3]) == ((s[0] as int) * 256 + s[1]) * 256 + s[2];
  }

  /** `DataView.getInt32(0)`: four bytes, big-endian, two's complement. */
  function Int32BE(s: seq<byte>): (v: int)
    requires |s| == 4
    ensures -TWO_31 <= v < TWO_31
    ensures (v - BigEndian(s)) % TWO_32 == 0
    ensures v < 0 <==> s[0] >= 128
  {
    BigEndian4(s);
    var u := BigEndian(s);
    if u < TWO_31 then u else u - TWO_32
  }

  /** The four bytes `DataView.setInt32` writes for `v`: big-endian, two's
      complement. */
  function Int32Bytes(v: int): (s: seq<byte>)
    requires -TWO_31 <= v < TWO_31
    ensures |s| == 4
  {
    var u := if v < 0 then v + TWO_32 else v;
    var a := u / 256;
    var b := a / 256;
    var c := b / 256;
    [c, b % 256, a % 256, u % 256]
  }

  lemma Int32RoundTrip(v: int)
    requires -TWO_31 <= v < TWO_31
    ensures Int32BE(Int32Bytes(v)) == v
  {
    var s := Int32Bytes(v);
    BigEndian4(s);
    var u := if v < 0 then v + TWO_32 else v;
    var a := u / 256;
    var b := a / 256;
    var c := b / 256;
    assert u == a * 256 + u % 256;
    assert a == b * 256 + a % 256;
    assert b == c * 256 + b % 256;
    assert BigEndian(s) == u;
  }
}
