/** The forward-only byte reader of src/Streamer.ts. Every read replaces the
    remaining bytes by a shorter suffix of them. */
module Cursor {
  import opened Common

  /** Bytes handed out by a read, and the bytes that remain after it. */
  datatype Split = Split(taken: seq<byte>, rest: seq<byte>)

  /** Where `Uint8Array.slice(0, count)` ends on an array of `length`
      elements, for the counts `readBytes` lets through (`count <= length`);
      a negative count counts back from the end. */
  function SliceEnd(length: nat, count: int): (k: nat)
    requires count <= length
    ensures k <= length
    ensures 0 <= count ==> k == count
    ensures count < 0 ==> k == if length + count < 0 then 0 else length + count
  {
    if 0 <= count then count
    else if length + count < 0 then 0
    else length + count
  }

  /** What `readBytes(count)` does to the remaining bytes `data`. */
  function TakeFront(data: seq<byte>, count: int): (r: Result<Split>)
    ensures r.Ok? <==> count <= |data|
    ensures r.Err? ==> r.error == NotEnoughData
    ensures r.Ok? ==> r.value.taken + r.value.rest == data
    ensures r.Ok? && 0 <= count ==> |r.value.taken| == count
  {
    if |data| < count then Err(NotEnoughData)
    else
      var k := SliceEnd(|data|, count);
      assert data[..k] + data[k..] == data;
      Ok(Split(data[..k], data[k..]))
  }

  class Streamer {
    var data: seq<byte>

    constructor (data: seq<byte>)
      ensures this.data == data
    {
      this.data := data;
    }

    /** `read()`, also called as `readByte()` by the decoder. */
    method Read() returns (r: Result<byte>)
      modifies this
      ensures old(data) == [] ==> r == Err(NoMoreData) && data == old(data)
      ensures old(data) != [] ==> r == Ok(old(data)[0]) && data == old(data)[1..]
    {
      if |data| == 0 {
        return Err(NoMoreData);
      }
      var value := data[0];
      data := data[1..];
      return Ok(value);
    }

    method ReadBytes(count: int) returns (r: Result<seq<byte>>)
      modifies this
      ensures match TakeFront(old(data), count)
              case Ok(s) => r == Ok(s.taken) && data == s.rest
              case Err(e) => r == Err(e) && data == old(data)
      ensures r.Ok? <==> count <= old(|data|)
      ensures r.Ok? ==> r.value + data == old(data)
      ensures r.Ok? && 0 <= count ==> r.value == old(data)[..count] && data == old(data)[count..]
    {
      if |data| < count {
        return Err(NotEnoughData);
      }
      var k := SliceEnd(|data|, count);
      var bytes := data[..k];
      data := data[k..];
      return Ok(bytes);
    }

    function AtEnd(): (b: bool)
      reads this
      ensures b <==> data == []
    {
      |data| == 0
    }

    method ReadInt32() returns (r: Result<int>)
      modifies this
      ensures r.Ok? <==> 4 <= old(|data|)
      ensures r.Err? ==> r.error == NotEnoughData && data == old(data)
      ensures r.Ok? ==> r.value == Int32BE(old(data)[..4]) && data == old(data)[4..]
      ensures r.Ok? ==> -TWO_31 <= r.value < TWO_31
    {
      var bytes := ReadBytes(4);
      if bytes.Err? {
        return Err(bytes.error);
      }
      return Ok(Int32BE(bytes.value));
    }

    /** `readString(count)`: the same bytes as `readBytes(count)`; the text
        decoding is not part of this model, so the raw bytes are returned. */
    method ReadString(count: int) returns (r: Result<seq<byte>>)
      modifies this
      ensures r.Ok? <==> count <= old(|data|)
      ensures r.Err? ==> r.error == NotEnoughData && data == old(data)
      ensures r.Ok? ==> r.value + data == old(data)
      ensures r.Ok? && 0 <= count ==> r.value == old(data)[..count] && data == old(data)[count..]
    {
      r := ReadBytes(count);
    }
  }
}
