/** The older copy of the byte reader, src/components/Streamer.ts, which
    offers only `read` and `read_bytes`. Its reads are specified by the same
    functions as the current reader's. */
module LegacyCursor {
  import opened Common
  import Cursor

  class Streamer {
    var data: seq<byte>

    constructor (data: seq<byte>)
      ensures this.data == data
    {
      this.data := data;
    }

    method Read() returns (r: Result<byte>)
      modifies this
      ensures old(data) == [] ==> r == Err(NoMoreData) && data == old(data)
      ensures old(data) != [] ==> r == Ok(old(data)[0]) && data == old(data)[1..]
    {
      if |data| == 0 {
        return Err(NoMoreData);
      }
      var value := data[0];
      data := data[1..];
      return Ok(value);
    }

    /** `read_bytes(count)`. */
    method ReadBytes(count: int) returns (r: Result<seq<byte>>)
      modifies this
      ensures match Cursor.TakeFront(old(data), count)
              case Ok(s) => r == Ok(s.taken) && data == s.rest
              case Err(e) => r == Err(e) && data == old(data)
      ensures r.Ok? ==> r.value + data == old(data)
      ensures count == 0 ==> r == Ok([]) && data == old(data)
    {
      if |data| < count {
        return Err(NotEnoughData);
      }
      var k := Cursor.SliceEnd(|data|, count);
      var bytes := data[..k];
      data := data[k..];
      return Ok(bytes);
    }
  }
}
