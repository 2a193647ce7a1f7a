/**
 * Length-prefixed framing of the bridge's byte streams (`Request::read_from`
 * and `Response::write_to`): a frame is a 4-byte unsigned length followed by
 * exactly that many body bytes. The source writes the length in the
 * platform's native byte order; this model fixes it to little-endian.
 */
module Framing {
  import opened Wrappers

  /** One octet of a stream. */
  newtype byte = x: int | 0 <= x < 256

  /** 2^32: every value of the `u32` length prefix lies below it. */
  const U32_LIMIT: int := 0x1_0000_0000

  /** The value of a 4-byte prefix, least significant byte first. */
  function U32Value(b: seq<byte>): (n: nat)
    requires |b| == 4
    ensures n < U32_LIMIT
  {
    b[0] as int + 0x100 * b[1] as int + 0x1_0000 * b[2] as int + 0x100_0000 * b[3] as int
  }

  /** The 4-byte prefix that encodes `n`. */
  function U32Bytes(n: nat): (b: seq<byte>)
    requires n < U32_LIMIT
    ensures |b| == 4 && U32Value(b) == n
  {
    var q1 := n / 0x100;
    var q2 := q1 / 0x100;
    var q3 := q2 / 0x100;
    assert n == n % 0x100 + 0x100 * q1;
    assert q1 == q1 % 0x100 + 0x100 * q2;
    assert q2 == q2 % 0x100 + 0x100 * q3;
    [(n % 0x100) as byte, (q1 % 0x100) as byte, (q2 % 0x100) as byte, q3 as byte]
  }

  /** A prefix is determined by its value: reading a prefix and writing it again gives the same bytes. */
  lemma U32BytesOfValue(b: seq<byte>)
    requires |b| == 4
    ensures U32Bytes(U32Value(b)) == b
  {
    var n := U32Value(b);
    var q1 := b[1] as int + 0x100 * b[2] as int + 0x1_0000 * b[3] as int;
    var q2 := b[2] as int + 0x100 * b[3] as int;
    assert n == b[0] as int + 0x100 * q1;
    assert n / 0x100 == q1 && n % 0x100 == b[0] as int;
    assert q1 == b[1] as int + 0x100 * q2;
    assert q1 / 0x100 == q2 && q1 % 0x100 == b[1] as int;
    assert q2 / 0x100 == b[3] as int && q2 % 0x100 == b[2] as int;
  }

  /**
   * `write_to`: the length as `u32`, then the body. The `as u32` cast keeps
   * only the low 32 bits of the length, so a body of 4 GiB or more gets a
   * prefix that does not match it.
   */
  function WriteFrame(body: seq<byte>): (f: seq<byte>)
    ensures |f| == 4 + |body|
    ensures U32Value(f[..4]) == |body| % U32_LIMIT
    ensures f[4..] == body
  {
    var prefix := U32Bytes(|body| % U32_LIMIT);
    assert (prefix + body)[..4] == prefix;
    prefix + body
  }

  /** One frame read from the front of a stream, and the bytes after it. */
  datatype Frame = Frame(body: seq<byte>, rest: seq<byte>)

  /** Why no frame could be read: the stream ended inside the prefix, or inside the body. */
  datatype FrameError = MissingPrefix | ShortBody

  /**
   * `read_from`'s framing: the 4-byte length, then exactly that many bytes.
   * A stream that ends before the prefix or before the declared body length
   * is a failure.
   */
  function ReadFrame(input: seq<byte>): (r: Result<Frame, FrameError>)
    ensures r.Failure? <==> |input| < 4 || |input| - 4 < U32Value(input[..4])
    ensures r.Failure? ==> (r.error == MissingPrefix <==> |input| < 4)
    ensures r.Success? ==>
      && |r.value.body| == U32Value(input[..4])
      && input == input[..4] + r.value.body + r.value.rest
  {
    if |input| < 4 then Failure(MissingPrefix)
    else
      var n := U32Value(input[..4]);
      if |input| - 4 < n then Failure(ShortBody)
      else
        assert input == input[..4] + input[4..4 + n] + input[4 + n..];
        Success(Frame(input[4..4 + n], input[4 + n..]))
  }

  /** Read after write gives back the body, and leaves whatever followed the frame unread. */
  lemma FrameRoundTrip(body: seq<byte>, rest: seq<byte>)
    requires |body| < U32_LIMIT
    ensures ReadFrame(WriteFrame(body) + rest) == Success(Frame(body, rest))
  {
    var f := WriteFrame(body);
    var input := f + rest;
    assert input[..4] == f[..4];
    assert input[4..4 + |body|] == body;
    assert input[4 + |body|..] == rest;
  }

  /** Every proper prefix of a frame is a read failure: a frame is never read from fewer bytes than were written. */
  lemma TruncatedFrameFails(body: seq<byte>, m: nat)
    requires |body| < U32_LIMIT
    requires m < 4 + |body|
    ensures ReadFrame(WriteFrame(body)[..m]) == Failure(if m < 4 then MissingPrefix else ShortBody)
  {
    var f := WriteFrame(body);
    if 4 <= m {
      assert f[..m][..4] == f[..4];
    }
  }
}
