/**
 * The command envelope: the 4-byte header at the start of the shared buffer
 * and the length-field parser (`get_data`) for the short and the
 * non-conforming extended encodings.
 */
module Apdu {
  import opened Bytes
  import opened Wrappers
  import opened Status

  /** Capacity of the shared receive/transmit buffer. */
  const BufferSize: nat := 260

  /** Class, instruction and the two parameters. */
  datatype ApduHeader = ApduHeader(cla: u8, ins: u8, p1: u8, p2: u8)

  /** The header read from bytes 0..3 of the buffer. */
  function HeaderOf(buf: seq<u8>): (h: ApduHeader)
    requires |buf| >= 4
    ensures HeaderBytes(h) == buf[..4]
  {
    ApduHeader(buf[0], buf[1], buf[2], buf[3])
  }

  /** The four bytes a header occupies on the wire. */
  function HeaderBytes(h: ApduHeader): (s: seq<u8>)
    ensures |s| == 4
  {
    [h.cla, h.ins, h.p1, h.p2]
  }

  /** Reading back the bytes of a header gives the header. */
  lemma HeaderRoundTrip(h: ApduHeader, rest: seq<u8>)
    ensures HeaderOf(HeaderBytes(h) + rest) == h
  {
  }

  /** Where the data field lies in the buffer: `buf[offset..offset + len]`. */
  datatype Span = Span(offset: nat, len: nat)

  /** The bytes a span designates. */
  function Slice(buf: seq<u8>, s: Span): seq<u8>
    requires s.offset + s.len <= |buf|
  {
    buf[s.offset..s.offset + s.len]
  }

  /**
   * The closure `get_data_from_buffer`: a declared length `len` at `offset`
   * is accepted when it is non-zero and fits in the `rx` received bytes.
   */
  function DataAt(len: nat, offset: nat, rx: nat): Result<Span, StatusWord>
  {
    if len == 0 || len + offset > rx then Failure(BadLen) else Success(Span(offset, len))
  }

  /**
   * `get_data`: the data field of the `rx` received bytes. The empty data of
   * the two zero-data forms is returned as the empty span at `rx`.
   */
  function GetData(buf: seq<u8>, rx: nat): (r: Result<Span, StatusWord>)
    requires |buf| == BufferSize
    ensures r.Success? ==> r.value.offset + r.value.len <= rx
    ensures r.Success? && r.value.len != 0 ==> 5 <= r.value.offset
    ensures r.Failure? ==> r.error == BadLen
  {
    if rx == 4 then
      Success(Span(rx, 0))
    else
      var firstLenByte := buf[4];
      if firstLenByte == 0 && rx == 5 then Success(Span(rx, 0))
      else if firstLenByte == 0 && rx == 6 then Failure(BadLen)
      else if firstLenByte == 0 then DataAt(FromLittleEndian(buf[5], buf[6]) as nat, 7, rx)
      else DataAt(firstLenByte as nat, 5, rx)
  }

  /** A conforming command without data (`rx == 4`) has empty data. */
  lemma GetDataNoData(buf: seq<u8>)
    requires |buf| == BufferSize
    ensures GetData(buf, 4) == Success(Span(4, 0))
  {
  }

  /** Fewer than four bytes can never carry a valid length field. */
  lemma GetDataTooShort(buf: seq<u8>, rx: nat)
    requires |buf| == BufferSize && rx < 4
    ensures GetData(buf, rx) == Failure(BadLen)
  {
  }

  /** The non-conforming zero-data form `(0, 5)` and the malformed `(0, 6)`. */
  lemma GetDataZeroFirstByte(buf: seq<u8>)
    requires |buf| == BufferSize && buf[4] == 0
    ensures GetData(buf, 5) == Success(Span(5, 0))
    ensures GetData(buf, 6) == Failure(BadLen)
  {
  }

  /**
   * Extended form: with a zero first length byte and at least 7 bytes, the
   * length is little-endian in bytes 5 and 6 and the data starts at 7.
   */
  lemma GetDataExtended(buf: seq<u8>, rx: nat)
    requires |buf| == BufferSize && buf[4] == 0 && 7 <= rx
    ensures var n := buf[5] as nat + 256 * buf[6] as nat;
      && (GetData(buf, rx).Failure? <==> n == 0 || 7 + n > rx)
      && (GetData(buf, rx).Success? ==> GetData(buf, rx).value == Span(7, n))
  {
  }

  /**
   * Short form: a non-zero first length byte is the length itself and the
   * data starts at 5 (unless exactly 4 bytes came in).
   */
  lemma GetDataShort(buf: seq<u8>, rx: nat)
    requires |buf| == BufferSize && buf[4] != 0 && rx != 4
    ensures GetData(buf, rx).Failure? <==> 5 + buf[4] as nat > rx
    ensures GetData(buf, rx).Success? ==> GetData(buf, rx).value == Span(5, buf[4] as nat)
  {
  }

  /** The quirk of the extended form: a declared length of zero is rejected. */
  lemma ExtendedEmptyRejected(buf: seq<u8>, rx: nat)
    requires |buf| == BufferSize && 7 <= rx && buf[4] == 0 && buf[5] == 0 && buf[6] == 0
    ensures GetData(buf, rx) == Failure(BadLen)
  {
  }

  /** The two length encodings a host may use for a command with data. */
  datatype Encoding = Short | Extended

  /** The length field written before `n` data bytes. */
  function LengthField(enc: Encoding, n: nat): (s: seq<u8>)
    requires 0 < n < 0x100 || (enc.Extended? && n < 0x1_0000)
  {
    match enc
    case Short => [n as u8]
    case Extended => [0, (n % 0x100) as u8, (n / 0x100) as u8]
  }

  /**
   * A command as a host sends it: the header, then (when there is data) the
   * length field and the data.
   */
  function EncodeCommand(h: ApduHeader, enc: Encoding, data: seq<u8>): (s: seq<u8>)
    requires enc.Short? ==> |data| < 0x100
    requires enc.Extended? ==> 0 < |data| < 0x1_0000
  {
    if data == [] && enc.Short? then HeaderBytes(h)
    else HeaderBytes(h) + LengthField(enc, |data|) + data
  }

  /**
   * `get_data` inverts the encoder: a buffer that starts with an encoded
   * command, received in full, yields the header and exactly the data.
   */
  lemma GetDataRoundTrip(buf: seq<u8>, h: ApduHeader, enc: Encoding, data: seq<u8>)
    requires enc.Short? ==> |data| < 0x100
    requires enc.Extended? ==> 0 < |data| < 0x1_0000
    requires |buf| == BufferSize
    requires |EncodeCommand(h, enc, data)| <= BufferSize
    requires buf[..|EncodeCommand(h, enc, data)|] == EncodeCommand(h, enc, data)
    ensures var rx := |EncodeCommand(h, enc, data)|;
      && HeaderOf(buf) == h
      && GetData(buf, rx).Success?
      && Slice(buf, GetData(buf, rx).value) == data
  {
  }

  /**
   * `buf` with the bytes of `m` written from position `at` on, as `append`
   * and the registry lookup do.
   */
  function Overwrite(buf: seq<u8>, at: nat, m: seq<u8>): (r: seq<u8>)
    requires at + |m| <= |buf|
    ensures |r| == |buf|
    ensures forall i :: 0 <= i < |r| ==> r[i] == if at <= i < at + |m| then m[i - at] else buf[i]
  {
    buf[..at] + m + buf[at + |m|..]
  }

  /** Writing `a` and then `b` right after it is writing `a + b`. */
  lemma OverwriteConcat(buf: seq<u8>, at: nat, a: seq<u8>, b: seq<u8>)
    requires at + |a| + |b| <= |buf|
    ensures Overwrite(Overwrite(buf, at, a), at + |a|, b) == Overwrite(buf, at, a + b)
  {
  }

  /** The chunks one after another. */
  function Concat(chunks: seq<seq<u8>>): seq<u8>
  {
    if chunks == [] then [] else chunks[0] + Concat(chunks[1..])
  }

  /** The buffer after one `append` per chunk, starting at `at`. */
  function AppendEach(buf: seq<u8>, at: nat, chunks: seq<seq<u8>>): (r: seq<u8>)
    requires at + |Concat(chunks)| <= |buf|
    ensures |r| == |buf|
    decreases |chunks|
  {
    if chunks == [] then buf
    else AppendEach(Overwrite(buf, at, chunks[0]), at + |chunks[0]|, chunks[1..])
  }

  /**
   * Building an answer by several `append` calls gives the same buffer as
   * one `append` of everything.
   */
  lemma {:induction false} AppendEachIsAppendConcat(buf: seq<u8>, at: nat, chunks: seq<seq<u8>>)
    requires at + |Concat(chunks)| <= |buf|
    ensures AppendEach(buf, at, chunks) == Overwrite(buf, at, Concat(chunks))
    decreases |chunks|
  {
    if chunks != [] {
      var next := Overwrite(buf, at, chunks[0]);
      AppendEachIsAppendConcat(next, at + |chunks[0]|, chunks[1..]);
      OverwriteConcat(buf, at, chunks[0], Concat(chunks[1..]));
    }
  }
}
