/**
 * The frame codec of archiver.py: a frame is an eight-byte big-endian length
 * followed by that many payload bytes.
 */
module Framing {
  import opened Errors
  import opened BigEndian
  import opened Seqs

  /** Every header is exactly eight bytes, whatever the platform. */
  const HEADER_SIZE: nat := 8

  /** Lengths below this bound (2^64, see Pow256Eight) fit in a header. */
  const FRAME_LIMIT: nat := Pow256(HEADER_SIZE)

  predicate FitsFrame(payload: seq<byte>) {
    |payload| < FRAME_LIMIT
  }

  /**
   * A frame whose header declares the payload's own length; this is what
   * `mtob` produces when given `size == |message|`.
   */
  function EncodeFrame(payload: seq<byte>): seq<byte>
    requires FitsFrame(payload)
  {
    Digits(|payload|, HEADER_SIZE) + payload
  }

  /**
   * An encoded frame is eight header bytes that read back as the payload's
   * length, then the payload itself.
   */
  lemma EncodeFrameLayout(payload: seq<byte>)
    requires FitsFrame(payload)
    ensures |EncodeFrame(payload)| == HEADER_SIZE + |payload|
    ensures FromBytes(EncodeFrame(payload)[..HEADER_SIZE]) == |payload|
    ensures EncodeFrame(payload)[HEADER_SIZE..] == payload
  {
    FromBytesDigits(|payload|, HEADER_SIZE);
    assert EncodeFrame(payload)[..HEADER_SIZE] == Digits(|payload|, HEADER_SIZE);
  }

  /**
   * `mtob(message, size)`: starts from an empty buffer, appends the eight-byte
   * header of `size` and then the message bytes.  `size.to_bytes` raises when
   * `size` is 2^64 or more, and then nothing is produced.
   */
  method Mtob(message: seq<byte>, size: nat) returns (r: Result<seq<byte>>)
    ensures r.Err? <==> size >= FRAME_LIMIT
    ensures r.Err? ==> r.error == Overflow
    ensures r.Ok? ==> |r.value| == HEADER_SIZE + |message|
    ensures r.Ok? ==> FromBytes(r.value[..HEADER_SIZE]) == size && r.value[HEADER_SIZE..] == message
    ensures size == |message| && r.Ok? ==> r.value == EncodeFrame(message)
  {
    var header := ToBytes(size, HEADER_SIZE);
    if header.Err? {
      return Err(header.error);
    }
    var data: seq<byte> := [];
    data := data + header.value;
    data := data + message;
    assert data[..HEADER_SIZE] == header.value;
    DigitsFromBytes(header.value);
    return Ok(data);
  }

  /**
   * Python's `s[lo:hi]` for bounds `0 <= lo <= hi`: both bounds are clamped
   * to `|s|`, so a slice past the end is shorter or empty, never an error.
   */
  function Slice(s: seq<byte>, lo: nat, hi: nat): seq<byte>
    requires lo <= hi
  {
    if |s| <= lo then [] else if |s| <= hi then s[lo..] else s[lo..hi]
  }

  /** Python's `s[lo:]` for a non-negative bound: empty once `lo` passes the end. */
  function Drop(s: seq<byte>, lo: nat): seq<byte> {
    if |s| <= lo then [] else s[lo..]
  }

  /**
   * One step of the extraction loop as written (archiver.py, lines 78-80 and
   * 82-84): read the length from the first (up to) eight bytes, take the
   * payload, keep what follows.  Short input is clamped the way Python clamps
   * slices, never rejected.
   */
  function PeelFrame(data: seq<byte>): (seq<byte>, seq<byte>) {
    var length := FromBytes(Slice(data, 0, HEADER_SIZE));
    (Slice(data, HEADER_SIZE, HEADER_SIZE + length), Drop(data, HEADER_SIZE + length))
  }

  /**
   * A clamped step loses only the header bytes it read: payload and rest
   * together are everything after them, so a step on non-empty input
   * always shrinks it.
   */
  lemma PeelFrameSplits(data: seq<byte>)
    ensures Drop(data, HEADER_SIZE) == PeelFrame(data).0 + PeelFrame(data).1
    ensures |data| > 0 ==> |PeelFrame(data).1| < |data|
  {
  }

  /**
   * The frame codec's checked decoder: it fails where the header or the
   * payload would run past the end of the input.
   */
  function DecodeFrame(data: seq<byte>): (r: Result<(seq<byte>, seq<byte>)>)
    ensures r.Ok? ==> |r.value.1| < |data|
    ensures r.Err? ==> r.error == (if |data| < HEADER_SIZE then TruncatedHeader else TruncatedPayload)
  {
    if |data| < HEADER_SIZE then Err(TruncatedHeader)
    else
      var length := FromBytes(data[..HEADER_SIZE]);
      if |data| - HEADER_SIZE < length then Err(TruncatedPayload)
      else Ok((data[HEADER_SIZE..HEADER_SIZE + length], data[HEADER_SIZE + length..]))
  }

  /**
   * Whatever the checked decoder accepts is one encoded frame followed by
   * the rest: its header is the payload's own length.
   */
  lemma DecodeFrameSound(data: seq<byte>)
    requires DecodeFrame(data).Ok?
    ensures FitsFrame(DecodeFrame(data).value.0)
    ensures data == EncodeFrame(DecodeFrame(data).value.0) + DecodeFrame(data).value.1
  {
    var header := data[..HEADER_SIZE];
    var length := FromBytes(header);
    var payload, rest := data[HEADER_SIZE..HEADER_SIZE + length], data[HEADER_SIZE + length..];
    assert DecodeFrame(data).value == (payload, rest);
    assert length < FRAME_LIMIT by { FromBytesBound(header); }
    assert Digits(length, HEADER_SIZE) == header by { DigitsFromBytes(header); }
    SplitThree(data, HEADER_SIZE, HEADER_SIZE + length);
  }

  /** A clamping step on a header, the payload it declares and anything after. */
  lemma PeelLaidOut(header: seq<byte>, payload: seq<byte>, rest: seq<byte>)
    requires |header| == HEADER_SIZE && FromBytes(header) == |payload|
    ensures PeelFrame(header + payload + rest) == (payload, rest)
  {
    var data := header + payload + rest;
    assert Slice(data, 0, HEADER_SIZE) == header;
    assert Slice(data, HEADER_SIZE, HEADER_SIZE + |payload|) == payload;
    assert Drop(data, HEADER_SIZE + |payload|) == rest;
  }

  /** A clamping step on a header and a payload that lacks its last byte. */
  lemma PeelLaidOutShort(header: seq<byte>, payload: seq<byte>)
    requires |header| == HEADER_SIZE && FromBytes(header) == |payload| && payload != []
    ensures PeelFrame(header + payload[..|payload| - 1]) == (payload[..|payload| - 1], [])
  {
    var data := header + payload[..|payload| - 1];
    assert Slice(data, 0, HEADER_SIZE) == header;
    assert Slice(data, HEADER_SIZE, HEADER_SIZE + |payload|) == payload[..|payload| - 1];
  }

  /** The checked step on a header, the payload it declares and anything after. */
  lemma DecodeLaidOut(header: seq<byte>, payload: seq<byte>, rest: seq<byte>)
    requires |header| == HEADER_SIZE && FromBytes(header) == |payload|
    ensures DecodeFrame(header + payload + rest) == Ok((payload, rest))
  {
    var data := header + payload + rest;
    assert data[..HEADER_SIZE] == header;
    assert data[HEADER_SIZE..HEADER_SIZE + |payload|] == payload;
    assert data[HEADER_SIZE + |payload|..] == rest;
  }

  /** The checked step rejects a header that declares more bytes than follow it. */
  lemma DecodeOverlongHeader(header: seq<byte>, payload: seq<byte>)
    requires |header| == HEADER_SIZE && FromBytes(header) > |payload|
    ensures DecodeFrame(header + payload) == Err(TruncatedPayload)
  {
    assert (header + payload)[..HEADER_SIZE] == header;
  }

  /** Peeling an encoded frame gives back its payload and exactly what followed it. */
  lemma PeelEncoded(payload: seq<byte>, rest: seq<byte>)
    requires FitsFrame(payload)
    ensures PeelFrame(EncodeFrame(payload) + rest) == (payload, rest)
  {
    var header := Digits(|payload|, HEADER_SIZE);
    FromBytesDigits(|payload|, HEADER_SIZE);
    PeelLaidOut(header, payload, rest);
  }

  /**
   * Peeling a frame that lost its last payload byte, with nothing after it,
   * silently yields the shortened payload and consumes everything.
   */
  lemma PeelTruncated(payload: seq<byte>)
    requires FitsFrame(payload) && payload != []
    ensures |EncodeFrame(payload)| == HEADER_SIZE + |payload|
    ensures PeelFrame(EncodeFrame(payload)[..HEADER_SIZE + |payload| - 1])
         == (payload[..|payload| - 1], [])
  {
    var header := Digits(|payload|, HEADER_SIZE);
    FromBytesDigits(|payload|, HEADER_SIZE);
    InitOfConcat(header, payload);
    PeelLaidOutShort(header, payload);
  }

  /** The checked decoder accepts every encoded frame, whatever follows it. */
  lemma DecodeEncoded(payload: seq<byte>, rest: seq<byte>)
    requires FitsFrame(payload)
    ensures DecodeFrame(EncodeFrame(payload) + rest) == Ok((payload, rest))
  {
    var header := Digits(|payload|, HEADER_SIZE);
    FromBytesDigits(|payload|, HEADER_SIZE);
    DecodeLaidOut(header, payload, rest);
  }

  /** Where the checked decoder succeeds, the clamping step does the same thing. */
  lemma DecodeAgreesWithPeel(data: seq<byte>)
    requires DecodeFrame(data).Ok?
    ensures PeelFrame(data) == DecodeFrame(data).value
  {
    var (payload, rest) := DecodeFrame(data).value;
    DecodeFrameSound(data);
    PeelEncoded(payload, rest);
  }
}
