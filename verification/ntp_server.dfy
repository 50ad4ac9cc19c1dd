/** The NTP server: the 48-byte NTP header (section 7.3 of RFC 5905) packed
    as one flags byte, three one-byte fields and eleven big-endian 32-bit
    words, and the server's reply to a client request (section 5 of
    RFC 4330). Timestamps are kept as their two 32-bit words. */
module NtpServer {
  import opened Wire

  const PACKET_SIZE: nat := 48
  const WORD_COUNT: nat := 11
  const MODE_SERVER: int := 4
  const REPLY_POLL: int := 10

  /** A 64-bit NTP timestamp as its two words: whole seconds since 1900 and
      the binary fraction of a second. */
  datatype Timestamp = Timestamp(seconds: int, fraction: int)

  /** The packet object's fields. `rootDelay` and `rootDispersion` are
      their 16.16 fixed-point words. Words 9-10 of the header are written
      from the `origTimestampHigh`/`Low` pair; `origTimestamp` and the
      `txTimestampHigh`/`Low` pair are only filled in when reading. */
  datatype PacketFields = PacketFields(
    leap: int, version: int, mode: int,
    stratum: int, poll: int, precision: int,
    rootDelay: int, rootDispersion: int, refId: int,
    refTimestamp: Timestamp,
    origTimestamp: Timestamp, origTimestampHigh: int, origTimestampLow: int,
    recvTimestamp: Timestamp,
    txTimestamp: Timestamp, txTimestampHigh: int, txTimestampLow: int)

  /** The two exceptions: a packet whose fields do not fit the header, and
      a datagram too short to hold one. */
  datatype NtpError = InvalidFields | InvalidPacket

  /** A fresh packet object: everything zero but version, mode and the
      transmit timestamp. */
  function InitialFields(version: int, mode: int, txTimestamp: Timestamp): (p: PacketFields)
    ensures p.version == version && p.mode == mode && p.txTimestamp == txTimestamp
    ensures p.leap == 0 && p.stratum == 0 && p.poll == 0 && p.precision == 0
  {
    PacketFields(0, version, mode, 0, 0, 0, 0, 0, 0, Timestamp(0, 0),
                 Timestamp(0, 0), 0, 0, Timestamp(0, 0), txTimestamp, 0, 0)
  }

  // ---------------------------------------------------------------------
  // The flags byte

  function Pow2(k: nat): (r: nat)
    ensures r >= 1
  {
    if k == 0 then 1 else 2 * Pow2(k - 1)
  }

  /** Bitwise or of two non-negative integers of any size. */
  function BitOr(a: nat, b: nat): (r: nat)
    ensures r >= a && r >= b
    decreases a + b
  {
    if a == 0 then b
    else if b == 0 then a
    else 2 * BitOr(a / 2, b / 2) + (if a % 2 == 1 || b % 2 == 1 then 1 else 0)
  }

  /** Or-ing a value into the clear low bits of another adds it. */
  lemma {:induction false} DisjointBitOr(a: nat, b: nat, k: nat, m: nat)
    requires m == Pow2(k) && b < m
    ensures BitOr(a * m, b) == a * m + b
    decreases k
  {
    if k > 0 && a != 0 && b != 0 {
      var half := Pow2(k - 1);
      var x := a * half;
      assert a * m == 2 * x;
      DisjointBitOr(a, b / 2, k - 1, half);
    }
  }

  /** `leap << 6 | version << 3 | mode` on unbounded integers, or None when
      the result is not a byte (negative when any operand is). */
  function Flags(leap: int, version: int, mode: int): Option<nat>
  {
    if leap < 0 || version < 0 || mode < 0 then None
    else
      var b := BitOr(leap * 64, BitOr(version * 8, mode));
      if b < 256 then Some(b) else None
  }

  /** Fields within their 2, 3 and 3 bits pack side by side. */
  lemma FlagsPack(leap: int, version: int, mode: int)
    requires 0 <= leap < 4 && 0 <= version < 8 && 0 <= mode < 8
    ensures Flags(leap, version, mode) == Some(leap * 64 + version * 8 + mode)
  {
    ShiftWidths();
    DisjointBitOr(version, mode, 3, 8);
    var low := version * 8 + mode;
    assert BitOr(version * 8, mode) == low;
    DisjointBitOr(leap, low, 6, 64);
    assert BitOr(leap * 64, low) == leap * 64 + low < 256;
  }

  /** The flags byte shifts by 3 and by 6 bits. */
  lemma ShiftWidths()
    ensures Pow2(3) == 8 && Pow2(6) == 64
  {
    assert Pow2(3) == 8;
    assert Pow2(6) == 8 * Pow2(3);
  }

  /** The fields a flags byte holds: `b >> 6 & 3`, `b >> 3 & 7`, `b & 7`. */
  function LeapOf(b: Byte): int { b / 64 % 4 }
  function VersionOf(b: Byte): int { b / 8 % 8 }
  function ModeOf(b: Byte): int { b % 8 }

  lemma FlagsRoundTrip(leap: int, version: int, mode: int)
    requires 0 <= leap < 4 && 0 <= version < 8 && 0 <= mode < 8
    ensures Flags(leap, version, mode).Some?
    ensures var b := Flags(leap, version, mode).value;
      b < 256 && LeapOf(b) == leap && VersionOf(b) == version && ModeOf(b) == mode
  {
    FlagsPack(leap, version, mode);
    PackedFields(leap, version, mode);
  }

  /** The shifts and masks recover fields laid side by side in a byte. */
  lemma PackedFields(leap: int, version: int, mode: int)
    requires 0 <= leap < 4 && 0 <= version < 8 && 0 <= mode < 8
    ensures var b := leap * 64 + version * 8 + mode;
      0 <= b < 256 && LeapOf(b) == leap && VersionOf(b) == version && ModeOf(b) == mode
  {
    var b := leap * 64 + version * 8 + mode;
    assert b / 8 == leap * 8 + version;
    assert b / 64 == leap;
  }

  /** Reading the three fields of a byte and packing them gives the byte. */
  lemma FlagsOfByte(b: Byte)
    ensures Flags(LeapOf(b), VersionOf(b), ModeOf(b)) == Some(b)
  {
    ByteFields(b);
    FlagsPack(LeapOf(b), VersionOf(b), ModeOf(b));
  }

  lemma ByteFields(b: Byte)
    ensures LeapOf(b) < 4 && VersionOf(b) < 8 && ModeOf(b) < 8
    ensures b == 64 * LeapOf(b) + 8 * VersionOf(b) + ModeOf(b)
  {
    var hi := b / 8;
    assert b == 8 * hi + b % 8;
    assert hi == 8 * (hi / 8) + hi % 8;
    assert b / 64 == hi / 8;
  }

  // ---------------------------------------------------------------------
  // The eleven words

  function Words(p: PacketFields): (ws: seq<int>)
    ensures |ws| == WORD_COUNT
  {
    [p.rootDelay, p.rootDispersion, p.refId,
     p.refTimestamp.seconds, p.refTimestamp.fraction,
     p.origTimestampHigh, p.origTimestampLow,
     p.recvTimestamp.seconds, p.recvTimestamp.fraction,
     p.txTimestamp.seconds, p.txTimestamp.fraction]
  }

  predicate IsWord(w: int)
  {
    0 <= w < 0x1_0000_0000
  }

  predicate AllWords(ws: seq<int>)
  {
    forall i :: 0 <= i < |ws| ==> IsWord(ws[i])
  }

  /** Words as consecutive 4-byte big-endian fields. */
  function EncodeWords(ws: seq<int>): (r: Bytes)
    requires AllWords(ws)
    ensures |r| == 4 * |ws|
  {
    if ws == [] then [] else ToBE(ws[0], 4) + EncodeWords(ws[1..])
  }

  /** Consecutive 4-byte big-endian fields read as words. */
  function DecodeWords(b: Bytes): (ws: seq<int>)
    requires |b| % 4 == 0
    ensures |ws| == |b| / 4 && AllWords(ws)
  {
    if b == [] then []
    else
      FromBEBound(b[..4]);
      [FromBE(b[..4])] + DecodeWords(b[4..])
  }

  lemma {:induction false} WordsRoundTrip(ws: seq<int>)
    requires AllWords(ws)
    ensures DecodeWords(EncodeWords(ws)) == ws
  {
    if ws != [] {
      var b := EncodeWords(ws);
      assert b[..4] == ToBE(ws[0], 4);
      assert b[4..] == EncodeWords(ws[1..]);
      BERoundTrip(ws[0], 4);
      WordsRoundTrip(ws[1..]);
    }
  }

  lemma {:induction false} WordsInverse(b: Bytes)
    requires |b| % 4 == 0
    ensures EncodeWords(DecodeWords(b)) == b
  {
    if b != [] {
      BEInverse(b[..4]);
      WordsInverse(b[4..]);
      assert b == b[..4] + b[4..];
    }
  }

  /** Word i is read from bytes 4i..4i+4. */
  lemma {:induction false} DecodeWordsAt(b: Bytes, i: nat)
    requires |b| % 4 == 0 && i < |b| / 4
    ensures DecodeWords(b)[i] == FromBE(b[4 * i .. 4 * i + 4])
    decreases i
  {
    if i > 0 {
      DecodeWordsAt(b[4..], i - 1);
      assert b[4..][4 * (i - 1) .. 4 * (i - 1) + 4] == b[4 * i .. 4 * i + 4];
    }
  }

  // ---------------------------------------------------------------------
  // Packing and unpacking

  /** Every field fits its slot of the header. */
  predicate Fits(p: PacketFields)
    ensures Fits(p) ==> 0 <= p.leap < 4 && 0 <= p.version < 32 && 0 <= p.mode < 256
  {
    && Flags(p.leap, p.version, p.mode).Some?
    && 0 <= p.stratum < 256
    && 0 <= p.poll < 256
    && -128 <= p.precision < 128
    && AllWords(Words(p))
  }

  /** The header bytes `to_data` produces, or the error it raises. */
  function Pack(p: PacketFields): (r: Result<Bytes, NtpError>)
    ensures r.Ok? ==> |r.value| == PACKET_SIZE
  {
    if !Fits(p) then Err(InvalidFields) else Ok(Header(p))
  }

  /** The flags byte, stratum, poll, precision as a signed byte, then the
      eleven words. */
  function Header(p: PacketFields): (r: Bytes)
    requires Fits(p)
    ensures |r| == PACKET_SIZE
  {
    [Flags(p.leap, p.version, p.mode).value, p.stratum, p.poll, p.precision % 256]
    + EncodeWords(Words(p))
  }

  /** A byte read as a two's-complement signed byte (struct format `b`). */
  function SignedByte(b: Byte): (r: int)
    ensures -128 <= r < 128 && r % 256 == b
  {
    if b < 128 then b else b - 256
  }

  /** Writing a signed byte as `precision % 256` and reading it back gives it. */
  lemma SignedByteRoundTrip(x: int)
    requires -128 <= x < 128
    ensures SignedByte(x % 256) == x
  {
  }

  /** The fields `from_data` reads from the first 48 bytes of a datagram. */
  function Unpack(data: Bytes): (r: Result<PacketFields, NtpError>)
    ensures r.Err? <==> |data| < PACKET_SIZE
    ensures r.Err? ==> r.error == InvalidPacket
  {
    if |data| < PACKET_SIZE then Err(InvalidPacket)
    else
      var ws := DecodeWords(data[4..PACKET_SIZE]);
      Ok(PacketFields(
        LeapOf(data[0]), VersionOf(data[0]), ModeOf(data[0]),
        data[1], data[2], SignedByte(data[3]),
        ws[0], ws[1], ws[2],
        Timestamp(ws[3], ws[4]),
        Timestamp(ws[5], ws[6]), ws[5], ws[6],
        Timestamp(ws[7], ws[8]),
        Timestamp(ws[9], ws[10]), ws[9], ws[10]))
  }

  /** The header is the flags byte, stratum, poll, precision as a signed
      byte, then the eleven words big-endian in field order. */
  lemma PackLayout(p: PacketFields)
    requires Fits(p)
    ensures var r := Pack(p).value;
      && r[0] == Flags(p.leap, p.version, p.mode).value
      && r[1] == p.stratum && r[2] == p.poll
      && r[3] == p.precision % 256
      && forall i :: 0 <= i < WORD_COUNT ==> FromBE(r[4 + 4 * i .. 8 + 4 * i]) == Words(p)[i]
  {
    assert Pack(p) == Ok(Header(p));
    HeaderPrefix(p);
    HeaderWordSlices(p);
  }

  lemma HeaderPrefix(p: PacketFields)
    requires Fits(p)
    ensures var r := Header(p);
      && r[0] == Flags(p.leap, p.version, p.mode).value
      && r[1] == p.stratum && r[2] == p.poll && r[3] == p.precision % 256
  {
  }

  /** Word i of the header sits, big-endian, at bytes 4 + 4i .. 8 + 4i. */
  lemma HeaderWordSlices(p: PacketFields)
    requires Fits(p)
    ensures forall i :: 0 <= i < WORD_COUNT ==> FromBE(Header(p)[4 + 4 * i .. 8 + 4 * i]) == Words(p)[i]
  {
    var r := Header(p);
    var tail := r[4..PACKET_SIZE];
    HeaderWords(p);
    forall i | 0 <= i < WORD_COUNT
      ensures FromBE(r[4 + 4 * i .. 8 + 4 * i]) == Words(p)[i]
    {
      DecodeWordsAt(tail, i);
      SliceOfSlice(r, 4, PACKET_SIZE, 4 * i, 4 * i + 4);
    }
  }

  /** A slice of a slice is a slice of the original. */
  lemma SliceOfSlice(s: Bytes, a: nat, b: nat, c: nat, d: nat)
    requires a <= b <= |s| && c <= d <= b - a
    ensures s[a..b][c..d] == s[a + c .. a + d]
  {
    assert forall j :: 0 <= j < d - c ==> s[a..b][c..d][j] == s[a + c + j];
  }

  /** `to_data` raises on any field that does not fit: a negative flags
      field, leap from 4, version from 32, mode from 256 (each overflows
      the byte on its own), stratum or poll outside 0..255, precision
      outside -128..127, or a word outside 0..2^32-1. */
  lemma PackRejects(p: PacketFields)
    ensures p.leap < 0 || p.version < 0 || p.mode < 0 ==> Pack(p) == Err(InvalidFields)
    ensures p.leap >= 4 || p.version >= 32 || p.mode >= 256 ==> Pack(p) == Err(InvalidFields)
    ensures !(0 <= p.stratum < 256) || !(0 <= p.poll < 256) ==> Pack(p) == Err(InvalidFields)
    ensures !(-128 <= p.precision < 128) ==> Pack(p) == Err(InvalidFields)
    ensures !AllWords(Words(p)) ==> Pack(p) == Err(InvalidFields)
  {
  }

  /** The packet `from_data` reads back from `to_data`'s bytes: every field
      as it was, except that the originate timestamp is read from the
      high/low pair that was written, and the transmit high/low pair from
      the transmit timestamp. The flags round-trip when leap, version and
      mode fit their 2, 3 and 3 bits. */
  lemma PackRoundTrip(p: PacketFields)
    requires Fits(p) && p.leap < 4 && p.version < 8 && p.mode < 8
    ensures Unpack(Pack(p).value) == Ok(p.(
      origTimestamp := Timestamp(p.origTimestampHigh, p.origTimestampLow),
      txTimestampHigh := p.txTimestamp.seconds,
      txTimestampLow := p.txTimestamp.fraction))
  {
    HeaderBytes(p);
    HeaderWords(p);
  }

  /** The four leading bytes of the header read back as the fields
      written there. */
  lemma HeaderBytes(p: PacketFields)
    requires Fits(p) && p.leap < 4 && p.version < 8 && p.mode < 8
    ensures var r := Header(p);
      && LeapOf(r[0]) == p.leap && VersionOf(r[0]) == p.version && ModeOf(r[0]) == p.mode
      && r[1] == p.stratum && r[2] == p.poll && SignedByte(r[3]) == p.precision
  {
    FlagsRoundTrip(p.leap, p.version, p.mode);
    SignedByteRoundTrip(p.precision);
  }

  /** The eleven words of the header read back as the words written. */
  lemma HeaderWords(p: PacketFields)
    requires Fits(p)
    ensures DecodeWords(Header(p)[4..PACKET_SIZE]) == Words(p)
  {
    assert Header(p)[4..PACKET_SIZE] == EncodeWords(Words(p));
    WordsRoundTrip(Words(p));
  }

  /** Packing what was read gives back the first 48 bytes of the datagram. */
  lemma UnpackRoundTrip(data: Bytes)
    requires |data| >= PACKET_SIZE
    ensures Pack(Unpack(data).value) == Ok(data[..PACKET_SIZE])
  {
    var f := Unpack(data).value;
    var tail := data[4..PACKET_SIZE];
    UnpackFits(data);
    WordsInverse(tail);
    assert data[..PACKET_SIZE] == [data[0], data[1], data[2], data[3]] + tail;
  }

  /** What `from_data` reads always fits the header again, field by field. */
  lemma UnpackFits(data: Bytes)
    requires |data| >= PACKET_SIZE
    ensures var f := Unpack(data).value;
      && Flags(f.leap, f.version, f.mode) == Some(data[0])
      && f.precision % 256 == data[3]
      && Words(f) == DecodeWords(data[4..PACKET_SIZE])
      && Fits(f)
  {
    FlagsOfByte(data[0]);
  }

  /** Header word i of a datagram, as `from_data` reads it. */
  function WordAt(data: Bytes, i: nat): int
    requires |data| >= PACKET_SIZE && i < WORD_COUNT
  {
    FromBE(data[4 + 4 * i .. 8 + 4 * i])
  }

  /** `from_data` puts words 9-10 in the originate pair and words 13-14
      (word indices 9 and 10 after the four leading bytes) in the transmit
      pair that `GetTxTimeStamp` returns. */
  lemma UnpackWords(data: Bytes)
    requires |data| >= PACKET_SIZE
    ensures var f := Unpack(data).value;
      && f.stratum == data[1] && f.poll == data[2]
      && f.refId == WordAt(data, 2)
      && f.origTimestampHigh == WordAt(data, 5) && f.origTimestampLow == WordAt(data, 6)
      && f.txTimestampHigh == WordAt(data, 9) && f.txTimestampLow == WordAt(data, 10)
  {
    var tail := data[4..PACKET_SIZE];
    forall i | 0 <= i < WORD_COUNT
      ensures DecodeWords(tail)[i] == WordAt(data, i)
    {
      DecodeWordsAt(tail, i);
      assert tail[4 * i .. 4 * i + 4] == data[4 + 4 * i .. 8 + 4 * i];
    }
  }

  // ---------------------------------------------------------------------
  // The packet object

  class NTPPacket {
    var leap: int
    var version: int
    var mode: int
    var stratum: int
    var poll: int
    var precision: int
    var rootDelay: int
    var rootDispersion: int
    var refId: int
    var refTimestamp: Timestamp
    var origTimestamp: Timestamp
    var origTimestampHigh: int
    var origTimestampLow: int
    var recvTimestamp: Timestamp
    var txTimestamp: Timestamp
    var txTimestampHigh: int
    var txTimestampLow: int

    function Fields(): PacketFields
      reads this
    {
      PacketFields(leap, version, mode, stratum, poll, precision,
                   rootDelay, rootDispersion, refId, refTimestamp,
                   origTimestamp, origTimestampHigh, origTimestampLow,
                   recvTimestamp, txTimestamp, txTimestampHigh, txTimestampLow)
    }

    constructor (version: int, mode: int, txTimestamp: Timestamp)
      ensures Fields() == InitialFields(version, mode, txTimestamp)
    {
      leap := 0;
      this.version := version;
      this.mode := mode;
      stratum := 0;
      poll := 0;
      precision := 0;
      rootDelay := 0;
      rootDispersion := 0;
      refId := 0;
      refTimestamp := Timestamp(0, 0);
      origTimestamp := Timestamp(0, 0);
      origTimestampHigh := 0;
      origTimestampLow := 0;
      recvTimestamp := Timestamp(0, 0);
      this.txTimestamp := txTimestamp;
      txTimestampHigh := 0;
      txTimestampLow := 0;
    }

    /** The header bytes, or the error `to_data` raises. It fails exactly
        when a field does not fit its slot; its bytes, read back by
        `from_data` and packed again, are the same bytes. */
    function ToData(): (r: Result<Bytes, NtpError>)
      reads this
      ensures r.Ok? <==> Fits(Fields())
      ensures r.Ok? ==> |r.value| == PACKET_SIZE && Pack(Unpack(r.value).value) == r
    {
      var r := Pack(Fields());
      if r.Err? then r
      else
        UnpackRoundTrip(r.value);
        assert r.value[..PACKET_SIZE] == r.value;
        r
    }

    /** Overwrites every field from the first 48 bytes of `data`; a shorter
        datagram raises before any field changes. */
    method FromData(data: Bytes) returns (error: Option<NtpError>)
      modifies this
      ensures |data| < PACKET_SIZE ==> error == Some(InvalidPacket) && Fields() == old(Fields())
      ensures |data| >= PACKET_SIZE ==> error == None && Fields() == Unpack(data).value
    {
      if |data| < PACKET_SIZE {
        return Some(InvalidPacket);
      }
      Assign(Unpack(data).value);
      error := None;
    }

    /** Sets every field from a record, one attribute at a time. */
    method Assign(p: PacketFields)
      modifies this
      ensures Fields() == p
    {
      AssignHeader(p);
      AssignReference(p);
      AssignTimestamps(p);
    }

    method AssignHeader(p: PacketFields)
      modifies this`leap, this`version, this`mode, this`stratum, this`poll, this`precision
      ensures leap == p.leap && version == p.version && mode == p.mode
      ensures stratum == p.stratum && poll == p.poll && precision == p.precision
    {
      leap, version, mode := p.leap, p.version, p.mode;
      stratum, poll, precision := p.stratum, p.poll, p.precision;
    }

    method AssignReference(p: PacketFields)
      modifies this`rootDelay, this`rootDispersion, this`refId, this`refTimestamp, this`origTimestamp
      ensures rootDelay == p.rootDelay && rootDispersion == p.rootDispersion && refId == p.refId
      ensures refTimestamp == p.refTimestamp && origTimestamp == p.origTimestamp
    {
      rootDelay, rootDispersion, refId := p.rootDelay, p.rootDispersion, p.refId;
      refTimestamp := p.refTimestamp;
      origTimestamp := p.origTimestamp;
    }

    method AssignTimestamps(p: PacketFields)
      modifies this`origTimestampHigh, this`origTimestampLow, this`recvTimestamp,
               this`txTimestamp, this`txTimestampHigh, this`txTimestampLow
      ensures origTimestampHigh == p.origTimestampHigh && origTimestampLow == p.origTimestampLow
      ensures recvTimestamp == p.recvTimestamp && txTimestamp == p.txTimestamp
      ensures txTimestampHigh == p.txTimestampHigh && txTimestampLow == p.txTimestampLow
    {
      origTimestampHigh, origTimestampLow := p.origTimestampHigh, p.origTimestampLow;
      recvTimestamp := p.recvTimestamp;
      txTimestamp := p.txTimestamp;
      txTimestampHigh, txTimestampLow := p.txTimestampHigh, p.txTimestampLow;
    }

    function GetTxTimeStamp(): (int, int)
      reads this
    {
      (txTimestampHigh, txTimestampLow)
    }

    method SetOriginTimeStamp(high: int, low: int)
      modifies this`origTimestampHigh, this`origTimestampLow
      ensures Fields() == old(Fields()).(origTimestampHigh := high, origTimestampLow := low)
    {
      origTimestampHigh := high;
      origTimestampLow := low;
    }
  }

  /** Once `from_data` has read a datagram, `GetTxTimeStamp` returns its
      transmit words, bytes 40..44 and 44..48. */
  lemma TransmitWordsRead(p: NTPPacket, data: Bytes)
    requires |data| >= PACKET_SIZE && p.Fields() == Unpack(data).value
    ensures p.GetTxTimeStamp() == (WordAt(data, 9), WordAt(data, 10))
  {
    UnpackWords(data);
  }

  // ---------------------------------------------------------------------
  // The server's reply

  /** The reply packet for a request whose transmit words are `txHigh` and
      `txLow`: mode 4, the server's version and stratum, poll 10, a
      reference timestamp 5 seconds before the receive time, the request's
      transmit words as originate words, and the receive and transmit
      times. */
  function ReplyFields(version: int, stratum: int, txHigh: int, txLow: int,
                       recvTimestamp: Timestamp, txTimestamp: Timestamp): PacketFields
  {
    InitialFields(version, MODE_SERVER, Timestamp(0, 0)).(
      stratum := stratum,
      poll := REPLY_POLL,
      refTimestamp := Timestamp(recvTimestamp.seconds - 5, recvTimestamp.fraction),
      origTimestampHigh := txHigh,
      origTimestampLow := txLow,
      recvTimestamp := recvTimestamp,
      txTimestamp := txTimestamp)
  }

  /** The bytes sent back for a request datagram, or the error that ends
      the worker. */
  function ReplyTo(version: int, stratum: int, data: Bytes,
                   recvTimestamp: Timestamp, txTimestamp: Timestamp): Result<Bytes, NtpError>
  {
    match Unpack(data)
    case Err(e) => Err(e)
    case Ok(request) =>
      Pack(ReplyFields(version, stratum, request.txTimestampHigh, request.txTimestampLow,
                       recvTimestamp, txTimestamp))
  }

  /** A request shorter than a header gets no reply: `from_data` raises. */
  lemma ShortRequestFails(version: int, stratum: int, data: Bytes, recvTimestamp: Timestamp, txTimestamp: Timestamp)
    requires |data| < PACKET_SIZE
    ensures ReplyTo(version, stratum, data, recvTimestamp, txTimestamp) == Err(InvalidPacket)
  {
  }

  /** With a version of at most 7, a one-byte stratum and timestamps that
      fit their words, every full-size request gets a 48-byte reply that
      reads back as mode 4 with the server's version and stratum, poll 10,
      and as originate words the request's transmit words 13-14. */
  lemma ServerReply(version: int, stratum: int, data: Bytes, recvTimestamp: Timestamp, txTimestamp: Timestamp)
    requires |data| >= PACKET_SIZE
    requires 0 <= version < 8 && 0 <= stratum < 256
    requires 5 <= recvTimestamp.seconds < 0x1_0000_0000 && IsWord(recvTimestamp.fraction)
    requires IsWord(txTimestamp.seconds) && IsWord(txTimestamp.fraction)
    ensures ReplyTo(version, stratum, data, recvTimestamp, txTimestamp).Ok?
    ensures var reply := Unpack(ReplyTo(version, stratum, data, recvTimestamp, txTimestamp).value).value;
      && reply.leap == 0 && reply.mode == MODE_SERVER && reply.version == version
      && reply.stratum == stratum && reply.poll == REPLY_POLL
      && reply.origTimestampHigh == WordAt(data, 9) && reply.origTimestampLow == WordAt(data, 10)
      && reply.refTimestamp == Timestamp(recvTimestamp.seconds - 5, recvTimestamp.fraction)
      && reply.recvTimestamp == recvTimestamp
      && reply.txTimestamp == txTimestamp
  {
    var request := Unpack(data).value;
    UnpackWords(data);
    var p := ReplyFields(version, stratum, request.txTimestampHigh, request.txTimestampLow,
                         recvTimestamp, txTimestamp);
    FlagsPack(0, version, MODE_SERVER);
    assert Fits(p);
    PackRoundTrip(p);
  }

  /** The reply depends on the request only through its transmit words. */
  lemma ReplyUsesOnlyTransmitWords(version: int, stratum: int, d1: Bytes, d2: Bytes,
                                   recvTimestamp: Timestamp, txTimestamp: Timestamp)
    requires |d1| >= PACKET_SIZE && |d2| >= PACKET_SIZE
    requires d1[40..PACKET_SIZE] == d2[40..PACKET_SIZE]
    ensures ReplyTo(version, stratum, d1, recvTimestamp, txTimestamp)
         == ReplyTo(version, stratum, d2, recvTimestamp, txTimestamp)
  {
    UnpackWords(d1);
    UnpackWords(d2);
    assert d1[40..44] == d1[40..PACKET_SIZE][..4] && d1[44..48] == d1[40..PACKET_SIZE][4..];
    assert d2[40..44] == d2[40..PACKET_SIZE][..4] && d2[44..48] == d2[40..PACKET_SIZE][4..];
  }

  /** One queued request: the datagram, the client address it came from,
      the receive time taken on arrival and the clock reading when the
      reply is built. */
  datatype Request = Request(data: Bytes, client: int, recvTimestamp: Timestamp, txTimestamp: Timestamp)

  function Answer(version: int, stratum: int, r: Request): Result<Bytes, NtpError>
  {
    ReplyTo(version, stratum, r.data, r.recvTimestamp, r.txTimestamp)
  }

  class NTPServer {
    const version: int
    const stratum: int

    constructor (version: int, stratum: int)
      ensures this.version == version && this.stratum == stratum
    {
      this.version := version;
      this.stratum := stratum;
    }

    /** Builds the reply to one request datagram as the worker does: read
        the request into a fresh packet, then fill a fresh server packet. */
    method HandleRequest(data: Bytes, recvTimestamp: Timestamp, txTimestamp: Timestamp)
      returns (reply: Result<Bytes, NtpError>)
      ensures reply == ReplyTo(version, stratum, data, recvTimestamp, txTimestamp)
    {
      var recvPacket := new NTPPacket(2, 3, Timestamp(0, 0));
      var error := recvPacket.FromData(data);
      if error.Some? {
        return Err(error.value);
      }
      var (txHigh, txLow) := recvPacket.GetTxTimeStamp();
      var sendPacket := BuildReply(txHigh, txLow, recvTimestamp, txTimestamp);
      reply := sendPacket.ToData();
    }

    /** Fills a fresh server packet as the worker does, attribute by
        attribute, for a request with transmit words `txHigh`, `txLow`. */
    method BuildReply(txHigh: int, txLow: int, recvTimestamp: Timestamp, txTimestamp: Timestamp)
      returns (sendPacket: NTPPacket)
      ensures fresh(sendPacket)
      ensures sendPacket.Fields() == ReplyFields(version, stratum, txHigh, txLow, recvTimestamp, txTimestamp)
    {
      sendPacket := new NTPPacket(version, MODE_SERVER, Timestamp(0, 0));
      ghost var fields := InitialFields(version, MODE_SERVER, Timestamp(0, 0));
      sendPacket.stratum := stratum;
      sendPacket.poll := REPLY_POLL;
      fields := fields.(stratum := stratum, poll := REPLY_POLL);
      assert sendPacket.Fields() == fields;
      sendPacket.refTimestamp := Timestamp(recvTimestamp.seconds - 5, recvTimestamp.fraction);
      fields := fields.(refTimestamp := sendPacket.refTimestamp);
      assert sendPacket.Fields() == fields;
      sendPacket.SetOriginTimeStamp(txHigh, txLow);
      sendPacket.recvTimestamp := recvTimestamp;
      fields := fields.(origTimestampHigh := txHigh, origTimestampLow := txLow, recvTimestamp := recvTimestamp);
      assert sendPacket.Fields() == fields;
      sendPacket.txTimestamp := txTimestamp;
    }

    /** The worker over a run of queued requests: each one answered in
        order, to the address it came from, until a request or a reply
        raises, which ends the worker. */
    method WorkLoop(requests: seq<Request>) returns (replies: seq<(Bytes, int)>, failure: Option<NtpError>)
      ensures |replies| <= |requests|
      ensures forall i :: 0 <= i < |replies| ==>
        Answer(version, stratum, requests[i]) == Ok(replies[i].0) && replies[i].1 == requests[i].client
      ensures failure.None? <==> |replies| == |requests|
      ensures failure.Some? ==> Answer(version, stratum, requests[|replies|]) == Err(failure.value)
    {
      replies := [];
      var i := 0;
      while i < |requests|
        invariant i <= |requests| && |replies| == i
        invariant forall j :: 0 <= j < i ==>
          Answer(version, stratum, requests[j]) == Ok(replies[j].0) && replies[j].1 == requests[j].client
      {
        var request := requests[i];
        var reply := HandleRequest(request.data, request.recvTimestamp, request.txTimestamp);
        assert Answer(version, stratum, requests[i]) == reply;
        if reply.Err? {
          return replies, Some(reply.error);
        }
        replies := replies + [(reply.value, request.client)];
        i := i + 1;
      }
      failure := None;
    }
  }

  // ---------------------------------------------------------------------
  // The NTP era offset

  /** A calendar date in the proleptic Gregorian calendar. */
  datatype Date = Date(year: int, month: int, day: int)

  predicate IsLeapYear(y: int)
  {
    y % 4 == 0 && (y % 100 != 0 || y % 400 == 0)
  }

  function DaysInYear(y: int): int
  {
    if IsLeapYear(y) then 366 else 365
  }

  function DaysInMonth(y: int, m: int): int
    requires 1 <= m <= 12
  {
    if m == 2 then (if IsLeapYear(y) then 29 else 28)
    else if m == 4 || m == 6 || m == 9 || m == 11 then 30
    else 31
  }

  predicate ValidDate(d: Date)
  {
    d.year >= 1900 && 1 <= d.month <= 12 && 1 <= d.day <= DaysInMonth(d.year, d.month)
  }

  /** Days from 1 January 1900 to 1 January of year y. */
  function DaysBeforeYear(y: int): int
    requires y >= 1900
    decreases y - 1900
  {
    if y == 1900 then 0 else DaysBeforeYear(y - 1) + DaysInYear(y - 1)
  }

  /** Days from 1 January to the first of month m. */
  function DaysBeforeMonth(y: int, m: int): int
    requires 1 <= m <= 12
  {
    if m == 1 then 0 else DaysBeforeMonth(y, m - 1) + DaysInMonth(y, m - 1)
  }

  /** The day count of a date since 1 January 1900 (day 0). */
  function DayNumber(d: Date): int
    requires ValidDate(d)
  {
    DaysBeforeYear(d.year) + DaysBeforeMonth(d.year, d.month) + d.day - 1
  }

  const NTP_EPOCH: Date := Date(1900, 1, 1)
  const UNIX_EPOCH: Date := Date(1970, 1, 1)

  /** Seconds from the NTP epoch to the system epoch: whole days times 86400. */
  function NtpDelta(systemEpoch: Date): int
    requires ValidDate(systemEpoch)
  {
    (DayNumber(systemEpoch) - DayNumber(NTP_EPOCH)) * 24 * 3600
  }

  /** Every fourth year from 1904 to 2096 is a leap year, 1900 is not. */
  lemma {:induction false} DaysBeforeYearCount(y: int)
    requires 1901 <= y <= 2100
    ensures DaysBeforeYear(y) == 365 * (y - 1900) + (y - 1901) / 4
    decreases y
  {
    if y > 1901 {
      DaysBeforeYearCount(y - 1);
    }
  }

  /** With the system epoch at 1 January 1970 the offset is 2208988800 s. */
  lemma UnixEpochDelta()
    ensures NtpDelta(UNIX_EPOCH) == 2208988800
  {
    DaysBeforeYearCount(1970);
  }

  /** System time in seconds since 1970 as seconds since 1900. */
  function SystemToNtpTime(t: int): (r: int)
    ensures r == t + 2208988800
  {
    UnixEpochDelta();
    t + NtpDelta(UNIX_EPOCH)
  }
}
