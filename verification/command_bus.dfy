/** The controller command channel: request framing with a per-bus sequence
    counter, a FIFO of pending commands drained by one worker, and the
    length-checked parse of reply datagrams. All records are packed (no
    padding) ctypes structures in native byte order, little-endian on the
    hosts the program runs on; replies are read little-endian explicitly. */
module CommandBus {
  import opened Wire

  // Command identifiers (`commands` enumeration).
  const CMD_NOOP: int := 0
  const CMD_FWD_DIR: int := 1
  const CMD_STEER: int := 2
  const CMD_CAMERA_SET_MODE: int := 3

  // Camera sub-commands (`CamCommands` enumeration) and stream modes.
  const CMD_SET_FRAME_RATE: int := 0
  const CMD_START_STREAM: int := 1
  const CMD_STOP_STREAM: int := 2
  const CMD_STREAM_MODE: int := 3
  const CMD_SEL_MODE: int := 4
  const CMD_CLR_VIDEO_REC: int := 5
  const STREAM_CAMERA: int := 0
  const STREAM_SIM: int := 1

  // Packed record sizes in bytes.
  const VALUE_SIZE: nat := 4        // val_type_t: its widest member is 4 bytes
  const HEADER_SIZE: nat := 6       // sequence_id u32, msg_length u16
  const BODY_SIZE: nat := 9         // payload: command_id u8, data, payloadLen u32
  const MIN_FRAME: nat := 15        // HEADER_SIZE + BODY_SIZE
  const REPLY_SIZE: nat := 5        // replyPayload: data, status u8
  const CAMERA_COMMAND_SIZE: nat := 5  // CameraCommand: command u8, data

  type U32 = x: int | 0 <= x < 0x1_0000_0000

  /** The value of a command. An integer is stored in the union's `i`
      member (a 32-bit signed int); a float is stored in its `f32` member,
      given here by the bits of its single-precision encoding. */
  datatype Value = IntValue(i: int) | FloatValue(f32Bits: U32)

  /** A queued command. `replyCallback` is an opaque handle: the bus stores
      it but never calls it. */
  datatype Command = Command(commandId: int, value: Value, payload: Bytes, replyCallback: Option<nat>)

  /** What `submit` accepts: a full command or a `(command_id, value)` pair. */
  datatype Submission = Full(cmd: Command) | Shorthand(commandId: int, value: Value)

  function Normalize(s: Submission): Command
  {
    match s
    case Full(cmd) => cmd
    case Shorthand(id, v) => Command(id, v, [], None)
  }

  /** A 32-bit field read as a signed two's-complement integer. */
  function AsSigned32(u: nat): int
  {
    if u < 0x8000_0000 then u else u - 0x1_0000_0000
  }

  /** The 4 bytes of the value union. An integer is truncated to 32 bits
      (two's complement), which is exact for values in the signed range. */
  function ValueBytes(v: Value): (r: Bytes)
    ensures |r| == VALUE_SIZE
    ensures v.IntValue? ==> FromLE(r) == v.i % 0x1_0000_0000
    ensures v.IntValue? && -0x8000_0000 <= v.i < 0x8000_0000 ==> AsSigned32(FromLE(r)) == v.i
    ensures v.FloatValue? ==> FromLE(r) == v.f32Bits
  {
    FieldSizes();
    match v
    case IntValue(i) =>
      LERoundTrip(i % 0x1_0000_0000, 4);
      ToLE(i % 0x1_0000_0000, 4)
    case FloatValue(bits) =>
      LERoundTrip(bits, 4);
      ToLE(bits, 4)
  }

  /** The 9-byte `payload` record of a command: command_id, data, payloadLen.
      Each ctypes field assignment keeps only the low bits of the integer. */
  function EncodeBody(cmd: Command): (r: Bytes)
    ensures |r| == BODY_SIZE
  {
    [cmd.commandId % 256] + ValueBytes(cmd.value) + ToLE(|cmd.payload| % 0x1_0000_0000, 4)
  }

  /** The request datagram for `cmd` sent with counter value `seqId`:
      the header, the body, then the extra bytes. */
  function EncodeRequest(seqId: nat, cmd: Command): (r: Bytes)
    ensures |r| == MIN_FRAME + |cmd.payload|
  {
    ToLE(seqId % 0x1_0000_0000, 4) + ToLE((BODY_SIZE + |cmd.payload|) % 0x1_0000, 2)
      + EncodeBody(cmd) + cmd.payload
  }

  /** The fields of a request datagram, read back from its bytes. */
  lemma RequestLayout(seqId: nat, cmd: Command)
    ensures var r := EncodeRequest(seqId, cmd);
      && FromLE(r[0..4]) == seqId % 0x1_0000_0000
      && FromLE(r[4..6]) == (BODY_SIZE + |cmd.payload|) % 0x1_0000
      && r[6] == cmd.commandId % 256
      && r[7..11] == ValueBytes(cmd.value)
      && FromLE(r[11..15]) == |cmd.payload| % 0x1_0000_0000
      && r[15..] == cmd.payload
  {
    FieldSizes();
    var seqField := ToLE(seqId % 0x1_0000_0000, 4);
    var lenField := ToLE((BODY_SIZE + |cmd.payload|) % 0x1_0000, 2);
    var lenValue := ToLE(|cmd.payload| % 0x1_0000_0000, 4);
    var body := EncodeBody(cmd);
    var r := EncodeRequest(seqId, cmd);
    assert r == seqField + lenField + body + cmd.payload;
    assert r[0..4] == seqField;
    assert r[4..6] == lenField;
    assert body[1..5] == ValueBytes(cmd.value);
    assert r[7..11] == body[1..5];
    assert body[5..9] == lenValue;
    assert r[11..15] == body[5..9];
    LERoundTrip(seqId % 0x1_0000_0000, 4);
    LERoundTrip((BODY_SIZE + |cmd.payload|) % 0x1_0000, 2);
    LERoundTrip(|cmd.payload| % 0x1_0000_0000, 4);
  }

  /** The 5-byte `CameraCommand` record. */
  function EncodeCameraCommand(command: int, value: Value): (r: Bytes)
    ensures |r| == CAMERA_COMMAND_SIZE
  {
    [command % 256] + ValueBytes(value)
  }

  /** Reads a `CameraCommand` record back: the command byte and the union bytes. */
  function DecodeCameraCommand(r: Bytes): (c: Option<(Byte, Bytes)>)
    ensures c.Some? <==> |r| >= CAMERA_COMMAND_SIZE
  {
    if |r| < CAMERA_COMMAND_SIZE then None else Some((r[0], r[1..5]))
  }

  lemma CameraCommandRoundTrip(command: int, value: Value)
    ensures DecodeCameraCommand(EncodeCameraCommand(command, value)) == Some((command % 256, ValueBytes(value)))
    ensures value.IntValue? ==> FromLE(DecodeCameraCommand(EncodeCameraCommand(command, value)).value.1) == value.i % 0x1_0000_0000
  {
    var r := EncodeCameraCommand(command, value);
    assert r[1..5] == ValueBytes(value);
  }

  /** Why a reply datagram is dropped, in the order the checks run. */
  datatype ReplyError = EmptyReply | TooShort | Truncated | BodyTooSmall

  /** The record a reply emits: the union bytes and the status byte. */
  datatype ReplyRecord = ReplyRecord(data: Bytes, status: Byte)

  /** What an accepted reply yields: the header and body fields that are
      logged, the trailing bytes, whether `payloadLen` disagreed with them
      (only logged), and the emitted record. */
  datatype ParsedReply = ParsedReply(
    seqId: nat, msgLen: nat, commandId: Byte, payloadLenField: nat,
    extra: Bytes, lengthMismatch: bool, record: ReplyRecord)

  /** The processing of one reply datagram; `Ok(p)` means `p.record` is emitted. */
  function ProcessReply(d: Bytes): (r: Result<ParsedReply, ReplyError>)
    ensures |d| == 0 ==> r == Err(EmptyReply)
    ensures 0 < |d| < MIN_FRAME ==> r == Err(TooShort)
    ensures |d| >= MIN_FRAME && |d| < HEADER_SIZE + FromLE(d[4..6]) ==> r == Err(Truncated)
    ensures |d| >= MIN_FRAME && |d| >= HEADER_SIZE + FromLE(d[4..6]) && FromLE(d[4..6]) < BODY_SIZE ==> r == Err(BodyTooSmall)
    ensures r.Ok? <==> |d| >= MIN_FRAME && BODY_SIZE <= FromLE(d[4..6]) && HEADER_SIZE + FromLE(d[4..6]) <= |d|
    ensures r.Ok? ==> && r.value.seqId == FromLE(d[0..4])
                      && r.value.msgLen == FromLE(d[4..6])
                      && r.value.commandId == d[6]
                      && r.value.payloadLenField == FromLE(d[11..15])
                      && r.value.record == ReplyRecord(d[6..10], d[10])
                      && r.value.extra == d[MIN_FRAME..HEADER_SIZE + r.value.msgLen]
                      && r.value.lengthMismatch == (r.value.payloadLenField != r.value.msgLen - BODY_SIZE)
  {
    if |d| == 0 then Err(EmptyReply)
    else if |d| < MIN_FRAME then Err(TooShort)
    else
      var seqId := FromLE(d[0..4]);
      var msgLen := FromLE(d[4..6]);
      if |d| < HEADER_SIZE + msgLen then Err(Truncated)
      else
        var combined := d[HEADER_SIZE..HEADER_SIZE + msgLen];
        if msgLen < BODY_SIZE then Err(BodyTooSmall)
        else
          var base := combined[..BODY_SIZE];
          var extra := combined[BODY_SIZE..];
          assert base == d[HEADER_SIZE..MIN_FRAME];
          assert base[5..9] == d[11..15];
          var payloadLen := FromLE(base[5..9]);
          Ok(ParsedReply(seqId, msgLen, base[0], payloadLen, extra,
                         payloadLen != |extra|,
                         ReplyRecord(combined[..4], combined[4])))
  }

  /** Reading a request datagram with the reply logic accepts it, recovers the
      sequence id modulo 2^32, the message length and the extra bytes, and
      finds `payloadLen` in agreement, as long as `msg_length` does not wrap. */
  lemma RequestReadBack(seqId: nat, cmd: Command)
    requires |cmd.payload| <= 0xFFFF - BODY_SIZE
    ensures var r := ProcessReply(EncodeRequest(seqId, cmd));
      && r.Ok?
      && r.value.seqId == seqId % 0x1_0000_0000
      && r.value.msgLen == BODY_SIZE + |cmd.payload|
      && r.value.commandId == cmd.commandId % 256
      && r.value.payloadLenField == |cmd.payload|
      && r.value.extra == cmd.payload
      && !r.value.lengthMismatch
      && r.value.record == ReplyRecord([cmd.commandId % 256] + ValueBytes(cmd.value)[..3], ValueBytes(cmd.value)[3])
  {
    RequestFields(seqId, cmd);
  }

  /** The request's header fields when `msg_length` does not wrap. */
  lemma RequestFields(seqId: nat, cmd: Command)
    requires |cmd.payload| <= 0xFFFF - BODY_SIZE
    ensures var d := EncodeRequest(seqId, cmd);
      && FromLE(d[0..4]) == seqId % 0x1_0000_0000
      && FromLE(d[4..6]) == BODY_SIZE + |cmd.payload|
      && d[6] == cmd.commandId % 256
      && FromLE(d[11..15]) == |cmd.payload|
      && d[MIN_FRAME..] == cmd.payload
      && d[6..10] == [cmd.commandId % 256] + ValueBytes(cmd.value)[..3]
      && d[10] == ValueBytes(cmd.value)[3]
  {
    var d := EncodeRequest(seqId, cmd);
    var n := |cmd.payload|;
    RequestLayout(seqId, cmd);
    assert (BODY_SIZE + n) % 0x1_0000 == BODY_SIZE + n;
    assert n % 0x1_0000_0000 == n;
    assert d[6..10] == [d[6]] + d[7..11][..3];
    assert d[10] == d[7..11][3];
  }

  /** The packets the worker sends for `cmds`, taken in order, starting with
      counter value `start`. */
  function Packets(start: nat, cmds: seq<Command>): (r: seq<Bytes>)
    ensures |r| == |cmds|
    decreases |cmds|
  {
    if cmds == [] then [] else [EncodeRequest(start, cmds[0])] + Packets(start + 1, cmds[1..])
  }

  /** The i-th packet carries counter value start + i and the i-th command. */
  lemma {:induction false} PacketsAt(start: nat, cmds: seq<Command>, i: nat)
    requires i < |cmds|
    ensures Packets(start, cmds)[i] == EncodeRequest(start + i, cmds[i])
    decreases i
  {
    if i > 0 {
      PacketsAt(start + 1, cmds[1..], i - 1);
    }
  }

  /** Packets built with consecutive counter values carry consecutive
      sequence ids, wrapping from 2^32 - 1 back to 0. */
  lemma ConsecutiveSequenceIds(seqId: nat, first: Command, second: Command)
    ensures FromLE(EncodeRequest(seqId + 1, second)[0..4]) == (FromLE(EncodeRequest(seqId, first)[0..4]) + 1) % 0x1_0000_0000
  {
    RequestLayout(seqId, first);
    RequestLayout(seqId + 1, second);
    WrapSucc(seqId);
  }

  lemma WrapSucc(x: nat)
    ensures (x + 1) % 0x1_0000_0000 == (x % 0x1_0000_0000 + 1) % 0x1_0000_0000
  {
  }

  lemma {:induction false} PacketsAppend(start: nat, cmds: seq<Command>, c: Command)
    ensures Packets(start, cmds + [c]) == Packets(start, cmds) + [EncodeRequest(start + |cmds|, c)]
    decreases |cmds|
  {
    if cmds != [] {
      assert (cmds + [c])[1..] == cmds[1..] + [c];
      PacketsAppend(start + 1, cmds[1..], c);
    }
  }

  /** Sending one more queued command extends the packets by its request. */
  lemma PacketsExtend(start: nat, all: seq<Command>, k: nat)
    requires k < |all|
    ensures Packets(start, all[..k + 1]) == Packets(start, all[..k]) + [EncodeRequest(start + k, all[k])]
  {
    var init := all[..k];
    assert all[..k + 1] == init + [all[k]];
    PacketsAppend(start, init, all[k]);
  }

  /** The command bus: the sequence counter and the queue of submitted commands. */
  class Bus {
    var seqId: nat
    var queue: seq<Command>

    constructor ()
      ensures seqId == 0 && queue == []
    {
      seqId := 0;
      queue := [];
    }

    /** Appends the (normalised) command at the back of the queue. */
    method Submit(s: Submission)
      modifies this`queue
      ensures queue == old(queue) + [Normalize(s)]
      ensures s.Shorthand? ==> queue[|queue| - 1].payload == [] && queue[|queue| - 1].replyCallback == None
    {
      var cmd: Command;
      if s.Shorthand? {
        cmd := Command(s.commandId, s.value, [], None);
      } else {
        cmd := s.cmd;
      }
      queue := queue + [cmd];
    }

    /** Builds the request datagram for `cmd` and advances the counter by one. */
    method BuildPacket(cmd: Command) returns (packet: Bytes)
      modifies this`seqId
      ensures packet == EncodeRequest(old(seqId), cmd)
      ensures seqId == old(seqId) + 1
    {
      var body := [cmd.commandId % 256];
      body := body + ValueBytes(cmd.value);
      body := body + ToLE(|cmd.payload| % 0x1_0000_0000, 4);
      var seqField := ToLE(seqId % 0x1_0000_0000, 4);
      var lenField := ToLE((|body| + |cmd.payload|) % 0x1_0000, 2);
      packet := seqField + lenField + body + cmd.payload;
      seqId := seqId + 1;
    }

    /** One pass of the worker: if a command is queued, take the oldest, build
        its packet and send it once; a failed send is not retried. */
    method WorkerStep(send: Bytes -> bool) returns (sent: Option<Bytes>, ok: bool)
      modifies this
      ensures old(queue) == [] ==> sent == None && queue == [] && seqId == old(seqId)
      ensures old(queue) != [] ==>
        && queue == old(queue)[1..]
        && sent == Some(EncodeRequest(old(seqId), old(queue)[0]))
        && seqId == old(seqId) + 1
        && ok == send(sent.value)
    {
      if queue == [] {
        return None, false;
      }
      var cmd := queue[0];
      queue := queue[1..];
      var packet := BuildPacket(cmd);
      ok := send(packet);
      sent := Some(packet);
    }

    /** Runs the worker until the queue is empty: one packet per command, in
        submission order, with consecutive counter values, whatever the
        outcome of each send. */
    method RunWorker(send: Bytes -> bool) returns (sent: seq<Bytes>)
      modifies this
      ensures queue == []
      ensures seqId == old(seqId) + |old(queue)|
      ensures sent == Packets(old(seqId), old(queue))
    {
      sent := [];
      ghost var all := queue;
      ghost var start := seqId;
      ghost var k: nat := 0;
      while queue != []
        invariant k <= |all| && queue == all[k..]
        invariant seqId == start + k
        invariant sent == Packets(start, all[..k])
        decreases |queue|
      {
        assert queue[0] == all[k];
        var packet, ok := WorkerStep(send);
        assert packet == Some(EncodeRequest(start + k, all[k]));
        PacketsExtend(start, all, k);
        sent := sent + [packet.value];
        k := k + 1;
      }
      assert all[..k] == all;
    }
  }
}
