/**
 The frames between gateway and tag, written once in C for the tag and once in Python for the gateway:
 a header, a kind, a length, the payload, and the exclusive or of everything before.
 */
module TagCodec {
  import opened Bits

  const FRAME_HEADER: byte := 0xA5
  const MAX_PAYLOAD_LEN := 16

  datatype Result<T> = Ok(value: T) | Err(error: string)

  /** What parse_event returns: the event and its payload. */
  datatype Event = Event(event: byte, payload: seq<byte>)

  // ---- Frames

  /** The exclusive or of the bytes. */
  function Checksum(data: seq<byte>): (v: nat)
    ensures v < 256
  {
    if data == [] then 0
    else
      XorOfBytes(Checksum(data[..|data| - 1]), data[|data| - 1]);
      Xor(Checksum(data[..|data| - 1]), data[|data| - 1])
  }

  function Body(kind: byte, payload: seq<byte>): seq<byte>
    requires |payload| <= MAX_PAYLOAD_LEN
  {
    [FRAME_HEADER, kind, |payload|] + payload
  }

  /** The frame of a kind and a payload. */
  function Frame(kind: byte, payload: seq<byte>): seq<byte>
    requires |payload| <= MAX_PAYLOAD_LEN
  {
    Body(kind, payload) + [Checksum(Body(kind, payload))]
  }

  ghost predicate IsFrameOf(frame: seq<byte>, kind: byte, payload: seq<byte>) {
    |payload| <= MAX_PAYLOAD_LEN && frame == Frame(kind, payload)
  }

  /** A frame byte by byte: 0xA5, the kind, the length, at most sixteen bytes of payload, and a last byte with which all
      bytes cancel out. */
  lemma FrameExactly(kind: byte, payload: seq<byte>)
    requires |payload| <= 16
    ensures |payload| <= MAX_PAYLOAD_LEN
    ensures var f := Frame(kind, payload);
            && |f| == |payload| + 4 && f[0] == 0xA5 && f[1] == kind && f[2] == |payload|
            && f[3..3 + |payload|] == payload && XorOfAll(f) == 0
  {
    hide Checksum;
    var body := Body(kind, payload);
    ChecksumIsXor(body);
    XorOfAllSnoc(body, Checksum(body));
    XorCancels(0, Checksum(body));
    XorZero(Checksum(body));
  }

  /** No frame has a longer payload. */
  lemma PayloadsAreShort(frame: seq<byte>, kind: byte, payload: seq<byte>)
    requires IsFrameOf(frame, kind, payload)
    ensures |payload| <= 16
  {
  }

  /** All bytes combined, from the last one to the first. */
  function XorOfAll(data: seq<byte>): nat {
    if data == [] then 0 else Xor(data[0], XorOfAll(data[1..]))
  }

  lemma {:induction false} XorOfAllSnoc(data: seq<byte>, b: byte)
    ensures XorOfAll(data + [b]) == Xor(XorOfAll(data), b)
  {
    if data == [] {
      assert [b][1..] == [] && data + [b] == [b];
      XorZero(b);
    } else {
      assert (data + [b])[1..] == data[1..] + [b];
      XorOfAllSnoc(data[1..], b);
      XorExchange(data[0], XorOfAll(data[1..]), 0, b);
      XorZero(data[0]);
      XorZero(b);
    }
  }

  lemma {:induction false} ChecksumIsXor(data: seq<byte>)
    ensures Checksum(data) == XorOfAll(data)
  {
    if data != [] {
      var n := |data| - 1;
      ChecksumIsXor(data[..n]);
      XorOfAllSnoc(data[..n], data[n]);
      assert data == data[..n] + [data[n]];
    }
  }

  /** The checks that both parsers make, in terms of positions. */
  predicate Checks(frame: seq<byte>) {
    && |frame| >= 4 && frame[0] == FRAME_HEADER && frame[2] <= MAX_PAYLOAD_LEN
    && |frame| == 4 + frame[2]
    && Checksum(frame[..3 + frame[2]]) == frame[3 + frame[2]]
  }

  /** The checks accept the frames and nothing else, and a frame determines its kind and payload. */
  lemma ChecksAcceptFrames(frame: seq<byte>, kind: byte, payload: seq<byte>)
    ensures Checks(frame) && kind == frame[1] && payload == frame[3..3 + frame[2]] <==> IsFrameOf(frame, kind, payload)
  {
    hide Checksum;
    if Checks(frame) && kind == frame[1] && payload == frame[3..3 + frame[2]] {
      assert Body(kind, payload) == frame[..3 + frame[2]];
      assert frame == frame[..3 + frame[2]] + [frame[3 + frame[2]]];
    }
    if IsFrameOf(frame, kind, payload) {
      assert frame[..3 + |payload|] == Body(kind, payload);
    }
  }

  // ---- Damage

  lemma {:induction false} ChecksumOfChange(data: seq<byte>, i: nat, b: byte)
    requires i < |data| && b != data[i]
    ensures Checksum(data[i := b]) != Checksum(data)
  {
    var n := |data| - 1;
    var changed := data[i := b];
    if i == n {
      assert changed[..n] == data[..n];
      XorCancels(Checksum(data[..n]), b);
      XorCancels(Checksum(data[..n]), data[n]);
    } else {
      assert changed[..n] == data[..n][i := b];
      ChecksumOfChange(data[..n], i, b);
      XorCancels(Checksum(data[..n]), data[n]);
      XorCancels(Checksum(changed[..n]), data[n]);
    }
  }

  /** Replacing any single byte of a frame by another value is detected. */
  lemma SingleByteChangeIsRejected(frame: seq<byte>, i: nat, b: byte)
    requires Checks(frame) && i < |frame| && b != frame[i]
    ensures !Checks(frame[i := b])
  {
    hide Checksum;
    var changed := frame[i := b];
    if i != 0 && i != 2 {
      var n := 3 + frame[2];
      if i < n {
        ChecksumOfChange(frame[..n], i, b);
        assert changed[..n] == frame[..n][i := b];
      } else {
        assert changed[..n] == frame[..n];
      }
    }
  }

  // ---- The gateway, in Python

  /** _xor_checksum. */
  method XorChecksum(data: seq<byte>) returns (value: byte)
    ensures value == Checksum(data)
  {
    value := 0;
    for i := 0 to |data|
      invariant value == Checksum(data[..i])
    {
      assert data[..i + 1][..i] == data[..i];
      XorOfBytes(value, data[i]);
      value := Xor(value, data[i]);
    }
    assert data[..|data|] == data;
  }

  /** build_command. The low byte of any integer is its remainder modulo 256, in Python as here. */
  function BuildCommand(cmd: int, payload: seq<byte>): Result<seq<byte>> {
    if |payload| > MAX_PAYLOAD_LEN then Err("payload too large")
    else
      var body := [FRAME_HEADER, cmd % 256, |payload|] + payload;
      Ok(body + [Checksum(body)])
  }

  /** parse_event. */
  function ParseEvent(frame: seq<byte>): Result<Event> {
    if |frame| < 4 then Err("frame too short")
    else if frame[0] != FRAME_HEADER then Err("invalid frame header")
    else
      var payloadLen := frame[2];
      var expectedLen := 4 + payloadLen;
      if |frame| != expectedLen then Err("invalid frame length")
      else if payloadLen > MAX_PAYLOAD_LEN then Err("payload too large")
      else if Checksum(frame[..3 + payloadLen]) != frame[3 + payloadLen] then Err("invalid checksum")
      else Ok(Event(frame[1], frame[3..3 + payloadLen]))
  }

  // ---- The tag, in C

  /** clip_command_frame_t. */
  class CommandFrame {
    var cmd: byte
    var len: byte
    const payload: array<byte>

    constructor ()
      ensures payload.Length == MAX_PAYLOAD_LEN && fresh(payload)
    {
      cmd, len := 0, 0;
      payload := new byte[MAX_PAYLOAD_LEN](_ => 0);
    }
  }

  /** protocol_xor_checksum. */
  method ProtocolXorChecksum(data: array<byte>, len: nat) returns (v: byte)
    requires len <= data.Length
    ensures v == Checksum(data[..len])
  {
    v := 0;
    for i := 0 to len
      invariant v == Checksum(data[..i])
    {
      assert data[..i + 1][..i] == data[..i];
      XorOfBytes(v, data[i]);
      v := Xor(v, data[i]);
    }
  }

  /** clip_protocol_parse_command: accepts exactly the frames, and returns their kind and payload. */
  method ParseCommand(data: array?<byte>, size: byte, out: CommandFrame?) returns (ok: bool)
    requires data != null ==> size <= data.Length
    requires out != null ==> out.payload.Length == MAX_PAYLOAD_LEN && out.payload != data
    modifies if out == null then {} else {out, out.payload}
    ensures ok <==> data != null && out != null && exists cmd, payload :: IsFrameOf(data[..size], cmd, payload)
    ensures ok ==> out.len <= MAX_PAYLOAD_LEN && IsFrameOf(data[..size], out.cmd, out.payload[..out.len])
    ensures !ok && out != null ==> unchanged(out) && unchanged(out.payload)
  {
    hide Checksum, IsFrameOf;
    if data == null || out == null {
      return false;
    }
    ghost var frame := data[..size];
    forall cmd, payload
      ensures IsFrameOf(frame, cmd, payload) ==> Checks(frame)
    {
      ChecksAcceptFrames(frame, cmd, payload);
    }
    if size < 4 {
      return false;
    }
    if data[0] != FRAME_HEADER {
      return false;
    }
    var payloadLen: int := data[2];
    if payloadLen > MAX_PAYLOAD_LEN {
      return false;
    }
    var expectedSize := (4 + payloadLen) % 256;
    if size != expectedSize {
      return false;
    }
    var checksum := ProtocolXorChecksum(data, (3 + payloadLen) % 256);
    assert data[..3 + payloadLen] == frame[..3 + payloadLen];
    if checksum != data[3 + payloadLen] {
      return false;
    }
    out.cmd := data[1];
    out.len := payloadLen;
    for i := 0 to payloadLen
      invariant out.cmd == data[1] && out.len == payloadLen && data[..size] == frame
      invariant forall k | 0 <= k < i :: out.payload[k] == data[3 + k]
    {
      out.payload[i] := data[3 + i];
    }
    assert out.payload[..payloadLen] == frame[3..3 + payloadLen];
    ChecksAcceptFrames(frame, out.cmd, out.payload[..payloadLen]);
    return true;
  }

  /** The payload that clip_protocol_build_event sends: zeros when there is none. */
  ghost function PayloadOf(payload: array?<byte>, len: nat): (p: seq<byte>)
    requires payload != null ==> len <= payload.Length
    reads payload
    ensures |p| == len
  {
    if payload != null then payload[..len] else seq(len, _ => 0)
  }

  /** clip_protocol_build_event. */
  method BuildEvent(evt: byte, payload: array?<byte>, len: byte, outBuf: array?<byte>, outSize: byte)
    returns (total: byte)
    requires payload != null ==> len <= payload.Length
    requires outBuf != null ==> outSize <= outBuf.Length && outBuf != payload
    modifies outBuf
    ensures total != 0 <==> outBuf != null && len <= MAX_PAYLOAD_LEN && outSize >= 4 + len
    ensures total != 0 ==> total == 4 + len && outBuf[..total] == Frame(evt, PayloadOf(payload, len))
    ensures total != 0 && payload != null ==> outBuf[3..3 + len] == payload[..len]
    ensures total != 0 && payload == null ==> forall k | 3 <= k < 3 + len :: outBuf[k] == 0
    ensures total != 0 ==> outBuf[total..] == old(outBuf[..])[total..]
    ensures total == 0 && outBuf != null ==> outBuf[..] == old(outBuf[..])
  {
    hide Checksum;
    if outBuf == null || len > MAX_PAYLOAD_LEN {
      return 0;
    }
    total := (4 + len) % 256;
    if outSize < total {
      return 0;
    }
    outBuf[0] := FRAME_HEADER;
    outBuf[1] := evt;
    outBuf[2] := len;
    ghost var p := PayloadOf(payload, len);
    for i := 0 to len
      invariant PayloadOf(payload, len) == p
      invariant outBuf[0] == FRAME_HEADER && outBuf[1] == evt && outBuf[2] == len
      invariant forall k | 0 <= k < i :: outBuf[3 + k] == p[k]
      invariant outBuf[total..] == old(outBuf[..])[total..]
    {
      outBuf[3 + i] := if payload != null then payload[i] else 0;
    }
    assert outBuf[..3 + len] == Body(evt, p);
    var checksum := ProtocolXorChecksum(outBuf, (3 + len) % 256);
    outBuf[3 + len] := checksum;
    assert outBuf[..total] == Body(evt, p) + [checksum];
    hide Body, Frame;
    PayloadInFrame(evt, p);
    assert outBuf[3..3 + len] == outBuf[..total][3..3 + len];
    assert forall k | 3 <= k < 3 + len :: outBuf[k] == outBuf[3..3 + len][k - 3];
  }

  lemma PayloadInFrame(kind: byte, payload: seq<byte>)
    requires |payload| <= MAX_PAYLOAD_LEN
    ensures |Frame(kind, payload)| == 4 + |payload| && Frame(kind, payload)[3..3 + |payload|] == payload
  {
    hide Checksum;
  }

  // ---- Both together

  /** What the gateway emits is a frame, so the tag's parser takes it, with the same command and payload. */
  lemma CommandsAreFrames(cmd: int, payload: seq<byte>)
    ensures BuildCommand(cmd, payload).Ok? <==> |payload| <= MAX_PAYLOAD_LEN
    ensures |payload| <= MAX_PAYLOAD_LEN ==> IsFrameOf(BuildCommand(cmd, payload).value, cmd % 256, payload)
  {
    hide Checksum;
  }

  /** The gateway's parser accepts exactly the frames that the tag builds, with the same event and payload. */
  lemma EventsParse(frame: seq<byte>, event: byte, payload: seq<byte>)
    ensures ParseEvent(frame) == Ok(Event(event, payload)) <==> IsFrameOf(frame, event, payload)
  {
    hide Checksum;
    ChecksAcceptFrames(frame, event, payload);
  }

  /** What parse_event says of anything else: the first thing that is wrong. */
  lemma ErrorsExactly(frame: seq<byte>)
    ensures var r := ParseEvent(frame);
            if |frame| < 4 then r == Err("frame too short")
            else if frame[0] != 0xA5 then r == Err("invalid frame header")
            else
              var length: int := frame[2];
              if |frame| != length + 4 then r == Err("invalid frame length")
              else if length > 16 then r == Err("payload too large")
              else r.Ok? || r == Err("invalid checksum")
  {
    hide Checksum;
  }

  /** Neither parser takes a frame in which one byte has changed. */
  lemma DamagedFramesAreRejected(kind: byte, payload: seq<byte>, i: nat, b: byte)
    requires |payload| <= MAX_PAYLOAD_LEN && i < |Frame(kind, payload)| && b != Frame(kind, payload)[i]
    ensures var damaged := Frame(kind, payload)[i := b];
            ParseEvent(damaged).Err? && forall k, p :: !IsFrameOf(damaged, k, p)
  {
    hide Checksum, IsFrameOf, Frame;
    var damaged := Frame(kind, payload)[i := b];
    assert IsFrameOf(Frame(kind, payload), kind, payload) by {
      FrameIsFrame(kind, payload);
    }
    ChecksAcceptFrames(Frame(kind, payload), kind, payload);
    SingleByteChangeIsRejected(Frame(kind, payload), i, b);
    forall k, p
      ensures !IsFrameOf(damaged, k, p)
    {
      ChecksAcceptFrames(damaged, k, p);
    }
  }

  lemma FrameIsFrame(kind: byte, payload: seq<byte>)
    requires |payload| <= MAX_PAYLOAD_LEN
    ensures IsFrameOf(Frame(kind, payload), kind, payload)
  {
  }
}
