/** The wire frame: a 20-byte header and a payload, and its incremental decoder
    (crates/btrfs-protocol/src/message.rs). */
module Frames {
  import opened Options

  type Byte = x: int | 0 <= x < 256
  type I64 = x: int | -0x8000_0000_0000_0000 <= x < 0x8000_0000_0000_0000

  const MAGIC: seq<Byte> := [0x42, 0x54, 0x52, 0x46]
  const PROTOCOL_VERSION: nat := 1
  const MAX_PAYLOAD_SIZE: nat := 64 * 1024 * 1024
  const HEADER_SIZE: nat := 20

  datatype MessageType =
    | Auth | AuthOk | AuthFailed
    | Heartbeat | HeartbeatAck
    | CreateVolume | CreateVolumeAck | DeleteVolume | DeleteVolumeAck | GetVolumeInfo | GetVolumeInfoAck
    | SendStart | SendData | SendComplete | SendError | SendIncrementalStart
    | NodeJoin | NodeLeave | NodeList | NodeListAck
    | StateSync | StateSyncAck | VolumeList | VolumeListAck
    | QuorumVote | QuorumVoteResponse | ConflictDetected
    | VolumeUnpublish | VolumeUnpublishAck

  /** The enum discriminants. */
  function Code(t: MessageType): (c: nat)
    ensures c < 0x1_0000
  {
    match t
    case Auth => 0x0001 case AuthOk => 0x0002 case AuthFailed => 0x0003
    case Heartbeat => 0x0100 case HeartbeatAck => 0x0101
    case CreateVolume => 0x0200 case CreateVolumeAck => 0x0201
    case DeleteVolume => 0x0202 case DeleteVolumeAck => 0x0203
    case GetVolumeInfo => 0x0204 case GetVolumeInfoAck => 0x0205
    case SendStart => 0x0300 case SendData => 0x0301 case SendComplete => 0x0302
    case SendError => 0x0303 case SendIncrementalStart => 0x0304
    case NodeJoin => 0x0400 case NodeLeave => 0x0401 case NodeList => 0x0402 case NodeListAck => 0x0403
    case StateSync => 0x0500 case StateSyncAck => 0x0501 case VolumeList => 0x0502 case VolumeListAck => 0x0503
    case QuorumVote => 0x0600 case QuorumVoteResponse => 0x0601 case ConflictDetected => 0x0602
    case VolumeUnpublish => 0x0700 case VolumeUnpublishAck => 0x0701
  }

  /** The decoder's own table. */
  function TypeOf(c: nat): Option<MessageType> {
    match c
    case 0x0001 => Some(Auth) case 0x0002 => Some(AuthOk) case 0x0003 => Some(AuthFailed)
    case 0x0100 => Some(Heartbeat) case 0x0101 => Some(HeartbeatAck)
    case 0x0200 => Some(CreateVolume) case 0x0201 => Some(CreateVolumeAck)
    case 0x0202 => Some(DeleteVolume) case 0x0203 => Some(DeleteVolumeAck)
    case 0x0204 => Some(GetVolumeInfo) case 0x0205 => Some(GetVolumeInfoAck)
    case 0x0300 => Some(SendStart) case 0x0301 => Some(SendData) case 0x0302 => Some(SendComplete)
    case 0x0303 => Some(SendError) case 0x0304 => Some(SendIncrementalStart)
    case 0x0400 => Some(NodeJoin) case 0x0401 => Some(NodeLeave)
    case 0x0402 => Some(NodeList) case 0x0403 => Some(NodeListAck)
    case 0x0500 => Some(StateSync) case 0x0501 => Some(StateSyncAck)
    case 0x0502 => Some(VolumeList) case 0x0503 => Some(VolumeListAck)
    case 0x0600 => Some(QuorumVote) case 0x0601 => Some(QuorumVoteResponse) case 0x0602 => Some(ConflictDetected)
    case 0x0700 => Some(VolumeUnpublish) case 0x0701 => Some(VolumeUnpublishAck)
    case _ => None
  }

  /** The decoder's table is the exact inverse of the discriminants. */
  lemma CodeTablesAgree(t: MessageType, c: nat)
    ensures TypeOf(c) == Some(t) <==> Code(t) == c
  {
    match t case _ => {}
  }

  /** The types by group, in the order of the protocol. */
  const GROUPS: seq<seq<MessageType>> := [
    [Auth, AuthOk, AuthFailed],
    [Heartbeat, HeartbeatAck],
    [CreateVolume, CreateVolumeAck, DeleteVolume, DeleteVolumeAck, GetVolumeInfo, GetVolumeInfoAck],
    [SendStart, SendData, SendComplete, SendError, SendIncrementalStart],
    [NodeJoin, NodeLeave, NodeList, NodeListAck],
    [StateSync, StateSyncAck, VolumeList, VolumeListAck],
    [QuorumVote, QuorumVoteResponse, ConflictDetected],
    [VolumeUnpublish, VolumeUnpublishAck]]

  /** The high byte of a code is the group and the low byte the place in it, the first group
      counting from 1. */
  lemma CodesByGroup(g: nat, i: nat)
    requires g < |GROUPS| && i < |GROUPS[g]|
    ensures Code(GROUPS[g][i]) == 256 * g + i + (if g == 0 then 1 else 0)
  {
  }

  datatype Message = Message(msgType: MessageType, payload: seq<Byte>, timestamp: I64)

  // ---------- big-endian integers ----------

  function Pow256(k: nat): (p: nat)
    ensures p >= 1
  {
    if k == 0 then 1 else 256 * Pow256(k - 1)
  }

  function BigEndian(n: nat, k: nat): (s: seq<Byte>)
    ensures |s| == k
  {
    if k == 0 then [] else BigEndian(n / 256, k - 1) + [n % 256]
  }

  function FromBigEndian(s: seq<Byte>): (n: nat)
    ensures n < Pow256(|s|)
  {
    if s == [] then 0 else 256 * FromBigEndian(s[..|s| - 1]) + s[|s| - 1]
  }

  lemma {:induction false} ReadBack(n: nat, k: nat)
    requires n < Pow256(k)
    ensures FromBigEndian(BigEndian(n, k)) == n
  {
    if k > 0 {
      ReadBack(n / 256, k - 1);
      var s := BigEndian(n, k);
      assert s[..|s| - 1] == BigEndian(n / 256, k - 1);
    }
  }

  lemma {:induction false} WriteBack(s: seq<Byte>)
    ensures BigEndian(FromBigEndian(s), |s|) == s
  {
    if s != [] {
      var init, last := s[..|s| - 1], s[|s| - 1];
      WriteBack(init);
      assert FromBigEndian(s) / 256 == FromBigEndian(init) && FromBigEndian(s) % 256 == last;
      assert s == init + [last];
    }
  }

  /** The value of two, four and eight bytes from position `i`, most significant first. */
  function Word2(buf: seq<Byte>, i: nat): nat
    requires i + 2 <= |buf|
  {
    256 * (buf[i] as int) + buf[i + 1] as int
  }

  function Word4(buf: seq<Byte>, i: nat): nat
    requires i + 4 <= |buf|
  {
    65536 * Word2(buf, i) + Word2(buf, i + 2)
  }

  function Word8(buf: seq<Byte>, i: nat): nat
    requires i + 8 <= |buf|
  {
    0x1_0000_0000 * Word4(buf, i) + Word4(buf, i + 4)
  }

  lemma ReadsByte(s: seq<Byte>, last: Byte)
    ensures FromBigEndian(s + [last]) == 256 * FromBigEndian(s) + last
  {
    assert (s + [last])[..|s|] == s;
  }

  lemma ReadsTwo(s: seq<Byte>, a: Byte, b: Byte)
    ensures FromBigEndian(s + [a, b]) == 65536 * FromBigEndian(s) + 256 * a + b
  {
    ReadsByte(s, a);
    ReadsByte(s + [a], b);
    assert s + [a] + [b] == s + [a, b];
  }

  lemma ReadsWord2(buf: seq<Byte>, i: nat)
    requires i + 2 <= |buf|
    ensures FromBigEndian(buf[i..i + 2]) == Word2(buf, i)
  {
    ReadsTwo([], buf[i], buf[i + 1]);
    assert buf[i..i + 2] == [] + [buf[i], buf[i + 1]];
  }

  lemma ReadsWord4(buf: seq<Byte>, i: nat)
    requires i + 4 <= |buf|
    ensures FromBigEndian(buf[i..i + 4]) == Word4(buf, i)
  {
    ReadsWord2(buf, i);
    ReadsTwo(buf[i..i + 2], buf[i + 2], buf[i + 3]);
    assert buf[i..i + 4] == buf[i..i + 2] + [buf[i + 2], buf[i + 3]];
  }

  lemma ReadsWord8(buf: seq<Byte>, i: nat)
    requires i + 8 <= |buf|
    ensures FromBigEndian(buf[i..i + 8]) == Word8(buf, i)
  {
    ReadsWord4(buf, i);
    var s := buf[i..i + 4];
    ReadsTwo(s, buf[i + 4], buf[i + 5]);
    var t := s + [buf[i + 4], buf[i + 5]];
    ReadsTwo(t, buf[i + 6], buf[i + 7]);
    assert buf[i..i + 8] == t + [buf[i + 6], buf[i + 7]];
  }

  lemma Widths()
    ensures Pow256(2) == 0x1_0000
    ensures Pow256(4) == 0x1_0000_0000
    ensures Pow256(8) == 0x1_0000_0000_0000_0000
  {
    assert Pow256(2) == 256 * Pow256(1);
    assert Pow256(4) == 256 * Pow256(3) && Pow256(3) == 256 * Pow256(2);
    assert Pow256(6) == 256 * Pow256(5) && Pow256(5) == 256 * Pow256(4);
    assert Pow256(8) == 256 * Pow256(7) && Pow256(7) == 256 * Pow256(6);
  }

  /** Two's complement of a timestamp. */
  function ToUnsigned(t: I64): nat {
    if t >= 0 then t else t + 0x1_0000_0000_0000_0000
  }

  function ToSigned(n: nat): I64
    requires n < 0x1_0000_0000_0000_0000
  {
    if n < 0x8000_0000_0000_0000 then n else n - 0x1_0000_0000_0000_0000
  }

  // ---------- frames ----------

  /** The length field is the payload length cut to 32 bits. */
  function LengthField(m: Message): nat {
    |m.payload| % 0x1_0000_0000
  }

  function Header(t: MessageType, len: nat, time: nat): (h: seq<Byte>)
    ensures |h| == HEADER_SIZE
  {
    MAGIC + BigEndian(PROTOCOL_VERSION, 2) + BigEndian(Code(t), 2) + BigEndian(len, 4) + BigEndian(time, 8)
  }

  function Encode(m: Message): seq<Byte> {
    Header(m.msgType, LengthField(m), ToUnsigned(m.timestamp)) + m.payload
  }

  method EncodeMessage(m: Message) returns (buf: seq<Byte>)
    ensures buf == Encode(m)
  {
    buf := MAGIC;
    buf := buf + BigEndian(PROTOCOL_VERSION, 2);
    buf := buf + BigEndian(Code(m.msgType), 2);
    buf := buf + BigEndian(|m.payload| % 0x1_0000_0000, 4);
    buf := buf + BigEndian(ToUnsigned(m.timestamp), 8);
    buf := buf + m.payload;
  }

  datatype DecodeError = BadMagic | BadVersion | TooLarge | UnknownType

  /** Outcome of one decode call and what it leaves in the buffer. */
  datatype Decoded =
    | NeedMore
    | Bad(error: DecodeError, rest: seq<Byte>)
    | Got(msg: Message, rest: seq<Byte>)

  function TypeField(buf: seq<Byte>): nat
    requires |buf| >= HEADER_SIZE
  {
    FromBigEndian(buf[6..8])
  }

  function PayloadLen(buf: seq<Byte>): nat
    requires |buf| >= HEADER_SIZE
  {
    FromBigEndian(buf[8..12])
  }

  function TimeField(buf: seq<Byte>): (n: nat)
    requires |buf| >= HEADER_SIZE
    ensures n < 0x1_0000_0000_0000_0000
  {
    Widths();
    FromBigEndian(buf[12..20])
  }

  /** An unknown type is noticed only after the frame has been taken off the buffer. */
  function Decode(buf: seq<Byte>): Decoded {
    if |buf| < HEADER_SIZE then NeedMore
    else if buf[0..4] != MAGIC then Bad(BadMagic, buf)
    else if FromBigEndian(buf[4..6]) != PROTOCOL_VERSION then Bad(BadVersion, buf)
    else if PayloadLen(buf) > MAX_PAYLOAD_SIZE then Bad(TooLarge, buf)
    else if |buf| < HEADER_SIZE + PayloadLen(buf) then NeedMore
    else
      var payload := buf[HEADER_SIZE..HEADER_SIZE + PayloadLen(buf)];
      var rest := buf[HEADER_SIZE + PayloadLen(buf)..];
      match TypeOf(TypeField(buf))
      case None => Bad(UnknownType, rest)
      case Some(t) => Got(Message(t, payload, ToSigned(TimeField(buf))), rest)
  }

  lemma HeaderSlices(t: MessageType, len: nat, time: nat, tail: seq<Byte>)
    ensures var buf := Header(t, len, time) + tail;
      && buf[0..4] == MAGIC
      && buf[4..6] == BigEndian(PROTOCOL_VERSION, 2)
      && buf[6..8] == BigEndian(Code(t), 2)
      && buf[8..12] == BigEndian(len, 4)
      && buf[12..20] == BigEndian(time, 8)
  {
  }

  /** The header fields of a buffer that starts with the header of a message. */
  lemma HeaderFields(t: MessageType, len: nat, time: nat, tail: seq<Byte>)
    requires len < 0x1_0000_0000 && time < 0x1_0000_0000_0000_0000
    ensures var buf := Header(t, len, time) + tail;
      && buf[0..4] == MAGIC
      && FromBigEndian(buf[4..6]) == PROTOCOL_VERSION
      && TypeField(buf) == Code(t)
      && PayloadLen(buf) == len
      && TimeField(buf) == time
  {
    HeaderSlices(t, len, time, tail);
    Widths();
    ReadBack(PROTOCOL_VERSION, 2);
    ReadBack(Code(t), 2);
    ReadBack(len, 4);
    ReadBack(time, 8);
  }

  lemma DecodeByFields(buf: seq<Byte>, m: Message)
    requires |buf| >= HEADER_SIZE + |m.payload| && |m.payload| <= MAX_PAYLOAD_SIZE
    requires buf[0..4] == MAGIC && FromBigEndian(buf[4..6]) == PROTOCOL_VERSION
    requires TypeField(buf) == Code(m.msgType) && PayloadLen(buf) == |m.payload|
    requires TimeField(buf) == ToUnsigned(m.timestamp)
    requires buf[HEADER_SIZE..HEADER_SIZE + |m.payload|] == m.payload
    ensures Decode(buf) == Got(m, buf[HEADER_SIZE + |m.payload|..])
  {
    CodeTablesAgree(m.msgType, Code(m.msgType));
  }

  /** A frame decodes to its message and leaves the rest alone. */
  lemma FrameReadsBack(m: Message, rest: seq<Byte>)
    requires |m.payload| <= MAX_PAYLOAD_SIZE
    ensures Decode(Encode(m) + rest) == Got(m, rest)
  {
    var buf := Encode(m) + rest;
    assert buf == Header(m.msgType, LengthField(m), ToUnsigned(m.timestamp)) + (m.payload + rest);
    HeaderFields(m.msgType, LengthField(m), ToUnsigned(m.timestamp), m.payload + rest);
    assert buf[HEADER_SIZE..HEADER_SIZE + |m.payload|] == m.payload;
    assert buf[HEADER_SIZE + |m.payload|..] == rest;
    DecodeByFields(buf, m);
  }

  /** Exactly the payloads up to 64 MB survive the frame, whatever follows it. */
  lemma FrameRoundTripExactly(m: Message, rest: seq<Byte>)
    ensures Decode(Encode(m) + rest) == Got(m, rest) <==> |m.payload| <= MAX_PAYLOAD_SIZE
  {
    if |m.payload| <= MAX_PAYLOAD_SIZE { FrameReadsBack(m, rest); }
    if Decode(Encode(m) + rest).Got? { DecodedBytesAreTheEncoding(Encode(m) + rest); }
  }

  /** A proper prefix of a frame is never an error, only incomplete. */
  lemma PartialFrameWaits(m: Message, p: seq<Byte>)
    requires |m.payload| <= MAX_PAYLOAD_SIZE && p < Encode(m)
    ensures Decode(p) == NeedMore
  {
    if |p| >= HEADER_SIZE {
      var h := Header(m.msgType, LengthField(m), ToUnsigned(m.timestamp));
      var tail := p[HEADER_SIZE..];
      assert p == h + tail by {
        assert p[..HEADER_SIZE] == Encode(m)[..HEADER_SIZE] == h;
      }
      HeaderFields(m.msgType, LengthField(m), ToUnsigned(m.timestamp), tail);
    }
  }

  lemma HeaderBytes(buf: seq<Byte>, t: MessageType)
    requires |buf| >= HEADER_SIZE && buf[0..4] == MAGIC
    requires FromBigEndian(buf[4..6]) == PROTOCOL_VERSION && TypeField(buf) == Code(t)
    ensures buf[..HEADER_SIZE] == Header(t, PayloadLen(buf), TimeField(buf))
  {
    WriteBack(buf[4..6]);
    WriteBack(buf[6..8]);
    WriteBack(buf[8..12]);
    WriteBack(buf[12..20]);
    FieldsOfHeader(buf);
  }

  lemma FieldsOfHeader(buf: seq<Byte>)
    requires |buf| >= HEADER_SIZE
    ensures buf[..HEADER_SIZE] == buf[0..4] + buf[4..6] + buf[6..8] + buf[8..12] + buf[12..20]
  {
  }

  /** Conversely, bytes that decode accepts are exactly the encoding of its message. */
  lemma DecodedBytesAreTheEncoding(buf: seq<Byte>)
    requires Decode(buf).Got?
    ensures buf == Encode(Decode(buf).msg) + Decode(buf).rest
    ensures |Decode(buf).msg.payload| <= MAX_PAYLOAD_SIZE
  {
    var m := Decode(buf).msg;
    CodeTablesAgree(m.msgType, TypeField(buf));
    HeaderBytes(buf, m.msgType);
    assert ToUnsigned(m.timestamp) == TimeField(buf);
    assert LengthField(m) == PayloadLen(buf);
    assert buf == buf[..HEADER_SIZE] + m.payload + Decode(buf).rest;
  }

  // ---------- the bytes of a frame ----------

  /** Where everything is: the magic, then version, type, length and two's complement
      timestamp, most significant byte first, then the payload. */
  lemma FrameLayout(m: Message)
    requires |m.payload| <= MAX_PAYLOAD_SIZE
    ensures var f := Encode(m);
      && f[0] == 0x42 && f[1] == 0x54 && f[2] == 0x52 && f[3] == 0x46
      && Word2(f, 4) == 1 && Word2(f, 6) == Code(m.msgType)
      && Word4(f, 8) == |m.payload| && Word8(f, 12) == m.timestamp % 0x1_0000_0000_0000_0000
      && f[20..] == m.payload
  {
    UnsignedIsModulo(m.timestamp);
    assert LengthField(m) == |m.payload|;
    HeaderWords(m.msgType, LengthField(m), ToUnsigned(m.timestamp), m.payload);
  }

  lemma UnsignedIsModulo(t: I64)
    ensures ToUnsigned(t) == t % 0x1_0000_0000_0000_0000
  {
  }

  lemma HeaderWords(t: MessageType, len: nat, time: nat, tail: seq<Byte>)
    requires len < 0x1_0000_0000 && time < 0x1_0000_0000_0000_0000
    ensures var f := Header(t, len, time) + tail;
      && GoodMagic(f) && Word2(f, 4) == 1 && Word2(f, 6) == Code(t) && Word4(f, 8) == len && Word8(f, 12) == time
      && f[20..] == tail
  {
    var f := Header(t, len, time) + tail;
    HeaderFields(t, len, time, tail);
    MagicBytes(f);
    ReadsWord2(f, 4);
    ReadsWord2(f, 6);
    ReadsWord4(f, 8);
    ReadsWord8(f, 12);
  }

  lemma MagicBytes(buf: seq<Byte>)
    requires |buf| >= 20
    ensures buf[0..4] == MAGIC <==> GoodMagic(buf)
  {
    assert buf[0..4] == [buf[0], buf[1], buf[2], buf[3]];
  }

  predicate GoodMagic(buf: seq<Byte>)
    requires |buf| >= 20
  {
    buf[0] == 0x42 && buf[1] == 0x54 && buf[2] == 0x52 && buf[3] == 0x46
  }

  /** Exactly when each outcome of `decode` occurs, by the bytes at their positions. */
  lemma DecodeExactly(buf: seq<Byte>)
    ensures |buf| < 20 ==> Decode(buf) == NeedMore
    ensures |buf| >= 20 ==>
      var version, code, len := Word2(buf, 4), Word2(buf, 6), Word4(buf, 8);
      if !GoodMagic(buf) then Decode(buf) == Bad(BadMagic, buf)
      else if version != 1 then Decode(buf) == Bad(BadVersion, buf)
      else if len > 67_108_864 then Decode(buf) == Bad(TooLarge, buf)
      else if |buf| < 20 + len then Decode(buf) == NeedMore
      else if forall t :: Code(t) != code then Decode(buf) == Bad(UnknownType, buf[20 + len..])
      else Decode(buf).Got? && Code(Decode(buf).msg.msgType) == code && Decode(buf).rest == buf[20 + len..]
  {
    if |buf| >= 20 {
      MagicBytes(buf);
      ReadsWord2(buf, 4);
      ReadsWord2(buf, 6);
      ReadsWord4(buf, 8);
      var code := Word2(buf, 6);
      forall t ensures TypeOf(code) == Some(t) <==> Code(t) == code { CodeTablesAgree(t, code); }
    }
  }

  // ---------- streams ----------

  function Wire(ms: seq<Message>): seq<Byte> {
    if ms == [] then [] else Encode(ms[0]) + Wire(ms[1..])
  }

  lemma {:induction false} WireSnoc(ms: seq<Message>, m: Message)
    ensures Wire(ms + [m]) == Wire(ms) + Encode(m)
  {
    if ms == [] {
      assert Wire([m][1..]) == [];
    } else {
      assert (ms + [m])[1..] == ms[1..] + [m];
      WireSnoc(ms[1..], m);
    }
  }

  /** The bytes of successive reads. */
  function Flatten(pieces: seq<seq<Byte>>): seq<Byte> {
    if pieces == [] then [] else pieces[0] + Flatten(pieces[1..])
  }

  datatype Received =
    | Closed
    | Failed(error: DecodeError)
    | Frame(msg: Message, buf: seq<Byte>, pieces: seq<seq<Byte>>)

  /** The receive loop on a read buffer and the reads still to come; a read of nothing, or
      no further read, means the peer closed. */
  function Receive(buf: seq<Byte>, pieces: seq<seq<Byte>>): Received
    decreases |pieces|
  {
    match Decode(buf)
    case Got(m, rest) => Frame(m, rest, pieces)
    case Bad(e, _) => Failed(e)
    case NeedMore =>
      if pieces == [] || pieces[0] == [] then Closed else Receive(buf + pieces[0], pieces[1..])
  }

  predicate NonEmptyReads(pieces: seq<seq<Byte>>) {
    forall i | 0 <= i < |pieces| :: pieces[i] != []
  }

  /** Whatever the split, the next frame of the stream comes out and the rest of the
      stream stays in the buffer and the reads. */
  lemma {:induction false} ReceiveNext(m: Message, tail: seq<Byte>, buf: seq<Byte>, pieces: seq<seq<Byte>>)
    requires |m.payload| <= MAX_PAYLOAD_SIZE && NonEmptyReads(pieces)
    requires buf + Flatten(pieces) == Encode(m) + tail
    ensures var r := Receive(buf, pieces);
      r.Frame? && r.msg == m && r.buf + Flatten(r.pieces) == tail && NonEmptyReads(r.pieces)
    decreases |pieces|
  {
    var f := Encode(m);
    if |buf| >= |f| {
      var rest := buf[|f|..];
      assert buf == f + rest by {
        assert buf[..|f|] == (buf + Flatten(pieces))[..|f|] == (f + tail)[..|f|] == f;
      }
      FrameReadsBack(m, rest);
      assert rest + Flatten(pieces) == (buf + Flatten(pieces))[|f|..] == (f + tail)[|f|..] == tail;
    } else {
      assert buf == (buf + Flatten(pieces))[..|buf|] == (f + tail)[..|buf|] == f[..|buf|];
      PartialFrameWaits(m, buf);
      assert |buf + Flatten(pieces)| >= |f| > |buf|;
      assert (buf + pieces[0]) + Flatten(pieces[1..]) == buf + Flatten(pieces);
      ReceiveNext(m, tail, buf + pieces[0], pieces[1..]);
    }
  }

  /** The messages of the first `k` receive calls; fewer only if one of them fails. */
  function ReceiveMany(buf: seq<Byte>, pieces: seq<seq<Byte>>, k: nat): (seq<Message>, seq<Byte>, seq<seq<Byte>>)
    decreases k
  {
    if k == 0 then ([], buf, pieces) else
      match Receive(buf, pieces)
      case Frame(m, buf', pieces') =>
        var rest := ReceiveMany(buf', pieces', k - 1);
        ([m] + rest.0, rest.1, rest.2)
      case _ => ([], buf, pieces)
  }

  /** For any messages up to 64 MB and any split of their concatenated frames into reads,
      the receive loop yields exactly those messages in order and leaves nothing behind. */
  lemma {:induction false} StreamIsDelivered(ms: seq<Message>, buf: seq<Byte>, pieces: seq<seq<Byte>>)
    requires forall m | m in ms :: |m.payload| <= MAX_PAYLOAD_SIZE
    requires NonEmptyReads(pieces) && buf + Flatten(pieces) == Wire(ms)
    ensures ReceiveMany(buf, pieces, |ms|) == (ms, [], [])
    decreases |ms|
  {
    if ms == [] {
      NothingLeft(buf, pieces);
    } else {
      var rest := ms[1..];
      assert ms[0] in ms && ms == [ms[0]] + rest;
      ReceiveNext(ms[0], Wire(rest), buf, pieces);
      var r := Receive(buf, pieces);
      StreamIsDelivered(rest, r.buf, r.pieces);
    }
  }

  lemma NothingLeft(buf: seq<Byte>, pieces: seq<seq<Byte>>)
    requires NonEmptyReads(pieces) && buf + Flatten(pieces) == []
    ensures buf == [] && pieces == []
  {
    assert Flatten(pieces) == [];
  }
}
