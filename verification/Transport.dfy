/** Payload encryption and the connection object (crates/btrfs-protocol/src/transport.rs). */
module Transport {
  import opened Options
  import opened Frames

  datatype CipherKind = Aes256Gcm | XChaCha20

  const TAG_SIZE: nat := 16

  function NonceSize(k: CipherKind): nat {
    match k
    case Aes256Gcm => 12
    case XChaCha20 => 24
  }

  /** An AEAD under a fixed key: `seal(nonce, plain)` and `open(nonce, sealed)`. */
  datatype Aead = Aead(
    kind: CipherKind,
    seal: (seq<Byte>, seq<Byte>) -> seq<Byte>,
    open: (seq<Byte>, seq<Byte>) -> Option<seq<Byte>>)

  /** What is assumed of an AEAD: opening undoes sealing, and sealing adds one tag. */
  ghost predicate Lawful(a: Aead) {
    forall nonce: seq<Byte>, p: seq<Byte> {:trigger a.seal(nonce, p)} ::
      |a.seal(nonce, p)| == |p| + TAG_SIZE && a.open(nonce, a.seal(nonce, p)) == Some(p)
  }

  /** `PayloadCipher::encrypt` with the drawn nonce. */
  function Encrypt(a: Aead, nonce: seq<Byte>, p: seq<Byte>): seq<Byte> {
    nonce + a.seal(nonce, p)
  }

  function Decrypt(a: Aead, data: seq<Byte>): Option<seq<Byte>> {
    var n := NonceSize(a.kind);
    if |data| < n + TAG_SIZE then None else a.open(data[..n], data[n..])
  }

  lemma DecryptUndoesEncrypt(a: Aead, nonce: seq<Byte>, p: seq<Byte>)
    requires Lawful(a) && |nonce| == NonceSize(a.kind)
    ensures Decrypt(a, Encrypt(a, nonce, p)) == Some(p)
    ensures |Encrypt(a, nonce, p)| == |p| + |nonce| + TAG_SIZE
  {
    var data := Encrypt(a, nonce, p);
    assert |a.seal(nonce, p)| == |p| + TAG_SIZE;
    assert data[..|nonce|] == nonce && data[|nonce|..] == a.seal(nonce, p);
  }

  /** The layout of a sealed payload: the nonce, 12 or 24 bytes by cipher, then the AEAD's
      output; anything shorter than nonce and tag does not open. */
  lemma SealedLayout(a: Aead, nonce: seq<Byte>, p: seq<Byte>, data: seq<Byte>)
    requires |nonce| == (if a.kind == Aes256Gcm then 12 else 24)
    ensures Encrypt(a, nonce, p)[..|nonce|] == nonce && Encrypt(a, nonce, p)[|nonce|..] == a.seal(nonce, p)
    ensures Decrypt(a, data) == if |data| < |nonce| + 16 then None else a.open(data[..|nonce|], data[|nonce|..])
  {
  }

  /** Payload as written to the wire: sealed once the cipher is on. */
  function SealPayload(cipher: Option<Aead>, nonce: seq<Byte>, p: seq<Byte>): seq<Byte> {
    match cipher
    case None => p
    case Some(a) => Encrypt(a, nonce, p)
  }

  function OpenPayload(cipher: Option<Aead>, data: seq<Byte>): Option<seq<Byte>> {
    match cipher
    case None => Some(data)
    case Some(a) => Decrypt(a, data)
  }

  function Sealed(cipher: Option<Aead>, nonce: seq<Byte>, m: Message): Message {
    m.(payload := SealPayload(cipher, nonce, m.payload))
  }

  /** The nonce fits the cipher and the sealed payload fits a frame. */
  predicate Fits(cipher: Option<Aead>, nonce: seq<Byte>, m: Message) {
    match cipher
    case None => |m.payload| <= MAX_PAYLOAD_SIZE
    case Some(a) => |nonce| == NonceSize(a.kind) && |m.payload| + |nonce| + TAG_SIZE <= MAX_PAYLOAD_SIZE
  }

  lemma SealedOpens(cipher: Option<Aead>, nonce: seq<Byte>, m: Message)
    requires cipher.Some? ==> Lawful(cipher.value)
    requires Fits(cipher, nonce, m)
    ensures OpenPayload(cipher, Sealed(cipher, nonce, m).payload) == Some(m.payload)
    ensures |Sealed(cipher, nonce, m).payload| <= MAX_PAYLOAD_SIZE
  {
    if cipher.Some? { DecryptUndoesEncrypt(cipher.value, nonce, m.payload); }
  }

  datatype TransportError = ConnectionClosed | BadFrame(error: DecodeError) | DecryptionFailed | AuthRejected | Protocol

  /** One successful `recv_message`: the plain message and what is left to read. */
  datatype Delivery =
    | Lost(error: TransportError)
    | Delivered(msg: Message, buf: seq<Byte>, pieces: seq<seq<Byte>>)

  function ReceivePlain(cipher: Option<Aead>, buf: seq<Byte>, pieces: seq<seq<Byte>>): Delivery {
    match Receive(buf, pieces)
    case Closed => Lost(ConnectionClosed)
    case Failed(e) => Lost(BadFrame(e))
    case Frame(wire, buf', pieces') =>
      match OpenPayload(cipher, wire.payload)
      case None => Lost(DecryptionFailed)
      case Some(p) => Delivered(wire.(payload := p), buf', pieces')
  }

  /** What a receive leaves in the buffer and the reads, whether it succeeds or not. */
  function AfterReceive(buf: seq<Byte>, pieces: seq<seq<Byte>>): (seq<Byte>, seq<seq<Byte>>)
    decreases |pieces|
  {
    match Decode(buf)
    case Got(_, rest) => (rest, pieces)
    case Bad(_, rest) => (rest, pieces)
    case NeedMore =>
      if pieces == [] || pieces[0] == [] then (buf, pieces) else AfterReceive(buf + pieces[0], pieces[1..])
  }

  /** A receive takes exactly the frame of its message off the stream, and nothing when the
      peer closes. */
  lemma {:induction false} ReceiveTakes(buf: seq<Byte>, pieces: seq<seq<Byte>>) returns (taken: seq<Byte>)
    ensures buf + Flatten(pieces) == taken + (AfterReceive(buf, pieces).0 + Flatten(AfterReceive(buf, pieces).1))
    ensures Receive(buf, pieces) == Closed ==> taken == []
    ensures var r := Receive(buf, pieces);
      r.Frame? ==> taken == Encode(r.msg) && AfterReceive(buf, pieces) == (r.buf, r.pieces)
    decreases |pieces|
  {
    var d := Decode(buf);
    if d.NeedMore? {
      if pieces == [] || pieces[0] == [] {
        taken := [];
      } else {
        taken := ReceiveTakes(buf + pieces[0], pieces[1..]);
        assert (buf + pieces[0]) + Flatten(pieces[1..]) == buf + Flatten(pieces);
      }
    } else {
      taken := DecodeTakes(buf, Flatten(pieces));
    }
  }

  lemma DecodeTakes(buf: seq<Byte>, more: seq<Byte>) returns (taken: seq<Byte>)
    requires Decode(buf) != NeedMore
    ensures buf + more == taken + (Decode(buf).rest + more)
    ensures Decode(buf).Got? ==> taken == Encode(Decode(buf).msg)
  {
    if Decode(buf).Got? {
      DecodedBytesAreTheEncoding(buf);
      taken := Encode(Decode(buf).msg);
    } else {
      BadRestIsSuffix(buf);
      taken := buf[..|buf| - |Decode(buf).rest|];
    }
    assert buf == taken + Decode(buf).rest;
  }

  lemma BadRestIsSuffix(buf: seq<Byte>)
    requires Decode(buf).Bad?
    ensures var rest := Decode(buf).rest; |rest| <= |buf| && rest == buf[|buf| - |rest|..]
  {
  }

  /** The bytes after the first `k` reads, and that none before were a complete frame. */
  function After(buf: seq<Byte>, pieces: seq<seq<Byte>>, k: nat): seq<Byte>
    requires k <= |pieces|
  {
    buf + Flatten(pieces[..k])
  }

  ghost predicate Waits(buf: seq<Byte>, pieces: seq<seq<Byte>>, k: nat)
    requires k <= |pieces|
  {
    forall j | 0 <= j < k :: pieces[j] != [] && Decode(After(buf, pieces, j)) == NeedMore
  }

  lemma WaitsCons(buf: seq<Byte>, pieces: seq<seq<Byte>>, k: nat)
    requires k < |pieces| && pieces[0] != [] && Decode(buf) == NeedMore
    requires Waits(buf + pieces[0], pieces[1..], k)
    ensures Waits(buf, pieces, k + 1)
    ensures After(buf, pieces, k + 1) == After(buf + pieces[0], pieces[1..], k)
  {
    FlattenFront(buf, pieces, k);
    forall j | 0 <= j < k + 1 ensures pieces[j] != [] && Decode(After(buf, pieces, j)) == NeedMore {
      if j == 0 {
        assert After(buf, pieces, 0) == buf;
      } else {
        FlattenFront(buf, pieces, j - 1);
        assert pieces[j] == pieces[1..][j - 1] && Decode(After(buf + pieces[0], pieces[1..], j - 1)) == NeedMore;
      }
    }
  }

  /** The outcome when decoding gives `d` and `later` are the reads not yet made. */
  function OutcomeOf(cipher: Option<Aead>, d: Decoded, later: seq<seq<Byte>>): Delivery {
    match d
    case NeedMore => Lost(ConnectionClosed)
    case Bad(e, _) => Lost(BadFrame(e))
    case Got(m, rest) =>
      match OpenPayload(cipher, m.payload)
      case None => Lost(DecryptionFailed)
      case Some(p) => Delivered(m.(payload := p), rest, later)
  }

  /** What a receive does on any buffer and reads: it reads on while the bytes are no complete
      frame, and the first bytes that are one, or are an error, or the end decide. */
  lemma {:induction false} ReceiveExactly(cipher: Option<Aead>, buf: seq<Byte>, pieces: seq<seq<Byte>>)
    returns (k: nat)
    ensures k <= |pieces| && Waits(buf, pieces, k)
    ensures Decode(After(buf, pieces, k)) == NeedMore ==> k == |pieces| || pieces[k] == []
    ensures ReceivePlain(cipher, buf, pieces) == OutcomeOf(cipher, Decode(After(buf, pieces, k)), pieces[k..])
    decreases |pieces|
  {
    if Decode(buf) == NeedMore && pieces != [] && pieces[0] != [] {
      k := ReceiveExactly(cipher, buf + pieces[0], pieces[1..]);
      WaitsCons(buf, pieces, k);
      k := k + 1;
    } else {
      k := 0;
      assert After(buf, pieces, 0) == buf;
    }
  }

  lemma FlattenFront(buf: seq<Byte>, pieces: seq<seq<Byte>>, k: nat)
    requires k < |pieces|
    ensures buf + Flatten(pieces[..k + 1]) == (buf + pieces[0]) + Flatten(pieces[1..][..k])
  {
    assert pieces[..k + 1] == [pieces[0]] + pieces[1..][..k];
  }

  /** A blocking receive is some deliveries into the buffer and one try on what is there. */
  lemma {:induction false} ReceiveByDeliveries(buf: seq<Byte>, pieces: seq<seq<Byte>>) returns (k: nat)
    requires Receive(buf, pieces).Frame?
    ensures k <= |pieces|
    ensures var r := Receive(buf, pieces);
      Receive(buf + Flatten(pieces[..k]), []) == Frame(r.msg, r.buf, []) && r.pieces == pieces[k..]
    decreases |pieces|
  {
    if Decode(buf) == NeedMore {
      k := ReceiveByDeliveries(buf + pieces[0], pieces[1..]);
      FlattenFront(buf, pieces, k);
      k := k + 1;
    } else {
      k := 0;
      assert buf + Flatten(pieces[..0]) == buf;
    }
  }

  /** The answer to an authentication whose token was checked. */
  function AuthAnswer(ok: bool, reason: seq<Byte>, time: I64): Message {
    if ok then Message(AuthOk, [], time) else Message(AuthFailed, reason, time)
  }

  /** The next sealed message of a stream comes out in plain, whatever the split. */
  lemma PlainNext(
    cipher: Option<Aead>, nonce: seq<Byte>, m: Message, tail: seq<Byte>, buf: seq<Byte>, pieces: seq<seq<Byte>>)
    requires cipher.Some? ==> Lawful(cipher.value)
    requires Fits(cipher, nonce, m) && NonEmptyReads(pieces)
    requires buf + Flatten(pieces) == Encode(Sealed(cipher, nonce, m)) + tail
    ensures var r := ReceivePlain(cipher, buf, pieces);
      r.Delivered? && r.msg == m && r.buf + Flatten(r.pieces) == tail && NonEmptyReads(r.pieces)
  {
    SealedOpens(cipher, nonce, m);
    ReceiveNext(Sealed(cipher, nonce, m), tail, buf, pieces);
  }

  /** A receive that succeeds consumes at least a header. */
  lemma {:induction false} ReceiveConsumes(buf: seq<Byte>, pieces: seq<seq<Byte>>)
    requires Receive(buf, pieces).Frame?
    ensures var r := Receive(buf, pieces);
      |r.buf| + |Flatten(r.pieces)| < |buf| + |Flatten(pieces)|
    decreases |pieces|
  {
    if Decode(buf) == NeedMore {
      assert |Flatten(pieces)| == |pieces[0]| + |Flatten(pieces[1..])|;
      ReceiveConsumes(buf + pieces[0], pieces[1..]);
    }
  }

  /** A connection: the read buffer, the cipher once it is on, the reads the socket will
      return, and all bytes written to it. */
  class TransportConnection {
    var readBuf: seq<Byte>
    var cipher: Option<Aead>
    var incoming: seq<seq<Byte>>
    var outgoing: seq<Byte>

    constructor (incoming: seq<seq<Byte>>)
      ensures readBuf == [] && cipher == None && outgoing == [] && this.incoming == incoming
    {
      readBuf, cipher, outgoing := [], None, [];
      this.incoming := incoming;
    }

    method SendMessage(msg: Message, nonce: seq<Byte>)
      modifies this`outgoing
      ensures outgoing == old(outgoing) + Encode(Sealed(cipher, nonce, msg))
    {
      var payload := match cipher case None => msg.payload case Some(a) => Encrypt(a, nonce, msg.payload);
      var data := EncodeMessage(Message(msg.msgType, payload, msg.timestamp));
      outgoing := outgoing + data;
    }

    /** `Message::decode` on the read buffer. */
    method DecodeFrame() returns (r: Decoded)
      modifies this`readBuf
      ensures r == Decode(old(readBuf))
      ensures readBuf == if r == NeedMore then old(readBuf) else r.rest
    {
      if |readBuf| < HEADER_SIZE { return NeedMore; }
      if readBuf[0..4] != MAGIC { return Bad(BadMagic, readBuf); }
      if FromBigEndian(readBuf[4..6]) != PROTOCOL_VERSION { return Bad(BadVersion, readBuf); }
      var code, len, time := TypeField(readBuf), PayloadLen(readBuf), ToSigned(TimeField(readBuf));
      if len > MAX_PAYLOAD_SIZE { return Bad(TooLarge, readBuf); }
      if |readBuf| < HEADER_SIZE + len { return NeedMore; }
      var payload := readBuf[HEADER_SIZE..HEADER_SIZE + len];
      readBuf := readBuf[HEADER_SIZE + len..];
      match TypeOf(code) {
        case None => r := Bad(UnknownType, readBuf);
        case Some(t) => r := Got(Message(t, payload, time), readBuf);
      }
    }

    method RecvMessage() returns (r: Delivery)
      modifies this`readBuf, this`incoming
      ensures r == ReceivePlain(cipher, old(readBuf), old(incoming))
      ensures r.Delivered? ==> readBuf == r.buf && incoming == r.pieces
      ensures (readBuf, incoming) == AfterReceive(old(readBuf), old(incoming))
    {
      while true
        invariant Receive(readBuf, incoming) == Receive(old(readBuf), old(incoming))
        invariant AfterReceive(readBuf, incoming) == AfterReceive(old(readBuf), old(incoming))
        decreases |incoming|
      {
        var d := DecodeFrame();
        match d {
          case Got(wire, _) =>
            match OpenPayload(cipher, wire.payload) {
              case None => return Lost(DecryptionFailed);
              case Some(p) => return Delivered(wire.(payload := p), readBuf, incoming);
            }
          case Bad(e, _) => return Lost(BadFrame(e));
          case NeedMore =>
            if incoming == [] || incoming[0] == [] { return Lost(ConnectionClosed); }
            readBuf, incoming := readBuf + incoming[0], incoming[1..];
        }
      }
    }

    /** `connect`: authenticate in clear, then switch the cipher on. */
    method Connect(token: seq<Byte>, time: I64, aead: Aead) returns (error: Option<TransportError>)
      requires cipher == None
      modifies this
      ensures outgoing == old(outgoing) + Encode(Message(Auth, token, time))
      ensures var reply := ReceivePlain(None, old(readBuf), old(incoming));
        && (error.None? <==> reply.Delivered? && reply.msg.msgType == AuthOk)
        && (error.None? ==> cipher == Some(aead) && readBuf == reply.buf && incoming == reply.pieces)
        && (error.Some? ==> cipher == None)
        && (reply.Lost? ==> error == Some(reply.error))
        && (reply.Delivered? && reply.msg.msgType != AuthOk ==>
              error == Some(if reply.msg.msgType == AuthFailed then AuthRejected else Protocol))
    {
      SendMessage(Message(Auth, token, time), []);
      var reply := RecvMessage();
      if reply.Lost? { return Some(reply.error); }
      match reply.msg.msgType {
        case AuthOk =>
          cipher := Some(aead);
          return None;
        case AuthFailed => return Some(AuthRejected);
        case _ => return Some(Protocol);
      }
    }

    /** `accept`: `verdict` is the outcome of checking the token, None when it is malformed. */
    method Accept(verdict: seq<Byte> -> Option<bool>, reason: seq<Byte>, time: I64, aead: Aead)
      returns (error: Option<TransportError>)
      requires cipher == None
      modifies this
      ensures var hello := ReceivePlain(None, old(readBuf), old(incoming));
        var valid := if hello.Delivered? && hello.msg.msgType == Auth then verdict(hello.msg.payload) else None;
        && (error.None? <==> valid == Some(true))
        && (error.None? ==> cipher == Some(aead) && readBuf == hello.buf && incoming == hello.pieces)
        && (error.Some? ==> cipher == None)
        && (hello.Lost? ==> error == Some(hello.error))
        && (hello.Delivered? && valid != Some(true) ==>
              error == Some(if hello.msg.msgType == Auth then AuthRejected else Protocol))
        && outgoing == old(outgoing) + (match valid
             case None => []
             case Some(ok) => Encode(AuthAnswer(ok, reason, time)))
    {
      var hello := RecvMessage();
      if hello.Lost? { return Some(hello.error); }
      if hello.msg.msgType != Auth { return Some(Protocol); }
      match verdict(hello.msg.payload) {
        case None => return Some(AuthRejected);
        case Some(ok) =>
          if ok {
            SendMessage(Message(AuthOk, [], time), []);
            cipher := Some(aead);
            return None;
          }
          SendMessage(Message(AuthFailed, reason, time), []);
          return Some(AuthRejected);
      }
    }
  }
}
