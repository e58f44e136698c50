/** Two endpoints over FIFO byte channels: the handshake, then messages both ways, under
    every interleaving and every segmentation (crates/btrfs-protocol/src/transport.rs). */
module Channel {
  import opened Options
  import opened Frames
  import opened Transport

  datatype ClientPhase = Fresh | Waiting | ClientOpen | ClientFailed
  datatype ServerPhase = Listening | Switching | ServerOpen | ServerFailed

  /** A message handed to `send_message`, whether it was sealed, and its wire form. */
  datatype Sent = Sent(msg: Message, isSealed: bool, wire: Message)

  /** A message returned by `recv_message`, and whether its payload was decrypted. */
  datatype Seen = Seen(msg: Message, wasOpened: bool)

  /** One direction: bytes in flight, the receiver's read buffer, and both logs. */
  datatype Pipe = Pipe(flight: seq<Byte>, buf: seq<Byte>, sent: seq<Sent>, seen: seq<Seen>)

  datatype State = State(client: ClientPhase, server: ServerPhase, up: Pipe, down: Pipe, fault: bool)

  datatype Verdict = Malformed | Rejected(reason: seq<Byte>) | Accepted

  datatype Step =
    | SendAuth(token: seq<Byte>, time: I64)
    | Deliver(upward: bool, count: nat)
    | HandleAuth(verdict: Verdict, time: I64)
    | ServerSwitch
    | HandleReply
    | ClientSend(msg: Message, nonce: seq<Byte>)
    | ServerSend(msg: Message, nonce: seq<Byte>)
    | ClientRecv
    | ServerRecv

  const EMPTY := Pipe([], [], [], [])
  const INIT := State(Fresh, Listening, EMPTY, EMPTY, false)

  /** The ciphers of the two ends: each end picks its own, without negotiation. */
  datatype Link = Link(client: Aead, server: Aead)

  /** What `seal` seals, `open` opens always, or never. */
  ghost predicate Opens(seal: Aead, open: Aead, ok: bool) {
    forall nonce: seq<Byte>, p: seq<Byte> {:trigger Encrypt(seal, nonce, p)} | |nonce| == NonceSize(seal.kind) ::
      && |Encrypt(seal, nonce, p)| == |p| + |nonce| + TAG_SIZE
      && Decrypt(open, Encrypt(seal, nonce, p)) == if ok then Some(p) else None
  }

  /** The two ends understand each other, or neither opens what the other seals. */
  ghost predicate LinkOk(l: Link, ok: bool) {
    Opens(l.client, l.server, ok) && Opens(l.server, l.client, ok)
  }

  lemma SharedCipherOpens(a: Aead)
    requires Lawful(a)
    ensures LinkOk(Link(a, a), true)
  {
    forall nonce: seq<Byte>, p: seq<Byte> | |nonce| == NonceSize(a.kind)
      ensures |Encrypt(a, nonce, p)| == |p| + |nonce| + TAG_SIZE && Decrypt(a, Encrypt(a, nonce, p)) == Some(p)
    {
      DecryptUndoesEncrypt(a, nonce, p);
    }
  }

  function Cipher(a: Aead, on: bool): Option<Aead> {
    if on then Some(a) else None
  }

  function Push(a: Aead, p: Pipe, m: Message, nonce: seq<Byte>, on: bool): Pipe {
    var wire := Sealed(Cipher(a, on), nonce, m);
    p.(flight := p.flight + Encode(wire), sent := p.sent + [Sent(m, on, wire)])
  }

  datatype Pulled = Nothing | Broken | Took(msg: Message, pipe: Pipe)

  /** One try of `recv_message` on the bytes already buffered, the peer not having closed. */
  function Pull(a: Aead, p: Pipe, on: bool): Pulled {
    match ReceivePlain(Cipher(a, on), p.buf, [])
    case Lost(ConnectionClosed) => Nothing
    case Lost(_) => Broken
    case Delivered(m, buf, _) => Took(m, p.(buf := buf, seen := p.seen + [Seen(m, on)]))
  }

  function Move(p: Pipe, k: nat): Pipe {
    if k > |p.flight| then p else p.(buf := p.buf + p.flight[..k], flight := p.flight[k..])
  }

  function Answer(verdict: Verdict, time: I64): Message
    requires verdict != Malformed
  {
    AuthAnswer(verdict.Accepted?, if verdict.Rejected? then verdict.reason else [], time)
  }

  /** A `recv_message` that blocks over several reads is these reads as deliveries and then
      one successful try. */
  lemma ReceiveIsDeliverThenPull(a: Aead, p: Pipe, on: bool, pieces: seq<seq<Byte>>) returns (k: nat)
    requires Flatten(pieces) <= p.flight && ReceivePlain(Cipher(a, on), p.buf, pieces).Delivered?
    ensures k <= |pieces|
    ensures var r := ReceivePlain(Cipher(a, on), p.buf, pieces);
      var n := |Flatten(pieces[..k])|;
      && r.pieces == pieces[k..]
      && Pull(a, Move(p, n), on).Took? && Pull(a, Move(p, n), on).msg == r.msg
      && Pull(a, Move(p, n), on).pipe.buf == r.buf
  {
    k := ReceiveByDeliveries(p.buf, pieces);
    FlattenSplitAt(pieces, k);
    var front := Flatten(pieces[..k]);
    assert p.flight[..|front|] == Flatten(pieces)[..|front|] == front;
  }

  lemma {:induction false} FlattenSplitAt(pieces: seq<seq<Byte>>, k: nat)
    requires k <= |pieces|
    ensures Flatten(pieces) == Flatten(pieces[..k]) + Flatten(pieces[k..])
  {
    if k > 0 {
      FlattenSplitAt(pieces[1..], k - 1);
      assert pieces[..k] == [pieces[0]] + pieces[1..][..k - 1];
      assert pieces[k..] == pieces[1..][k - 1..];
    }
  }

  /** The server has read the authentication and answers it. */
  function AfterAuth(l: Link, s: State, up: Pipe, verdict: Verdict, time: I64): State
    requires verdict != Malformed
  {
    s.(server := if verdict.Accepted? then Switching else ServerFailed, up := up,
       down := Push(l.server, s.down, Answer(verdict, time), [], false))
  }

  /** Each endpoint's cipher is on exactly in its open phase. A step out of turn, or a
      receive with no complete frame buffered, changes nothing; an endpoint whose receive
      fails gives up. */
  function Next(l: Link, s: State, step: Step): State {
    match step
    case SendAuth(token, time) =>
      if s.client != Fresh then s else
        s.(client := Waiting, up := Push(l.client, s.up, Message(Auth, token, time), [], false))
    case Deliver(upward, k) =>
      if upward then s.(up := Move(s.up, k)) else s.(down := Move(s.down, k))
    case HandleAuth(verdict, time) =>
      if s.server != Listening then s else
        (match Pull(l.server, s.up, false)
         case Nothing => s
         case Broken => s.(fault := true, server := ServerFailed)
         case Took(m, up) =>
           if m.msgType != Auth || verdict == Malformed then s.(server := ServerFailed, up := up)
           else AfterAuth(l, s, up, verdict, time))
    case ServerSwitch =>
      if s.server == Switching then s.(server := ServerOpen) else s
    case HandleReply =>
      if s.client != Waiting then s else
        (match Pull(l.client, s.down, false)
         case Nothing => s
         case Broken => s.(fault := true, client := ClientFailed)
         case Took(m, down) =>
           s.(down := down, client := if m.msgType == AuthOk then ClientOpen else ClientFailed))
    case ClientSend(m, nonce) =>
      if s.client != ClientOpen then s else s.(up := Push(l.client, s.up, m, nonce, true))
    case ServerSend(m, nonce) =>
      if s.server != ServerOpen then s else s.(down := Push(l.server, s.down, m, nonce, true))
    case ClientRecv =>
      if s.client != ClientOpen then s else
        (match Pull(l.client, s.down, true)
         case Nothing => s
         case Broken => s.(fault := true, client := ClientFailed)
         case Took(_, down) => s.(down := down))
    case ServerRecv =>
      if s.server != ServerOpen then s else
        (match Pull(l.server, s.up, true)
         case Nothing => s
         case Broken => s.(fault := true, server := ServerFailed)
         case Took(_, up) => s.(up := up))
  }

  /** The client steps send the bytes of `connect` and switch the cipher on when it does. */
  lemma ClientIsConnect(l: Link, s: State, token: seq<Byte>, time: I64)
    ensures s.client == Fresh ==>
      var t := Next(l, s, SendAuth(token, time));
      t.client == Waiting && t.up.flight == s.up.flight + Encode(Message(Auth, token, time))
    ensures s.client == Waiting ==>
      var t, reply := Next(l, s, HandleReply), ReceivePlain(None, s.down.buf, []);
      && (reply == Lost(ConnectionClosed) ==> t == s)
      && (reply.Lost? && reply.error != ConnectionClosed ==> t.client == ClientFailed)
      && (reply.Delivered? ==>
            && t.client == (if reply.msg.msgType == AuthOk then ClientOpen else ClientFailed)
            && t.down.buf == reply.buf)
  {
  }

  /** The server step sends the bytes of `accept` and goes on to the cipher when it does. */
  lemma ServerIsAccept(l: Link, s: State, verdict: Verdict, time: I64)
    requires s.server == Listening
    ensures var t, hello := Next(l, s, HandleAuth(verdict, time)), ReceivePlain(None, s.up.buf, []);
      var checked := hello.Delivered? && hello.msg.msgType == Auth && verdict != Malformed;
      && (hello == Lost(ConnectionClosed) ==> t == s)
      && (hello != Lost(ConnectionClosed) ==>
            t.server == if checked && verdict.Accepted? then Switching else ServerFailed)
      && (hello.Delivered? ==> t.up.buf == hello.buf)
      && t.down.flight == s.down.flight + (if checked then Encode(Answer(verdict, time)) else [])
  {
  }

  function Run(l: Link, steps: seq<Step>): State {
    if steps == [] then INIT else Next(l, Run(l, steps[..|steps| - 1]), steps[|steps| - 1])
  }

  /** The payloads handed to the senders fit a frame and the nonces fit the cipher. */
  predicate Legal(l: Link, step: Step) {
    match step
    case SendAuth(token, _) => |token| <= MAX_PAYLOAD_SIZE
    case HandleAuth(verdict, _) => verdict.Rejected? ==> |verdict.reason| <= MAX_PAYLOAD_SIZE
    case ClientSend(m, nonce) => Fits(Some(l.client), nonce, m)
    case ServerSend(m, nonce) => Fits(Some(l.server), nonce, m)
    case _ => true
  }

  // ---------- the invariant ----------

  function Wires(sent: seq<Sent>): seq<Message> {
    seq(|sent|, i requires 0 <= i < |sent| => sent[i].wire)
  }

  ghost predicate SentOk(open: Aead, ok: bool, x: Sent) {
    && |x.wire.payload| <= MAX_PAYLOAD_SIZE
    && OpenPayload(Cipher(open, x.isSealed), x.wire.payload)
         == (if x.isSealed && !ok then None else Some(x.msg.payload))
    && x.wire.msgType == x.msg.msgType && x.wire.timestamp == x.msg.timestamp
  }

  /** Everything sent opens to its message, or does not open, the first frame of a direction
      being in clear and all others sealed; what has been received is a prefix of what was
      sent, decrypted exactly where sealed, and only the first frame if nothing opens. */
  ghost predicate LogsOk(open: Aead, ok: bool, p: Pipe) {
    && (forall i | 0 <= i < |p.sent| :: SentOk(open, ok, p.sent[i]) && (p.sent[i].isSealed <==> i >= 1))
    && |p.seen| <= |p.sent| && (|p.seen| <= 1 || ok)
    && (forall i | 0 <= i < |p.seen| ::
          p.seen[i].msg == p.sent[i].msg && p.seen[i].wasOpened == p.sent[i].isSealed)
  }

  /** The frames not yet received are exactly the bytes still around. */
  ghost predicate BytesOk(p: Pipe) {
    |p.seen| <= |p.sent| && p.buf + p.flight == Wire(Wires(p.sent[|p.seen|..]))
  }

  ghost predicate PipeOk(open: Aead, ok: bool, p: Pipe) {
    LogsOk(open, ok, p) && BytesOk(p)
  }

  ghost predicate PhasesOk(s: State) {
    && (s.client == Fresh <==> s.up.sent == [])
    && (s.client == Fresh || s.client == Waiting ==> s.down.seen == [])
    && (s.client == ClientOpen ==> s.down.seen != [])
    && (s.server == Listening ==> s.up.seen == [] && s.down.sent == [])
    && (s.server == Switching || s.server == ServerOpen ==> s.up.seen != [] && s.down.sent != [])
  }

  ghost predicate Inv(l: Link, ok: bool, s: State) {
    (s.fault ==> !ok) && PhasesOk(s) && PipeOk(l.server, ok, s.up) && PipeOk(l.client, ok, s.down)
  }

  lemma PendingSnoc(sent: seq<Sent>, k: nat, x: Sent)
    requires k <= |sent|
    ensures Wires((sent + [x])[k..]) == Wires(sent[k..]) + [x.wire]
  {
    assert (sent + [x])[k..] == sent[k..] + [x];
  }

  lemma AppendBytes(buf: seq<Byte>, flight: seq<Byte>, frame: seq<Byte>, pending: seq<Byte>)
    requires buf + flight == pending
    ensures buf + (flight + frame) == pending + frame
  {
    assert buf + (flight + frame) == buf + flight + frame;
  }

  lemma AppendKeepsBytes(p: Pipe, x: Sent)
    requires BytesOk(p)
    ensures BytesOk(p.(flight := p.flight + Encode(x.wire), sent := p.sent + [x]))
  {
    PendingSnoc(p.sent, |p.seen|, x);
    WireSnoc(Wires(p.sent[|p.seen|..]), x.wire);
    AppendBytes(p.buf, p.flight, Encode(x.wire), Wire(Wires(p.sent[|p.seen|..])));
  }

  lemma AppendKeepsLogs(open: Aead, ok: bool, p: Pipe, x: Sent, flight: seq<Byte>)
    requires LogsOk(open, ok, p) && SentOk(open, ok, x) && (x.isSealed <==> p.sent != [])
    ensures LogsOk(open, ok, p.(flight := flight, sent := p.sent + [x]))
  {
  }

  lemma PushKeepsPipe(seal: Aead, open: Aead, ok: bool, p: Pipe, m: Message, nonce: seq<Byte>, on: bool)
    requires Opens(seal, open, ok) && PipeOk(open, ok, p) && Fits(Cipher(seal, on), nonce, m)
    requires on <==> p.sent != []
    ensures PipeOk(open, ok, Push(seal, p, m, nonce, on))
  {
    var x := Sent(m, on, Sealed(Cipher(seal, on), nonce, m));
    assert on ==> x.wire.payload == Encrypt(seal, nonce, m.payload);
    AppendKeepsBytes(p, x);
    AppendKeepsLogs(open, ok, p, x, p.flight + Encode(x.wire));
  }

  lemma SplitFlight(buf: seq<Byte>, flight: seq<Byte>, k: nat)
    requires k <= |flight|
    ensures (buf + flight[..k]) + flight[k..] == buf + flight
  {
  }

  lemma MoveKeepsPipe(open: Aead, ok: bool, p: Pipe, k: nat)
    requires PipeOk(open, ok, p)
    ensures PipeOk(open, ok, Move(p, k))
  {
    if k <= |p.flight| { SplitFlight(p.buf, p.flight, k); }
  }

  /** The buffered bytes are a prefix of the frames still to come. */
  lemma HeadOfPipe(open: Aead, ok: bool, p: Pipe)
    requires PipeOk(open, ok, p)
    ensures |p.seen| == |p.sent| ==> Decode(p.buf) == NeedMore && p.buf == []
    ensures |p.seen| < |p.sent| ==>
      var wire := p.sent[|p.seen|].wire;
      || Decode(p.buf) == NeedMore
      || (Decode(p.buf).Got? && Decode(p.buf).msg == wire
          && Decode(p.buf).rest + p.flight == Wire(Wires(p.sent[|p.seen| + 1..])))
  {
    var waiting := p.sent[|p.seen|..];
    if |p.seen| < |p.sent| {
      var wire := waiting[0].wire;
      assert Wires(waiting)[0] == wire && Wires(waiting)[1..] == Wires(p.sent[|p.seen| + 1..]);
      var f, tail := Encode(wire), Wire(Wires(p.sent[|p.seen| + 1..]));
      assert p.buf + p.flight == f + tail;
      FirstFrame(wire, tail, p.buf, p.flight);
    } else {
      assert Wires(waiting) == [];
    }
  }

  lemma FirstFrame(wire: Message, tail: seq<Byte>, buf: seq<Byte>, flight: seq<Byte>)
    requires |wire.payload| <= MAX_PAYLOAD_SIZE && buf + flight == Encode(wire) + tail
    ensures
      || Decode(buf) == NeedMore
      || (Decode(buf).Got? && Decode(buf).msg == wire && Decode(buf).rest + flight == tail)
  {
    var f := Encode(wire);
    if |buf| >= |f| {
      var rest := buf[|f|..];
      assert buf[..|f|] == (buf + flight)[..|f|] == (f + tail)[..|f|] == f;
      assert buf == f + rest;
      FrameReadsBack(wire, rest);
      assert rest + flight == (buf + flight)[|f|..] == (f + tail)[|f|..] == tail;
    } else {
      assert buf == (buf + flight)[..|buf|] == (f + tail)[..|buf|] == f[..|buf|];
      PartialFrameWaits(wire, buf);
    }
  }

  lemma PullOfFrame(open: Aead, p: Pipe, on: bool)
    ensures Pull(open, p, on) == match Decode(p.buf)
      case NeedMore => Nothing
      case Bad(_, _) => Broken
      case Got(wire, rest) =>
        match OpenPayload(Cipher(open, on), wire.payload)
        case None => Broken
        case Some(x) =>
          var m := wire.(payload := x);
          Took(m, p.(buf := rest, seen := p.seen + [Seen(m, on)]))
  {
  }

  lemma TakeKeepsPipe(open: Aead, ok: bool, p: Pipe, on: bool, rest: seq<Byte>)
    requires PipeOk(open, ok, p) && (on <==> p.seen != []) && (on ==> ok) && |p.seen| < |p.sent|
    requires rest + p.flight == Wire(Wires(p.sent[|p.seen| + 1..]))
    ensures PipeOk(open, ok, p.(buf := rest, seen := p.seen + [Seen(p.sent[|p.seen|].msg, on)]))
  {
  }

  /** A try fails exactly on a complete sealed frame that does not open. */
  lemma PullKeepsPipe(open: Aead, ok: bool, p: Pipe, on: bool)
    requires PipeOk(open, ok, p) && (on <==> p.seen != [])
    ensures Pull(open, p, on) == Broken <==> on && !ok && Decode(p.buf) != NeedMore
    ensures Pull(open, p, on).Took? ==>
      var q := Pull(open, p, on).pipe;
      && PipeOk(open, ok, q) && q.sent == p.sent
      && |p.seen| < |p.sent| && q.seen == p.seen + [Seen(p.sent[|p.seen|].msg, on)]
      && Pull(open, p, on).msg == p.sent[|p.seen|].msg
  {
    HeadOfPipe(open, ok, p);
    PullOfFrame(open, p, on);
    var d := Decode(p.buf);
    if d != NeedMore {
      var x := p.sent[|p.seen|];
      assert SentOk(open, ok, x) && (x.isSealed <==> on);
      if on ==> ok {
        assert x.wire.(payload := x.msg.payload) == x.msg;
        TakeKeepsPipe(open, ok, p, on, d.rest);
      }
    }
  }

  lemma ReplyKeepsInv(l: Link, ok: bool, s: State)
    requires Inv(l, ok, s)
    ensures Inv(l, ok, Next(l, s, HandleReply))
  {
    if s.client == Waiting { PullKeepsPipe(l.client, ok, s.down, false); }
  }

  lemma ClientRecvKeepsInv(l: Link, ok: bool, s: State)
    requires Inv(l, ok, s)
    ensures Inv(l, ok, Next(l, s, ClientRecv))
  {
    if s.client == ClientOpen { PullKeepsPipe(l.client, ok, s.down, true); }
  }

  lemma ServerRecvKeepsInv(l: Link, ok: bool, s: State)
    requires Inv(l, ok, s)
    ensures Inv(l, ok, Next(l, s, ServerRecv))
  {
    if s.server == ServerOpen { PullKeepsPipe(l.server, ok, s.up, true); }
  }

  lemma SendKeepsInv(l: Link, ok: bool, s: State, step: Step)
    requires LinkOk(l, ok) && Inv(l, ok, s) && Legal(l, step)
    requires step.SendAuth? || step.ClientSend? || step.ServerSend?
    ensures Inv(l, ok, Next(l, s, step))
  {
    match step
    case SendAuth(token, time) =>
      if s.client == Fresh {
        PushKeepsPipe(l.client, l.server, ok, s.up, Message(Auth, token, time), [], false);
      }
    case ClientSend(m, nonce) =>
      if s.client == ClientOpen { PushKeepsPipe(l.client, l.server, ok, s.up, m, nonce, true); }
    case ServerSend(m, nonce) =>
      if s.server == ServerOpen { PushKeepsPipe(l.server, l.client, ok, s.down, m, nonce, true); }
  }

  lemma DeliverKeepsInv(l: Link, ok: bool, s: State, upward: bool, k: nat)
    requires Inv(l, ok, s)
    ensures Inv(l, ok, Next(l, s, Deliver(upward, k)))
  {
    if upward { MoveKeepsPipe(l.server, ok, s.up, k); } else { MoveKeepsPipe(l.client, ok, s.down, k); }
  }

  lemma SwitchKeepsInv(l: Link, ok: bool, s: State)
    requires Inv(l, ok, s)
    ensures Inv(l, ok, Next(l, s, ServerSwitch))
  {
  }

  lemma StepKeepsInv(l: Link, ok: bool, s: State, step: Step)
    requires LinkOk(l, ok) && Inv(l, ok, s) && Legal(l, step)
    ensures Inv(l, ok, Next(l, s, step))
  {
    match step
    case Deliver(upward, k) => DeliverKeepsInv(l, ok, s, upward, k);
    case HandleAuth(verdict, time) =>
      if s.server == Listening { AuthKeepsInv(l, ok, s, verdict, time); }
    case ServerSwitch => SwitchKeepsInv(l, ok, s);
    case HandleReply => ReplyKeepsInv(l, ok, s);
    case ClientRecv => ClientRecvKeepsInv(l, ok, s);
    case ServerRecv => ServerRecvKeepsInv(l, ok, s);
    case _ => SendKeepsInv(l, ok, s, step);
  }

  lemma AnswerKeepsInv(l: Link, ok: bool, s: State, up: Pipe, verdict: Verdict, time: I64)
    requires LinkOk(l, ok) && Inv(l, ok, s) && s.server == Listening && verdict != Malformed
    requires PipeOk(l.server, ok, up) && up.sent == s.up.sent && up.seen != []
    requires verdict.Rejected? ==> |verdict.reason| <= MAX_PAYLOAD_SIZE
    ensures Inv(l, ok, AfterAuth(l, s, up, verdict, time))
  {
    assert Fits(None, [], Answer(verdict, time));
    PushKeepsPipe(l.server, l.client, ok, s.down, Answer(verdict, time), [], false);
  }

  lemma AuthKeepsInv(l: Link, ok: bool, s: State, verdict: Verdict, time: I64)
    requires LinkOk(l, ok) && Inv(l, ok, s) && Legal(l, HandleAuth(verdict, time)) && s.server == Listening
    ensures Inv(l, ok, Next(l, s, HandleAuth(verdict, time)))
  {
    PullKeepsPipe(l.server, ok, s.up, false);
    var t := Next(l, s, HandleAuth(verdict, time));
    match Pull(l.server, s.up, false)
    case Nothing => assert t == s;
    case Took(m, up) =>
      if m.msgType != Auth || verdict == Malformed {
        assert t == s.(server := ServerFailed, up := up);
      } else {
        AnswerKeepsInv(l, ok, s, up, verdict, time);
      }
  }

  ghost predicate LegalRun(l: Link, steps: seq<Step>) {
    forall step | step in steps :: Legal(l, step)
  }

  lemma {:induction false} RunKeepsInv(l: Link, ok: bool, steps: seq<Step>)
    requires LinkOk(l, ok) && LegalRun(l, steps)
    ensures Inv(l, ok, Run(l, steps))
  {
    if steps == [] {
      assert Wires([]) == [];
    } else {
      RunKeepsInv(l, ok, steps[..|steps| - 1]);
      assert steps[|steps| - 1] in steps;
      StepKeepsInv(l, ok, Run(l, steps[..|steps| - 1]), steps[|steps| - 1]);
    }
  }

  /** Over every run of ends that understand each other: no receive ever fails; what each
      side has received is, message by message, a prefix of what the other side sent; and
      every frame is decrypted exactly when it was encrypted. */
  lemma EndpointsAgree(l: Link, steps: seq<Step>)
    requires LinkOk(l, true) && LegalRun(l, steps)
    ensures var s := Run(l, steps);
      && !s.fault
      && (forall p | p == s.up || p == s.down ::
            && |p.seen| <= |p.sent|
            && forall i | 0 <= i < |p.seen| ::
                 p.seen[i].msg == p.sent[i].msg && p.seen[i].wasOpened == p.sent[i].isSealed)
  {
    RunKeepsInv(l, true, steps);
  }

  /** Once nothing is in flight and a receiver finds no complete frame, it has everything. */
  lemma DrainedPipeIsComplete(l: Link, steps: seq<Step>, p: Pipe)
    requires LinkOk(l, true) && LegalRun(l, steps)
    requires p == Run(l, steps).up || p == Run(l, steps).down
    requires p.flight == [] && Decode(p.buf) == NeedMore
    ensures |p.seen| == |p.sent| && p.buf == []
  {
    RunKeepsInv(l, true, steps);
    var open := if p == Run(l, steps).up then l.server else l.client;
    HeadOfPipe(open, true, p);
    if |p.seen| < |p.sent| { BufferHoldsFrame(open, true, p); }
  }

  lemma BufferHoldsFrame(open: Aead, ok: bool, p: Pipe)
    requires PipeOk(open, ok, p) && p.flight == [] && |p.seen| < |p.sent|
    ensures Decode(p.buf) != NeedMore
  {
    var waiting := p.sent[|p.seen|..];
    var wire := waiting[0].wire;
    assert Wires(waiting)[0] == wire;
    assert p.buf == p.buf + p.flight == Encode(wire) + Wire(Wires(waiting)[1..]);
    FrameReadsBack(wire, Wire(Wires(waiting)[1..]));
  }

  // ---------- progress ----------

  /** A receive with a complete frame buffered takes exactly the next message sent. */
  ghost predicate TakesNext(p: Pipe, q: Pipe) {
    && |p.seen| < |p.sent|
    && q.seen == p.seen + [Seen(p.sent[|p.seen|].msg, true)]
    && q.sent == p.sent && q.flight == p.flight
    && p.buf == Encode(p.sent[|p.seen|].wire) + q.buf
  }

  lemma PullTakesNext(open: Aead, p: Pipe)
    requires PipeOk(open, true, p) && p.seen != [] && Decode(p.buf) != NeedMore
    ensures Pull(open, p, true).Took? && TakesNext(p, Pull(open, p, true).pipe)
  {
    HeadOfPipe(open, true, p);
    PullOfFrame(open, p, true);
    var x := p.sent[|p.seen|];
    assert SentOk(open, true, x) && x.isSealed;
    assert x.wire.(payload := x.msg.payload) == x.msg;
    DecodedBytesAreTheEncoding(p.buf);
  }

  /** Over every run an open endpoint's receive takes the next message off a buffer that
      holds a complete frame, and changes nothing else. */
  lemma OpenEndpointsReceive(l: Link, steps: seq<Step>)
    requires LinkOk(l, true) && LegalRun(l, steps)
    ensures var s := Run(l, steps);
      && (s.server == ServerOpen && Decode(s.up.buf) != NeedMore ==>
            var t := Next(l, s, ServerRecv);
            TakesNext(s.up, t.up) && t == s.(up := t.up))
      && (s.client == ClientOpen && Decode(s.down.buf) != NeedMore ==>
            var t := Next(l, s, ClientRecv);
            TakesNext(s.down, t.down) && t == s.(down := t.down))
  {
    var s := Run(l, steps);
    RunKeepsInv(l, true, steps);
    if s.server == ServerOpen && Decode(s.up.buf) != NeedMore { ServerTakesNext(l, s); }
    if s.client == ClientOpen && Decode(s.down.buf) != NeedMore { ClientTakesNext(l, s); }
  }

  lemma ServerTakesNext(l: Link, s: State)
    requires Inv(l, true, s) && s.server == ServerOpen && Decode(s.up.buf) != NeedMore
    ensures var t := Next(l, s, ServerRecv); TakesNext(s.up, t.up) && t == s.(up := t.up)
  {
    PullTakesNext(l.server, s.up);
    assert Next(l, s, ServerRecv) == s.(up := Pull(l.server, s.up, true).pipe);
  }

  lemma ClientTakesNext(l: Link, s: State)
    requires Inv(l, true, s) && s.client == ClientOpen && Decode(s.down.buf) != NeedMore
    ensures var t := Next(l, s, ClientRecv); TakesNext(s.down, t.down) && t == s.(down := t.down)
  {
    PullTakesNext(l.client, s.down);
    assert Next(l, s, ClientRecv) == s.(down := Pull(l.client, s.down, true).pipe);
  }

  /** An open endpoint's message is logged and its sealed frame goes out behind the others. */
  ghost predicate SendsNext(seal: Aead, p: Pipe, q: Pipe, m: Message, nonce: seq<Byte>) {
    && |q.sent| == |p.sent| + 1 && q.sent[..|p.sent|] == p.sent && q.sent[|p.sent|].msg == m
    && q.flight == p.flight + Encode(m.(payload := Encrypt(seal, nonce, m.payload)))
    && q.buf == p.buf && q.seen == p.seen
  }

  lemma OpenEndpointsSend(l: Link, s: State, m: Message, nonce: seq<Byte>)
    ensures s.client == ClientOpen ==>
      SendsNext(l.client, s.up, Next(l, s, ClientSend(m, nonce)).up, m, nonce)
    ensures s.server == ServerOpen ==>
      SendsNext(l.server, s.down, Next(l, s, ServerSend(m, nonce)).down, m, nonce)
  {
  }

  /** One step `k` times in a row. */
  function Repeat(l: Link, s: State, step: Step, k: nat): State
    decreases k
  {
    if k == 0 then s else Repeat(l, Next(l, s, step), step, k - 1)
  }

  /** The receiver of one direction, its cipher, its step and its pipe. */
  predicate IsOpen(s: State, upward: bool) {
    if upward then s.server == ServerOpen else s.client == ClientOpen
  }

  function PipeOf(s: State, upward: bool): Pipe {
    if upward then s.up else s.down
  }

  function ReceiveStep(upward: bool): Step {
    if upward then ServerRecv else ClientRecv
  }

  lemma ReceivesOne(l: Link, s: State, upward: bool)
    requires Inv(l, true, s) && IsOpen(s, upward) && PipeOf(s, upward).flight == []
    requires |PipeOf(s, upward).seen| < |PipeOf(s, upward).sent|
    ensures var t := Next(l, s, ReceiveStep(upward));
      && Inv(l, true, t) && IsOpen(t, upward) && TakesNext(PipeOf(s, upward), PipeOf(t, upward))
  {
    BufferHoldsFrame(if upward then l.server else l.client, true, PipeOf(s, upward));
    if upward {
      ServerTakesNext(l, s);
      ServerRecvKeepsInv(l, true, s);
    } else {
      ClientTakesNext(l, s);
      ClientRecvKeepsInv(l, true, s);
    }
  }

  lemma {:induction false} Drains(l: Link, s: State, upward: bool, k: nat)
    requires Inv(l, true, s) && IsOpen(s, upward) && PipeOf(s, upward).flight == []
    requires |PipeOf(s, upward).sent| == |PipeOf(s, upward).seen| + k
    ensures var t := Repeat(l, s, ReceiveStep(upward), k);
      && Inv(l, true, t) && PipeOf(t, upward).sent == PipeOf(s, upward).sent
      && |PipeOf(t, upward).seen| == |PipeOf(t, upward).sent|
    decreases k
  {
    if k > 0 {
      ReceivesOne(l, s, upward);
      Drains(l, Next(l, s, ReceiveStep(upward)), upward, k - 1);
    }
  }

  /** The bytes in flight are delivered, and as many receives follow as messages are
      outstanding. */
  function Drained(l: Link, s: State, upward: bool): State
    requires |PipeOf(s, upward).seen| <= |PipeOf(s, upward).sent|
  {
    var p := PipeOf(s, upward);
    Repeat(l, Next(l, s, Deliver(upward, |p.flight|)), ReceiveStep(upward), |p.sent| - |p.seen|)
  }

  ghost predicate AllArrived(p: Pipe, q: Pipe) {
    && q.sent == p.sent && |q.seen| == |p.sent|
    && forall i | 0 <= i < |p.sent| :: q.seen[i].msg == p.sent[i].msg
  }

  lemma DeliversAll(l: Link, s: State, upward: bool)
    requires Inv(l, true, s) && IsOpen(s, upward)
    ensures var p := PipeOf(s, upward);
      var d := Next(l, s, Deliver(upward, |p.flight|));
      && Inv(l, true, d) && IsOpen(d, upward) && PipeOf(d, upward).flight == []
      && PipeOf(d, upward).sent == p.sent && PipeOf(d, upward).seen == p.seen
  {
    DeliverKeepsInv(l, true, s, upward, |PipeOf(s, upward).flight|);
  }

  lemma ReceivedAll(l: Link, s: State, upward: bool)
    requires Inv(l, true, s) && |PipeOf(s, upward).seen| == |PipeOf(s, upward).sent|
    ensures var p := PipeOf(s, upward); forall i | 0 <= i < |p.sent| :: p.seen[i].msg == p.sent[i].msg
  {
  }

  lemma DrainedHasAll(l: Link, s: State, upward: bool)
    requires Inv(l, true, s) && IsOpen(s, upward)
    ensures |PipeOf(s, upward).seen| <= |PipeOf(s, upward).sent|
    ensures AllArrived(PipeOf(s, upward), PipeOf(Drained(l, s, upward), upward))
  {
    var p := PipeOf(s, upward);
    DeliversAll(l, s, upward);
    Drains(l, Next(l, s, Deliver(upward, |p.flight|)), upward, |p.sent| - |p.seen|);
    ReceivedAll(l, Drained(l, s, upward), upward);
  }

  /** Nothing is ever stuck: after every run of ends that understand each other, an open
      endpoint can be handed everything that was sent to it, in order. */
  lemma EverythingArrives(l: Link, steps: seq<Step>, upward: bool)
    requires LinkOk(l, true) && LegalRun(l, steps) && IsOpen(Run(l, steps), upward)
    ensures var s := Run(l, steps);
      && |PipeOf(s, upward).seen| <= |PipeOf(s, upward).sent|
      && AllArrived(PipeOf(s, upward), PipeOf(Drained(l, s, upward), upward))
  {
    RunKeepsInv(l, true, steps);
    DrainedHasAll(l, Run(l, steps), upward);
  }

  // ---------- ends with different ciphers ----------

  /** Over every run of ends that do not understand each other: nothing but the handshake
      frame ever comes through in either direction, and an open endpoint that receives with
      a complete frame buffered fails. */
  lemma ClashingEndpoints(l: Link, steps: seq<Step>)
    requires LinkOk(l, false) && LegalRun(l, steps)
    ensures var s := Run(l, steps);
      && |s.up.seen| <= 1 && |s.down.seen| <= 1
      && (s.server == ServerOpen && Decode(s.up.buf) != NeedMore ==>
            Next(l, s, ServerRecv) == s.(fault := true, server := ServerFailed))
      && (s.client == ClientOpen && Decode(s.down.buf) != NeedMore ==>
            Next(l, s, ClientRecv) == s.(fault := true, client := ClientFailed))
  {
    var s := Run(l, steps);
    RunKeepsInv(l, false, steps);
    if s.server == ServerOpen && Decode(s.up.buf) != NeedMore { ServerBreaks(l, s); }
    if s.client == ClientOpen && Decode(s.down.buf) != NeedMore { ClientBreaks(l, s); }
  }

  lemma ServerBreaks(l: Link, s: State)
    requires Inv(l, false, s) && s.server == ServerOpen && Decode(s.up.buf) != NeedMore
    ensures Next(l, s, ServerRecv) == s.(fault := true, server := ServerFailed)
  {
    PullKeepsPipe(l.server, false, s.up, true);
    assert Pull(l.server, s.up, true) == Broken;
  }

  lemma ClientBreaks(l: Link, s: State)
    requires Inv(l, false, s) && s.client == ClientOpen && Decode(s.down.buf) != NeedMore
    ensures Next(l, s, ClientRecv) == s.(fault := true, client := ClientFailed)
  {
    PullKeepsPipe(l.client, false, s.down, true);
    assert Pull(l.client, s.down, true) == Broken;
  }

  lemma RunSnoc(l: Link, steps: seq<Step>, step: Step)
    ensures Run(l, steps + [step]) == Next(l, Run(l, steps), step)
  {
    assert (steps + [step])[..|steps|] == steps;
  }

  lemma WholeFrameIsTaken(a: Aead, p: Pipe, m: Message)
    requires |m.payload| <= MAX_PAYLOAD_SIZE && p.buf == [] && p.flight == Encode(m)
    ensures var q := Move(p, |p.flight|);
      Pull(a, q, false) == Took(m, q.(buf := [], seen := q.seen + [Seen(m, false)]))
  {
    var q := Move(p, |p.flight|);
    assert q.buf == Encode(m) + [];
    FrameReadsBack(m, []);
  }

  /** The authentication is sent and delivered whole. */
  lemma HelloArrives(l: Link, hello: Message) returns (steps: seq<Step>)
    requires hello.msgType == Auth && |hello.payload| <= MAX_PAYLOAD_SIZE
    ensures LegalRun(l, steps)
    ensures var s := Run(l, steps);
      && s.client == Waiting && s.server == Listening && s.down == EMPTY && s.up.flight == [] && |s.up.sent| == 1
      && Pull(l.server, s.up, false) == Took(hello, s.up.(buf := [], seen := [Seen(hello, false)]))
  {
    var r0: seq<Step> := [];
    var r1 := r0 + [SendAuth(hello.payload, hello.timestamp)];
    RunSnoc(l, r0, SendAuth(hello.payload, hello.timestamp));
    var s1 := Run(l, r1);
    assert s1.up.flight == [] + Encode(hello) == Encode(hello);
    WholeFrameIsTaken(l.server, s1.up, hello);
    steps := r1 + [Deliver(true, |s1.up.flight|)];
    RunSnoc(l, r1, Deliver(true, |s1.up.flight|));
  }

  /** The client's half of a handshake that goes well. */
  lemma AuthArrives(l: Link, token: seq<Byte>, time: I64, answerTime: I64) returns (steps: seq<Step>)
    requires |token| <= MAX_PAYLOAD_SIZE
    ensures LegalRun(l, steps)
    ensures var s := Run(l, steps);
      && s.client == Waiting && s.server == ServerOpen && s.up.buf == [] && s.up.flight == []
      && |s.up.seen| == |s.up.sent| == 1
      && s.down.buf == [] && s.down.seen == [] && s.down.flight == Encode(Message(AuthOk, [], answerTime))
  {
    var r2 := HelloArrives(l, Message(Auth, token, time));
    var r3 := r2 + [HandleAuth(Accepted, answerTime)];
    RunSnoc(l, r2, HandleAuth(Accepted, answerTime));
    assert Run(l, r3) == AfterAuth(l, Run(l, r2), Pull(l.server, Run(l, r2).up, false).pipe, Accepted, answerTime);
    steps := r3 + [ServerSwitch];
    RunSnoc(l, r3, ServerSwitch);
    var answer := Message(AuthOk, [], answerTime);
    assert [] + Encode(answer) == Encode(answer);
  }

  /** The handshake is in clear and succeeds whatever the ciphers are. */
  lemma HandshakeIgnoresCiphers(l: Link, token: seq<Byte>, time: I64, answerTime: I64) returns (steps: seq<Step>)
    requires |token| <= MAX_PAYLOAD_SIZE
    ensures LegalRun(l, steps)
    ensures var s := Run(l, steps);
      && s.client == ClientOpen && s.server == ServerOpen && s.up.flight == []
      && |s.up.seen| == |s.up.sent| == 1
  {
    var r := AuthArrives(l, token, time, answerTime);
    var s := Run(l, r);
    WholeFrameIsTaken(l.client, s.down, Message(AuthOk, [], answerTime));
    var r1 := r + [Deliver(false, |s.down.flight|)];
    RunSnoc(l, r, Deliver(false, |s.down.flight|));
    assert Run(l, r1) == s.(down := Move(s.down, |s.down.flight|));
    steps := r1 + [HandleReply];
    RunSnoc(l, r1, HandleReply);
  }

  /** What the missing negotiation costs: with clashing ciphers both ends are open after the
      handshake, and the first message the client sends breaks the connection. */
  lemma MixedCiphersBreak(
    l: Link, token: seq<Byte>, time: I64, answerTime: I64, m: Message, nonce: seq<Byte>)
    returns (base: seq<Step>, steps: seq<Step>)
    requires LinkOk(l, false) && |token| <= MAX_PAYLOAD_SIZE && Legal(l, ClientSend(m, nonce))
    ensures Run(l, base).client == ClientOpen && Run(l, base).server == ServerOpen
    ensures var sent := Next(l, Run(l, base), ClientSend(m, nonce));
      steps == base + [ClientSend(m, nonce)] + [Deliver(true, |sent.up.flight|)]
    ensures Next(l, Run(l, steps), ServerRecv).fault && Next(l, Run(l, steps), ServerRecv).server == ServerFailed
  {
    base := HandshakeIgnoresCiphers(l, token, time, answerTime);
    var r1 := base + [ClientSend(m, nonce)];
    RunSnoc(l, base, ClientSend(m, nonce));
    var s1 := Run(l, r1);
    steps := r1 + [Deliver(true, |s1.up.flight|)];
    RunSnoc(l, r1, Deliver(true, |s1.up.flight|));
    RunKeepsInv(l, false, steps);
    BufferHoldsFrame(l.server, false, Run(l, steps).up);
    ClashingEndpoints(l, steps);
  }
}
