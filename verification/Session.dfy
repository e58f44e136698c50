/** One replication transfer: the sender's chunk loop and the receiver's session
    (crates/btrfs-exchange/src/replicator.rs, crates/btrfs-exchange/src/receiver.rs). */
module Session {
  import opened Options
  import opened Frames
  import opened Transport

  const RECEIVE_LIMIT: nat := 512 * 1024 * 1024
  const CHUNK_SIZE: nat := 64 * 1024
  const WRITER_CAPACITY: nat := 8 * 1024

  /** The hash and the JSON texts, as functions, and whether `btrfs receive` starts. `startOk`
      says whether a SendStart payload parses, `claim` and `readClaim` write and read the
      checksum of a SendComplete payload, `reply` is the receiver's final text for a start
      request. */
  datatype Env = Env(
    hash: seq<Byte> -> string,
    startOk: seq<Byte> -> bool,
    spawns: bool,
    claim: string -> seq<Byte>,
    readClaim: seq<Byte> -> Option<string>,
    reply: (seq<Byte>, Verdict) -> seq<Byte>)

  /** What is assumed of the JSON texts: a written checksum reads back. */
  ghost predicate LawfulTexts(env: Env) {
    forall c {:trigger env.claim(c)} :: env.readClaim(env.claim(c)) == Some(c)
  }

  // ---------- the buffered writer in front of the pipe ----------

  /** tokio's BufWriter: bytes already in the pipe, and bytes still buffered. Dropping the
      writer, as the receiver does, discards the latter. */
  datatype Writer = Writer(pipe: seq<Byte>, buf: seq<Byte>)

  /** How many bytes of a large write go straight to the pipe before the remainder is small
      enough to be buffered; the pipe decides (`cut`), within these bounds. */
  function Direct(p: seq<Byte>, cut: nat): (c: nat)
    ensures c <= |p|
    ensures |p| < WRITER_CAPACITY ==> c == 0
    ensures |p| >= WRITER_CAPACITY ==> |p| - c < WRITER_CAPACITY
  {
    if |p| < WRITER_CAPACITY then 0
    else if |p| - WRITER_CAPACITY < cut <= |p| then cut else |p|
  }

  function WriteAll(w: Writer, p: seq<Byte>, cut: nat): Writer {
    if |p| >= WRITER_CAPACITY then
      Writer(w.pipe + w.buf + p[..Direct(p, cut)], p[Direct(p, cut)..])
    else if |w.buf| + |p| > WRITER_CAPACITY then
      Writer(w.pipe + w.buf, p)
    else
      Writer(w.pipe, w.buf + p)
  }

  function Handed(w: Writer): seq<Byte> {
    w.pipe + w.buf
  }

  lemma WriteAllHandsOver(w: Writer, p: seq<Byte>, cut: nat)
    ensures Handed(WriteAll(w, p, cut)) == Handed(w) + p
    ensures |w.buf| <= WRITER_CAPACITY ==> |WriteAll(w, p, cut).buf| <= WRITER_CAPACITY
    ensures p != [] ==> (WriteAll(w, p, cut).buf == [] <==> Direct(p, cut) == |p|)
  {
    if |p| >= WRITER_CAPACITY {
      assert p == p[..Direct(p, cut)] + p[Direct(p, cut)..];
    }
  }

  // ---------- the receiver ----------

  datatype Reason =
    | NotStart | BadStart | SpawnFailed | LimitExceeded | WriteError | WriteTimeout | RemoteError
    | Disconnected(error: TransportError)

  datatype Phase = AwaitStart | Receiving | Completed(claim: Option<string>) | Aborted(reason: Reason)

  /** Fate of writing one chunk to the pipe. */
  datatype Fate = Written(cut: nat) | WriteFailed | WriteTimedOut

  datatype Receiver = Receiver(phase: Phase, total: nat, chunks: nat, hashed: seq<Byte>, writer: Writer)

  const START := Receiver(AwaitStart, 0, 0, [], Writer([], []))

  predicate Done(r: Receiver) {
    r.phase.Completed? || r.phase.Aborted?
  }

  /** A data chunk: counted first, refused over the limit, hashed, then written. */
  function OnData(r: Receiver, p: seq<Byte>, fate: Fate): Receiver {
    var total := r.total + |p|;
    if total > RECEIVE_LIMIT then r.(phase := Aborted(LimitExceeded), total := total) else
      var s := r.(total := total, hashed := r.hashed + p);
      match fate
      case Written(cut) => s.(writer := WriteAll(r.writer, p, cut), chunks := r.chunks + 1)
      case WriteFailed => s.(phase := Aborted(WriteError))
      case WriteTimedOut => s.(phase := Aborted(WriteTimeout))
  }

  function OnMessage(env: Env, r: Receiver, m: Message, fate: Fate): Receiver {
    match r.phase
    case AwaitStart =>
      if m.msgType != SendStart then r.(phase := Aborted(NotStart))
      else if !env.startOk(m.payload) then r.(phase := Aborted(BadStart))
      else if !env.spawns then r.(phase := Aborted(SpawnFailed))
      else r.(phase := Receiving)
    case Receiving =>
      (match m.msgType
       case SendData => OnData(r, m.payload, fate)
       case SendComplete => r.(phase := Completed(env.readClaim(m.payload)))
       case SendError => r.(phase := Aborted(RemoteError))
       case _ => r)
    case _ => r
  }

  /** The session on a list of messages; `fates(k)` is the fate of the k-th chunk. */
  function Session(env: Env, fates: nat -> Fate, r: Receiver, ms: seq<Message>): Receiver
    decreases |ms|
  {
    if ms == [] then r else Session(env, fates, OnMessage(env, r, ms[0], fates(r.chunks)), ms[1..])
  }

  datatype Verdict = Verdict(success: bool, checksum: string)

  /** The final SendComplete answer; none when the session or `btrfs receive` failed. */
  function Answer(env: Env, r: Receiver, exitOk: bool): Option<Verdict> {
    if r.phase.Completed? && exitOk then
      var sum := env.hash(r.hashed);
      Some(Verdict(match r.phase.claim case None => true case Some(c) => c == sum, sum))
    else None
  }

  lemma PlainConsumes(cipher: Option<Aead>, buf: seq<Byte>, pieces: seq<seq<Byte>>)
    ensures var d := ReceivePlain(cipher, buf, pieces);
      d.Delivered? ==> |d.buf| + |Flatten(d.pieces)| < |buf| + |Flatten(pieces)|
  {
    if Receive(buf, pieces).Frame? { ReceiveConsumes(buf, pieces); }
  }

  /** The session on a connection: receive and handle until done. */
  function Serve(
    env: Env, fates: nat -> Fate, cipher: Option<Aead>, buf: seq<Byte>, pieces: seq<seq<Byte>>, r: Receiver): Receiver
    decreases |buf| + |Flatten(pieces)|
  {
    if Done(r) then r else
      PlainConsumes(cipher, buf, pieces);
      match ReceivePlain(cipher, buf, pieces)
      case Lost(e) => r.(phase := Aborted(Disconnected(e)))
      case Delivered(m, buf', pieces') =>
        Serve(env, fates, cipher, buf', pieces', OnMessage(env, r, m, fates(r.chunks)))
  }

  /** `handle_connection`; `exitOk` is the exit status of `btrfs receive`. */
  method HandleConnection(
    conn: TransportConnection, env: Env, fates: nat -> Fate, exitOk: bool,
    nonces: (seq<Byte>, seq<Byte>), times: (I64, I64))
    returns (r: Receiver, answer: Option<Verdict>)
    modifies conn`readBuf, conn`incoming, conn`outgoing
    ensures r == Serve(env, fates, conn.cipher, old(conn.readBuf), old(conn.incoming), START)
    ensures Done(r) && answer == Answer(env, r, exitOk)
    ensures var hello := ReceivePlain(conn.cipher, old(conn.readBuf), old(conn.incoming));
      var started := hello.Delivered? && hello.msg.msgType == SendStart && env.startOk(hello.msg.payload)
        && env.spawns;
      && (answer.Some? ==> started)
      && conn.outgoing == old(conn.outgoing)
           + (if started then Encode(Sealed(conn.cipher, nonces.0, Message(SendStart, [], times.0))) else [])
           + (if answer.None? then [] else
                Encode(Sealed(conn.cipher, nonces.1,
                  Message(SendComplete, env.reply(hello.msg.payload, answer.value), times.1))))
  {
    r := START;
    var d := conn.RecvMessage();
    if d.Lost? {
      r := r.(phase := Aborted(Disconnected(d.error)));
    } else if d.msg.msgType != SendStart {
      r := r.(phase := Aborted(NotStart));
    } else if !env.startOk(d.msg.payload) {
      r := r.(phase := Aborted(BadStart));
    } else if !env.spawns {
      r := r.(phase := Aborted(SpawnFailed));
    } else {
      conn.SendMessage(Message(SendStart, [], times.0), nonces.0);
      r := ReceiveStream(conn, env, fates);
    }
    answer := Answer(env, r, exitOk);
    if answer.Some? {
      conn.SendMessage(Message(SendComplete, env.reply(d.msg.payload, answer.value), times.1), nonces.1);
    }
  }

  /** The SendData branch of the receive loop. */
  method TakeChunk(total0: nat, chunks0: nat, hashed0: seq<Byte>, writer0: Writer, payload: seq<Byte>, fate: Fate)
    returns (phase: Phase, total: nat, chunks: nat, hashed: seq<Byte>, writer: Writer)
    ensures Receiver(phase, total, chunks, hashed, writer)
         == OnData(Receiver(Receiving, total0, chunks0, hashed0, writer0), payload, fate)
    ensures phase == Receiving <==> total0 + |payload| <= RECEIVE_LIMIT && fate.Written?
    ensures phase == Receiving ==> Handed(writer) == Handed(writer0) + payload
  {
    phase, chunks, hashed, writer := Receiving, chunks0, hashed0, writer0;
    total := total0 + |payload|;
    if total > RECEIVE_LIMIT {
      phase := Aborted(LimitExceeded);
      return;
    }
    hashed := hashed + payload;
    match fate {
      case Written(cut) =>
        WriteAllHandsOver(writer, payload, cut);
        writer := WriteAll(writer, payload, cut);
        chunks := chunks + 1;
      case WriteFailed => phase := Aborted(WriteError);
      case WriteTimedOut => phase := Aborted(WriteTimeout);
    }
  }

  /** The receive loop after the start message. */
  method ReceiveStream(conn: TransportConnection, env: Env, fates: nat -> Fate) returns (r: Receiver)
    modifies conn`readBuf, conn`incoming
    ensures r == Serve(env, fates, conn.cipher, old(conn.readBuf), old(conn.incoming), START.(phase := Receiving))
    ensures Done(r)
  {
    var phase: Phase, total: nat, chunks: nat, hashed: seq<Byte>, writer := Receiving, 0, 0, [], Writer([], []);
    while phase == Receiving
      invariant phase != AwaitStart
      invariant Serve(env, fates, conn.cipher, conn.readBuf, conn.incoming,
                      Receiver(phase, total, chunks, hashed, writer))
             == Serve(env, fates, conn.cipher, old(conn.readBuf), old(conn.incoming), START.(phase := Receiving))
      decreases if phase == Receiving then 1 else 0, |conn.readBuf| + |Flatten(conn.incoming)|
    {
      PlainConsumes(conn.cipher, conn.readBuf, conn.incoming);
      var d := conn.RecvMessage();
      if d.Lost? {
        phase := Aborted(Disconnected(d.error));
      } else {
        match d.msg.msgType {
          case SendData =>
            phase, total, chunks, hashed, writer :=
              TakeChunk(total, chunks, hashed, writer, d.msg.payload, fates(chunks));
          case SendComplete => phase := Completed(env.readClaim(d.msg.payload));
          case SendError => phase := Aborted(RemoteError);
          case _ =>
        }
      }
    }
    r := Receiver(phase, total, chunks, hashed, writer);
  }

  // ---------- what the session keeps, for every message sequence ----------

  /** Payloads of the data messages before the first SendComplete. */
  function Payloads(ms: seq<Message>): seq<Byte> {
    if ms == [] || ms[0].msgType == SendComplete then []
    else if ms[0].msgType == SendData then ms[0].payload + Payloads(ms[1..])
    else Payloads(ms[1..])
  }

  ghost predicate Counted(r: Receiver) {
    r.hashed == Handed(r.writer) && r.total == |r.hashed| <= RECEIVE_LIMIT
  }

  lemma {:induction false} DoneStays(env: Env, fates: nat -> Fate, r: Receiver, ms: seq<Message>)
    requires Done(r)
    ensures Session(env, fates, r, ms) == r
  {
    if ms != [] { DoneStays(env, fates, r, ms[1..]); }
  }

  lemma OneMessage(env: Env, r: Receiver, m: Message, fate: Fate)
    requires r.phase == Receiving && Counted(r)
    ensures var t := OnMessage(env, r, m, fate);
      && (t.phase.Aborted? ==> t.writer == r.writer)
      && (t.phase.Completed? ==> m.msgType == SendComplete && t.writer == r.writer && Counted(t))
      && (!Done(t) ==>
            && t.phase == Receiving && Counted(t) && m.msgType != SendComplete
            && Handed(t.writer) == if m.msgType == SendData then Handed(r.writer) + m.payload else Handed(r.writer))
  {
    if m.msgType == SendData && fate.Written? { WriteAllHandsOver(r.writer, m.payload, fate.cut); }
  }

  /** For every message sequence the writer is handed a prefix of the data payloads before
      the first SendComplete, never more than the limit, and all of them unless the session
      aborts; the hash covers exactly those bytes. */
  lemma {:induction false} SessionHandsOverPayloads(env: Env, fates: nat -> Fate, r: Receiver, ms: seq<Message>)
    requires r.phase == Receiving && Counted(r)
    ensures var s := Session(env, fates, r, ms);
      && Handed(s.writer) <= Handed(r.writer) + Payloads(ms)
      && |Handed(s.writer)| <= RECEIVE_LIMIT
      && (!s.phase.Aborted? ==> Handed(s.writer) == Handed(r.writer) + Payloads(ms) && Counted(s))
    decreases |ms|
  {
    if ms != [] {
      var t := OnMessage(env, r, ms[0], fates(r.chunks));
      OneMessage(env, r, ms[0], fates(r.chunks));
      if Done(t) {
        DoneStays(env, fates, t, ms[1..]);
      } else {
        SessionHandsOverPayloads(env, fates, t, ms[1..]);
        Associative(Handed(r.writer), ms[0].payload, Payloads(ms[1..]));
      }
    }
  }

  predicate Relevant(m: Message) {
    m.msgType == SendData || m.msgType == SendComplete || m.msgType == SendError
  }

  function OnlyRelevant(ms: seq<Message>): seq<Message> {
    if ms == [] then [] else (if Relevant(ms[0]) then [ms[0]] else []) + OnlyRelevant(ms[1..])
  }

  /** Messages of unexpected types have no effect on a started session. */
  lemma {:induction false} UnexpectedTypesAreIgnored(env: Env, fates: nat -> Fate, r: Receiver, ms: seq<Message>)
    requires r.phase != AwaitStart
    ensures Session(env, fates, r, ms) == Session(env, fates, r, OnlyRelevant(ms))
    decreases |ms|
  {
    if ms != [] {
      var t := OnMessage(env, r, ms[0], fates(r.chunks));
      UnexpectedTypesAreIgnored(env, fates, t, ms[1..]);
      if Relevant(ms[0]) {
        assert OnlyRelevant(ms)[0] == ms[0] && OnlyRelevant(ms)[1..] == OnlyRelevant(ms[1..]);
      } else {
        assert OnlyRelevant(ms) == OnlyRelevant(ms[1..]);
      }
    }
  }

  /** A SendError before the first SendComplete. */
  predicate FailsFirst(ms: seq<Message>) {
    ms != [] && ms[0].msgType != SendComplete && (ms[0].msgType == SendError || FailsFirst(ms[1..]))
  }

  /** A started session that gets one is aborted and never answered. */
  lemma {:induction false} ErrorAborts(env: Env, fates: nat -> Fate, r: Receiver, ms: seq<Message>, exitOk: bool)
    requires r.phase == Receiving && FailsFirst(ms)
    ensures Session(env, fates, r, ms).phase.Aborted? && Answer(env, Session(env, fates, r, ms), exitOk) == None
    decreases |ms|
  {
    var t := OnMessage(env, r, ms[0], fates(r.chunks));
    if t.phase == Receiving {
      ErrorAborts(env, fates, t, ms[1..], exitOk);
    } else {
      DoneStays(env, fates, t, ms[1..]);
    }
  }

  /** Success is answered exactly for a completed session with a clean exit whose sender
      claimed no checksum or the checksum of the payloads it sent. */
  lemma SuccessExactlyWhenChecksumAgrees(env: Env, fates: nat -> Fate, ms: seq<Message>, exitOk: bool)
    ensures var s := Session(env, fates, START.(phase := Receiving), ms);
      && (Answer(env, s, exitOk).Some? <==> s.phase.Completed? && exitOk)
      && (Answer(env, s, exitOk).Some? ==>
            && Answer(env, s, exitOk).value.checksum == env.hash(Payloads(ms))
            && (Answer(env, s, exitOk).value.success <==>
                  s.phase.claim == None || s.phase.claim == Some(env.hash(Payloads(ms)))))
  {
    SessionHandsOverPayloads(env, fates, START.(phase := Receiving), ms);
    assert [] + Payloads(ms) == Payloads(ms);
  }

  // ---------- the sender ----------

  /** The messages of a transfer whose `btrfs send` output was read as `chunks`. */
  function DataMessages(chunks: seq<seq<Byte>>, times: nat -> I64): seq<Message> {
    seq(|chunks|, i requires 0 <= i < |chunks| => Message(SendData, chunks[i], times(i + 1)))
  }

  /** The messages before the completion. */
  function Opening(start: seq<Byte>, chunks: seq<seq<Byte>>, times: nat -> I64): seq<Message> {
    [Message(SendStart, start, times(0))] + DataMessages(chunks, times)
  }

  function Completion(env: Env, chunks: seq<seq<Byte>>, times: nat -> I64): Message {
    Message(SendComplete, env.claim(env.hash(Flatten(chunks))), times(|chunks| + 1))
  }

  function SendMessages(env: Env, start: seq<Byte>, chunks: seq<seq<Byte>>, times: nat -> I64): seq<Message> {
    Opening(start, chunks, times) + [Completion(env, chunks, times)]
  }

  function SealedAll(cipher: Option<Aead>, nonces: seq<seq<Byte>>, ms: seq<Message>): seq<Message>
    requires |nonces| == |ms|
  {
    seq(|ms|, i requires 0 <= i < |ms| => Sealed(cipher, nonces[i], ms[i]))
  }

  function Drawn(nonces: nat -> seq<Byte>, k: nat): seq<seq<Byte>> {
    seq(k, i requires 0 <= i < k => nonces(i))
  }

  /** The reads up to the end of the output. */
  function UntilEof(output: seq<seq<Byte>>): seq<seq<Byte>> {
    if output == [] || output[0] == [] then [] else [output[0]] + UntilEof(output[1..])
  }

  lemma {:induction false} UntilEofIs(output: seq<seq<Byte>>, k: nat)
    requires k <= |output| && forall i | 0 <= i < k :: output[i] != []
    requires k == |output| || output[k] == []
    ensures UntilEof(output) == output[..k]
  {
    if k > 0 {
      UntilEofIs(output[1..], k - 1);
      assert output[..k] == [output[0]] + output[1..][..k - 1];
    }
  }

  lemma {:induction false} FlattenSnoc(pieces: seq<seq<Byte>>, x: seq<Byte>)
    ensures Flatten(pieces + [x]) == Flatten(pieces) + x
  {
    if pieces == [] {
      assert Flatten([x][1..]) == [];
    } else {
      assert (pieces + [x])[1..] == pieces[1..] + [x];
      FlattenSnoc(pieces[1..], x);
    }
  }

  /** The bytes of a list of messages, sealed with the nonces drawn for them. */
  function Bytes(cipher: Option<Aead>, nonces: nat -> seq<Byte>, ms: seq<Message>): seq<Byte> {
    Wire(SealedAll(cipher, Drawn(nonces, |ms|), ms))
  }

  lemma BytesSnoc(cipher: Option<Aead>, nonces: nat -> seq<Byte>, ms: seq<Message>, m: Message)
    ensures Bytes(cipher, nonces, ms + [m])
         == Bytes(cipher, nonces, ms) + Encode(Sealed(cipher, nonces(|ms|), m))
  {
    var sealed := SealedAll(cipher, Drawn(nonces, |ms|), ms);
    assert SealedAll(cipher, Drawn(nonces, |ms| + 1), ms + [m]) == sealed + [Sealed(cipher, nonces(|ms|), m)];
    WireSnoc(sealed, Sealed(cipher, nonces(|ms|), m));
  }

  /** What has been written after the start message and the chunks. */
  function SoFar(
    cipher: Option<Aead>, nonces: nat -> seq<Byte>, start: seq<Byte>, chunks: seq<seq<Byte>>, times: nat -> I64)
    : seq<Byte>
  {
    Bytes(cipher, nonces, Opening(start, chunks, times))
  }

  lemma SoFarSnoc(
    cipher: Option<Aead>, nonces: nat -> seq<Byte>, start: seq<Byte>, chunks: seq<seq<Byte>>, x: seq<Byte>,
    times: nat -> I64)
    ensures SoFar(cipher, nonces, start, chunks + [x], times) == SoFar(cipher, nonces, start, chunks, times)
         + Encode(Sealed(cipher, nonces(|chunks| + 1), Message(SendData, x, times(|chunks| + 1))))
  {
    var m := Message(SendData, x, times(|chunks| + 1));
    assert Opening(start, chunks + [x], times) == Opening(start, chunks, times) + [m];
    BytesSnoc(cipher, nonces, Opening(start, chunks, times), m);
  }

  lemma SoFarStart(cipher: Option<Aead>, nonces: nat -> seq<Byte>, start: seq<Byte>, times: nat -> I64)
    ensures SoFar(cipher, nonces, start, [], times)
         == Encode(Sealed(cipher, nonces(0), Message(SendStart, start, times(0))))
  {
    var m := Message(SendStart, start, times(0));
    BytesSnoc(cipher, nonces, [], m);
    assert Opening(start, [], times) == [] + [m];
    assert Bytes(cipher, nonces, []) == [];
  }

  lemma ChunkSent(
    before: seq<Byte>, cipher: Option<Aead>, nonces: nat -> seq<Byte>, start: seq<Byte>, output: seq<seq<Byte>>,
    k: nat, times: nat -> I64)
    requires k < |output|
    ensures Flatten(output[..k + 1]) == Flatten(output[..k]) + output[k]
    ensures before + SoFar(cipher, nonces, start, output[..k + 1], times)
         == before + SoFar(cipher, nonces, start, output[..k], times)
              + Encode(Sealed(cipher, nonces(k + 1), Message(SendData, output[k], times(k + 1))))
  {
    assert output[..k + 1] == output[..k] + [output[k]];
    FlattenSnoc(output[..k], output[k]);
    SoFarSnoc(cipher, nonces, start, output[..k], output[k], times);
    Associative(before, SoFar(cipher, nonces, start, output[..k], times),
      Encode(Sealed(cipher, nonces(k + 1), Message(SendData, output[k], times(k + 1)))));
  }

  /** The chunk loop of `send_to_target`: one data message per read, all of them hashed. */
  method SendChunks(
    conn: TransportConnection, output: seq<seq<Byte>>, ghost before: seq<Byte>, ghost start: seq<Byte>,
    nonces: nat -> seq<Byte>, times: nat -> I64) returns (k: nat, hashed: seq<Byte>)
    requires conn.outgoing == before + SoFar(conn.cipher, nonces, start, [], times)
    modifies conn`outgoing
    ensures k <= |output| && UntilEof(output) == output[..k] && hashed == Flatten(output[..k])
    ensures conn.outgoing == before + SoFar(conn.cipher, nonces, start, output[..k], times)
  {
    k, hashed := 0, [];
    assert output[..0] == [];
    while k < |output| && output[k] != []
      invariant k <= |output| && forall i | 0 <= i < k :: output[i] != []
      invariant hashed == Flatten(output[..k])
      invariant conn.outgoing == before + SoFar(conn.cipher, nonces, start, output[..k], times)
    {
      ChunkSent(before, conn.cipher, nonces, start, output, k, times);
      hashed := hashed + output[k];
      conn.SendMessage(Message(SendData, output[k], times(k + 1)), nonces(k + 1));
      k := k + 1;
    }
    UntilEofIs(output, k);
  }

  lemma Associative<T>(a: seq<T>, b: seq<T>, c: seq<T>)
    ensures a + b + c == a + (b + c)
  {
  }

  /** All bytes of a finished transfer. */
  function TransferBytes(
    env: Env, cipher: Option<Aead>, nonces: nat -> seq<Byte>, start: seq<Byte>, chunks: seq<seq<Byte>>,
    times: nat -> I64): seq<Byte>
  {
    Bytes(cipher, nonces, SendMessages(env, start, chunks, times))
  }

  lemma FinishTransfer(
    env: Env, cipher: Option<Aead>, nonces: nat -> seq<Byte>, start: seq<Byte>, chunks: seq<seq<Byte>>,
    times: nat -> I64, before: seq<Byte>)
    ensures before + TransferBytes(env, cipher, nonces, start, chunks, times)
         == before + SoFar(cipher, nonces, start, chunks, times)
              + Encode(Sealed(cipher, nonces(|chunks| + 1), Completion(env, chunks, times)))
  {
    var complete := Completion(env, chunks, times);
    BytesSnoc(cipher, nonces, Opening(start, chunks, times), complete);
    Associative(before, SoFar(cipher, nonces, start, chunks, times),
      Encode(Sealed(cipher, nonces(|chunks| + 1), complete)));
  }

  /** `send_to_target`; `output` are the reads of `btrfs send`, `exitOk` its exit status.
      The receiver's final answer is not awaited. */
  method SendToTarget(
    conn: TransportConnection, env: Env, start: seq<Byte>, output: seq<seq<Byte>>, exitOk: bool,
    nonces: nat -> seq<Byte>, times: nat -> I64) returns (ok: bool)
    modifies conn
    ensures conn.cipher == old(conn.cipher)
    ensures var ack := ReceivePlain(conn.cipher, old(conn.readBuf), old(conn.incoming));
      var acked := ack.Delivered? && ack.msg.msgType == SendStart;
      && (ok <==> acked && exitOk)
      && conn.outgoing == old(conn.outgoing)
           + (if ok then TransferBytes(env, conn.cipher, nonces, start, UntilEof(output), times)
              else SoFar(conn.cipher, nonces, start, if acked then UntilEof(output) else [], times))
  {
    conn.SendMessage(Message(SendStart, start, times(0)), nonces(0));
    SoFarStart(conn.cipher, nonces, start, times);
    var ack := conn.RecvMessage();
    if ack.Lost? || ack.msg.msgType != SendStart { return false; }
    var k, hashed := SendChunks(conn, output, old(conn.outgoing), start, nonces, times);
    if !exitOk { return false; }
    conn.SendMessage(Message(SendComplete, env.claim(env.hash(hashed)), times(k + 1)), nonces(k + 1));
    FinishTransfer(env, conn.cipher, nonces, start, output[..k], times, old(conn.outgoing));
    ok := true;
  }
}
