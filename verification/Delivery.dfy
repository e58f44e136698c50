/** Whole transfers: what the sender wrote, split by the network in any way, as the receiver
    sees it (crates/btrfs-exchange/src/replicator.rs, crates/btrfs-exchange/src/receiver.rs). */
module Delivery {
  import opened Options
  import opened Frames
  import opened Transport
  import opened Sessions = Session

  /** Reading a sealed stream off the wire gives the session its messages, and then the end
      of the stream if they do not end it. */
  lemma {:induction false} ServeReadsStream(
    env: Env, fates: nat -> Fate, cipher: Option<Aead>, nonces: seq<seq<Byte>>, ms: seq<Message>,
    buf: seq<Byte>, pieces: seq<seq<Byte>>, r: Receiver)
    requires cipher.Some? ==> Lawful(cipher.value)
    requires |nonces| == |ms| && forall i | 0 <= i < |ms| :: Fits(cipher, nonces[i], ms[i])
    requires NonEmptyReads(pieces) && buf + Flatten(pieces) == Wire(SealedAll(cipher, nonces, ms))
    ensures Serve(env, fates, cipher, buf, pieces, r) == Ended(Session(env, fates, r, ms))
    decreases |ms|
  {
    if Done(r) {
      DoneStays(env, fates, r, ms);
    } else if ms == [] {
      NothingToRead(cipher, buf, pieces);
    } else {
      var sealed := SealedAll(cipher, nonces, ms);
      assert sealed[1..] == SealedAll(cipher, nonces[1..], ms[1..]);
      assert Wire(sealed) == Encode(Sealed(cipher, nonces[0], ms[0])) + Wire(sealed[1..]);
      PlainNext(cipher, nonces[0], ms[0], Wire(sealed[1..]), buf, pieces);
      var d := ReceivePlain(cipher, buf, pieces);
      ServeReadsStream(env, fates, cipher, nonces[1..], ms[1..], d.buf, d.pieces,
        OnMessage(env, r, ms[0], fates(r.chunks)));
    }
  }

  /** A session whose stream ends before it is done is aborted. */
  function Ended(r: Receiver): Receiver {
    if Done(r) then r else r.(phase := Aborted(Disconnected(ConnectionClosed)))
  }

  lemma NothingToRead(cipher: Option<Aead>, buf: seq<Byte>, pieces: seq<seq<Byte>>)
    requires NonEmptyReads(pieces) && buf + Flatten(pieces) == []
    ensures ReceivePlain(cipher, buf, pieces) == Lost(ConnectionClosed)
  {
    NothingLeft(buf, pieces);
  }

  // ---------- the session of a transfer ----------

  /** The writes of chunks `k` to `k + n` succeed. */
  ghost predicate AllWritten(fates: nat -> Fate, k: nat, n: nat) {
    forall i: nat | k <= i < k + n :: fates(i).Written?
  }

  /** The writer after all chunks were written. */
  ghost function WriteChunks(w: Writer, chunks: seq<seq<Byte>>, fates: nat -> Fate, k: nat): Writer
    requires AllWritten(fates, k, |chunks|)
    decreases |chunks|
  {
    if chunks == [] then w else WriteChunks(WriteAll(w, chunks[0], fates(k).cut), chunks[1..], fates, k + 1)
  }

  lemma {:induction false} ChunksAreHandedOver(w: Writer, chunks: seq<seq<Byte>>, fates: nat -> Fate, k: nat)
    requires AllWritten(fates, k, |chunks|)
    ensures Handed(WriteChunks(w, chunks, fates, k)) == Handed(w) + Flatten(chunks)
    decreases |chunks|
  {
    if chunks != [] {
      var next := WriteAll(w, chunks[0], fates(k).cut);
      WriteAllHandsOver(w, chunks[0], fates(k).cut);
      ChunksAreHandedOver(next, chunks[1..], fates, k + 1);
      Associative(Handed(w), chunks[0], Flatten(chunks[1..]));
    }
  }

  /** A data message that is taken: within the limit and written. */
  lemma ChunkIsTaken(env: Env, r: Receiver, m: Message, fate: Fate)
    requires r.phase == Receiving && Counted(r) && m.msgType == SendData
    ensures var t := OnMessage(env, r, m, fate);
      if r.total + |m.payload| <= RECEIVE_LIMIT && fate.Written? then
        && t.phase == Receiving && Counted(t) && t.total == r.total + |m.payload|
        && t.chunks == r.chunks + 1 && t.hashed == r.hashed + m.payload
        && t.writer == WriteAll(r.writer, m.payload, fate.cut)
      else t.phase.Aborted?
  {
    if fate.Written? { WriteAllHandsOver(r.writer, m.payload, fate.cut); }
  }

  /** The session on the data messages and the final message of a transfer, whatever the
      fate of the writes. */
  lemma {:induction false} SessionOfTransfer(
    env: Env, fates: nat -> Fate, r: Receiver, ds: seq<Message>, chunks: seq<seq<Byte>>, last: Message)
    requires r.phase == Receiving && Counted(r) && last.msgType == SendComplete
    requires |ds| == |chunks|
    requires forall i | 0 <= i < |ds| :: ds[i].msgType == SendData && ds[i].payload == chunks[i]
    ensures var s := Session(env, fates, r, ds + [last]);
      && Done(s)
      && (s.phase.Completed? <==>
            r.total + |Flatten(chunks)| <= RECEIVE_LIMIT && AllWritten(fates, r.chunks, |chunks|))
      && (s.phase.Completed? ==>
            && s.phase.claim == env.readClaim(last.payload)
            && s.hashed == r.hashed + Flatten(chunks)
            && s.writer == WriteChunks(r.writer, chunks, fates, r.chunks))
    decreases |ds|
  {
    var ms := ds + [last];
    if ds == [] {
      assert ms == [last];
      assert Session(env, fates, OnMessage(env, r, last, fates(r.chunks)), []).phase.Completed?;
    } else {
      var t := OnMessage(env, r, ds[0], fates(r.chunks));
      assert ms[0] == ds[0] && ms[1..] == ds[1..] + [last];
      assert Flatten(chunks) == chunks[0] + Flatten(chunks[1..]);
      ChunkIsTaken(env, r, ds[0], fates(r.chunks));
      WrittenCons(fates, r.chunks, |ds|);
      if t.phase == Receiving {
        SessionOfTransfer(env, fates, t, ds[1..], chunks[1..], last);
        Associative(r.hashed, chunks[0], Flatten(chunks[1..]));
      } else {
        DoneStays(env, fates, t, ms[1..]);
      }
    }
  }

  lemma WrittenCons(fates: nat -> Fate, k: nat, n: nat)
    requires n > 0
    ensures AllWritten(fates, k, n) <==> fates(k).Written? && AllWritten(fates, k + 1, n - 1)
  {
    if fates(k).Written? && AllWritten(fates, k + 1, n - 1) {
      forall i: nat | k <= i < k + n ensures fates(i).Written? {
      }
    }
  }

  /** What the receiver asks of a transfer: a start request it can read, a process it can
      start, at most 512 MB, and writes that succeed. */
  ghost predicate Accepts(env: Env, fates: nat -> Fate, start: seq<Byte>, chunks: seq<seq<Byte>>) {
    && env.startOk(start) && env.spawns
    && |Flatten(chunks)| <= RECEIVE_LIMIT && AllWritten(fates, 0, |chunks|)
  }

  /** The whole message list of a transfer, start message included. */
  lemma SessionOfSendMessages(
    env: Env, fates: nat -> Fate, start: seq<Byte>, chunks: seq<seq<Byte>>, times: nat -> I64)
    requires LawfulTexts(env)
    ensures var s := Session(env, fates, START, SendMessages(env, start, chunks, times));
      && Done(s)
      && (s.phase.Completed? <==> Accepts(env, fates, start, chunks))
      && (s.phase.Completed? ==>
            && s.phase.claim == Some(env.hash(Flatten(chunks)))
            && s.hashed == Flatten(chunks)
            && s.writer == WriteChunks(Writer([], []), chunks, fates, 0))
  {
    var ms := SendMessages(env, start, chunks, times);
    var ds, last := DataMessages(chunks, times), Completion(env, chunks, times);
    assert ms[0] == Message(SendStart, start, times(0)) && ms[1..] == ds + [last];
    var t := OnMessage(env, START, ms[0], fates(0));
    if env.startOk(start) && env.spawns {
      assert t == START.(phase := Receiving);
      SessionOfTransfer(env, fates, t, ds, chunks, last);
      assert [] + Flatten(chunks) == Flatten(chunks);
    } else {
      DoneStays(env, fates, t, ms[1..]);
    }
  }

  /** Without a completion message no session completes. */
  lemma {:induction false} NeverCompletes(env: Env, fates: nat -> Fate, r: Receiver, ms: seq<Message>)
    requires !r.phase.Completed? && forall m | m in ms :: m.msgType != SendComplete
    ensures !Session(env, fates, r, ms).phase.Completed?
    decreases |ms|
  {
    if ms != [] {
      assert ms[0] in ms;
      NeverCompletes(env, fates, OnMessage(env, r, ms[0], fates(r.chunks)), ms[1..]);
    }
  }

  // ---------- end to end ----------

  /** What a transfer takes for granted: a lawful cipher that both ends share, nonces of its
      length, a lawful text format, reads of at most 64 KB, and texts that fit a frame. */
  ghost predicate Transfer(
    env: Env, a: Aead, nonces: nat -> seq<Byte>, start: seq<Byte>, chunks: seq<seq<Byte>>)
  {
    && Lawful(a) && LawfulTexts(env)
    && (forall i: nat :: |nonces(i)| == NonceSize(a.kind))
    && (forall i | 0 <= i < |chunks| :: 0 < |chunks[i]| <= CHUNK_SIZE)
    && |start| + NonceSize(a.kind) + TAG_SIZE <= MAX_PAYLOAD_SIZE
    && (forall x: seq<Byte> {:trigger env.hash(x)} ::
          |env.claim(env.hash(x))| + NonceSize(a.kind) + TAG_SIZE <= MAX_PAYLOAD_SIZE)
  }

  /** What the sender writes, with or without the completion message. */
  function Sent(
    env: Env, start: seq<Byte>, chunks: seq<seq<Byte>>, times: nat -> I64, finished: bool): seq<Message>
  {
    if finished then SendMessages(env, start, chunks, times) else Opening(start, chunks, times)
  }

  lemma SentFits(
    env: Env, a: Aead, nonces: nat -> seq<Byte>, start: seq<Byte>, chunks: seq<seq<Byte>>, times: nat -> I64,
    finished: bool)
    requires Transfer(env, a, nonces, start, chunks)
    ensures var ms := Sent(env, start, chunks, times, finished);
      forall i | 0 <= i < |ms| :: Fits(Some(a), Drawn(nonces, |ms|)[i], ms[i])
  {
    var ms := Sent(env, start, chunks, times, finished);
    forall i | 0 <= i < |ms| ensures |ms[i].payload| + NonceSize(a.kind) + TAG_SIZE <= MAX_PAYLOAD_SIZE {
      if 1 <= i <= |chunks| { assert ms[i].payload == chunks[i - 1]; }
    }
  }

  lemma SessionOfSent(
    env: Env, fates: nat -> Fate, start: seq<Byte>, chunks: seq<seq<Byte>>, times: nat -> I64, finished: bool)
    requires LawfulTexts(env)
    ensures var r := Ended(Session(env, fates, START, Sent(env, start, chunks, times, finished)));
      && (r.phase.Completed? <==> finished && Accepts(env, fates, start, chunks))
      && (r.phase.Completed? ==>
            && r.phase.claim == Some(env.hash(Flatten(chunks))) && r.hashed == Flatten(chunks)
            && r.writer == WriteChunks(Writer([], []), chunks, fates, 0))
  {
    if finished {
      SessionOfSendMessages(env, fates, start, chunks, times);
    } else {
      NeverCompletes(env, fates, START, Opening(start, chunks, times));
    }
  }

  /** A chunked, encrypted, framed stream, split arbitrarily by the network: the receiver
      answers success with the sender's checksum exactly when the sender finished, the
      receiver accepts the transfer and `btrfs receive` exits cleanly, and then its writer
      was handed exactly the bytes of `btrfs send`; in every other case there is no answer. */
  lemma DeliveryEndToEnd(
    env: Env, fates: nat -> Fate, a: Aead, nonces: nat -> seq<Byte>, start: seq<Byte>, chunks: seq<seq<Byte>>,
    times: nat -> I64, pieces: seq<seq<Byte>>, finished: bool, exitOk: bool)
    requires Transfer(env, a, nonces, start, chunks)
    requires NonEmptyReads(pieces)
    requires Flatten(pieces) == Bytes(Some(a), nonces, Sent(env, start, chunks, times, finished))
    ensures var stream := Flatten(chunks);
      var r := Serve(env, fates, Some(a), [], pieces, START);
      var accepted := finished && Accepts(env, fates, start, chunks);
      && Answer(env, r, exitOk) == (if accepted && exitOk then Some(Verdict(true, env.hash(stream))) else None)
      && (accepted ==> Handed(r.writer) == stream && r.writer == WriteChunks(Writer([], []), chunks, fates, 0))
  {
    var ms := Sent(env, start, chunks, times, finished);
    SentFits(env, a, nonces, start, chunks, times, finished);
    SessionOfSent(env, fates, start, chunks, times, finished);
    assert [] + Flatten(pieces) == Flatten(pieces);
    ServeReadsStream(env, fates, Some(a), Drawn(nonces, |ms|), ms, [], pieces, START);
    if Accepts(env, fates, start, chunks) { ChunksAreHandedOver(Writer([], []), chunks, fates, 0); }
  }

  /** The sender of a finished transfer has returned success by then, whatever follows. The
      receiver has no verdict exactly when it does not accept the transfer or `btrfs receive`
      fails: in particular for the very transfers it would accept. */
  lemma SenderContentWithoutVerdict(
    env: Env, fates: nat -> Fate, a: Aead, nonces: nat -> seq<Byte>, start: seq<Byte>, chunks: seq<seq<Byte>>,
    times: nat -> I64, pieces: seq<seq<Byte>>, exitOk: bool)
    requires Transfer(env, a, nonces, start, chunks)
    requires NonEmptyReads(pieces)
    requires Flatten(pieces) == TransferBytes(env, Some(a), nonces, start, chunks, times)
    ensures var r := Serve(env, fates, Some(a), [], pieces, START);
      && (Answer(env, r, exitOk) == None <==> !exitOk || !Accepts(env, fates, start, chunks))
      && (Accepts(env, fates, start, chunks) ==> Answer(env, r, true).Some? && Answer(env, r, false) == None)
  {
    DeliveryEndToEnd(env, fates, a, nonces, start, chunks, times, pieces, true, exitOk);
    DeliveryEndToEnd(env, fates, a, nonces, start, chunks, times, pieces, true, true);
  }

  lemma StartComesFirst(
    env: Env, a: Aead, nonces: nat -> seq<Byte>, start: seq<Byte>, chunks: seq<seq<Byte>>, times: nat -> I64,
    finished: bool, pieces: seq<seq<Byte>>)
    requires Transfer(env, a, nonces, start, chunks) && NonEmptyReads(pieces)
    requires Flatten(pieces) == Bytes(Some(a), nonces, Sent(env, start, chunks, times, finished))
    ensures var hello := ReceivePlain(Some(a), [], pieces);
      hello.Delivered? && hello.msg == Message(SendStart, start, times(0))
  {
    var ms := Sent(env, start, chunks, times, finished);
    var sealed := SealedAll(Some(a), Drawn(nonces, |ms|), ms);
    SentFits(env, a, nonces, start, chunks, times, finished);
    assert Wire(sealed) == Encode(sealed[0]) + Wire(sealed[1..]);
    assert sealed[0] == Sealed(Some(a), nonces(0), ms[0]) && Fits(Some(a), Drawn(nonces, |ms|)[0], ms[0]);
    assert [] + Flatten(pieces) == Flatten(pieces);
    PlainNext(Some(a), nonces(0), ms[0], Wire(sealed[1..]), [], pieces);
  }

  /** The acknowledgement of a start request, if it is readable and the process starts. */
  function Acknowledgement(env: Env, a: Aead, start: seq<Byte>, nonce: seq<Byte>, time: I64): seq<Byte> {
    if env.startOk(start) && env.spawns then Encode(Sealed(Some(a), nonce, Message(SendStart, [], time))) else []
  }

  lemma AckIsRead(env: Env, a: Aead, start: seq<Byte>, nonce: seq<Byte>, time: I64, pieces: seq<seq<Byte>>)
    requires Lawful(a) && |nonce| == NonceSize(a.kind) && NonEmptyReads(pieces)
    requires Flatten(pieces) == Acknowledgement(env, a, start, nonce, time)
    ensures var ack := ReceivePlain(Some(a), [], pieces);
      ack.Delivered? && ack.msg.msgType == SendStart <==> env.startOk(start) && env.spawns
  {
    assert [] + Flatten(pieces) == Flatten(pieces);
    if env.startOk(start) && env.spawns {
      var m := Message(SendStart, [], time);
      assert Flatten(pieces) == Encode(Sealed(Some(a), nonce, m)) + [];
      PlainNext(Some(a), nonce, m, [], [], pieces);
    } else {
      NothingToRead(Some(a), [], pieces);
    }
  }

  /** The reads of `btrfs send` that the sender gets to: none without an acknowledgement. */
  function SentChunks(env: Env, start: seq<Byte>, output: seq<seq<Byte>>): seq<seq<Byte>> {
    if env.startOk(start) && env.spawns then UntilEof(output) else []
  }

  /** The sender's side, when its reads are a split of the acknowledgement. */
  method SendOver(
    sender: TransportConnection, env: Env, a: Aead, start: seq<Byte>, output: seq<seq<Byte>>, exitOk: bool,
    nonces: nat -> seq<Byte>, times: nat -> I64, ghost ackNonce: seq<Byte>, ghost ackTime: I64) returns (ok: bool)
    requires sender.cipher == Some(a) && sender.readBuf == [] && sender.outgoing == []
    requires Lawful(a) && |ackNonce| == NonceSize(a.kind) && NonEmptyReads(sender.incoming)
    requires Flatten(sender.incoming) == Acknowledgement(env, a, start, ackNonce, ackTime)
    modifies sender
    ensures ok <==> env.startOk(start) && env.spawns && exitOk
    ensures sender.outgoing == Bytes(Some(a), nonces, Sent(env, start, SentChunks(env, start, output), times, ok))
  {
    AckIsRead(env, a, start, ackNonce, ackTime, sender.incoming);
    ok := SendToTarget(sender, env, start, output, exitOk, nonces, times);
  }

  /** The receiver's side, when its reads are a split of what the sender wrote. */
  method ReceiveOver(
    receiver: TransportConnection, env: Env, a: Aead, fates: nat -> Fate, exitOk: bool,
    replyNonces: (seq<Byte>, seq<Byte>), replyTimes: (I64, I64), ghost start: seq<Byte>,
    ghost chunks: seq<seq<Byte>>, ghost nonces: nat -> seq<Byte>, ghost times: nat -> I64, ghost finished: bool)
    returns (answer: Option<Verdict>)
    requires receiver.cipher == Some(a) && receiver.readBuf == [] && receiver.outgoing == []
    requires Transfer(env, a, nonces, start, chunks) && NonEmptyReads(receiver.incoming)
    requires Flatten(receiver.incoming) == Bytes(Some(a), nonces, Sent(env, start, chunks, times, finished))
    modifies receiver
    ensures answer ==
      if finished && exitOk && Accepts(env, fates, start, chunks)
      then Some(Verdict(true, env.hash(Flatten(chunks)))) else None
    ensures Acknowledgement(env, a, start, replyNonces.0, replyTimes.0) <= receiver.outgoing
  {
    ghost var ack := Acknowledgement(env, a, start, replyNonces.0, replyTimes.0);
    StartComesFirst(env, a, nonces, start, chunks, times, finished, receiver.incoming);
    DeliveryEndToEnd(env, fates, a, nonces, start, chunks, times, receiver.incoming, finished, exitOk);
    var r;
    r, answer := HandleConnection(receiver, env, fates, exitOk, replyNonces, replyTimes);
    assert [] + ack == ack;
  }

  /** One transfer between two open connections: `split` is what the network makes of the
      sender's bytes. The sender is content exactly when the start is acknowledged and
      `btrfs send` exits cleanly; the receiver's verdict takes the limit, the writes and
      `btrfs receive` as well. */
  method TransferOverNetwork(
    sender: TransportConnection, receiver: TransportConnection, env: Env, a: Aead, start: seq<Byte>,
    output: seq<seq<Byte>>, sendExit: bool, receiveExit: bool, fates: nat -> Fate,
    nonces: nat -> seq<Byte>, times: nat -> I64, replyNonces: (seq<Byte>, seq<Byte>), replyTimes: (I64, I64),
    split: seq<Byte> -> seq<seq<Byte>>) returns (ok: bool, answer: Option<Verdict>)
    requires sender != receiver && sender.cipher == Some(a) && receiver.cipher == Some(a)
    requires sender.readBuf == [] && receiver.readBuf == [] && sender.outgoing == [] && receiver.outgoing == []
    requires Transfer(env, a, nonces, start, UntilEof(output)) && |replyNonces.0| == NonceSize(a.kind)
    requires forall b :: Flatten(split(b)) == b && NonEmptyReads(split(b))
    requires NonEmptyReads(sender.incoming)
    requires Flatten(sender.incoming) == Acknowledgement(env, a, start, replyNonces.0, replyTimes.0)
    modifies sender, receiver
    ensures ok <==> env.startOk(start) && env.spawns && sendExit
    ensures answer ==
      if ok && receiveExit && Accepts(env, fates, start, UntilEof(output))
      then Some(Verdict(true, env.hash(Flatten(UntilEof(output))))) else None
    ensures Acknowledgement(env, a, start, replyNonces.0, replyTimes.0) <= receiver.outgoing
  {
    ok := SendOver(sender, env, a, start, output, sendExit, nonces, times, replyNonces.0, replyTimes.0);
    receiver.incoming := split(sender.outgoing);
    answer := ReceiveOver(receiver, env, a, fates, receiveExit, replyNonces, replyTimes,
      start, SentChunks(env, start, output), nonces, times, ok);
  }

  // ---------- what reaches the pipe ----------

  /** Whether the writer's buffer is empty after the last chunk: it is a large one and the
      pipe took it whole. */
  ghost predicate LastTakenWhole(chunks: seq<seq<Byte>>, fates: nat -> Fate, k: nat)
    requires AllWritten(fates, k, |chunks|)
  {
    chunks == [] ||
    Direct(chunks[|chunks| - 1], fates(k + |chunks| - 1).cut) == |chunks[|chunks| - 1]|
  }

  lemma {:induction false} BufferAfterLastChunk(w: Writer, chunks: seq<seq<Byte>>, fates: nat -> Fate, k: nat)
    requires AllWritten(fates, k, |chunks|)
    requires chunks != [] && forall i | 0 <= i < |chunks| :: chunks[i] != []
    ensures WriteChunks(w, chunks, fates, k).buf == [] <==> LastTakenWhole(chunks, fates, k)
    decreases |chunks|
  {
    WriteAllHandsOver(w, chunks[0], fates(k).cut);
    if |chunks| == 1 {
      assert WriteChunks(w, chunks, fates, k) == WriteAll(w, chunks[0], fates(k).cut);
    } else {
      BufferAfterLastChunk(WriteAll(w, chunks[0], fates(k).cut), chunks[1..], fates, k + 1);
      assert chunks[1..][|chunks| - 2] == chunks[|chunks| - 1];
    }
  }

  /** The session drops the writer without flushing it, so the pipe itself holds the whole
      stream exactly when the last chunk is at least 8 KiB and was taken whole (or there
      is no chunk); otherwise it misses a non-empty tail. */
  lemma PipeIsCompleteExactly(chunks: seq<seq<Byte>>, fates: nat -> Fate)
    requires AllWritten(fates, 0, |chunks|)
    requires forall i | 0 <= i < |chunks| :: chunks[i] != []
    ensures var w := WriteChunks(Writer([], []), chunks, fates, 0);
      && w.pipe <= Flatten(chunks)
      && (w.pipe == Flatten(chunks) <==> LastTakenWhole(chunks, fates, 0))
  {
    var w := WriteChunks(Writer([], []), chunks, fates, 0);
    ChunksAreHandedOver(Writer([], []), chunks, fates, 0);
    assert w.pipe + w.buf == Flatten(chunks);
    if chunks != [] { BufferAfterLastChunk(Writer([], []), chunks, fates, 0); }
    assert w.pipe == Flatten(chunks) <==> w.buf == [];
  }

  /** In particular every accepted transfer that ends in a short chunk is answered with
      success although the pipe never gets that chunk. */
  lemma {:induction false} ShortTailIsLostYetAnsweredSuccess(
    env: Env, fates: nat -> Fate, a: Aead, nonces: nat -> seq<Byte>, start: seq<Byte>, chunks: seq<seq<Byte>>,
    times: nat -> I64, pieces: seq<seq<Byte>>)
    requires Transfer(env, a, nonces, start, chunks) && Accepts(env, fates, start, chunks)
    requires NonEmptyReads(pieces)
    requires Flatten(pieces) == TransferBytes(env, Some(a), nonces, start, chunks, times)
    requires chunks != [] && |chunks[|chunks| - 1]| < WRITER_CAPACITY
    ensures var r := Serve(env, fates, Some(a), [], pieces, START);
      && r.writer.pipe < Flatten(chunks)
      && Answer(env, r, true) == Some(Verdict(true, env.hash(Flatten(chunks))))
  {
    DeliveryEndToEnd(env, fates, a, nonces, start, chunks, times, pieces, true, true);
    PipeIsCompleteExactly(chunks, fates);
  }
}
