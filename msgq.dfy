/**
 * The two-message framing protocol of msgq.c. A send pickles a value and
 * enqueues an envelope (type SizeMsg) announcing the body's size, then the
 * body (type DataMsg) holding the pickled text and its NUL terminator. A
 * receive dequeues the oldest envelope, sizes a buffer from it, dequeues the
 * oldest body into that buffer and unpickles it.
 *
 * Every failure below surfaces in the source as the same Python IOError
 * (an unpickling failure as pickle's own exception); the outcomes here also
 * say which step failed, because the queue left behind differs.
 */
module Msgq {

  import opened Wrappers
  import opened Wire
  import opened Kernel

  /** The pickle module: dumps gives a value's text, loads gives the value back or fails. */
  datatype Codec<!V> = Codec(dumps: V -> seq<byte>, loads: seq<byte> -> Option<V>)

  /**
   * What a lossless transfer of v needs of the codec: loads undoes dumps, the
   * text holds no NUL (the C code measures it with strlen), and its size plus
   * the terminator fits the envelope's C int.
   */
  ghost predicate RoundTrips<V>(pickle: Codec<V>, v: V) {
    && pickle.loads(pickle.dumps(v)) == Some(v)
    && 0 !in pickle.dumps(v)
    && |pickle.dumps(v)| < IntMax
  }

  /** The size a send announces, strlen(text) + 1, fits the envelope's C int. */
  predicate Sendable(pickled: seq<byte>) {
    |CString(pickled)| < IntMax
  }

  /**
   * The kernel's decisions during one send: whether the body buffer can be
   * allocated, and whether msgsnd admits the envelope and the body (None) or
   * refuses them with an errno.
   */
  datatype SendEnv = SendEnv(allocOk: bool, envelopeRefusal: Option<Errno>, bodyRefusal: Option<Errno>)

  /** A send in which nothing is refused. */
  const Unhindered: SendEnv := SendEnv(true, None, None)

  datatype SendOutcome =
    | Sent(rv: int)                  // the value msgsnd returned for the body
    | SendNoMemory                   // the body buffer could not be allocated
    | EnvelopeNotSent(errno: Errno)  // msgsnd refused the envelope
    | BodyNotSent(errno: Errno)      // msgsnd admitted the envelope and refused the body

  datatype SendStep = SendStep(outcome: SendOutcome, queue: seq<Message>)

  datatype ReceiveOutcome<V> =
    | Received(value: V)
    | EnvelopeNotReceived(errno: Errno)  // msgrcv of the envelope failed
    | ReceiveNoMemory                    // the envelope was taken, the body buffer could not be allocated
    | BodyNotReceived(errno: Errno)      // the envelope was taken, msgrcv of the body failed
    | NotUnpickled                       // both were taken, loads rejected the text

  datatype ReceiveStep<V> = ReceiveStep(outcome: ReceiveOutcome<V>, queue: seq<Message>)

  /**
   * The envelope and the body one transfer of the pickled text puts on the
   * queue: what the protocol means by a frame.
   */
  function Transfer(pickled: seq<byte>): (t: seq<Message>)
    requires Sendable(pickled)
    ensures |t| == 2 && t[0].mtype == SizeMsg && t[1].mtype == DataMsg
    ensures |t[0].text| == EnvelopeMsgsz
    ensures |t[1].text| == |CString(pickled)| + 1 && t[0].text == EnvelopeText(|t[1].text|)
    ensures CString(t[1].text) == CString(pickled) && t[1].text[|t[1].text| - 1] == 0
    ensures 0 !in pickled ==> t[1].text == pickled + [0]
  {
    var text := CString(pickled);
    var body := text + [0];
    CStringTerminated(text);
    CStringNulFree(text);
    CStringNulFree(pickled);
    [Message(SizeMsg, EnvelopeText(|body|)), Message(DataMsg, body)]
  }

  /** The envelope of a frame announces exactly the size of its body. */
  lemma TransferAnnouncesSize(pickled: seq<byte>)
    requires Sendable(pickled)
    ensures var t := Transfer(pickled); EnvelopeSize(t[0].text) == |t[1].text|
  {
    EnvelopeRoundTrip(|Transfer(pickled)[1].text|);
  }

  /**
   * One send of the pickled text from queue q, step by step as the C code
   * takes them: allocate and fill the body buffer, enqueue the envelope,
   * enqueue the body.
   */
  function SendSpec(q: seq<Message>, pickled: seq<byte>, env: SendEnv): (s: SendStep)
    requires Sendable(pickled)
    ensures s.outcome.Sent? <==> env.allocOk && env.envelopeRefusal.None? && env.bodyRefusal.None?
    ensures s.outcome.Sent? ==> s.outcome.rv == 0 && s.queue == q + Transfer(pickled)
    ensures s.outcome.SendNoMemory? <==> !env.allocOk
    ensures s.outcome.SendNoMemory? || s.outcome.EnvelopeNotSent? ==> s.queue == q
    ensures s.outcome.EnvelopeNotSent? <==> env.allocOk && env.envelopeRefusal.Some?
    ensures s.outcome.EnvelopeNotSent? ==> env.envelopeRefusal == Some(s.outcome.errno)
    ensures s.outcome.BodyNotSent? ==>
      env.bodyRefusal == Some(s.outcome.errno) && s.queue == q + [Transfer(pickled)[0]]
  {
    var cstring := pickled + [0];
    CStringTerminated(pickled);
    var size := Strlen(cstring) + 1;
    if !env.allocOk then SendStep(SendNoMemory, q)
    else
      CopiedFrame(q, pickled);
      EnqueueFrame(q, Message(SizeMsg, EnvelopeText(size)), Message(DataMsg, cstring[..size]), env)
  }

  /** The two enqueues of a send, once its envelope and body are built. */
  function EnqueueFrame(q: seq<Message>, envelope: Message, body: Message, env: SendEnv): (s: SendStep)
    requires envelope.mtype == SizeMsg && body.mtype == DataMsg
    ensures s.outcome.Sent? <==> env.envelopeRefusal.None? && env.bodyRefusal.None?
    ensures s.outcome.Sent? ==> s.outcome.rv == 0 && s.queue == q + [envelope, body]
    ensures !s.outcome.SendNoMemory?
    ensures s.outcome.EnvelopeNotSent? <==> env.envelopeRefusal.Some?
    ensures s.outcome.EnvelopeNotSent? ==> env.envelopeRefusal == Some(s.outcome.errno) && s.queue == q
    ensures s.outcome.BodyNotSent? ==> env.bodyRefusal == Some(s.outcome.errno) && s.queue == q + [envelope]
  {
    var first := Snd(q, envelope, env.envelopeRefusal);
    if first.result.Failure? then SendStep(EnvelopeNotSent(first.result.error), first.queue)
    else
      var second := Snd(first.queue, body, env.bodyRefusal);
      assert first.queue + [body] == q + [envelope, body];
      if second.result.Failure? then SendStep(BodyNotSent(second.result.error), second.queue)
      else SendStep(Sent(second.result.value), second.queue)
  }

  /** The messages SendSpec builds from the pickled text's buffer are those of its Transfer. */
  lemma CopiedFrame(q: seq<Message>, pickled: seq<byte>)
    requires Sendable(pickled)
    ensures var cstring := pickled + [0];
      0 in cstring &&
      var size := Strlen(cstring) + 1;
      && InIntRange(size)
      && Transfer(pickled) == [Message(SizeMsg, EnvelopeText(size)), Message(DataMsg, cstring[..size])]
  {
    var cstring := pickled + [0];
    assert cstring[|pickled|] == 0;
    CStringTerminated(pickled);
    var size := Strlen(cstring) + 1;
    assert size == |CString(pickled)| + 1;
    assert cstring[..size] == CString(pickled) + [0];
  }

  /** msgq.msgsnd(msqid, msgflg, data). */
  method Send<V>(q: MessageQueue, msgflg: int, data: V, pickle: Codec<V>, env: SendEnv) returns (o: SendOutcome)
    requires Sendable(pickle.dumps(data))
    modifies q
    ensures o == SendSpec(old(q.messages), pickle.dumps(data), env).outcome
    ensures q.messages == SendSpec(old(q.messages), pickle.dumps(data), env).queue
  {
    var cstring := pickle.dumps(data) + [0];
    CStringTerminated(pickle.dumps(data));
    var len := Strlen(cstring);
    if !env.allocOk {
      return SendNoMemory;
    }
    var dataMsg := new byte[len + 1];
    forall i | 0 <= i < len + 1 {
      dataMsg[i] := cstring[i];
    }
    var size := len + 1;
    var r := q.MsgSnd(SizeMsg, EnvelopeText(size), msgflg, env.envelopeRefusal);
    if r.Failure? {
      return EnvelopeNotSent(r.error);
    }
    var msgsz := MtextOffset + size - LongSize;
    assert dataMsg[..msgsz] == cstring[..size];
    r := q.MsgSnd(DataMsg, dataMsg[..msgsz], msgflg, env.bodyRefusal);
    if r.Failure? {
      return BodyNotSent(r.error);
    }
    return Sent(r.value);
  }

  /** The size announced by the oldest envelope in q. */
  function Announced(q: seq<Message>): int
    requires OfType(q, SizeMsg) != []
  {
    EnvelopeSize(OfType(q, SizeMsg)[0].text)
  }

  /**
   * One receive from queue q with the caller's msgflg, step by step as the C
   * code takes them: take the oldest envelope (flags 0, EnvelopeMsgsz bytes),
   * allocate a buffer of the announced size, take the oldest body into it with
   * msgflg, and unpickle the C string the buffer holds.
   */
  function ReceiveSpec<V>(q: seq<Message>, msgflg: int, pickle: Codec<V>, allocOk: bool): (s: ReceiveStep<V>)
    ensures s.outcome.EnvelopeNotReceived? ==> s.queue == q
    ensures s.outcome.ReceiveNoMemory? || s.outcome.BodyNotReceived? ==> |s.queue| == |q| - 1
    ensures s.outcome.Received? || s.outcome.NotUnpickled? ==> |s.queue| == |q| - 2
  {
    var envelope := Rcv(q, SizeMsg, EnvelopeMsgsz, 0);
    assert !HasFlag(0, MsgNoerror);
    if envelope.result.Failure? then
      ReceiveStep(EnvelopeNotReceived(envelope.result.error), envelope.queue)
    else
      var size := EnvelopeSize(envelope.result.value);
      if !allocOk then ReceiveStep(ReceiveNoMemory, envelope.queue)
      else
        var body := Rcv(envelope.queue, DataMsg, size, msgflg);
        if body.result.Failure? then ReceiveStep(BodyNotReceived(body.result.error), body.queue)
        else match pickle.loads(CString(body.result.value))
          case None => ReceiveStep(NotUnpickled, body.queue)
          case Some(v) => ReceiveStep(Received(v), body.queue)
  }

  /**
   * What one receive does with the envelopes: which failures of the first
   * msgrcv leave the queue as it was, and that every other outcome took the
   * oldest envelope.
   */
  lemma ReceiveEnvelopeEffects<V>(q: seq<Message>, msgflg: int, pickle: Codec<V>, allocOk: bool) returns (s: ReceiveStep<V>)
    ensures s == ReceiveSpec(q, msgflg, pickle, allocOk)
    ensures var sizes := OfType(q, SizeMsg);
      s.outcome.EnvelopeNotReceived? <==> sizes == [] || |sizes[0].text| > EnvelopeMsgsz
    ensures s.outcome.EnvelopeNotReceived? ==>
      s.queue == q && s.outcome.errno == if OfType(q, SizeMsg) == [] then ENOMSG else E2BIG
    ensures !s.outcome.EnvelopeNotReceived? ==>
      OfType(q, SizeMsg) != [] && OfType(s.queue, SizeMsg) == OfType(q, SizeMsg)[1..]
    ensures s.outcome.ReceiveNoMemory? <==> !s.outcome.EnvelopeNotReceived? && !allocOk
  {
    s := ReceiveSpec(q, msgflg, pickle, allocOk);
    assert !HasFlag(0, MsgNoerror);
    var envelope := RcvEffects(q, SizeMsg, EnvelopeMsgsz, 0);
    if envelope.result.Success? && allocOk {
      var body := RcvEffects(envelope.queue, DataMsg, EnvelopeSize(envelope.result.value), msgflg);
    }
  }

  /**
   * What one receive that took an envelope does with the bodies: when the
   * second msgrcv fails and with which errno, and what the buffer it fills
   * holds when it succeeds.
   */
  lemma ReceiveBodyEffects<V>(q: seq<Message>, msgflg: int, pickle: Codec<V>, allocOk: bool) returns (s: ReceiveStep<V>)
    requires OfType(q, SizeMsg) != [] && |OfType(q, SizeMsg)[0].text| <= EnvelopeMsgsz
    ensures s == ReceiveSpec(q, msgflg, pickle, allocOk)
    ensures s.outcome.BodyNotReceived? <==>
      && allocOk
      && var bodies := OfType(q, DataMsg);
         Announced(q) < 0 || bodies == [] ||
         (|bodies[0].text| > Announced(q) && !HasFlag(msgflg, MsgNoerror))
    ensures s.outcome.BodyNotReceived? ==>
      s.outcome.errno ==
        if Announced(q) < 0 then EINVAL else if OfType(q, DataMsg) == [] then ENOMSG else E2BIG
    ensures s.outcome.ReceiveNoMemory? || s.outcome.BodyNotReceived? ==>
      OfType(s.queue, DataMsg) == OfType(q, DataMsg) && |s.queue| == |q| - 1
    ensures s.outcome.Received? || s.outcome.NotUnpickled? ==>
      && OfType(q, DataMsg) != []
      && OfType(s.queue, DataMsg) == OfType(q, DataMsg)[1..]
      && |s.queue| == |q| - 2
      && var body := OfType(q, DataMsg)[0].text;
         && 0 <= Announced(q)
         && pickle.loads(CString(body[..Min(Announced(q), |body|)])) ==
              if s.outcome.Received? then Some(s.outcome.value) else None
  {
    s := ReceiveSpec(q, msgflg, pickle, allocOk);
    assert !HasFlag(0, MsgNoerror);
    var envelope := RcvEffects(q, SizeMsg, EnvelopeMsgsz, 0);
    var text := OfType(q, SizeMsg)[0].text;
    assert envelope.result.value == text by {
      assert text[..Min(EnvelopeMsgsz, |text|)] == text;
    }
    if allocOk {
      var body := RcvEffects(envelope.queue, DataMsg, Announced(q), msgflg);
    }
  }

  /** One receive leaves the messages of every other type where they were. */
  lemma ReceiveOtherTypes<V>(q: seq<Message>, msgflg: int, pickle: Codec<V>, allocOk: bool)
    ensures var s := ReceiveSpec(q, msgflg, pickle, allocOk);
      forall t | t != SizeMsg && t != DataMsg :: OfType(s.queue, t) == OfType(q, t)
  {
    assert !HasFlag(0, MsgNoerror);
    var envelope := RcvEffects(q, SizeMsg, EnvelopeMsgsz, 0);
    if envelope.result.Success? && allocOk {
      var body := RcvEffects(envelope.queue, DataMsg, EnvelopeSize(envelope.result.value), msgflg);
    }
  }

  /**
   * A receive that took both messages removed exactly the oldest envelope and
   * then the oldest body, every other message keeping its place in the order.
   */
  lemma ReceiveRemovesOldest<V>(q: seq<Message>, msgflg: int, pickle: Codec<V>, allocOk: bool)
    ensures var s := ReceiveSpec(q, msgflg, pickle, allocOk);
      s.outcome.Received? || s.outcome.NotUnpickled? ==>
        && FirstOfType(q, SizeMsg).Some?
        && var q1 := RemoveAt(q, FirstOfType(q, SizeMsg).value);
           && FirstOfType(q1, DataMsg).Some?
           && s.queue == RemoveAt(q1, FirstOfType(q1, DataMsg).value)
  {
    assert !HasFlag(0, MsgNoerror);
    var envelope := Rcv(q, SizeMsg, EnvelopeMsgsz, 0);
    RcvRemovesOldest(q, SizeMsg, EnvelopeMsgsz, 0);
    if envelope.result.Success? {
      RcvRemovesOldest(envelope.queue, DataMsg, EnvelopeSize(envelope.result.value), msgflg);
    }
  }

  /**
   * A receive when the oldest envelope, at index i, announces n and the
   * oldest body behind it, at index j once the envelope is gone, holds text:
   * the text is unpickled when it fits n or MSG_NOERROR truncates it, and is
   * refused with E2BIG otherwise.
   */
  lemma ReceiveFrame<V>(q: seq<Message>, i: nat, n: int, j: nat, msgflg: int, pickle: Codec<V>)
    requires FirstOfType(q, SizeMsg) == Some(i) && 0 <= n <= IntMax && q[i].text == EnvelopeText(n)
    requires FirstOfType(RemoveAt(q, i), DataMsg) == Some(j)
    ensures var q1 := RemoveAt(q, i);
      var text := q1[j].text;
      var loaded := pickle.loads(CString(text[..Min(n, |text|)]));
      ReceiveSpec(q, msgflg, pickle, true) ==
        if |text| <= n || HasFlag(msgflg, MsgNoerror) then
          ReceiveStep(if loaded.Some? then Received(loaded.value) else NotUnpickled, RemoveAt(q1, j))
        else ReceiveStep(BodyNotReceived(E2BIG), q1)
  {
    EnvelopeRoundTrip(n);
    assert q[i].text[..Min(EnvelopeMsgsz, |q[i].text|)] == q[i].text;
    assert !HasFlag(0, MsgNoerror);
    var envelope := Rcv(q, SizeMsg, EnvelopeMsgsz, 0);
    assert envelope == RcvStep(Success(q[i].text), RemoveAt(q, i));
    assert EnvelopeSize(envelope.result.value) == n;
    var q1 := RemoveAt(q, i);
    var text := q1[j].text;
    assert |text| <= n ==> text[..Min(n, |text|)] == text;
  }

  /** msgq.msgrcv(msqid, msgflg). */
  method Receive<V>(q: MessageQueue, msgflg: int, pickle: Codec<V>, allocOk: bool) returns (o: ReceiveOutcome<V>)
    modifies q
    ensures o == ReceiveSpec(old(q.messages), msgflg, pickle, allocOk).outcome
    ensures q.messages == ReceiveSpec(old(q.messages), msgflg, pickle, allocOk).queue
  {
    var envelope := q.MsgRcv(SizeMsg, EnvelopeMsgsz, 0);
    if envelope.Failure? {
      return EnvelopeNotReceived(envelope.error);
    }
    var size := EnvelopeSize(envelope.value);
    if !allocOk {
      return ReceiveNoMemory;
    }
    var body := q.MsgRcv(DataMsg, size, msgflg);
    if body.Failure? {
      return BodyNotReceived(body.error);
    }
    var data := pickle.loads(CString(body.value));
    match data
    case None => o := NotUnpickled;
    case Some(v) => o := Received(v);
  }
}
