/**
 * Properties of the framing protocol across several msgq calls on one queue:
 * a send followed by a receive hands the value over, sequential transfers are
 * received in the order sent, and a send whose body was refused leaves an
 * envelope that pairs with the wrong body.
 */
module Protocol {

  import opened Wrappers
  import opened Wire
  import opened Kernel
  import opened Msgq

  /** No envelope or body is pending in q (other message types may be). */
  predicate NoTransferPending(q: seq<Message>) {
    OfType(q, SizeMsg) == [] && OfType(q, DataMsg) == []
  }

  /** Envelopes in q not yet matched by a body: what a partial send or receive leaves behind. */
  function Unmatched(q: seq<Message>): int {
    |OfType(q, SizeMsg)| - |OfType(q, DataMsg)|
  }

  lemma TransferViews(pickled: seq<byte>, t: int)
    requires Sendable(pickled)
    ensures var frame := Transfer(pickled);
      OfType(frame, t) == if t == SizeMsg then [frame[0]] else if t == DataMsg then [frame[1]] else []
  {
    var frame := Transfer(pickled);
    assert frame == [frame[0]] + [frame[1]];
    OfTypeAppend([frame[0]], [frame[1]], t);
    OfTypeSingle(frame[0], t);
    OfTypeSingle(frame[1], t);
  }

  /**
   * A full send adds one matched envelope and body; a send whose body was
   * refused adds one unmatched envelope; any other failed send adds nothing.
   */
  lemma SendBalance(q: seq<Message>, pickled: seq<byte>, env: SendEnv)
    requires Sendable(pickled)
    ensures var s := SendSpec(q, pickled, env);
      && (s.outcome.Sent? ==> Unmatched(s.queue) == Unmatched(q))
      && (s.outcome.BodyNotSent? ==> Unmatched(s.queue) == Unmatched(q) + 1)
      && (s.outcome.SendNoMemory? || s.outcome.EnvelopeNotSent? ==> Unmatched(s.queue) == Unmatched(q))
  {
    var frame := Transfer(pickled);
    TransferViews(pickled, SizeMsg);
    TransferViews(pickled, DataMsg);
    OfTypeAppend(q, frame, SizeMsg);
    OfTypeAppend(q, frame, DataMsg);
    OfTypeAppend(q, [frame[0]], SizeMsg);
    OfTypeAppend(q, [frame[0]], DataMsg);
    OfTypeSingle(frame[0], SizeMsg);
    OfTypeSingle(frame[0], DataMsg);
  }

  /**
   * A receive that unpickles (or fails to unpickle) consumes one envelope and
   * one body; one that took the envelope and then failed consumes the
   * envelope alone; one that failed on the envelope consumes nothing.
   */
  lemma ReceiveBalance<V>(q: seq<Message>, msgflg: int, pickle: Codec<V>, allocOk: bool)
    ensures var s := ReceiveSpec(q, msgflg, pickle, allocOk);
      && (s.outcome.Received? || s.outcome.NotUnpickled? ==> Unmatched(s.queue) == Unmatched(q))
      && (s.outcome.ReceiveNoMemory? || s.outcome.BodyNotReceived? ==> Unmatched(s.queue) == Unmatched(q) - 1)
      && (s.outcome.EnvelopeNotReceived? ==> Unmatched(s.queue) == Unmatched(q))
  {
    var s := ReceiveEnvelopeEffects(q, msgflg, pickle, allocOk);
    if !s.outcome.EnvelopeNotReceived? {
      s := ReceiveBodyEffects(q, msgflg, pickle, allocOk);
    }
  }

  /**
   * Where a receive finds the envelope e and the body b of a frame sent onto
   * a queue q0 with no transfer pending: both at index |q0|, b once e is gone.
   */
  lemma FrameAhead(q0: seq<Message>, e: Message, b: Message, rest: seq<Message>)
    requires NoTransferPending(q0) && e.mtype == SizeMsg && b.mtype == DataMsg
    ensures var q := q0 + [e, b] + rest;
      && FirstOfType(q, SizeMsg) == Some(|q0|) && q[|q0|] == e
      && var q1 := RemoveAt(q, |q0|);
         && FirstOfType(q1, DataMsg) == Some(|q0|) && q1[|q0|] == b
         && RemoveAt(q1, |q0|) == q0 + rest
  {
    var q := q0 + [e, b] + rest;
    var tail := [e, b] + rest;
    assert q == q0 + tail && tail[0] == e && tail[1..] == [b] + rest;
    assert FirstOfType(tail, SizeMsg) == Some(0);
    FirstOfTypeBehind(q0, tail, SizeMsg);
    var q1 := RemoveAt(q, |q0|);
    var tail1 := [b] + rest;
    assert q1 == q0 + tail1 && tail1[0] == b && tail1[1..] == rest;
    assert FirstOfType(tail1, DataMsg) == Some(0);
    FirstOfTypeBehind(q0, tail1, DataMsg);
    assert RemoveAt(q1, |q0|) == q0 + rest;
  }

  /**
   * Receiving from a queue whose oldest envelope and body are the frame of a
   * value v, with nothing of either type ahead of them, gives v back and
   * removes exactly that frame.
   */
  lemma ReceiveOldestFrame<V>(q0: seq<Message>, v: V, rest: seq<Message>, msgflg: int, pickle: Codec<V>)
    requires NoTransferPending(q0) && RoundTrips(pickle, v)
    ensures ReceiveSpec(q0 + Transfer(pickle.dumps(v)) + rest, msgflg, pickle, true) ==
      ReceiveStep(Received(v), q0 + rest)
  {
    var pickled := pickle.dumps(v);
    var frame := Transfer(pickled);
    assert frame == [frame[0], frame[1]];
    FrameAhead(q0, frame[0], frame[1], rest);
    CStringNulFree(pickled);
    var text := frame[1].text;
    assert text[..Min(|text|, |text|)] == text;
    ReceiveFrame(q0 + frame + rest, |q0|, |text|, |q0|, msgflg, pickle);
  }

  /** Sending v and then receiving on a queue with no transfer pending returns v and restores the queue. */
  lemma RoundTrip<V>(q0: seq<Message>, v: V, msgflg: int, pickle: Codec<V>)
    requires NoTransferPending(q0) && RoundTrips(pickle, v)
    ensures var sent := SendSpec(q0, pickle.dumps(v), Unhindered);
      && sent.outcome == Sent(0)
      && ReceiveSpec(sent.queue, msgflg, pickle, true) == ReceiveStep(Received(v), q0)
  {
    ReceiveOldestFrame(q0, v, [], msgflg, pickle);
    assert q0 + Transfer(pickle.dumps(v)) + [] == q0 + Transfer(pickle.dumps(v));
    assert q0 + [] == q0;
  }

  ghost predicate AllRoundTrip<V>(pickle: Codec<V>, vs: seq<V>) {
    forall i | 0 <= i < |vs| :: RoundTrips(pickle, vs[i])
  }

  /** The frames of the values vs, one after the other. */
  function Frames<V>(pickle: Codec<V>, vs: seq<V>): (r: seq<Message>)
    requires forall i | 0 <= i < |vs| :: Sendable(pickle.dumps(vs[i]))
    ensures |r| == 2 * |vs|
  {
    if vs == [] then [] else Transfer(pickle.dumps(vs[0])) + Frames(pickle, vs[1..])
  }

  /** The queue after one sender sends vs in order, nothing refused. */
  function SendAll<V>(q: seq<Message>, pickle: Codec<V>, vs: seq<V>): seq<Message>
    requires forall i | 0 <= i < |vs| :: Sendable(pickle.dumps(vs[i]))
    decreases vs
  {
    if vs == [] then q
    else SendAll(SendSpec(q, pickle.dumps(vs[0]), Unhindered).queue, pickle, vs[1..])
  }

  /** The outcomes of n receives in a row, every buffer allocated. */
  function ReceiveAll<V>(q: seq<Message>, n: nat, msgflg: int, pickle: Codec<V>): (r: seq<ReceiveOutcome<V>>)
    ensures |r| == n
  {
    if n == 0 then []
    else
      var s := ReceiveSpec(q, msgflg, pickle, true);
      [s.outcome] + ReceiveAll(s.queue, n - 1, msgflg, pickle)
  }

  /**
   * The values after the first are still sendable (and still round-trip),
   * and behind a queue q their frames follow the first one's.
   */
  lemma FramesTail<V>(q: seq<Message>, pickle: Codec<V>, vs: seq<V>)
    requires vs != [] && forall i | 0 <= i < |vs| :: Sendable(pickle.dumps(vs[i]))
    ensures forall i | 0 <= i < |vs[1..]| :: Sendable(pickle.dumps(vs[1..][i]))
    ensures AllRoundTrip(pickle, vs) ==> AllRoundTrip(pickle, vs[1..])
    ensures q + Frames(pickle, vs) == q + Transfer(pickle.dumps(vs[0])) + Frames(pickle, vs[1..])
  {
    assert forall i | 0 <= i < |vs| - 1 :: vs[1..][i] == vs[i + 1];
  }

  /** Sending the first value appends its frame; the rest are sent after it. */
  lemma SendAllStep<V>(q: seq<Message>, pickle: Codec<V>, vs: seq<V>)
    requires vs != [] && forall i | 0 <= i < |vs| :: Sendable(pickle.dumps(vs[i]))
    ensures SendAll(q, pickle, vs) == SendAll(q + Transfer(pickle.dumps(vs[0])), pickle, vs[1..])
  {
    assert SendSpec(q, pickle.dumps(vs[0]), Unhindered).queue == q + Transfer(pickle.dumps(vs[0]));
  }

  lemma {:induction false} SendAllAppendsFrames<V>(q: seq<Message>, pickle: Codec<V>, vs: seq<V>)
    requires forall i | 0 <= i < |vs| :: Sendable(pickle.dumps(vs[i]))
    ensures SendAll(q, pickle, vs) == q + Frames(pickle, vs)
    decreases vs
  {
    if vs == [] {
      assert q + [] == q;
    } else {
      FramesTail(q, pickle, vs);
      SendAllStep(q, pickle, vs);
      SendAllAppendsFrames(q + Transfer(pickle.dumps(vs[0])), pickle, vs[1..]);
    }
  }

  lemma {:induction false} ReceiveAllFrames<V>(q0: seq<Message>, vs: seq<V>, msgflg: int, pickle: Codec<V>)
    requires NoTransferPending(q0) && AllRoundTrip(pickle, vs)
    ensures var r := ReceiveAll(q0 + Frames(pickle, vs), |vs|, msgflg, pickle);
      forall i | 0 <= i < |vs| :: r[i] == Received(vs[i])
  {
    if vs != [] {
      var rest := vs[1..];
      FramesTail(q0, pickle, vs);
      ReceiveOldestFrame(q0, vs[0], Frames(pickle, rest), msgflg, pickle);
      ReceiveAllFrames(q0, rest, msgflg, pickle);
      var tail := ReceiveAll(q0 + Frames(pickle, rest), |rest|, msgflg, pickle);
      assert ReceiveAll(q0 + Frames(pickle, vs), |vs|, msgflg, pickle) == [Received(vs[0])] + tail;
      assert forall i | 0 < i < |vs| :: rest[i - 1] == vs[i];
    }
  }

  /**
   * Values sent one after the other by a single sender, nothing refused, are
   * received in the order they were sent.
   */
  lemma SentInOrderReceivedInOrder<V>(q0: seq<Message>, vs: seq<V>, msgflg: int, pickle: Codec<V>)
    requires NoTransferPending(q0) && AllRoundTrip(pickle, vs)
    ensures var r := ReceiveAll(SendAll(q0, pickle, vs), |vs|, msgflg, pickle);
      forall i | 0 <= i < |vs| :: r[i] == Received(vs[i])
  {
    SendAllAppendsFrames(q0, pickle, vs);
    ReceiveAllFrames(q0, vs, msgflg, pickle);
  }

  /**
   * After a send of v1 whose body was refused and a full send of v2, the next
   * receive pairs v1's envelope with v2's body. When v2's text fits v1's
   * announced size, v2 is received and v2's envelope is left unmatched. When
   * it does not, the body is refused with E2BIG and stays queued behind v2's
   * envelope; with MSG_NOERROR it is cut to the announced size and taken,
   * and what is unpickled is the cut text.
   */
  lemma StrayEnvelopeMisframes<V>(q0: seq<Message>, v1: V, v2: V, e: Errno, msgflg: int, pickle: Codec<V>)
    requires NoTransferPending(q0) && RoundTrips(pickle, v1) && RoundTrips(pickle, v2)
    ensures var d1, d2 := pickle.dumps(v1), pickle.dumps(v2);
      var partial := SendSpec(q0, d1, SendEnv(true, None, Some(e)));
      var full := SendSpec(partial.queue, d2, Unhindered);
      var r := ReceiveSpec(full.queue, msgflg, pickle, true);
      && partial.outcome == BodyNotSent(e)
      && full.outcome == Sent(0)
      && (|d2| <= |d1| ==> r == ReceiveStep(Received(v2), q0 + [Transfer(d2)[0]]))
      && (|d2| > |d1| && !HasFlag(msgflg, MsgNoerror) ==> r == ReceiveStep(BodyNotReceived(E2BIG), q0 + Transfer(d2)))
      && (|d2| > |d1| && HasFlag(msgflg, MsgNoerror) ==>
           var cut := pickle.loads(d2[..|d1| + 1]);
           r == ReceiveStep(if cut.Some? then Received(cut.value) else NotUnpickled, q0 + [Transfer(d2)[0]]))
  {
    var d1, d2 := pickle.dumps(v1), pickle.dumps(v2);
    var f1, f2 := Transfer(d1), Transfer(d2);
    assert f2 == [f2[0], f2[1]];
    StrayAhead(q0, f1[0], f2[0], f2[1]);
    CStringNulFree(d1);
    CStringNulFree(d2);
    var text := f2[1].text;
    assert |text| <= |f1[1].text| ==> text[..Min(|f1[1].text|, |text|)] == text;
    if |d2| > |d1| {
      assert text[..Min(|f1[1].text|, |text|)] == d2[..|d1| + 1];
      assert 0 !in d2[..|d1| + 1];
      CStringNulFree(d2[..|d1| + 1]);
    }
    ReceiveFrame(q0 + [f1[0]] + f2, |q0|, |f1[1].text|, |q0| + 1, msgflg, pickle);
  }

  /**
   * Where a receive finds the envelope and the body when a stray envelope e1
   * sits ahead of a frame of e2 and b2: e1 first, then b2 behind e2.
   */
  lemma StrayAhead(q0: seq<Message>, e1: Message, e2: Message, b2: Message)
    requires NoTransferPending(q0) && e1.mtype == SizeMsg && e2.mtype == SizeMsg && b2.mtype == DataMsg
    ensures var q := q0 + [e1] + [e2, b2];
      && FirstOfType(q, SizeMsg) == Some(|q0|) && q[|q0|] == e1
      && var q1 := RemoveAt(q, |q0|);
         && q1 == q0 + [e2, b2]
         && FirstOfType(q1, DataMsg) == Some(|q0| + 1) && q1[|q0| + 1] == b2
         && RemoveAt(q1, |q0| + 1) == q0 + [e2]
  {
    var q := q0 + [e1] + [e2, b2];
    var tail := [e1, e2, b2];
    assert q == q0 + tail && tail[0] == e1;
    assert FirstOfType(tail, SizeMsg) == Some(0);
    FirstOfTypeBehind(q0, tail, SizeMsg);
    var q1 := RemoveAt(q, |q0|);
    assert q1 == (q0 + [e2]) + [b2];
    OfTypeAppend(q0, [e2], DataMsg);
    OfTypeSingle(e2, DataMsg);
    assert FirstOfType([b2], DataMsg) == Some(0);
    FirstOfTypeBehind(q0 + [e2], [b2], DataMsg);
    assert RemoveAt(q1, |q0| + 1) == q0 + [e2];
  }
}
