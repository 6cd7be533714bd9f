/**
 * The System V message queue the framing protocol runs over, reduced to what
 * msgq.c relies on: a FIFO of typed messages to which msgsnd appends and from
 * which msgrcv removes the oldest message of a given positive type.
 *
 * Whether the kernel admits a message (queue capacity, a blocking wait, a
 * signal, the system message size limit) is not decided here: it is a
 * parameter of each enqueue. What msgrcv does is decided by the queue and its
 * arguments alone; a receive that would wait for a message is modelled as the
 * failure IPC_NOWAIT gives.
 */
module Kernel {

  import opened Wrappers
  import opened Wire

  datatype Message = Message(mtype: int, text: seq<byte>)

  /** The errno values a msgsnd or msgrcv failure can leave behind. */
  datatype Errno = EINVAL | ENOMSG | E2BIG | EAGAIN | EINTR | EIDRM | ENOMEM

  /** MSG_NOERROR (010000 on Linux): truncate a too-long message instead of failing. */
  const MsgNoerror: int := 0x1000

  /** Whether the single-bit flag is set in the C int msgflg (two's complement). */
  predicate HasFlag(msgflg: int, flag: int)
    requires flag > 0
  {
    (msgflg / flag) % 2 == 1
  }

  /** The messages of type t in q, oldest first: the queue as seen by receivers of t. */
  function OfType(q: seq<Message>, t: int): (r: seq<Message>)
    ensures |r| <= |q|
    ensures forall k | 0 <= k < |r| :: r[k].mtype == t
  {
    if q == [] then []
    else (if q[0].mtype == t then [q[0]] else []) + OfType(q[1..], t)
  }

  /** The position of the oldest message of type t in q, if there is one. */
  function FirstOfType(q: seq<Message>, t: int): (r: Option<nat>)
    ensures r.Some? ==> r.value < |q| && q[r.value].mtype == t
    ensures r.Some? ==> forall j | 0 <= j < r.value :: q[j].mtype != t
    ensures r.None? ==> forall j | 0 <= j < |q| :: q[j].mtype != t
  {
    if q == [] then None
    else if q[0].mtype == t then Some(0)
    else match FirstOfType(q[1..], t)
      case None => None
      case Some(i) => Some(i + 1)
  }

  function RemoveAt(q: seq<Message>, i: nat): seq<Message>
    requires i < |q|
  {
    q[..i] + q[i + 1..]
  }

  lemma {:induction false} OfTypeAppend(a: seq<Message>, b: seq<Message>, t: int)
    ensures OfType(a + b, t) == OfType(a, t) + OfType(b, t)
  {
    if a == [] {
      assert a + b == b;
    } else {
      assert (a + b)[0] == a[0];
      assert (a + b)[1..] == a[1..] + b;
      OfTypeAppend(a[1..], b, t);
    }
  }

  lemma {:induction false} OfTypeAbsent(q: seq<Message>, t: int)
    requires forall j | 0 <= j < |q| :: q[j].mtype != t
    ensures OfType(q, t) == []
  {
    if q != [] {
      OfTypeAbsent(q[1..], t);
    }
  }

  /** There is an oldest message of type t exactly when the t view is not empty. */
  lemma OfTypeEmpty(q: seq<Message>, t: int)
    ensures FirstOfType(q, t).None? <==> OfType(q, t) == []
  {
    match FirstOfType(q, t)
    case None => OfTypeAbsent(q, t);
    case Some(i) =>
      OfTypeSplit(q, i, t);
      OfTypeSingle(q[i], t);
  }

  lemma OfTypeSingle(m: Message, t: int)
    ensures OfType([m], t) == if m.mtype == t then [m] else []
  {
    assert [m][1..] == [];
  }

  /** A view of q splits at position i into the views of q before i, q[i] and q after i. */
  lemma OfTypeSplit(q: seq<Message>, i: nat, t: int)
    requires i < |q|
    ensures OfType(q, t) == OfType(q[..i], t) + OfType([q[i]], t) + OfType(q[i + 1..], t)
    ensures OfType(RemoveAt(q, i), t) == OfType(q[..i], t) + OfType(q[i + 1..], t)
  {
    assert q == (q[..i] + [q[i]]) + q[i + 1..];
    OfTypeAppend(q[..i] + [q[i]], q[i + 1..], t);
    OfTypeAppend(q[..i], [q[i]], t);
    OfTypeAppend(q[..i], q[i + 1..], t);
  }

  /**
   * Removing the message at position i, the oldest of type t, removes the head
   * of the t view and leaves the view of every other type t' as it was.
   */
  lemma OfTypeRemoveFirst(q: seq<Message>, t: int, i: nat, t': int)
    requires FirstOfType(q, t) == Some(i)
    ensures OfType(q, t) == [q[i]] + OfType(RemoveAt(q, i), t)
    ensures t' != t ==> OfType(RemoveAt(q, i), t') == OfType(q, t')
  {
    OfTypeSplit(q, i, t);
    OfTypeSingle(q[i], t);
    OfTypeAbsent(q[..i], t);
    assert OfType(q, t) == [] + [q[i]] + OfType(q[i + 1..], t);
    assert OfType(RemoveAt(q, i), t) == [] + OfType(q[i + 1..], t);
    if t' != t {
      OfTypeSplit(q, i, t');
      OfTypeSingle(q[i], t');
      assert OfType([q[i]], t') == [];
    }
  }

  /** Behind a prefix with no message of type t, the oldest one of type t is found past the prefix. */
  lemma {:induction false} FirstOfTypeBehind(a: seq<Message>, b: seq<Message>, t: int)
    requires OfType(a, t) == []
    ensures FirstOfType(a + b, t) == match FirstOfType(b, t)
      case None => None
      case Some(j) => Some(|a| + j)
  {
    if a == [] {
      assert a + b == b;
    } else {
      assert a[0].mtype != t;
      assert (a + b)[0] == a[0];
      assert (a + b)[1..] == a[1..] + b;
      FirstOfTypeBehind(a[1..], b, t);
    }
  }

  /** The result of one msgsnd call: 0 or an error, and the queue afterwards. */
  datatype SndStep = SndStep(result: Result<int, Errno>, queue: seq<Message>)

  /**
   * msgsnd of message m. A type below 1 is refused with EINVAL; otherwise the
   * kernel either admits m (refusal is None) or refuses it with the given errno.
   */
  function Snd(q: seq<Message>, m: Message, refusal: Option<Errno>): (s: SndStep)
    ensures s.result.Success? <==> m.mtype >= 1 && refusal.None?
    ensures s.result.Success? ==> s.result.value == 0 && s.queue == q + [m]
    ensures s.result.Failure? ==> s.queue == q
    ensures m.mtype < 1 ==> s.result == Failure(EINVAL)
    ensures m.mtype >= 1 && refusal.Some? ==> s.result == Failure(refusal.value)
  {
    if m.mtype < 1 then SndStep(Failure(EINVAL), q)
    else match refusal
      case Some(e) => SndStep(Failure(e), q)
      case None => SndStep(Success(0), q + [m])
  }

  /** The result of one msgrcv call: the text received or an error, and the queue afterwards. */
  datatype RcvStep = RcvStep(result: Result<seq<byte>, Errno>, queue: seq<Message>)

  /**
   * msgrcv of the oldest message of type t into a buffer of msgsz bytes. A
   * negative msgsz (a negative C int passed as size_t) is refused with EINVAL;
   * with no message of type t it fails with ENOMSG; a message longer than
   * msgsz stays queued and fails with E2BIG, unless msgflg has MSG_NOERROR, in
   * which case its first msgsz bytes are delivered and it is removed.
   */
  function Rcv(q: seq<Message>, t: int, msgsz: int, msgflg: int): (s: RcvStep)
    requires t > 0
    ensures s.result.Failure? ==> s.queue == q
    ensures s.result.Success? ==> |s.queue| == |q| - 1
  {
    if msgsz < 0 then RcvStep(Failure(EINVAL), q)
    else match FirstOfType(q, t)
      case None => RcvStep(Failure(ENOMSG), q)
      case Some(i) =>
        var text := q[i].text;
        if |text| <= msgsz then RcvStep(Success(text), RemoveAt(q, i))
        else if HasFlag(msgflg, MsgNoerror) then RcvStep(Success(text[..msgsz]), RemoveAt(q, i))
        else RcvStep(Failure(E2BIG), q)
  }

  /**
   * What one msgrcv does, seen per message type: it fails exactly in the
   * EINVAL, ENOMSG and E2BIG cases, leaving the queue as it was, and otherwise
   * delivers (a prefix of) the oldest message of type t and removes it from
   * the t view, leaving the other views alone.
   */
  lemma RcvEffects(q: seq<Message>, t: int, msgsz: int, msgflg: int) returns (s: RcvStep)
    requires t > 0
    ensures s == Rcv(q, t, msgsz, msgflg)
    ensures s.result.Success? <==>
      msgsz >= 0 && OfType(q, t) != [] && (|OfType(q, t)[0].text| <= msgsz || HasFlag(msgflg, MsgNoerror))
    ensures s.result.Failure? ==> s.queue == q
    ensures s.result == Failure(EINVAL) <==> msgsz < 0
    ensures s.result == Failure(ENOMSG) <==> msgsz >= 0 && OfType(q, t) == []
    ensures s.result == Failure(E2BIG) <==>
      msgsz >= 0 && OfType(q, t) != [] && |OfType(q, t)[0].text| > msgsz && !HasFlag(msgflg, MsgNoerror)
    ensures s.result.Success? ==>
      && OfType(q, t) != []
      && s.result.value == OfType(q, t)[0].text[..Min(msgsz, |OfType(q, t)[0].text|)]
      && OfType(s.queue, t) == OfType(q, t)[1..]
      && (forall t' | t' != t :: OfType(s.queue, t') == OfType(q, t'))
      && |s.queue| == |q| - 1
  {
    s := Rcv(q, t, msgsz, msgflg);
    OfTypeEmpty(q, t);
    match FirstOfType(q, t)
    case None =>
    case Some(i) =>
      OfTypeRemoveFirst(q, t, i, 0);
      forall t' | t' != t ensures OfType(RemoveAt(q, i), t') == OfType(q, t') {
        OfTypeRemoveFirst(q, t, i, t');
      }
  }

  /** Receiving removes exactly the oldest message of the type asked for. */
  lemma RcvRemovesOldest(q: seq<Message>, t: int, msgsz: int, msgflg: int)
    requires t > 0
    ensures Rcv(q, t, msgsz, msgflg).result.Success? ==>
      && FirstOfType(q, t).Some?
      && Rcv(q, t, msgsz, msgflg).queue == RemoveAt(q, FirstOfType(q, t).value)
  {
  }

  /** A kernel message queue; `messages` is its content, oldest first. */
  class MessageQueue {

    var messages: seq<Message>

    constructor ()
      ensures messages == []
    {
      messages := [];
    }

    /** msgsnd(msqid, msgp, msgsz, msgflg): returns 0, or -1 with errno. */
    method MsgSnd(mtype: int, text: seq<byte>, msgflg: int, refusal: Option<Errno>) returns (r: Result<int, Errno>)
      modifies this
      ensures r == Snd(old(messages), Message(mtype, text), refusal).result
      ensures messages == Snd(old(messages), Message(mtype, text), refusal).queue
    {
      var s := Snd(messages, Message(mtype, text), refusal);
      r, messages := s.result, s.queue;
    }

    /** msgrcv(msqid, msgp, msgsz, msgtyp, msgflg) for a positive msgtyp. */
    method MsgRcv(mtype: int, msgsz: int, msgflg: int) returns (r: Result<seq<byte>, Errno>)
      requires mtype > 0
      modifies this
      ensures r == Rcv(old(messages), mtype, msgsz, msgflg).result
      ensures messages == Rcv(old(messages), mtype, msgsz, msgflg).queue
    {
      var s := Rcv(messages, mtype, msgsz, msgflg);
      r, messages := s.result, s.queue;
    }
  }
}
