# msgq framing protocol in Dafny

msgq is a Python extension module, written in C, that sends pickled Python
values over a System V message queue. The only protocol logic in it is the
two-message framing in `msgq_msgsnd` and `msgq_msgrcv` (msgq.c):

- a **send** pickles the value and enqueues two messages:
  - an **envelope** of type `SIZE_MSG` (2), a `struct size_msgbuf` whose
    `int` field announces the body size `strlen(text) + 1`;
  - a **body** of type `DATA_MSG` (3), holding the pickled text and its NUL
    terminator.
- a **receive** works in four steps:
  - it dequeues the oldest envelope, with flags 0;
  - it allocates a buffer of the announced size;
  - it dequeues the oldest body into that buffer, with the caller's flags;
  - it unpickles the C string the buffer holds.

The project has five modules:

- `Wrappers` (wrappers.dfy): `Option` and `Result`.
- `Wire` (wire.dfy): the two tags and the envelope layout (msgq.h). It also
  holds the C data layout the code relies on, taken to be LP64 little-endian:
  `long` is 8 bytes, `int` is 4, `struct size_msgbuf` is 16 bytes, so an
  envelope's message size is 8. Further pieces:
  - the two's-complement encoding of the `int` field;
  - `CString` and `Strlen`, which say what a C string function reads.
- `Kernel` (kernel.dfy): the kernel queue.
  - The class `MessageQueue` holds the queue as a `seq<Message>`. Its methods
    `MsgSnd` and `MsgRcv` are tied to the pure step functions `Snd` and `Rcv`.
  - `Rcv` removes the oldest message of a positive type. A negative size is
    refused with EINVAL. A queue without such a message fails with ENOMSG. A
    message that is too long stays queued and fails with E2BIG, unless
    `MSG_NOERROR` truncates it.
  - Whether msgsnd admits a message is a parameter (`refusal`).
  - The per-type views `OfType` are how the lemmas talk about "the oldest
    envelope" and "the oldest body".
- `Msgq` (msgq.dfy): the two entry points.
  - `Send` and `Receive` are methods on a `MessageQueue`. `Send` builds the
    body in an array, as the C code does with `memcpy`.
  - Each is proved equal to a step-by-step specification function,
    `SendSpec` or `ReceiveSpec`.
  - Outcome datatypes record *which* step failed. The C code reports every
    failure as the same `IOError`, but the queue it leaves behind differs.
  - The pickle module is a `Codec` passed in, a pair of `dumps` and `loads`.
    Allocation success is a parameter.
- `Protocol` (protocol.dfy): what several calls do together.
  - A send followed by a receive returns the value and restores the queue.
  - Values sent in order are received in order.
  - Envelopes and bodies stay balanced.
  - A send whose body was refused leaves a stray envelope. The next receive
    puts that envelope together with the next sender's body.

The code has no distinct partial-send, partial-receive or
framing-mismatch error, and a successful send returns msgsnd's 0, not a byte
count.

## Model

| member | source | states |
|---|---|---|
| Wire.TagsSelectDistinctTypes | msgq.h:16-17 | both tags are positive, so msgrcv by type selects exactly that type, and they differ |
| Wire.DecodeEncodeInt32 | msgq.h:13 | decoding the 4 two's-complement bytes of any C int gives back that int |
| Wire.EncodeDecodeInt32 | msgq.h:13 | every 4 bytes are the encoding of the int they decode to: the size field loses nothing |
| Wire.EnvelopeText | msgq.c:77-80 | the text msgsnd copies from a size_msgbuf is sizeof(struct size_msgbuf) - sizeof(long) = 8 bytes long and starts with the encoded size field |
| Wire.EnvelopeSizeExact | msgq.h:10-14 | the size read from an envelope text of at least 4 bytes re-encodes to its first 4 bytes |
| Wire.EnvelopeRoundTrip | msgq.c:78-79 | the size read back from the envelope a send builds is the size it stored |
| Wire.EnvelopeSize | msgq.c:112-117 | the size field `size_msg.size` read from a received envelope text is a C int (Wire.EnvelopeSizeExact and Wire.EnvelopeRoundTrip state which one) |
| Wire.CString | msgq.c:64-66 | what a C string function reads is a NUL-free prefix of the buffer, ended by the buffer's first NUL when there is one |
| Wire.Strlen | msgq.c:66 | strlen of a NUL-terminated buffer is the index of its first NUL, with no NUL before it |
| Wire.CStringTerminated | msgq.c:66-72 | appending the terminator does not change what strlen and memcpy read |
| Kernel.OfType | msgq.c:113 | the view of one type has no more messages than the queue, all of that type |
| Kernel.FirstOfType | msgq.c:113 | the oldest message of a type: of that type, with none of that type before it; None exactly when the queue holds none |
| Kernel.OfTypeEmpty | msgq.c:122 | there is an oldest message of a type exactly when that type's view is not empty |
| Kernel.OfTypeRemoveFirst | msgq.c:122 | removing the oldest message of type t removes the head of the t view and leaves every other type's view unchanged |
| Kernel.FirstOfTypeBehind | msgq.c:113 | behind a prefix without type t, the oldest t message is found past the prefix, at its index there offset by the prefix length |
| Kernel.Snd | msgq.c:80 | msgsnd succeeds exactly when the type is at least 1 and the kernel admits the message; success returns 0 and appends the message; failure leaves the queue unchanged; a type below 1 is EINVAL, and a refused message carries the kernel's errno |
| Kernel.Rcv | msgq.c:113 | a failed msgrcv leaves the queue unchanged and a successful one removes exactly one message (which one, and the failure cases, are stated by Kernel.RcvEffects) |
| Kernel.RcvEffects | msgq.c:122 | msgrcv succeeds exactly when msgsz is not negative, the type's view is not empty and its oldest message fits msgsz or MSG_NOERROR is set; it fails with EINVAL exactly for a negative size, with ENOMSG exactly when the type's view is empty, and with E2BIG exactly when the oldest message is too long without MSG_NOERROR; failure leaves the queue unchanged; success delivers the oldest message's first msgsz bytes, removes it from its view, leaves other views alone and shortens the queue by one |
| Kernel.RcvRemovesOldest | msgq.c:113 | a successful msgrcv removes exactly the oldest message of the type asked for |
| Kernel.MessageQueue.MsgSnd | msgq.c:80 | the queue's result and new contents are those of Snd on its old contents |
| Kernel.MessageQueue.MsgRcv | msgq.c:113 | the queue's result and new contents are those of Rcv on its old contents |
| Msgq.Transfer | msgq.c:71-85 | a frame is a SIZE_MSG envelope of 8 bytes followed by a DATA_MSG body; the envelope encodes the body's length, which is strlen(text) + 1; the body reads as the same C string as the text and ends in NUL; a NUL-free text is sent whole plus its terminator |
| Msgq.TransferAnnouncesSize | msgq.c:78-85 | the size the envelope announces, read back, is exactly the body's length |
| Msgq.CopiedFrame | msgq.c:66-79 | the body buffer filled by memcpy and the envelope holding strlen + 1 are the two messages of the frame, and that size fits a C int |
| Msgq.SendSpec | msgq.c:61-94 | a send succeeds exactly when allocation and both msgsnd calls succeed, then returns 0 and appends the whole frame behind the old queue; a refused envelope after a successful allocation gives EnvelopeNotSent, and a failed allocation or envelope leaves the queue as it was; a refused body leaves exactly the envelope appended; each failure carries the kernel's errno |
| Msgq.EnqueueFrame | msgq.c:76-91 | the envelope is enqueued before the body: a refused envelope gives EnvelopeNotSent with the queue unchanged, so the body is tried only after the envelope was admitted; a refused body leaves the envelope appended |
| Msgq.Send | msgq.c:46-95 | the method's outcome and the queue it leaves are those of SendSpec |
| Msgq.ReceiveSpec | msgq.c:111-133 | a receive that fails on the envelope leaves the queue unchanged, one that took only the envelope shortens it by one and one that took both messages by two (the per-type effects are stated by Msgq.ReceiveEnvelopeEffects and Msgq.ReceiveBodyEffects) |
| Msgq.ReceiveEnvelopeEffects | msgq.c:111-119 | the envelope msgrcv, flags 0 and 8 bytes, fails exactly when there is no envelope (ENOMSG) or the oldest is longer than 8 bytes (E2BIG), leaving the queue unchanged; otherwise the oldest envelope is consumed; allocation failure happens exactly after an envelope was taken |
| Msgq.ReceiveBodyEffects | msgq.c:117-133 | after the envelope, the body msgrcv with the announced size and the caller's flags fails exactly for a negative size (EINVAL), no body (ENOMSG) or a too-long body without MSG_NOERROR (E2BIG), the body staying queued; a taken body is the oldest one, cut to the announced size, and loads of its C string decides Received or NotUnpickled |
| Msgq.ReceiveOtherTypes | msgq.c:111-125 | a receive leaves messages of every other type in place |
| Msgq.ReceiveRemovesOldest | msgq.c:113-122 | a receive that took both messages removed the oldest envelope and then the oldest body, with every other message in its old order |
| Msgq.ReceiveFrame | msgq.c:111-133 | with a given oldest envelope announcing n and oldest body behind it, the receive unpickles the body when it fits n or MSG_NOERROR truncates it, and refuses it with E2BIG otherwise, consuming the envelope alone |
| Msgq.Receive | msgq.c:97-134 | the method's outcome and the queue it leaves are those of ReceiveSpec |
| Protocol.SendBalance | msgq.c:80-91 | a full send or a send that failed before the body keeps envelopes and bodies balanced; a send whose body was refused leaves one more unmatched envelope |
| Protocol.ReceiveBalance | msgq.c:113-125 | a receive that took both messages keeps the balance; one that took only the envelope leaves one fewer unmatched envelope; one that failed on the envelope changes nothing |
| Protocol.ReceiveOldestFrame | msgq.c:111-133 | when a value's frame is the oldest envelope and body, the receive returns the value and removes exactly that frame, leaving everything behind it in order |
| Protocol.RoundTrip | msgq.c:61-133 | on a queue with no transfer pending, sending v succeeds with 0, and the next receive returns v and restores the queue; this is what the tests in tests/test_msgq.py check for None, numbers, strings, lists and dictionaries |
| Protocol.SendAllAppendsFrames | msgq.c:76-94 | sending values one after another appends their frames in the order sent |
| Protocol.SentInOrderReceivedInOrder | msgq.c:113-122 | values sent in order by one sender are received in the same order |
| Protocol.StrayEnvelopeMisframes | msgq.c:87-90 | after a send whose body was refused and a full send of v2, the next receive puts the stray envelope together with v2's body: v2 is received and v2's envelope is left unmatched when v2's body fits the stray size; otherwise, without MSG_NOERROR the body is refused with E2BIG and stays queued, and with MSG_NOERROR it is cut to the stray size and taken, the cut text being what is unpickled |

## Left out

- `msgq_ftok`, `msgq_msgget` and `msgq_msgctl` are left out. Each is a single system call with no protocol state.
- Module initialisation and its constants are left out. `IPC_CREAT`, `IPC_NOWAIT` and the others are platform values.
- Python reference counting, the leaked objects, and the calls to `PyMem_Malloc` and `PyMem_Free` are left out. Allocation success is the `allocOk` parameter.
- Blocking, queue capacity and signals are not modelled. Whether msgsnd admits a message is the `refusal` oracle. A receive that would wait for an absent message is modelled as the ENOMSG failure `IPC_NOWAIT` gives.
- Kernel.Snd: does not consult `msgflg` or the system limit on message size, because both only decide whether the kernel admits a message, which is the `refusal` parameter.
- Kernel.Rcv: covers positive message types only, which is all msgq.c uses. `MSG_EXCEPT`, `MSG_COPY` and non-positive `msgtyp` are not modelled. msgq.c:122 passes the caller's msgflg to the body msgrcv unchanged, so every receive lemma (Msgq.ReceiveFrame, Protocol.ReceiveOldestFrame, Protocol.RoundTrip, Protocol.SentInOrderReceivedInOrder and the others) holds only for a msgflg without `MSG_EXCEPT` and `MSG_COPY`: with those set the kernel would select or keep a different message.
- The `memcpy` NULL check (msgq.c:72-74) is not modelled: memcpy returns its destination, which is not NULL there.
- A value that `dumps` cannot pickle is not modelled: the C code would go on with a NULL string. `Codec.dumps` is a total function.
- The envelope's 4 padding bytes are left uninitialised by the C code. Here they are zero. A received envelope text shorter than 4 bytes is read with zero bytes filling the size field.
- A body without a NUL in the buffer is not modelled: loads would read past the buffer, and the C code has no bound check. This can happen after a `MSG_NOERROR` truncation or a foreign sender. The model reads what a C string function would read within the buffer.
- Concurrent senders and receivers interleaving their messages are not modelled. The code has no mechanism against it, and the model is sequential.
- `setup.py` and the Python tests are not modelled. The tests need a live kernel queue. test/testmsgq.py:9 compares `IPC_CREAT` where `IPC_EXCL` is meant.
- The header-guard typo (msgq.h:7-8) has no effect on behaviour and is not modelled.
