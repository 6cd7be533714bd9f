/**
 * The wire format of the framing protocol: the two message types declared in
 * msgq.h, the envelope struct `size_msgbuf`, and the C data layout the code
 * relies on. The layout is that of an LP64, little-endian platform (Linux on
 * x86-64): `long` has 8 bytes, `int` has 4, and `struct size_msgbuf` is padded
 * to 16 bytes.
 */
module Wire {

  newtype byte = x: int | 0 <= x < 256

  /** Message type of the envelope, which announces the size of the body (SIZE_MSG). */
  const SizeMsg: int := 2
  /** Message type of the body, which carries the pickled text (DATA_MSG). */
  const DataMsg: int := 3

  const LongSize: nat := 8
  const IntSize: nat := 4
  /** sizeof(struct size_msgbuf): a long, an int and 4 bytes of tail padding. */
  const SizeMsgBufSize: nat := 16
  /** offsetof(struct msgbuf, mtext): the text of a message follows its long tag. */
  const MtextOffset: nat := LongSize
  /** The message size handed to the kernel for an envelope: the struct less its tag. */
  const EnvelopeMsgsz: nat := SizeMsgBufSize - LongSize

  const IntMin: int := -0x8000_0000
  const IntMax: int := 0x7fff_ffff

  predicate InIntRange(n: int) {
    IntMin <= n <= IntMax
  }

  function Min(a: int, b: int): int {
    if a <= b then a else b
  }

  /** Both tags are positive, so a by-type receive selects exactly that type, and they differ. */
  lemma TagsSelectDistinctTypes()
    ensures SizeMsg > 0 && DataMsg > 0
    ensures SizeMsg != DataMsg
  {
  }

  /** 256 to the power w: one more than the largest unsigned value of w bytes. */
  function Pow256(w: nat): (r: nat)
    ensures r > 0
  {
    if w == 0 then 1 else 0x100 * Pow256(w - 1)
  }

  /** The w bytes of the unsigned value u, least significant first (u is reduced modulo Pow256(w)). */
  function LittleEndian(u: nat, w: nat): (r: seq<byte>)
    ensures |r| == w
  {
    if w == 0 then [] else [(u % 0x100) as byte] + LittleEndian(u / 0x100, w - 1)
  }

  /** The unsigned value of the bytes b, least significant first. */
  function FromLittleEndian(b: seq<byte>): nat {
    if b == [] then 0 else b[0] as nat + 0x100 * FromLittleEndian(b[1..])
  }

  lemma {:induction false} FromLittleEndianBound(b: seq<byte>)
    ensures FromLittleEndian(b) < Pow256(|b|)
  {
    if b != [] {
      FromLittleEndianBound(b[1..]);
    }
  }

  lemma {:induction false} FromLittleEndianInverse(u: nat, w: nat)
    requires u < Pow256(w)
    ensures FromLittleEndian(LittleEndian(u, w)) == u
  {
    if w > 0 {
      FromLittleEndianInverse(u / 0x100, w - 1);
      assert LittleEndian(u, w)[1..] == LittleEndian(u / 0x100, w - 1);
    }
  }

  lemma {:induction false} LittleEndianInverse(b: seq<byte>)
    ensures LittleEndian(FromLittleEndian(b), |b|) == b
  {
    if b != [] {
      var u := FromLittleEndian(b);
      assert u % 0x100 == b[0] as int && u / 0x100 == FromLittleEndian(b[1..]);
      LittleEndianInverse(b[1..]);
    }
  }

  lemma Pow256Int()
    ensures Pow256(IntSize) == 0x1_0000_0000
  {
    assert Pow256(0) == 1;
    assert Pow256(2) == 0x1_0000;
  }

  /** The 4 bytes of a C `int` holding n: two's complement, least significant byte first. */
  function EncodeInt32(n: int): (r: seq<byte>)
    requires InIntRange(n)
    ensures |r| == IntSize
  {
    LittleEndian(if n < 0 then n + 0x1_0000_0000 else n, IntSize)
  }

  /** The C `int` whose 4 bytes, least significant first, are b. */
  function DecodeInt32(b: seq<byte>): (r: int)
    requires |b| == IntSize
    ensures InIntRange(r)
  {
    Pow256Int();
    FromLittleEndianBound(b);
    var u := FromLittleEndian(b);
    if u > IntMax then u - 0x1_0000_0000 else u
  }

  lemma DecodeEncodeInt32(n: int)
    requires InIntRange(n)
    ensures DecodeInt32(EncodeInt32(n)) == n
  {
    Pow256Int();
    FromLittleEndianInverse(if n < 0 then n + 0x1_0000_0000 else n, IntSize);
  }

  lemma EncodeDecodeInt32(b: seq<byte>)
    requires |b| == IntSize
    ensures EncodeInt32(DecodeInt32(b)) == b
  {
    Pow256Int();
    FromLittleEndianBound(b);
    LittleEndianInverse(b);
  }

  /**
   * The text the kernel copies from a `size_msgbuf` whose size field is n: the
   * EnvelopeMsgsz bytes after the tag, that is the int and the padding. The C
   * code leaves the padding uninitialised; here it is zero.
   */
  function EnvelopeText(n: int): (r: seq<byte>)
    requires InIntRange(n)
    ensures |r| == EnvelopeMsgsz
    ensures r[..IntSize] == EncodeInt32(n)
  {
    EncodeInt32(n) + [0, 0, 0, 0]
  }

  /**
   * The size field of a `size_msgbuf` after the kernel has copied the text t
   * into it. The field is its first IntSize bytes; bytes t does not reach are
   * read as zero.
   */
  function EnvelopeSize(t: seq<byte>): (r: int)
    ensures InIntRange(r)
  {
    DecodeInt32((t + [0, 0, 0, 0])[..IntSize])
  }

  /** Every size field is read back from some envelope text: the announced size loses nothing. */
  lemma EnvelopeSizeExact(t: seq<byte>)
    requires |t| >= IntSize
    ensures EncodeInt32(EnvelopeSize(t)) == t[..IntSize]
  {
    assert (t + [0, 0, 0, 0])[..IntSize] == t[..IntSize];
    EncodeDecodeInt32(t[..IntSize]);
  }

  lemma EnvelopeRoundTrip(n: int)
    requires InIntRange(n)
    ensures EnvelopeSize(EnvelopeText(n)) == n
  {
    var t := EnvelopeText(n);
    assert (t + [0, 0, 0, 0])[..IntSize] == EncodeInt32(n);
    DecodeEncodeInt32(n);
  }

  /**
   * The bytes a C string function reads at s: everything before the first NUL,
   * or all of s when s holds none.
   */
  function CString(s: seq<byte>): (r: seq<byte>)
    ensures r <= s && 0 !in r
    ensures |r| < |s| ==> s[|r|] == 0
  {
    if s == [] || s[0] == 0 then [] else [s[0]] + CString(s[1..])
  }

  /** strlen: the index of the first NUL of a NUL-terminated buffer. */
  function Strlen(s: seq<byte>): (r: nat)
    requires 0 in s
    ensures r < |s| && s[r] == 0 && 0 !in s[..r]
  {
    var c := CString(s);
    assert |c| == |s| ==> c == s;
    assert s[..|c|] == c;
    |c|
  }

  /** Appending a NUL does not change what a C string function reads. */
  lemma {:induction false} CStringTerminated(s: seq<byte>)
    ensures CString(s + [0]) == CString(s)
  {
    if s == [] {
    } else if s[0] == 0 {
      assert (s + [0])[0] == 0;
    } else {
      assert (s + [0])[1..] == s[1..] + [0];
      CStringTerminated(s[1..]);
    }
  }

  /** A NUL-free text is read in full. */
  lemma CStringNulFree(s: seq<byte>)
    ensures 0 !in s ==> CString(s) == s
  {
  }
}
