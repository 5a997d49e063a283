/** Bytes and pointer-sized words, and the little-endian layout a pointer has in a message body. */
module Words {

  type Byte = b: nat | b < 256

  /** POINTER_SIZE is sizeof(void *), 4 or 8 depending on the build. It is left
      unspecified here, so that everything is proved for both sizes. */
  type PointerSize = n: nat | n == 4 || n == 8 witness 8

  const POINTER_SIZE: PointerSize

  function Pow256(n: nat): (r: nat)
    ensures r > 0
  {
    if n == 0 then 1 else 256 * Pow256(n - 1)
  }

  const WORD_LIMIT: nat := Pow256(POINTER_SIZE)

  /** An address. */
  type Word = w: nat | w < WORD_LIMIT witness 0

  /** The cast of -1 to a pointer. */
  const WILDCARD: Word := WORD_LIMIT - 1

  function ToBytes(v: nat, n: nat): (bytes: seq<Byte>)
    ensures |bytes| == n
  {
    if n == 0 then [] else [v % 256] + ToBytes(v / 256, n - 1)
  }

  function FromBytes(bytes: seq<Byte>): (v: nat)
    ensures v < Pow256(|bytes|)
  {
    if bytes == [] then 0 else bytes[0] + 256 * FromBytes(bytes[1..])
  }

  lemma {:induction false} FromToBytes(v: nat, n: nat)
    requires v < Pow256(n)
    ensures FromBytes(ToBytes(v, n)) == v
  {
    if n == 0 {
    } else {
      FromToBytes(v / 256, n - 1);
    }
  }

  lemma LowByte(b: Byte, rest: nat)
    ensures (b + 256 * rest) % 256 == b && (b + 256 * rest) / 256 == rest
  {
  }

  lemma {:induction false} ToFromBytes(bytes: seq<Byte>)
    ensures ToBytes(FromBytes(bytes), |bytes|) == bytes
  {
    if bytes == [] {
    } else {
      ToFromBytes(bytes[1..]);
      LowByte(bytes[0], FromBytes(bytes[1..]));
      assert bytes == [bytes[0]] + bytes[1..];
    }
  }

  lemma {:induction false} AllOnes(bytes: seq<Byte>)
    ensures FromBytes(bytes) == Pow256(|bytes|) - 1 <==> (forall i | 0 <= i < |bytes| :: bytes[i] == 255)
  {
    if bytes == [] {
    } else {
      AllOnes(bytes[1..]);
      assert bytes == [bytes[0]] + bytes[1..];
    }
  }

  /** The handlers read a body by dereferencing it as a pointer. */
  function Pointer(body: seq<Byte>): Word
    requires |body| == POINTER_SIZE
  {
    FromBytes(body)
  }

  /** The first byte of a body is the lowest, as on x86 and x86-64. */
  lemma LittleEndian(body: seq<Byte>)
    requires |body| == POINTER_SIZE
    ensures Pointer(body) == FourBytes(body) + if POINTER_SIZE == 4 then 0 else 0x1_0000_0000 * FourBytes(body[4..])
  {
    FromFourBytes(body);
    if POINTER_SIZE == 8 {
      FromFourBytes(body[4..]);
    }
  }

  function FourBytes(b: seq<Byte>): nat
    requires |b| >= 4
  {
    b[0] as nat + 0x100 * b[1] as nat + 0x1_0000 * b[2] as nat + 0x100_0000 * b[3] as nat
  }

  lemma FromFourBytes(b: seq<Byte>)
    requires |b| >= 4
    ensures FromBytes(b) == FourBytes(b) + 0x1_0000_0000 * FromBytes(b[4..])
  {
    var c, d, e := b[1..], b[2..], b[3..];
    assert c[1..] == d && d[1..] == e && e[1..] == b[4..];
    assert FromBytes(b) == b[0] + 256 * FromBytes(c);
    assert FromBytes(c) == b[1] + 256 * FromBytes(d);
    assert FromBytes(d) == b[2] + 256 * FromBytes(e);
    assert FromBytes(e) == b[3] + 256 * FromBytes(b[4..]);
  }

  function Body(w: Word): (body: seq<Byte>)
    ensures |body| == POINTER_SIZE
  {
    ToBytes(w, POINTER_SIZE)
  }

  /** A body and the address it carries determine each other, and the body of
      the wildcard is the one whose bytes are all 0xFF. */
  lemma PointerBody(w: Word, body: seq<Byte>)
    requires |body| == POINTER_SIZE
    ensures Pointer(body) == w <==> body == Body(w)
    ensures Pointer(body) == WILDCARD <==> (forall i | 0 <= i < |body| :: body[i] == 255)
  {
    FromToBytes(w, POINTER_SIZE);
    ToFromBytes(body);
    AllOnes(body);
  }
}
