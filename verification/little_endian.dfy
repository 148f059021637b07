/** Octets and little-endian unsigned integers, as the minicap wire format uses them. */
module LittleEndian {

  /** One octet, as indexing a Python `bytes` object yields it. */
  type byte = b: int | 0 <= b < 256

  /** 256 to the power k: the weight of the byte at offset k. */
  function Pow256(k: nat): (r: nat)
    ensures r > 0
  {
    if k == 0 then 1 else 256 * Pow256(k - 1)
  }

  /** The unsigned value of `s` read least-significant byte first:
      s[0] + s[1] * 2^8 + s[2] * 2^16 + ... */
  function LeSum(s: seq<byte>): nat
  {
    if s == [] then 0 else s[0] + 256 * LeSum(s[1..])
  }

  /** The n low-order bytes of v, least-significant first. */
  function LeEncode(v: nat, n: nat): (r: seq<byte>)
    ensures |r| == n
  {
    if n == 0 then [] else [v % 256] + LeEncode(v / 256, n - 1)
  }

  /** n bytes hold values below 256^n; four bytes hold exactly the unsigned 32-bit range. */
  lemma {:induction false} LeSumBound(s: seq<byte>)
    ensures LeSum(s) < Pow256(|s|)
  {
    if s != [] {
      LeSumBound(s[1..]);
      assert LeSum(s[1..]) + 1 <= Pow256(|s| - 1);
      assert 256 * (LeSum(s[1..]) + 1) <= 256 * Pow256(|s| - 1);
    }
  }

  /** Place values grow with the offset. */
  lemma {:induction false} Pow256Monotone(i: nat, j: nat)
    requires i <= j
    ensures Pow256(i) <= Pow256(j)
  {
    if i < j {
      Pow256Monotone(i, j - 1);
    }
  }

  /** Splitting a little-endian byte string anywhere: the tail's value is shifted
      past the head's bytes. This is why the order-preserving concatenation of
      fragments decodes to the same value however the bytes were split. */
  lemma {:induction false} LeSumAppend(a: seq<byte>, b: seq<byte>)
    ensures LeSum(a + b) == LeSum(a) + Pow256(|a|) * LeSum(b)
  {
    if a == [] {
      assert a + b == b;
    } else {
      var t := a[1..];
      assert (a + b)[0] == a[0] && (a + b)[1..] == t + b;
      LeSumAppend(t, b);
      PlaceValueShift(a[0], LeSum(t), Pow256(|t|), LeSum(b));
    }
  }

  lemma PlaceValueShift(x: int, y: int, p: int, z: int)
    ensures x + 256 * (y + p * z) == (x + 256 * y) + (256 * p) * z
  {
  }

  /** Decoding an encoding gives back every value that fits in n bytes. */
  lemma {:induction false} LeSumOfEncode(v: nat, n: nat)
    requires v < Pow256(n)
    ensures LeSum(LeEncode(v, n)) == v
  {
    if n > 0 {
      var e := LeEncode(v, n);
      assert e[1..] == LeEncode(v / 256, n - 1);
      assert v / 256 < Pow256(n - 1);
      LeSumOfEncode(v / 256, n - 1);
    }
  }

  /** Encoding a decoded byte string gives back the bytes. */
  lemma {:induction false} LeEncodeOfSum(s: seq<byte>)
    ensures LeEncode(LeSum(s), |s|) == s
  {
    if s != [] {
      var v := LeSum(s);
      assert v % 256 == s[0] && v / 256 == LeSum(s[1..]);
      LeEncodeOfSum(s[1..]);
    }
  }

  /** Appending bytes c to an n-byte partial value v gives the value w whose
      encoding is the old encoding followed by c, and which fits the longer field. */
  lemma LeEncodeExtend(v: nat, n: nat, c: seq<byte>, w: nat)
    requires v < Pow256(n) && w == v + Pow256(n) * LeSum(c)
    ensures LeEncode(w, n + |c|) == LeEncode(v, n) + c
    ensures w < Pow256(n + |c|)
  {
    var e := LeEncode(v, n);
    LeSumOfEncode(v, n);
    LeSumAppend(e, c);
    assert LeSum(e + c) == w;
    LeEncodeOfSum(e + c);
    LeSumBound(e + c);
  }

  /** b0 + b1 * 2^8 + b2 * 2^16 + b3 * 2^24: an unsigned 32-bit little-endian value
      written out, as `struct.unpack('<I', ...)` defines it. */
  function Le32(b0: byte, b1: byte, b2: byte, b3: byte): (v: nat)
    ensures v < 0x1_0000_0000
  {
    b0 + b1 as nat * 0x100 + b2 as nat * 0x1_0000 + b3 as nat * 0x100_0000
  }

  /** On four bytes the recursive little-endian value is the written-out sum. */
  lemma LeSumOfFour(w: seq<byte>)
    requires |w| == 4
    ensures LeSum(w) == Le32(w[0], w[1], w[2], w[3])
  {
    var w1, w2, w3 := w[1..], w[2..], w[3..];
    assert w1[1..] == w2 && w2[1..] == w3 && w3[1..] == [];
    assert LeSum(w3) == w[3];
    assert LeSum(w2) == w[2] + 256 * (w[3] as nat);
    assert LeSum(w1) == w[1] + 256 * (w[2] + 256 * (w[3] as nat));
  }
}
