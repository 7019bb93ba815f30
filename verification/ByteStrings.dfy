/** Byte strings as the cryptographic code handles them. */
module ByteStrings {
  import opened Wrappers
  import opened Arithmetic

  type Bytes = seq<bv8>

  function Xor(a: Bytes, b: Bytes): (s: Bytes)
    requires |a| == |b|
    ensures |s| == |a|
  {
    seq(|a|, k requires 0 <= k < |a| => a[k] ^ b[k])
  }

  lemma XorTwice(a: Bytes, b: Bytes)
    requires |a| == |b|
    ensures Xor(Xor(a, b), b) == a
  {
    forall k | 0 <= k < |a| ensures (a[k] ^ b[k]) ^ b[k] == a[k] {
      XorByteTwice(a[k], b[k]);
    }
  }

  lemma XorByteTwice(a: bv8, b: bv8)
    ensures (a ^ b) ^ b == a
  {
  }

  /** The byte of a given value. */
  function ToByte(x: nat): (b: bv8)
    requires x < 0x100
    ensures b as nat == x
  {
    if x == 0 then 0 else ToByte(x - 1) + 1
  }

  /** The four octets of a number, the most significant first. */
  function Octets(i: nat): (s: Bytes)
    ensures |s| == 4
  {
    [ToByte(i / 0x100_0000 % 0x100), ToByte(i / 0x1_0000 % 0x100), ToByte(i / 0x100 % 0x100), ToByte(i % 0x100)]
  }

  /** Four octets read as a number, the most significant first. */
  function BigEndian(o: Bytes): nat
    requires |o| == 4
  {
    ((o[0] as nat * 256 + o[1] as nat) * 256 + o[2] as nat) * 256 + o[3] as nat
  }

  /** The octets write the number modulo 2^32. */
  lemma OctetsAreBigEndian(i: nat)
    ensures BigEndian(Octets(i)) == i % 0x1_0000_0000
    ensures i < 0x1_0000_0000 ==> BigEndian(Octets(i)) == i
  {
    hide ToByte;
    FourDigits(i);
    var o := Octets(i);
    assert o[0] as nat == i / 0x100_0000 % 0x100 && o[1] as nat == i / 0x1_0000 % 0x100;
    assert o[2] as nat == i / 0x100 % 0x100 && o[3] as nat == i % 0x100;
    Horner(o[0] as nat, o[1] as nat, o[2] as nat, o[3] as nat);
    if i < 0x1_0000_0000 { DivideUnique(i, 0x1_0000_0000, 0, i); }
  }

  lemma Horner(a: nat, b: nat, c: nat, d: nat)
    ensures ((a * 256 + b) * 256 + c) * 256 + d == a * 0x100_0000 + b * 0x1_0000 + c * 0x100 + d
  {
  }

  lemma FourDigits(i: nat)
    ensures i % 0x1_0000_0000 == i / 0x100_0000 % 0x100 * 0x100_0000 + i / 0x1_0000 % 0x100 * 0x1_0000
                                 + i / 0x100 % 0x100 * 0x100 + i % 0x100
  {
    SplitDigits(i, 0x100);
    SplitDigits(i, 0x1_0000);
    SplitDigits(i, 0x100_0000);
  }

  lemma LowerDigits(i: nat, j: nat, n: nat)
    requires 0 < n
    ensures i % (n * 0x100) == j % (n * 0x100) <==> i % n == j % n && i / n % 0x100 == j / n % 0x100
  {
    SplitDigits(i, n);
    SplitDigits(j, n);
    var a, b, c, d := i / n % 0x100, i % n, j / n % 0x100, j % n;
    if a * n + b == c * n + d {
      DivideUnique(a * n + b, n, a, b);
      DivideUnique(a * n + b, n, c, d);
    }
  }

  lemma SplitDigits(i: nat, n: nat)
    requires 0 < n
    ensures i % (n * 0x100) == i / n % 0x100 * n + i % n
  {
    var q := i / n;
    var r := q % 0x100 * n + i % n;
    MulOrder(q % 0x100, 0xff, n);
    calc {
      i;
      q * n + i % n;
      (q / 0x100 * 0x100 + q % 0x100) * n + i % n;
      q / 0x100 * (n * 0x100) + r;
    }
    QuotientBounds(q, 0x100);
    QuotientBounds(q % 0x100 * n, n);
    DivideUnique(i, n * 0x100, q / 0x100, r);
  }

  /** A text form of byte strings, such as base64. */
  datatype TextCodec = TextCodec(encode: Bytes -> string, decode: string -> Option<Bytes>)

  ghost predicate Lossless(codec: TextCodec) {
    forall bytes :: codec.decode(codec.encode(bytes)) == Some(bytes)
  }
}
