/**
 Key derivation from a password (section 5.2 of RFC 8018) over any pseudorandom function of fixed output
 length. The loops fill one buffer: each block is appended to it and the later hashes are xored into the
 window of the buffer that holds the block.
 */
module Pbkdf2 {
  import opened Wrappers
  import opened Arithmetic
  import opened ByteStrings

  datatype Prf = Prf(apply: (Bytes, Bytes) -> Bytes, size: nat)

  /** What the hash promises: every output has the announced length. */
  ghost predicate FixedLength(prf: Prf) {
    0 < prf.size && forall key, text :: |prf.apply(key, text)| == prf.size
  }

  // ---- The standard --------------------------------------------------------------------------------

  /** U_j of block `i`. */
  ghost function Hash(prf: Prf, password: Bytes, salt: Bytes, i: nat, j: nat): (s: Bytes)
    requires FixedLength(prf) && 1 <= j
    ensures |s| == prf.size
  {
    if j == 1 then prf.apply(password, salt + Octets(i))
    else prf.apply(password, Hash(prf, password, salt, i, j - 1))
  }

  /** T_i, the xor of U_1 to U_c. With no iteration asked for, one is made. */
  ghost function Block(prf: Prf, password: Bytes, salt: Bytes, c: int, i: nat): (s: Bytes)
    requires FixedLength(prf)
    ensures |s| == prf.size
    decreases c
  {
    if c <= 1 then Hash(prf, password, salt, i, 1)
    else Xor(Block(prf, password, salt, c - 1, i), Hash(prf, password, salt, i, c))
  }

  /** T_1 || ... || T_n. */
  ghost function Blocks(prf: Prf, password: Bytes, salt: Bytes, c: int, n: nat): (s: Bytes)
    requires FixedLength(prf)
    ensures |s| == n * prf.size
  {
    if n == 0 then [] else Blocks(prf, password, salt, c, n - 1) + Block(prf, password, salt, c, n)
  }

  /** The number of blocks that hold `keyLen` bytes. */
  function BlockCount(keyLen: nat, size: nat): (n: nat)
    requires 0 < size
    ensures keyLen <= n * size < keyLen + size
  {
    QuotientBounds(keyLen + size - 1, size);
    (keyLen + size - 1) / size
  }

  /** The derived key: the first `keyLen` bytes of all blocks. */
  ghost function DerivedKey(prf: Prf, password: Bytes, salt: Bytes, c: int, keyLen: nat): (s: Bytes)
    requires FixedLength(prf)
    ensures |s| == keyLen
  {
    Blocks(prf, password, salt, c, BlockCount(keyLen, prf.size))[..keyLen]
  }

  // ---- The hash object -----------------------------------------------------------------------------

  /** A keyed hash that is fed in pieces. */
  class Mac {
    const prf: Prf
    const key: Bytes
    var written: Bytes

    constructor (prf: Prf, key: Bytes)
      ensures this.prf == prf && this.key == key && written == []
    {
      this.prf, this.key, written := prf, key, [];
    }

    method Reset()
      modifies this
      ensures written == []
    {
      written := [];
    }

    method Write(text: Bytes)
      modifies this
      ensures written == old(written) + text
    {
      written := written + text;
    }

    /** Appends the hash of what was written to the first `length` bytes of a buffer. */
    method Sum(buffer: array<bv8>, length: nat)
      requires FixedLength(prf) && length + prf.size <= buffer.Length
      modifies buffer
      ensures buffer[..length] == old(buffer[..length])
      ensures buffer[length..length + prf.size] == prf.apply(key, written)
    {
      var sum := prf.apply(key, written);
      forall x | 0 <= x < prf.size { buffer[length + x] := sum[x]; }
    }
  }

  /** Xors `u` into the last `u.Length` of the first `length` bytes of `buffer`. */
  method XorInto(buffer: array<bv8>, length: nat, u: array<bv8>)
    requires buffer != u && u.Length <= length <= buffer.Length
    modifies buffer
    ensures buffer[..length - u.Length] == old(buffer[..length - u.Length])
    ensures buffer[length - u.Length..length] == Xor(old(buffer[length - u.Length..length]), u[..])
  {
    var start := length - u.Length;
    ghost var target := Xor(buffer[start..length], u[..]);
    ghost var before := buffer[..];
    for x := 0 to u.Length
      invariant forall y | 0 <= y < start :: buffer[y] == before[y]
      invariant forall y | start + x <= y < length :: buffer[y] == before[y]
      invariant forall y | start <= y < start + x :: buffer[y] == target[y - start]
    {
      assert target[x] == buffer[start + x] ^ u[x];
      buffer[start + x] := buffer[start + x] ^ u[x];
    }
  }

  method PutOctets(buf: array<bv8>, i: nat)
    requires buf.Length == 4
    modifies buf
    ensures buf[..] == Octets(i)
  {
    buf[0] := ToByte(i / 0x100_0000 % 0x100);
    buf[1] := ToByte(i / 0x1_0000 % 0x100);
    buf[2] := ToByte(i / 0x100 % 0x100);
    buf[3] := ToByte(i % 0x100);
  }

  /** Appends the first hash of a block. */
  method StartBlock(mac: Mac, salt: Bytes, block: nat, buf: array<bv8>, dk: array<bv8>, length: nat)
    requires FixedLength(mac.prf) && buf.Length == 4 && length + mac.prf.size <= dk.Length && dk != buf
    modifies mac, buf, dk
    ensures dk[..length] == old(dk[..length])
    ensures dk[length..length + mac.prf.size] == Hash(mac.prf, mac.key, salt, block, 1)
  {
    hide FixedLength, Octets;
    mac.Reset();
    mac.Write(salt);
    PutOctets(buf, block);
    mac.Write(buf[..]);
    assert mac.written == salt + Octets(block);
    mac.Sum(dk, length);
  }

  /** Replaces a hash by the hash of it. */
  method NextHash(mac: Mac, u: array<bv8>)
    requires FixedLength(mac.prf) && u.Length == mac.prf.size
    modifies mac, u
    ensures u[..] == mac.prf.apply(mac.key, old(u[..]))
  {
    hide FixedLength;
    mac.Reset();
    mac.Write(u[..]);
    assert mac.written == u[..];
    mac.Sum(u, 0);
    assert u[..] == u[0..0 + mac.prf.size];
  }

  /** Appends one block: its first hash, then the later ones xored in. */
  method AppendBlock(mac: Mac, salt: Bytes, iter: int, block: nat, buf: array<bv8>, u: array<bv8>, dk: array<bv8>,
                     length: nat)
    requires FixedLength(mac.prf) && buf.Length == 4 && u.Length == mac.prf.size
    requires length + mac.prf.size <= dk.Length && buf != u && u != dk && dk != buf
    modifies mac, buf, u, dk
    ensures dk[..length] == old(dk[..length])
    ensures dk[length..length + mac.prf.size] == Block(mac.prf, mac.key, salt, iter, block)
  {
    hide FixedLength, Octets, Xor;
    var size := mac.prf.size;
    ghost var prf, password := mac.prf, mac.key;
    StartBlock(mac, salt, block, buf, dk, length);
    var end := length + size;
    forall x | 0 <= x < size { u[x] := dk[end - size + x]; }
    assert u[..] == dk[length..end];

    var n := 2;
    while n <= iter
      invariant 2 <= n && (n <= iter + 1 || n == 2)
      invariant dk[..length] == old(dk[..length])
      invariant u[..] == Hash(prf, password, salt, block, n - 1)
      invariant dk[length..end] == Block(prf, password, salt, n - 1, block)
    {
      NextHash(mac, u);
      XorInto(dk, end, u);
      n := n + 1;
    }
  }

  lemma PositiveSize(prf: Prf)
    requires FixedLength(prf)
    ensures 0 < prf.size
  {
  }

  method DeriveKey(prf: Prf, password: Bytes, salt: Bytes, iter: int, keyLen: nat) returns (key: Bytes)
    requires FixedLength(prf)
    ensures key == DerivedKey(prf, password, salt, iter, keyLen)
  {
    hide Block, FixedLength;
    var mac := new Mac(prf, password);
    var size := prf.size;
    PositiveSize(prf);
    var numBlocks := BlockCount(keyLen, size);
    var buf := new bv8[4];
    var dk := new bv8[numBlocks * size];
    var u := new bv8[size];
    var length := 0;
    for block := 1 to numBlocks + 1
      invariant length == (block - 1) * size
      invariant dk[..length] == Blocks(prf, password, salt, iter, block - 1)
    {
      MulOrder(block, numBlocks, size);
      AppendBlock(mac, salt, iter, block, buf, u, dk, length);
      assert dk[..length + size] == dk[..length] + dk[length..length + size];
      length := length + size;
    }
    assert dk[..] == dk[..length];
    key := dk[..keyLen];
  }

  // ---- What the derived key is ---------------------------------------------------------------------

  /** The octets of two block numbers agree exactly when the numbers agree modulo 2^32: the hashes of one key
      start from different texts as long as there are fewer than 2^32 blocks, the most the standard allows. */
  lemma BlockNumbersDistinct(i: nat, j: nat)
    ensures Octets(i) == Octets(j) <==> i % 0x1_0000_0000 == j % 0x1_0000_0000
  {
    var s, t := Octets(i), Octets(j);
    assert s == t <==> s[0] == t[0] && s[1] == t[1] && s[2] == t[2] && s[3] == t[3];
    LowerDigits(i, j, 0x100);
    LowerDigits(i, j, 0x1_0000);
    LowerDigits(i, j, 0x100_0000);
  }

  /** Byte `k` of the endless row of blocks. */
  ghost function KeyByte(prf: Prf, password: Bytes, salt: Bytes, c: int, k: nat): bv8
    requires FixedLength(prf)
  {
    QuotientBounds(k, prf.size);
    Block(prf, password, salt, c, k / prf.size + 1)[k % prf.size]
  }

  lemma {:induction false} BlocksAt(prf: Prf, password: Bytes, salt: Bytes, c: int, n: nat, k: nat)
    requires FixedLength(prf) && k < n * prf.size
    ensures Blocks(prf, password, salt, c, n)[k] == KeyByte(prf, password, salt, c, k)
  {
    hide FixedLength, Block;
    var size := prf.size;
    var before := (n - 1) * size;
    if k < before {
      BlocksAt(prf, password, salt, c, n - 1, k);
    } else {
      DivideUnique(k, size, n - 1, k - before);
    }
  }

  /** Every byte of the key, whatever its length, is a byte of the block that covers its place. */
  lemma DerivedByte(prf: Prf, password: Bytes, salt: Bytes, c: int, keyLen: nat, k: nat)
    requires FixedLength(prf) && k < keyLen
    ensures DerivedKey(prf, password, salt, c, keyLen)[k] == KeyByte(prf, password, salt, c, k)
  {
    BlocksAt(prf, password, salt, c, BlockCount(keyLen, prf.size), k);
  }

  /** A shorter key is a prefix of a longer one. */
  lemma ShorterIsPrefix(prf: Prf, password: Bytes, salt: Bytes, c: int, short: nat, long: nat)
    requires FixedLength(prf) && short <= long
    ensures DerivedKey(prf, password, salt, c, short) == DerivedKey(prf, password, salt, c, long)[..short]
  {
    hide DerivedKey;
    var a, b := DerivedKey(prf, password, salt, c, short), DerivedKey(prf, password, salt, c, long);
    forall k | 0 <= k < short ensures a[k] == b[k] {
      DerivedByte(prf, password, salt, c, short, k);
      DerivedByte(prf, password, salt, c, long, k);
    }
  }

  // ---- The standard's words ------------------------------------------------------------------------

  function XorColumn(us: seq<Bytes>, x: nat): bv8
    requires forall u | u in us :: x < |u|
  {
    if us == [] then 0 else XorColumn(us[..|us| - 1], x) ^ us[|us| - 1][x]
  }

  /** `us` are the hashes of a block: the first is that of the salt and the block number in four octets, each
      later one that of the hash before. */
  ghost predicate HashChain(prf: Prf, password: Bytes, salt: Bytes, i: nat, us: seq<Bytes>) {
    && us != []
    && (exists o: Bytes :: |o| == 4 && BigEndian(o) == i % 0x1_0000_0000 && us[0] == prf.apply(password, salt + o))
    && (forall j | 0 < j < |us| :: us[j] == prf.apply(password, us[j - 1]))
  }

  /** Every byte of a block is the xor of the bytes in its place of as many chained hashes as iterations were
      asked for, and of one hash if none was. */
  lemma {:induction false} BlockIsXorOfChain(prf: Prf, password: Bytes, salt: Bytes, c: int, i: nat)
    returns (us: seq<Bytes>)
    requires FixedLength(prf)
    ensures |us| == (if c < 1 then 1 else c) && HashChain(prf, password, salt, i, us)
    ensures us[|us| - 1] == Hash(prf, password, salt, i, |us|)
    ensures forall u | u in us :: |u| == prf.size
    ensures forall x | 0 <= x < prf.size :: Block(prf, password, salt, c, i)[x] == XorColumn(us, x)
    decreases c
  {
    hide FixedLength, Octets;
    if c <= 1 {
      OctetsAreBigEndian(i);
      us := [Hash(prf, password, salt, i, 1)];
      assert us[0] == prf.apply(password, salt + Octets(i));
      forall x | 0 <= x < prf.size ensures XorColumn(us, x) == us[0][x] {
        OneHash(us, x);
      }
    } else {
      var before := BlockIsXorOfChain(prf, password, salt, c - 1, i);
      us := before + [Hash(prf, password, salt, i, c)];
      assert us[..|us| - 1] == before;
    }
  }

  lemma OneHash(us: seq<Bytes>, x: nat)
    requires |us| == 1 && x < |us[0]|
    ensures XorColumn(us, x) == us[0][x]
  {
    assert us[..0] == [];
    ZeroXor(us[0][x]);
  }

  lemma ZeroXor(b: bv8)
    ensures 0 ^ b == b
  {
  }

  // ---- Stored passwords ----------------------------------------------------------------------------

  method GeneratePassword(codec: TextCodec, prf: Prf, password: Bytes, salt: Bytes, iter: int, keyLen: nat)
    returns (encrypted: string, saltText: string)
    requires FixedLength(prf)
    ensures encrypted == codec.encode(DerivedKey(prf, password, salt, iter, keyLen)) && saltText == codec.encode(salt)
  {
    var key := DeriveKey(prf, password, salt, iter, keyLen);
    encrypted, saltText := codec.encode(key), codec.encode(salt);
  }

  /** Accepts when both texts decode and the key derived with the decoded salt is the decoded one. */
  ghost predicate Accepts(codec: TextCodec, prf: Prf, password: Bytes, saltText: string, encrypted: string,
                          iter: int, keyLen: nat)
    requires FixedLength(prf)
  {
    && codec.decode(saltText).Some?
    && codec.decode(encrypted) == Some(DerivedKey(prf, password, codec.decode(saltText).value, iter, keyLen))
  }

  method ComparePassword(codec: TextCodec, prf: Prf, password: Bytes, saltText: string, encrypted: string, iter: int,
                         keyLen: nat)
    returns (ok: bool)
    requires FixedLength(prf)
    ensures ok == Accepts(codec, prf, password, saltText, encrypted, iter, keyLen)
    ensures ok <==> exists salt, key :: codec.decode(saltText) == Some(salt) && codec.decode(encrypted) == Some(key)
                                        && key == DerivedKey(prf, password, salt, iter, keyLen)
  {
    var stored := codec.decode(encrypted);
    if stored.None? { return false; }
    var salt := codec.decode(saltText);
    if salt.None? { return false; }
    var key := DeriveKey(prf, password, salt.value, iter, keyLen);
    ok := stored.value == key;
  }

  /** A stored password is accepted for another exactly when both derive the same key; the length asked for
      must be the stored one. */
  lemma StoredAccepts(codec: TextCodec, prf: Prf, password: Bytes, tried: Bytes, salt: Bytes, iter: int, keyLen: nat,
                      askedLen: nat)
    requires FixedLength(prf) && Lossless(codec)
    ensures var key := DerivedKey(prf, password, salt, iter, keyLen);
            var triedKey := DerivedKey(prf, tried, salt, iter, keyLen);
            Accepts(codec, prf, tried, codec.encode(salt), codec.encode(key), iter, askedLen)
            <==> askedLen == keyLen && triedKey == key
  {
    hide DerivedKey;
  }
}
