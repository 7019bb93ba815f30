/**
 Messages sealed by a block cipher in cipher block chaining mode (section 6.2 of NIST SP 800-38A), padded
 as in section 6.3 of RFC 5652 and preceded by the initialization vector; and messages sealed with a work
 key that is itself sealed with the root key. The block cipher is any family of permutations of 16-byte
 blocks.
 */
module AesEnvelope {
  import opened Wrappers
  import opened ByteStrings
  import opened Pbkdf2

  const BLOCK := 16
  const ROOT_ITERATIONS := 5000

  datatype Cipher = Cipher(encrypt: (Bytes, Bytes) -> Bytes, decrypt: (Bytes, Bytes) -> Bytes)

  /** Under every key, a permutation of the blocks and its inverse. */
  ghost predicate Permutes(c: Cipher) {
    && (forall key, b | |b| == BLOCK :: |c.encrypt(key, b)| == BLOCK && c.decrypt(key, c.encrypt(key, b)) == b)
    && (forall key, b | |b| == BLOCK :: |c.decrypt(key, b)| == BLOCK && c.encrypt(key, c.decrypt(key, b)) == b)
  }

  ghost predicate Blockwise(s: Bytes) {
    |s| % BLOCK == 0
  }

  // ---- Cipher block chaining -----------------------------------------------------------------------

  function Chain(c: Cipher, key: Bytes, iv: Bytes, s: Bytes): (r: Bytes)
    requires Permutes(c) && |iv| == BLOCK && Blockwise(s)
    ensures |r| == |s|
    decreases |s|
  {
    if s == [] then []
    else
      var b := c.encrypt(key, Xor(s[..BLOCK], iv));
      b + Chain(c, key, b, s[BLOCK..])
  }

  function Unchain(c: Cipher, key: Bytes, iv: Bytes, s: Bytes): (r: Bytes)
    requires Permutes(c) && |iv| == BLOCK && Blockwise(s)
    ensures |r| == |s|
    decreases |s|
  {
    if s == [] then []
    else Xor(c.decrypt(key, s[..BLOCK]), iv) + Unchain(c, key, s[..BLOCK], s[BLOCK..])
  }

  lemma {:induction false} UnchainChain(c: Cipher, key: Bytes, iv: Bytes, s: Bytes)
    requires Permutes(c) && |iv| == BLOCK && Blockwise(s)
    ensures Unchain(c, key, iv, Chain(c, key, iv, s)) == s
    decreases |s|
  {
    hide Xor;
    if s != [] {
      var b := c.encrypt(key, Xor(s[..BLOCK], iv));
      var rest := Chain(c, key, b, s[BLOCK..]);
      assert (b + rest)[..BLOCK] == b && (b + rest)[BLOCK..] == rest;
      XorTwice(s[..BLOCK], iv);
      UnchainChain(c, key, b, s[BLOCK..]);
      assert s == s[..BLOCK] + s[BLOCK..];
    }
  }

  lemma {:induction false} ChainUnchain(c: Cipher, key: Bytes, iv: Bytes, s: Bytes)
    requires Permutes(c) && |iv| == BLOCK && Blockwise(s)
    ensures Chain(c, key, iv, Unchain(c, key, iv, s)) == s
    decreases |s|
  {
    hide Xor;
    if s != [] {
      var b := s[..BLOCK];
      var p := c.decrypt(key, b);
      var rest := Unchain(c, key, b, s[BLOCK..]);
      assert (Xor(p, iv) + rest)[..BLOCK] == Xor(p, iv) && (Xor(p, iv) + rest)[BLOCK..] == rest;
      XorTwice(p, iv);
      ChainUnchain(c, key, b, s[BLOCK..]);
      assert s == b + s[BLOCK..];
    }
  }

  /** Block `j` of a byte string. */
  function BlockAt(s: Bytes, j: nat): (b: Bytes)
    requires (j + 1) * BLOCK <= |s|
    ensures |b| == BLOCK
  {
    s[j * BLOCK..(j + 1) * BLOCK]
  }

  lemma BlockOfRest(b: Bytes, rest: Bytes, j: nat)
    requires |b| == BLOCK && (j + 1) * BLOCK <= BLOCK + |rest|
    ensures BlockAt(b + rest, j) == if j == 0 then b else BlockAt(rest, j - 1)
  {
  }

  /** What the standard says of each block, C_j = E(P_j xor C_(j-1)), with the vector before the first. */
  lemma {:induction false} ChainedBlock(c: Cipher, key: Bytes, iv: Bytes, s: Bytes, j: nat)
    requires Permutes(c) && |iv| == BLOCK && Blockwise(s) && (j + 1) * BLOCK <= |s|
    ensures var r := Chain(c, key, iv, s);
            BlockAt(r, j) == c.encrypt(key, Xor(BlockAt(s, j), if j == 0 then iv else BlockAt(r, j - 1)))
    decreases j
  {
    hide Xor;
    var b := c.encrypt(key, Xor(s[..BLOCK], iv));
    var rest := Chain(c, key, b, s[BLOCK..]);
    var r := b + rest;
    assert s == s[..BLOCK] + s[BLOCK..];
    BlockOfRest(s[..BLOCK], s[BLOCK..], j);
    BlockOfRest(b, rest, j);
    if 0 < j {
      ChainedBlock(c, key, b, s[BLOCK..], j - 1);
      BlockOfRest(b, rest, j - 1);
    }
  }

  /** Each block decrypts from itself and the one before it alone: P_j = D(C_j) xor C_(j-1). */
  lemma {:induction false} UnchainedBlock(c: Cipher, key: Bytes, iv: Bytes, s: Bytes, j: nat)
    requires Permutes(c) && |iv| == BLOCK && Blockwise(s) && (j + 1) * BLOCK <= |s|
    ensures BlockAt(Unchain(c, key, iv, s), j)
         == Xor(c.decrypt(key, BlockAt(s, j)), if j == 0 then iv else BlockAt(s, j - 1))
    decreases j
  {
    hide Xor;
    var b := s[..BLOCK];
    var first := Xor(c.decrypt(key, b), iv);
    var rest := Unchain(c, key, b, s[BLOCK..]);
    assert s == b + s[BLOCK..];
    BlockOfRest(b, s[BLOCK..], j);
    BlockOfRest(first, rest, j);
    if 0 < j {
      UnchainedBlock(c, key, b, s[BLOCK..], j - 1);
      BlockOfRest(b, s[BLOCK..], j - 1);
    }
  }

  // ---- Padding -------------------------------------------------------------------------------------

  function PadLength(n: nat): (p: nat)
    ensures 1 <= p <= BLOCK && (n + p) % BLOCK == 0
  {
    BLOCK - n % BLOCK
  }

  function Repeated(b: bv8, n: nat): (s: Bytes)
    ensures |s| == n && forall k | 0 <= k < n :: s[k] == b
  {
    seq(n, _ => b)
  }

  function Padding(n: nat): (s: Bytes)
    requires n <= 0xff
  {
    Repeated(n as bv8, n)
  }

  function Padded(s: Bytes): (r: Bytes)
    ensures |r| == |s| + PadLength(|s|)
  {
    s + Padding(PadLength(|s|))
  }

  // ---- Sealed messages -----------------------------------------------------------------------------

  datatype Error = RandomSource | TextSize | WrongPadding | InvalidKey | Text | KeyPanic

  /** The sealed form of a message. */
  ghost function Sealed(c: Cipher, key: Bytes, iv: Bytes, plain: Bytes): (r: Bytes)
    requires Permutes(c) && |iv| == BLOCK
  {
    iv + Chain(c, key, iv, Padded(plain))
  }

  ghost predicate SizeFits(src: Bytes) {
    2 * BLOCK <= |src| && Blockwise(src)
  }

  /** The text under the seal, padding and all. */
  ghost function Inner(c: Cipher, key: Bytes, src: Bytes): (text: Bytes)
    requires Permutes(c) && SizeFits(src)
    ensures |text| == |src| - BLOCK && Blockwise(text)
  {
    Unchain(c, key, src[..BLOCK], src[BLOCK..])
  }

  /** What opening a message gives: only the last byte of the padding is looked at. */
  ghost function Opened(c: Cipher, key: Bytes, src: Bytes): Result<Bytes, Error>
    requires Permutes(c)
  {
    if !SizeFits(src) then Err(TextSize)
    else
      var text := Inner(c, key, src);
      var n := text[|text| - 1] as nat;
      if BLOCK < n then Err(WrongPadding) else Ok(text[..|text| - n])
  }

  /** Ends in n bytes of value n, for n from 1 to 16, as the standard wants it. */
  ghost predicate WellPadded(text: Bytes) {
    && text != []
    && var n := text[|text| - 1] as nat;
       1 <= n <= BLOCK && n <= |text| && text[|text| - n..] == Padding(n)
  }

  lemma SealedLength(c: Cipher, key: Bytes, iv: Bytes, plain: Bytes)
    requires Permutes(c) && |iv| == BLOCK
    ensures |Sealed(c, key, iv, plain)| == BLOCK * (|plain| / BLOCK + 2) && SizeFits(Sealed(c, key, iv, plain))
  {
  }

  lemma InnerSealed(c: Cipher, key: Bytes, iv: Bytes, plain: Bytes)
    requires Permutes(c) && |iv| == BLOCK
    ensures SizeFits(Sealed(c, key, iv, plain)) && Inner(c, key, Sealed(c, key, iv, plain)) == Padded(plain)
    ensures Sealed(c, key, iv, plain)[..BLOCK] == iv
  {
    hide Permutes, Padded, Chain, Unchain;
    SealedLength(c, key, iv, plain);
    var body := Chain(c, key, iv, Padded(plain));
    assert (iv + body)[..BLOCK] == iv && (iv + body)[BLOCK..] == body;
    UnchainChain(c, key, iv, Padded(plain));
  }

  lemma PaddedEnds(plain: Bytes)
    ensures var text, n := Padded(plain), PadLength(|plain|);
            text[|text| - 1] as nat == n && text[..|text| - n] == plain && text[|text| - n..] == Padding(n)
  {
    var n := PadLength(|plain|);
    assert (n as bv8) as nat == n;
  }

  /** Opening a sealed message gives it back, whatever the vector. */
  lemma RoundTrip(c: Cipher, key: Bytes, iv: Bytes, plain: Bytes)
    requires Permutes(c) && |iv| == BLOCK
    ensures Opened(c, key, Sealed(c, key, iv, plain)) == Ok(plain)
  {
    hide Permutes, Padded, Sealed, Inner;
    InnerSealed(c, key, iv, plain);
    PaddedEnds(plain);
  }

  lemma WellPaddedIsPadded(text: Bytes)
    requires Blockwise(text)
    ensures WellPadded(text) <==> exists plain :: text == Padded(plain)
    ensures WellPadded(text) ==> text == Padded(text[..|text| - text[|text| - 1] as nat])
  {
    hide Padding;
    if WellPadded(text) {
      var n := text[|text| - 1] as nat;
      var plain := text[..|text| - n];
      assert PadLength(|plain|) == n;
      assert text == plain + text[|text| - n..] == Padded(plain);
    }
    if plain :| text == Padded(plain) {
      PaddedEnds(plain);
      assert WellPadded(text);
    }
  }

  /** A byte string is a sealed message exactly when its size fits and its text is well padded; it is then
      the sealed form of what opening it gives, under its own vector. */
  lemma GenuineIff(c: Cipher, key: Bytes, src: Bytes)
    requires Permutes(c)
    ensures (exists iv, plain | |iv| == BLOCK :: src == Sealed(c, key, iv, plain))
            <==> SizeFits(src) && WellPadded(Inner(c, key, src))
    ensures SizeFits(src) && WellPadded(Inner(c, key, src))
            ==> Opened(c, key, src).Ok? && src == Sealed(c, key, src[..BLOCK], Opened(c, key, src).value)
  {
    hide Permutes, Padded, Chain, Unchain, WellPadded;
    if iv, plain :| |iv| == BLOCK && src == Sealed(c, key, iv, plain) {
      InnerSealed(c, key, iv, plain);
      WellPaddedIsPadded(Padded(plain));
    }
    if SizeFits(src) && WellPadded(Inner(c, key, src)) {
      GenuineReseals(c, key, src);
    }
  }

  lemma GenuineReseals(c: Cipher, key: Bytes, src: Bytes)
    requires Permutes(c) && SizeFits(src) && WellPadded(Inner(c, key, src))
    ensures Opened(c, key, src).Ok? && src == Sealed(c, key, src[..BLOCK], Opened(c, key, src).value)
  {
    hide Permutes, Padded, Chain, Unchain;
    var text := Inner(c, key, src);
    WellPaddedIsPadded(text);
    ChainUnchain(c, key, src[..BLOCK], src[BLOCK..]);
    assert src == src[..BLOCK] + src[BLOCK..];
  }

  /** Every byte of the padding is its length. */
  lemma PaddingBytes(plain: Bytes, k: nat)
    requires k < |Padded(plain)|
    ensures k < |plain| ==> Padded(plain)[k] == plain[k]
    ensures |plain| <= k ==> Padded(plain)[k] as nat == |Padded(plain)| - |plain|
    ensures 1 <= |Padded(plain)| - |plain| <= 16 && |Padded(plain)| % 16 == 0
  {
    var n := PadLength(|plain|);
    assert (n as bv8) as nat == n;
  }

  /** Whatever whole blocks are chained after a vector: if the last byte is at most 16 they open to all but that
      many bytes, and otherwise the padding is refused; no other length opens. */
  lemma OpensChained(c: Cipher, key: Bytes, iv: Bytes, text: Bytes)
    requires Permutes(c) && |iv| == BLOCK && Blockwise(text) && text != []
    ensures var n := text[|text| - 1] as nat;
            Opened(c, key, iv + Chain(c, key, iv, text)) ==
              if n <= 16 then Ok(text[..|text| - n]) else Err(WrongPadding)
  {
    hide Permutes, Chain, Unchain;
    var body := Chain(c, key, iv, text);
    var src := iv + body;
    assert src[..BLOCK] == iv && src[BLOCK..] == body;
    UnchainChain(c, key, iv, text);
  }

  lemma OpensWholeBlocksOnly(c: Cipher, key: Bytes, src: Bytes)
    requires Permutes(c)
    ensures Opened(c, key, src) == Err(TextSize) <==> |src| < 32 || |src| % 16 != 0
  {
    hide Unchain;
  }

  /** Opening accepts more: for every vector some byte string opens that no message seals to. */
  lemma AcceptsMoreThanSealed(c: Cipher, key: Bytes, iv: Bytes) returns (src: Bytes)
    requires Permutes(c) && |iv| == BLOCK
    ensures Opened(c, key, src) == Ok(Repeated(0, BLOCK)) && src[..BLOCK] == iv
    ensures forall v, plain | |v| == BLOCK :: src != Sealed(c, key, v, plain)
  {
    hide Permutes, Chain, Unchain, Sealed;
    var text := Repeated(0, BLOCK);
    var body := Chain(c, key, iv, text);
    src := iv + body;
    assert src[..BLOCK] == iv && src[BLOCK..] == body;
    UnchainChain(c, key, iv, text);
    assert Inner(c, key, src) == text && text[..BLOCK - 0] == text;
    assert text[BLOCK - 1] == 0 && (0 as bv8) as nat == 0;
    GenuineIff(c, key, src);
  }

  // ---- Keys ----------------------------------------------------------------------------------------

  /** The hash repeated over its own output and the round's number. */
  ghost function Stretched(mac: Prf, salt: Bytes, factor: Bytes, n: nat): Bytes {
    if n == 0 then factor else mac.apply(salt, Stretched(mac, salt, factor, n - 1) + Octets(n - 1))
  }

  /** One round of stretching: the hash of the one before and the number of the round in four octets. */
  ghost predicate Round(mac: Prf, salt: Bytes, before: Bytes, j: nat, after: Bytes) {
    exists o: Bytes :: |o| == 4 && BigEndian(o) == j && after == mac.apply(salt, before + o)
  }

  /** A key stretched over `n` rounds comes from a chain of them, with numbers counted from zero. */
  lemma {:induction false} KeyChain(mac: Prf, salt: Bytes, factor: Bytes, n: nat) returns (hashes: seq<Bytes>)
    requires n < 0x1_0000_0000
    ensures |hashes| == n + 1 && hashes[0] == factor && hashes[n] == Stretched(mac, salt, factor, n)
    ensures forall j: nat | j < n :: Round(mac, salt, hashes[j], j, hashes[j + 1])
  {
    hide Octets, BigEndian, Round;
    if n == 0 {
      hashes := [factor];
    } else {
      var before := KeyChain(mac, salt, factor, n - 1);
      hashes := before + [Stretched(mac, salt, factor, n)];
      LastRound(mac, salt, before[n - 1], n - 1, hashes[n]);
    }
  }

  lemma LastRound(mac: Prf, salt: Bytes, before: Bytes, j: nat, after: Bytes)
    requires j < 0x1_0000_0000 && after == mac.apply(salt, before + Octets(j))
    ensures Round(mac, salt, before, j, after)
  {
    hide Octets, BigEndian;
    OctetsAreBigEndian(j);
  }

  /** The cipher key is the first 16 bytes of a key; a shorter key stops the program. */
  function NormalKey(key: Bytes): Result<Bytes, Error> {
    if BLOCK <= |key| then Ok(key[..BLOCK]) else Err(KeyPanic)
  }

  datatype Envelope = Envelope(key: Bytes, text: Bytes)

  ghost function OpenedWithKey(c: Cipher, rootKey: Bytes, e: Envelope): Result<Bytes, Error>
    requires Permutes(c)
  {
    match Opened(c, rootKey, e.key)
    case Err(error) => Err(error)
    case Ok(key) =>
      match NormalKey(key)
      case Err(error) => Err(error)
      case Ok(workKey) => Opened(c, workKey, e.text)
  }

  /** With any work key of at least 16 bytes and any two vectors, opening the envelope gives the text. */
  lemma EnvelopeRoundTrip(c: Cipher, rootKey: Bytes, key: Bytes, plain: Bytes, iv: Bytes, iv': Bytes)
    requires Permutes(c) && |iv| == BLOCK && |iv'| == BLOCK && BLOCK <= |key|
    ensures OpenedWithKey(c, rootKey, Envelope(Sealed(c, rootKey, iv, key), Sealed(c, key[..BLOCK], iv', plain)))
            == Ok(plain)
  {
    hide Permutes, Sealed, Opened;
    RoundTrip(c, rootKey, iv, key);
    RoundTrip(c, key[..BLOCK], iv', plain);
  }

  /** Otherwise the key part decides first: its error is the result, and a key of 16 bytes or more opens the text
      by its first 16. */
  lemma OpensByKeyPart(c: Cipher, rootKey: Bytes, e: Envelope)
    requires Permutes(c)
    ensures var k := Opened(c, rootKey, e.key);
            && (k.Err? ==> OpenedWithKey(c, rootKey, e) == Err(k.error))
            && (k.Ok? && 16 <= |k.value| ==> OpenedWithKey(c, rootKey, e) == Opened(c, k.value[..16], e.text))
  {
    hide Permutes, Opened;
  }

  /** Opening an envelope stops the program exactly when its key part opens to fewer than 16 bytes, which
      no envelope that was sealed does. */
  lemma PanicsIff(c: Cipher, rootKey: Bytes, e: Envelope)
    requires Permutes(c)
    ensures OpenedWithKey(c, rootKey, e) == Err(KeyPanic)
            <==> Opened(c, rootKey, e.key).Ok? && |Opened(c, rootKey, e.key).value| < BLOCK
  {
  }

  ghost function OpenedTextWithKey(c: Cipher, codec: TextCodec, rootKey: Bytes, key: string, text: string)
    : Result<Bytes, Error>
    requires Permutes(c)
  {
    match (codec.decode(key), codec.decode(text))
    case (Some(k), Some(t)) => OpenedWithKey(c, rootKey, Envelope(k, t))
    case _ => Err(Text)
  }

  // ---- The operations ------------------------------------------------------------------------------

  /** The random source: 16 bytes, or a failure. */
  ghost predicate IsVector(random: Option<Bytes>) {
    random.Some? ==> |random.value| == BLOCK
  }

  class Crypto {
    var rootKey: Bytes

    constructor (mac: Prf, salt: Bytes, factor: Bytes)
      requires FixedLength(mac) && mac.size == 32
      ensures |rootKey| == 16 && rootKey == Stretched(mac, salt, factor, 5000)[..16]
    {
      var bytes := factor;
      for i := 0 to ROOT_ITERATIONS
        invariant bytes == Stretched(mac, salt, factor, i)
      {
        bytes := mac.apply(salt, bytes + Octets(i));
      }
      rootKey := bytes[..BLOCK];
    }

    method EncryptBlocks(c: Cipher, key: Bytes, random: Option<Bytes>, plain: Bytes) returns (r: Result<Bytes, Error>)
      requires Permutes(c) && IsVector(random)
      ensures r == if random.None? then Err(RandomSource) else Ok(Sealed(c, key, random.value, plain))
    {
      hide Permutes;
      var padLen := BLOCK - |plain| % BLOCK;
      var src := plain;
      for i := 0 to padLen
        invariant src == plain + Repeated(padLen as bv8, i)
      {
        src := src + [padLen as bv8];
      }
      assert src == Padded(plain);
      if random.None? { return Err(RandomSource); }
      var iv := random.value;
      var encryptText := new bv8[BLOCK + |src|];
      forall k | 0 <= k < BLOCK { encryptText[k] := iv[k]; }
      assert encryptText[..BLOCK] == iv;
      var chained := Chain(c, key, encryptText[..BLOCK], src);
      forall k | 0 <= k < |chained| { encryptText[BLOCK + k] := chained[k]; }
      assert encryptText[..] == iv + chained;
      r := Ok(encryptText[..]);
    }

    method DecryptBlocks(c: Cipher, key: Bytes, src: Bytes) returns (r: Result<Bytes, Error>)
      requires Permutes(c)
      ensures r == Opened(c, key, src)
    {
      hide Permutes;
      if |src| < 2 * BLOCK || |src| % BLOCK != 0 { return Err(TextSize); }
      var iv := src[..BLOCK];
      var srcLen := |src| - BLOCK;
      var decryptText := new bv8[srcLen];
      var unchained := Unchain(c, key, iv, src[BLOCK..]);
      forall k | 0 <= k < srcLen { decryptText[k] := unchained[k]; }
      assert decryptText[..] == unchained;
      var paddingLen := decryptText[srcLen - 1] as nat;
      if paddingLen > BLOCK { return Err(WrongPadding); }
      r := Ok(decryptText[..srcLen - paddingLen]);
    }

    method Encrypt(c: Cipher, random: Option<Bytes>, plain: Bytes) returns (r: Result<Bytes, Error>)
      requires Permutes(c) && IsVector(random)
      ensures r == if random.None? then Err(RandomSource) else Ok(Sealed(c, rootKey, random.value, plain))
    {
      r := EncryptBlocks(c, rootKey, random, plain);
    }

    method Decrypt(c: Cipher, src: Bytes) returns (r: Result<Bytes, Error>)
      requires Permutes(c)
      ensures r == Opened(c, rootKey, src)
    {
      r := DecryptBlocks(c, rootKey, src);
    }

    /** Seals the work key with the root key, then the text with the work key. */
    method EncryptWithKey(c: Cipher, random: Option<Bytes>, random': Option<Bytes>, key: Bytes, plain: Bytes)
      returns (r: Result<Envelope, Error>)
      requires Permutes(c) && IsVector(random) && IsVector(random')
      ensures r.Ok? <==> BLOCK <= |key| && random.Some? && random'.Some?
      ensures r.Ok? ==> OpenedWithKey(c, rootKey, r.value) == Ok(plain) && Opened(c, rootKey, r.value.key) == Ok(key)
      ensures r.Ok? ==>
                && r.value.key == Sealed(c, rootKey, random.value, key)
                && r.value.text == Sealed(c, key[..BLOCK], random'.value, plain)
      ensures r.Err? ==> r.error == if |key| < BLOCK then InvalidKey else RandomSource
    {
      hide Permutes, Sealed, Opened, OpenedWithKey;
      if |key| < BLOCK { return Err(InvalidKey); }
      var sealedKey := Encrypt(c, random, key);
      if sealedKey.Err? { return Err(sealedKey.error); }
      var workKey := NormalKey(key);
      var text := EncryptBlocks(c, workKey.value, random', plain);
      if text.Err? { return Err(text.error); }
      RoundTrip(c, rootKey, random.value, key);
      EnvelopeRoundTrip(c, rootKey, key, plain, random.value, random'.value);
      r := Ok(Envelope(sealedKey.value, text.value));
    }

    method DecryptWithKey(c: Cipher, e: Envelope) returns (r: Result<Bytes, Error>)
      requires Permutes(c)
      ensures r == OpenedWithKey(c, rootKey, e)
    {
      hide Permutes, Opened;
      var key := Decrypt(c, e.key);
      if key.Err? { return Err(key.error); }
      var workKey := NormalKey(key.value);
      if workKey.Err? { return Err(workKey.error); }
      r := DecryptBlocks(c, workKey.value, e.text);
    }

    /** The text forms of both parts go through the codec and back. */
    method EncryptTextWithKey(c: Cipher, codec: TextCodec, random: Option<Bytes>, random': Option<Bytes>, key: Bytes,
                              plain: Bytes)
      returns (r: Result<(string, string), Error>)
      requires Permutes(c) && Lossless(codec) && IsVector(random) && IsVector(random')
      ensures r.Ok? <==> BLOCK <= |key| && random.Some? && random'.Some?
      ensures r.Ok? ==> OpenedTextWithKey(c, codec, rootKey, r.value.0, r.value.1) == Ok(plain)
      ensures r.Err? ==> r.error == if |key| < BLOCK then InvalidKey else RandomSource
    {
      hide Permutes, OpenedWithKey;
      var e := EncryptWithKey(c, random, random', key, plain);
      if e.Err? { return Err(e.error); }
      r := Ok((codec.encode(e.value.key), codec.encode(e.value.text)));
    }

    method DecryptTextWithKey(c: Cipher, codec: TextCodec, key: string, text: string) returns (r: Result<Bytes, Error>)
      requires Permutes(c)
      ensures r == OpenedTextWithKey(c, codec, rootKey, key, text)
      ensures codec.decode(key).None? || codec.decode(text).None? ==> r == Err(Text)
      ensures codec.decode(key).Some? && codec.decode(text).Some? ==>
                r == OpenedWithKey(c, rootKey, Envelope(codec.decode(key).value, codec.decode(text).value))
    {
      hide Permutes, OpenedWithKey;
      var srcKey := codec.decode(key);
      if srcKey.None? { return Err(Text); }
      var srcText := codec.decode(text);
      if srcText.None? { return Err(Text); }
      r := DecryptWithKey(c, Envelope(srcKey.value, srcText.value));
    }
  }
}
