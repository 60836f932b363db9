/**
 * Cipher block chaining with the padding of section 5.2 of XML Encryption (xmlenc/cbc.go).
 * A Go slice is a sequence and a buffer that `make` returns is an array.
 */
module Cbc {
  import opened Powers
  import opened Wrappers

  type Byte = b: nat | b < 256
  type Bytes = seq<Byte>

  /** A keyed block cipher: how one block is sealed and opened. */
  datatype BlockCipher = BlockCipher(size: nat, seal: Bytes -> Bytes, open: Bytes -> Bytes)

  /** Blocks are not empty, keep their size, and `open` undoes `seal`. Nothing else is known of a cipher. */
  ghost predicate Permutes(c: BlockCipher) {
    && c.size > 0
    && (forall b: Bytes :: |b| == c.size ==> |c.seal(b)| == c.size && c.open(c.seal(b)) == b)
    && (forall b: Bytes :: |b| == c.size ==> |c.open(b)| == c.size)
  }

  /** What a caller may pass as a key: bytes, or a value of some other type. */
  datatype Key = KeyBytes(bytes: Bytes) | OtherKey

  datatype Error = IncorrectKeyType | IncorrectKeyLength | CipherFailed | RandomFailed
                 | CiphertextTooShort | NotWholeBlocks | BufferTooShort | NoPadding

  /** One registered algorithm: its key size and the constructor of its block cipher. */
  datatype Mode = Mode(keySize: nat, cipher: Bytes -> Option<BlockCipher>)

  ghost predicate GoodMode(m: Mode) {
    forall k: Bytes :: |k| == m.keySize && m.cipher(k).Some? ==> Permutes(m.cipher(k).value)
  }

  // ---- padding -----------------------------------------------------------------------------

  /** How many bytes `appendPadding` adds. */
  function PaddingBytes(length: nat, blockSize: nat): (n: nat)
    requires blockSize > 0
    ensures 1 <= n <= blockSize
  {
    blockSize - length % blockSize
  }

  /** The conversion `byte(n)`, which drops the high bits. */
  function ToByte(n: nat): Byte {
    n % 256
  }

  function Zeros(n: nat): (z: Bytes)
    ensures |z| == n
  {
    seq(n, _ => 0)
  }

  function Padded(buf: Bytes, blockSize: nat): Bytes
    requires blockSize > 0
  {
    var n := PaddingBytes(|buf|, blockSize);
    buf + Zeros(n - 1) + [ToByte(n)]
  }

  method AppendPadding(buf: Bytes, blockSize: nat) returns (out: Bytes)
    requires blockSize > 0
    ensures out == Padded(buf, blockSize)
    ensures buf <= out && |buf| < |out| <= |buf| + blockSize && |out| % blockSize == 0
    ensures forall i :: |buf| <= i < |out| - 1 ==> out[i] == 0
    ensures out[|out| - 1] == (|out| - |buf|) % 256
  {
    PaddedLength(buf, blockSize);
    var paddingBytes := blockSize - |buf| % blockSize;
    var padding := new Byte[paddingBytes](_ => 0);
    padding[padding.Length - 1] := ToByte(paddingBytes);
    out := buf + padding[..];
    assert padding[..] == Zeros(paddingBytes - 1) + [ToByte(paddingBytes)];
  }

  /** A padded buffer ends at the first block boundary strictly beyond the input. */
  lemma PaddedLength(buf: Bytes, blockSize: nat)
    requires blockSize > 0
    ensures |Padded(buf, blockSize)| % blockSize == 0
    ensures |buf| < |Padded(buf, blockSize)|
    ensures forall m: nat :: m % blockSize == 0 && |buf| < m ==> |Padded(buf, blockSize)| <= m
  {
    var size := |Padded(buf, blockSize)|;
    NextBoundary(|buf|, blockSize, size);
    forall m: nat | m % blockSize == 0 && |buf| < m
      ensures size <= m
    {
      BoundaryAfter(|buf|, blockSize, m);
    }
  }

  lemma NextBoundary(length: nat, n: nat, size: nat)
    requires n > 0 && size == length + PaddingBytes(length, n)
    ensures size % n == 0
  {
    var q := length / n;
    assert length == q * n + length % n;
    assert size == (q + 1) * n;
    Multiple(q + 1, n);
  }

  lemma BoundaryAfter(length: nat, n: nat, m: nat)
    requires n > 0 && m % n == 0 && length < m
    ensures length + PaddingBytes(length, n) <= m
  {
    var q, k := length / n, m / n;
    assert length == q * n + length % n;
    assert m == k * n;
    NextMultiple(q, k, n);
  }

  lemma Multiple(k: nat, n: nat)
    requires n > 0
    ensures k * n % n == 0
  {
    var x := k * n;
    var q, r := x / n, x % n;
    assert x == q * n + r && 0 <= r < n;
    assert (k - q) * n == r;
    Between(k - q, n);
  }

  /** The only multiple of n from 0 up to n is 0. */
  lemma Between(a: int, n: nat)
    requires n > 0
    ensures 0 <= a * n < n ==> a == 0
  {
    assert a >= 1 ==> (a - 1) * n >= 0;
    assert a <= -1 ==> (-1 - a) * n >= 0;
  }

  lemma NextMultiple(q: nat, k: nat, n: nat)
    requires n > 0 && q * n < k * n
    ensures (q + 1) * n <= k * n
  {
    assert k <= q ==> (q - k) * n >= 0;
    assert k > q ==> (k - q - 1) * n >= 0;
  }

  /**
   * `stripPadding` never reads outside the buffer, and accepts exactly the buffers whose last byte counts
   * between one byte and all bytes but one; it then removes as many bytes as that byte says.
   */
  function StripPadding(buf: Bytes): (r: Result<Bytes, Error>)
    ensures r.Ok? <==> |buf| > 0 && 1 <= buf[|buf| - 1] < |buf|
    ensures r.Ok? ==> 0 < |r.value| < |buf| && r.value <= buf && |buf| - |r.value| == buf[|buf| - 1]
    ensures r.Err? ==> r.error == (if |buf| > 0 && buf[|buf| - 1] == 0 then NoPadding else BufferTooShort)
  {
    if |buf| < 1 then
      Err(BufferTooShort)
    else
      var paddingBytes := buf[|buf| - 1];
      if paddingBytes > |buf| - 1 then
        Err(BufferTooShort)
      else if paddingBytes < 1 then
        Err(NoPadding)
      else
        Ok(buf[..|buf| - paddingBytes])
  }

  /** Padding comes off again exactly when the input was not empty and the count fits in a byte. */
  lemma PaddingRoundTrip(buf: Bytes, blockSize: nat)
    requires blockSize > 0
    ensures StripPadding(Padded(buf, blockSize)) == Ok(buf)
       <==> buf != [] && PaddingBytes(|buf|, blockSize) <= 255
  {
    var n := PaddingBytes(|buf|, blockSize);
    var padded := Padded(buf, blockSize);
    assert |padded| == |buf| + n && padded[|padded| - 1] == ToByte(n);
    assert padded[..|buf|] == buf;
  }

  // ---- chaining ----------------------------------------------------------------------------

  /** The exclusive or of two numbers, in their lowest `bits` bits. */
  function XorBits(a: nat, b: nat, bits: nat): (x: nat)
    ensures x < Power2(bits)
  {
    if bits == 0 then 0 else 2 * XorBits(a / 2, b / 2, bits - 1) + (a + b) % 2
  }

  lemma {:induction false} XorBitsTwice(a: nat, b: nat, bits: nat)
    requires a < Power2(bits)
    ensures XorBits(XorBits(a, b, bits), b, bits) == a
  {
    if bits > 0 {
      var x := XorBits(a, b, bits);
      Parity(XorBits(a / 2, b / 2, bits - 1), a, b, x);
      XorBitsTwice(a / 2, b / 2, bits - 1);
    }
  }

  lemma Parity(half: nat, a: nat, b: nat, x: nat)
    requires x == 2 * half + (a + b) % 2
    ensures x / 2 == half && (x + b) % 2 == a % 2
  {
  }

  /** Bit by bit: a bit is set if it is set in one of the two but not in both. */
  lemma {:induction false} XorBit(a: nat, b: nat, bits: nat, k: nat)
    requires k < bits
    ensures XorBits(a, b, bits) / Power2(k) % 2 == 1 <==> a / Power2(k) % 2 != b / Power2(k) % 2
  {
    if k == 0 {
      LowestBit(a, b, XorBits(a / 2, b / 2, bits - 1));
    } else {
      XorBit(a / 2, b / 2, bits - 1, k - 1);
      var x := XorBits(a, b, bits);
      Parity(XorBits(a / 2, b / 2, bits - 1), a, b, x);
      NextBit(a, k);
      NextBit(b, k);
      NextBit(x, k);
    }
  }

  lemma LowestBit(a: nat, b: nat, half: nat)
    ensures var x := 2 * half + (a + b) % 2;
            x / Power2(0) % 2 == 1 <==> a / Power2(0) % 2 != b / Power2(0) % 2
  {
    assert Power2(0) == 1;
  }

  lemma NextBit(x: nat, k: nat)
    requires k > 0
    ensures x / Power2(k) == x / 2 / Power2(k - 1)
  {
    var p := Power2(k - 1);
    var q := x / 2 / p;
    var r := x / 2 % p;
    assert x / 2 == q * p + r;
    assert x == q * (2 * p) + (2 * r + x % 2);
    QuotientIs(x, 2 * p, q, 2 * r + x % 2);
  }

  lemma QuotientIs(x: nat, p: nat, q: nat, r: nat)
    requires p > 0 && r < p && x == q * p + r
    ensures x / p == q
  {
    var d := x / p - q;
    assert d * p == r - x % p;
    Between(d, p);
    Between(-d, p);
  }

  function XorByte(a: Byte, b: Byte): Byte {
    assert Power2(8) == 256;
    XorBits(a, b, 8)
  }

  function Xor(a: Bytes, b: Bytes): (r: Bytes)
    requires |a| == |b|
    ensures |r| == |a|
  {
    seq(|a|, i requires 0 <= i < |a| => XorByte(a[i], b[i]))
  }

  lemma XorTwice(a: Bytes, b: Bytes)
    requires |a| == |b|
    ensures Xor(Xor(a, b), b) == a
  {
    forall i | 0 <= i < |a|
      ensures Xor(Xor(a, b), b)[i] == a[i]
    {
      assert Power2(8) == 256;
      XorBitsTwice(a[i], b[i], 8);
    }
  }

  /** Bytes are combined bit by bit. */
  lemma XorAt(a: Bytes, b: Bytes, j: nat, k: nat)
    requires |a| == |b| && j < |a| && k < 8
    ensures Xor(a, b)[j] / Power2(k) % 2 == 1 <==> a[j] / Power2(k) % 2 != b[j] / Power2(k) % 2
  {
    hide Power2;
    XorBit(a[j], b[j], 8, k);
  }

  predicate WholeBlocks(c: BlockCipher, s: Bytes) {
    c.size > 0 && |s| % c.size == 0
  }

  lemma DropBlock(c: BlockCipher, s: Bytes)
    requires WholeBlocks(c, s) && s != []
    ensures c.size <= |s| && WholeBlocks(c, s[c.size..])
  {
    assert |s| - c.size == (|s| / c.size - 1) * c.size;
    if |s| >= c.size {
      Multiple(|s| / c.size - 1, c.size);
    }
  }

  /** Each block is combined with the sealed block before it, the first one with the initialization vector. */
  ghost function Chain(c: BlockCipher, previous: Bytes, plaintext: Bytes): (sealed: Bytes)
    requires Permutes(c) && |previous| == c.size && WholeBlocks(c, plaintext)
    ensures |sealed| == |plaintext|
    decreases |plaintext|
  {
    if plaintext == [] then []
    else
      DropBlock(c, plaintext);
      var block := c.seal(Xor(plaintext[..c.size], previous));
      block + Chain(c, block, plaintext[c.size..])
  }

  ghost function Unchain(c: BlockCipher, previous: Bytes, ciphertext: Bytes): (plain: Bytes)
    requires Permutes(c) && |previous| == c.size && WholeBlocks(c, ciphertext)
    ensures |plain| == |ciphertext|
    decreases |ciphertext|
  {
    if ciphertext == [] then []
    else
      DropBlock(c, ciphertext);
      var block := ciphertext[..c.size];
      Xor(c.open(block), previous) + Unchain(c, block, ciphertext[c.size..])
  }

  lemma SealOpens(c: BlockCipher, b: Bytes)
    requires Permutes(c) && |b| == c.size
    ensures c.size > 0 && |c.seal(b)| == c.size && c.open(c.seal(b)) == b
  {
  }

  lemma {:induction false} UnchainChain(c: BlockCipher, previous: Bytes, plaintext: Bytes)
    requires Permutes(c) && |previous| == c.size && WholeBlocks(c, plaintext)
    ensures Unchain(c, previous, Chain(c, previous, plaintext)) == plaintext
    decreases |plaintext|
  {
    hide Permutes, Xor, WholeBlocks;
    if plaintext != [] {
      DropBlock(c, plaintext);
      var first, rest := plaintext[..c.size], plaintext[c.size..];
      var mixed := Xor(first, previous);
      SealOpens(c, mixed);
      var block := c.seal(mixed);
      var sealed := Chain(c, previous, plaintext);
      assert sealed[..c.size] == block && sealed[c.size..] == Chain(c, block, rest);
      XorTwice(first, previous);
      UnchainChain(c, block, rest);
      assert first + rest == plaintext;
    }
  }

  /** The block with the index i. */
  function Block(s: Bytes, size: nat, i: nat): (b: Bytes)
    requires (i + 1) * size <= |s|
    ensures |b| == size
  {
    InBlock(size, i);
    s[i * size..(i + 1) * size]
  }

  lemma InBlock(size: nat, i: nat)
    ensures 0 <= i * size && (i + 1) * size == i * size + size
  {
  }

  /** The first block, and the others as blocks of the rest. */
  lemma BlockOfRest(s: Bytes, size: nat, i: nat)
    requires (i + 1) * size <= |s|
    ensures size <= |s| && 1 * size <= |s| && Block(s, size, 0) == s[..size]
    ensures i > 0 ==> i * size <= |s[size..]| && Block(s[size..], size, i - 1) == Block(s, size, i)
    ensures i > 0 ==> i * size <= |s| && (i > 1 ==> Block(s[size..], size, i - 2) == Block(s, size, i - 1))
  {
    InBlock(size, i);
    FirstBlock(s, size);
    if i > 0 {
      InBlock(size, i - 1);
      NextBlock(s, size, i);
      if i > 1 {
        NextBlock(s, size, i - 1);
      }
    }
  }

  lemma FirstBlock(s: Bytes, size: nat)
    requires size <= |s|
    ensures 1 * size <= |s| && Block(s, size, 0) == s[..size]
  {
    assert 0 * size == 0;
  }

  lemma NextBlock(s: Bytes, size: nat, i: nat)
    requires i > 0 && (i + 1) * size <= |s|
    ensures size <= |s| && i * size <= |s[size..]| && Block(s[size..], size, i - 1) == Block(s, size, i)
  {
    InBlock(size, i);
    InBlock(size, i - 1);
    var before, at, next := (i - 1) * size, i * size, (i + 1) * size;
    SliceOfRest(s, size, before);
    assert at == before + size && next == at + size;
  }

  lemma SliceOfRest(s: Bytes, size: nat, k: nat)
    requires k + 2 * size <= |s|
    ensures s[size..][k..k + size] == s[k + size..k + 2 * size]
  {
  }

  /** What each sealed block is made of: its plain block and the sealed block before it, or the initialization vector. */
  lemma {:induction false} ChainAt(c: BlockCipher, previous: Bytes, plaintext: Bytes, i: nat)
    requires Permutes(c) && |previous| == c.size && WholeBlocks(c, plaintext) && (i + 1) * c.size <= |plaintext|
    ensures var sealed := Chain(c, previous, plaintext);
            && |sealed| == |plaintext| && (i > 0 ==> i * c.size <= |sealed|)
            && Block(sealed, c.size, i)
               == c.seal(Xor(Block(plaintext, c.size, i), if i == 0 then previous else Block(sealed, c.size, i - 1)))
    decreases i
  {
    hide Permutes, Xor, Block;
    BlockOfRest(plaintext, c.size, i);
    NotEmpty(c, plaintext, i);
    DropBlock(c, plaintext);
    var sealed := Chain(c, previous, plaintext);
    var first := plaintext[..c.size];
    SealOpens(c, Xor(first, previous));
    var block := c.seal(Xor(first, previous));
    assert sealed[..c.size] == block && sealed[c.size..] == Chain(c, block, plaintext[c.size..]);
    BlockOfRest(sealed, c.size, i);
    if i > 0 {
      ChainAt(c, block, plaintext[c.size..], i - 1);
    }
  }

  lemma NotEmpty(c: BlockCipher, s: Bytes, i: nat)
    requires Permutes(c) && (i + 1) * c.size <= |s|
    ensures s != []
  {
    InBlock(c.size, i);
  }

  /** What each opened block is: the opened cipher block, combined with the cipher block before it, or the
      initialization vector. */
  lemma {:induction false} UnchainAt(c: BlockCipher, previous: Bytes, ciphertext: Bytes, i: nat)
    requires Permutes(c) && |previous| == c.size && WholeBlocks(c, ciphertext) && (i + 1) * c.size <= |ciphertext|
    ensures var plain := Unchain(c, previous, ciphertext);
            && |plain| == |ciphertext| && (i > 0 ==> i * c.size <= |ciphertext|)
            && Block(plain, c.size, i)
               == Xor(c.open(Block(ciphertext, c.size, i)), if i == 0 then previous else Block(ciphertext, c.size, i - 1))
    decreases i
  {
    hide Permutes, Xor, Block;
    BlockOfRest(ciphertext, c.size, i);
    NotEmpty(c, ciphertext, i);
    DropBlock(c, ciphertext);
    var plain := Unchain(c, previous, ciphertext);
    var block := ciphertext[..c.size];
    Opens(c, block);
    assert plain[..c.size] == Xor(c.open(block), previous);
    assert plain[c.size..] == Unchain(c, block, ciphertext[c.size..]);
    BlockOfRest(plain, c.size, i);
    if i > 0 {
      UnchainAt(c, block, ciphertext[c.size..], i - 1);
    }
  }

  lemma Opens(c: BlockCipher, b: Bytes)
    requires Permutes(c) && |b| == c.size
    ensures |c.open(b)| == c.size
  {
  }

  /** A sealed block is made of its plain block and the sealed block before it, or the initialization vector. */
  predicate SealedAt(c: BlockCipher, iv: Bytes, plain: Bytes, sealed: Bytes, i: nat)
    requires |iv| == c.size && |sealed| == |plain|
  {
    (i + 1) * c.size <= |plain| ==>
      && (i > 0 ==> i * c.size <= |sealed|)
      && Block(sealed, c.size, i)
         == c.seal(Xor(Block(plain, c.size, i), if i == 0 then iv else Block(sealed, c.size, i - 1)))
  }

  ghost predicate Sealed(c: BlockCipher, iv: Bytes, plain: Bytes, sealed: Bytes)
    requires |iv| == c.size
  {
    |sealed| == |plain| && forall i: nat :: SealedAt(c, iv, plain, sealed, i)
  }

  /** A plain block is the opened sealed block, combined with the sealed block before it, or the initialization
      vector. */
  ghost predicate OpenedAt(c: BlockCipher, iv: Bytes, sealed: Bytes, plain: Bytes, i: nat)
    requires Permutes(c) && |iv| == c.size && |sealed| == |plain|
  {
    (i + 1) * c.size <= |sealed| ==>
      && (i > 0 ==> i * c.size <= |sealed|)
      && Block(plain, c.size, i)
         == Xor(c.open(Block(sealed, c.size, i)), if i == 0 then iv else Block(sealed, c.size, i - 1))
  }

  ghost predicate Opened(c: BlockCipher, iv: Bytes, sealed: Bytes, plain: Bytes)
    requires Permutes(c) && |iv| == c.size
  {
    |plain| == |sealed| && forall i: nat :: OpenedAt(c, iv, sealed, plain, i)
  }

  lemma ChainIsSealed(c: BlockCipher, iv: Bytes, plain: Bytes)
    requires Permutes(c) && |iv| == c.size && WholeBlocks(c, plain)
    ensures Sealed(c, iv, plain, Chain(c, iv, plain))
  {
    forall i: nat ensures SealedAt(c, iv, plain, Chain(c, iv, plain), i) {
      hide Chain, Xor, Block, Permutes;
      if (i + 1) * c.size <= |plain| {
        ChainAt(c, iv, plain, i);
      }
    }
  }

  lemma UnchainIsOpened(c: BlockCipher, iv: Bytes, sealed: Bytes)
    requires Permutes(c) && |iv| == c.size && WholeBlocks(c, sealed)
    ensures Opened(c, iv, sealed, Unchain(c, iv, sealed))
  {
    forall i: nat ensures OpenedAt(c, iv, sealed, Unchain(c, iv, sealed), i) {
      hide Unchain, Xor, Block, Permutes;
      if (i + 1) * c.size <= |sealed| {
        UnchainAt(c, iv, sealed, i);
      }
    }
  }

  // ---- whole messages ----------------------------------------------------------------------

  function CheckedCipher(m: Mode, key: Key): (r: Result<BlockCipher, Error>) {
    if key.OtherKey? then Err(IncorrectKeyType)
    else if |key.bytes| != m.keySize then Err(IncorrectKeyLength)
    else match m.cipher(key.bytes)
      case None => Err(CipherFailed)
      case Some(c) => Ok(c)
  }

  /** The bytes of `xenc:CipherValue`: the initialization vector, then the chained padded plaintext. */
  ghost function Encrypted(c: BlockCipher, plaintext: Bytes, iv: Bytes): (r: Bytes)
    requires Permutes(c) && |iv| == c.size
  {
    PaddedLength(plaintext, c.size);
    iv + Chain(c, iv, Padded(plaintext, c.size))
  }

  ghost function Decrypted(c: BlockCipher, ciphertext: Bytes): (r: Result<Bytes, Error>)
    requires Permutes(c)
  {
    if |ciphertext| < c.size then Err(CiphertextTooShort)
    else if |ciphertext| % c.size != 0 then Err(NotWholeBlocks)
    else
      DropFirst(c, ciphertext);
      StripPadding(Unchain(c, ciphertext[..c.size], ciphertext[c.size..]))
  }

  lemma DropFirst(c: BlockCipher, s: Bytes)
    requires WholeBlocks(c, s) && c.size <= |s|
    ensures WholeBlocks(c, s[c.size..])
  {
    DropBlock(c, s);
  }

  /**
   * For every block permutation, initialization vector and plaintext: decrypting what was encrypted gives the
   * plaintext back exactly when it is not empty and the padding count fits in a byte.
   */
  lemma RoundTrip(c: BlockCipher, plaintext: Bytes, iv: Bytes)
    requires Permutes(c) && |iv| == c.size
    ensures Decrypted(c, Encrypted(c, plaintext, iv)) == Ok(plaintext)
       <==> plaintext != [] && PaddingBytes(|plaintext|, c.size) <= 255
    ensures c.size <= 255 && plaintext == [] ==> Decrypted(c, Encrypted(c, plaintext, iv)) == Err(BufferTooShort)
  {
    assert c.size > 0;
    hide Permutes, StripPadding, PaddingBytes, ToByte, Zeros;
    PaddedLength(plaintext, c.size);
    var padded := Padded(plaintext, c.size);
    UnchainMessage(c, padded, iv);
    PaddingRoundTrip(plaintext, c.size);
    if c.size <= 255 && plaintext == [] {
      EmptyRejected(c.size);
    }
  }

  lemma UnchainMessage(c: BlockCipher, padded: Bytes, iv: Bytes)
    requires Permutes(c) && |iv| == c.size && WholeBlocks(c, padded)
    ensures Decrypted(c, iv + Chain(c, iv, padded)) == StripPadding(padded)
  {
    hide Permutes, StripPadding, Chain, Unchain;
    var message := iv + Chain(c, iv, padded);
    assert message[..c.size] == iv && message[c.size..] == Chain(c, iv, padded);
    WholeMessage(c, message, padded);
    UnchainChain(c, iv, padded);
  }

  lemma EmptyRejected(blockSize: nat)
    requires 0 < blockSize <= 255
    ensures StripPadding(Padded([], blockSize)) == Err(BufferTooShort)
  {
    hide StripPadding;
    var padded := Padded([], blockSize);
    assert |padded| == blockSize && padded[|padded| - 1] == ToByte(blockSize) == blockSize;
    CountsAll(padded);
  }

  lemma CountsAll(buf: Bytes)
    requires |buf| > 0 && buf[|buf| - 1] == |buf|
    ensures StripPadding(buf) == Err(BufferTooShort)
  {
  }

  lemma WholeMessage(c: BlockCipher, message: Bytes, padded: Bytes)
    requires WholeBlocks(c, padded) && |message| == c.size + |padded|
    ensures |message| % c.size == 0
  {
    var k := |padded| / c.size;
    assert |message| == (k + 1) * c.size;
    Multiple(k + 1, c.size);
  }

  /** With a block of 1 to 255 bytes only the empty plaintext is lost. */
  lemma SmallBlocksRoundTrip(c: BlockCipher, plaintext: Bytes, iv: Bytes)
    requires Permutes(c) && |iv| == c.size && c.size <= 255
    ensures Decrypted(c, Encrypted(c, plaintext, iv)) == Ok(plaintext) <==> plaintext != []
  {
    RoundTrip(c, plaintext, iv);
  }

  /** A plaintext that decryption returns is a proper, non-empty prefix of the unchained blocks. */
  lemma DecryptedLength(c: BlockCipher, ciphertext: Bytes)
    requires Permutes(c)
    ensures var r := Decrypted(c, ciphertext);
            r.Ok? ==> |ciphertext| % c.size == 0 && 1 <= |ciphertext| - c.size - |r.value| <= 255 && r.value != []
  {
  }

  /** `random` is what is read for the initialization vector, if the source of randomness does not fail. */
  method Encrypt(m: Mode, key: Key, plaintext: Bytes, random: Option<Bytes>) returns (r: Result<Bytes, Error>)
    requires GoodMode(m)
    requires CheckedCipher(m, key).Ok? && random.Some? ==> |random.value| == CheckedCipher(m, key).value.size
    ensures CheckedCipher(m, key).Err? ==> r == Err(CheckedCipher(m, key).error)
    ensures key.OtherKey? ==> r == Err(IncorrectKeyType)
    ensures key.KeyBytes? && |key.bytes| != m.keySize ==> r == Err(IncorrectKeyLength)
    ensures key.KeyBytes? && |key.bytes| == m.keySize ==>
              if m.cipher(key.bytes).None? then r == Err(CipherFailed)
              else if random.None? then r == Err(RandomFailed)
              else
                && r.Ok? && random.value <= r.value
                && Sealed(m.cipher(key.bytes).value, random.value, Padded(plaintext, |random.value|), r.value[|random.value|..])
    ensures CheckedCipher(m, key).Ok? ==>
              r == if random.None? then Err(RandomFailed) else Ok(Encrypted(CheckedCipher(m, key).value, plaintext, random.value))
  {
    var block :- CheckedCipher(m, key);
    var padded := AppendPadding(plaintext, block.size);
    PaddedLength(plaintext, block.size);
    if random.None? {
      return Err(RandomFailed);
    }
    var iv := random.value;
    var ciphertext := EncryptBlocks(block, iv, padded);
    assert (iv + ciphertext)[|iv|..] == ciphertext;
    return Ok(iv + ciphertext);
  }

  method Decrypt(m: Mode, key: Key, ciphertext: Bytes) returns (r: Result<Bytes, Error>)
    requires GoodMode(m)
    ensures CheckedCipher(m, key).Err? ==> r == Err(CheckedCipher(m, key).error)
    ensures CheckedCipher(m, key).Ok? ==> r == Decrypted(CheckedCipher(m, key).value, ciphertext)
    ensures key.OtherKey? ==> r == Err(IncorrectKeyType)
    ensures key.KeyBytes? && |key.bytes| != m.keySize ==> r == Err(IncorrectKeyLength)
    ensures key.KeyBytes? && |key.bytes| == m.keySize ==>
              if m.cipher(key.bytes).None? then r == Err(CipherFailed)
              else
                var c := m.cipher(key.bytes).value;
                if |ciphertext| < c.size then r == Err(CiphertextTooShort)
                else if |ciphertext| % c.size != 0 then r == Err(NotWholeBlocks)
                else exists plain :: Opened(c, ciphertext[..c.size], ciphertext[c.size..], plain) && r == StripPadding(plain)
  {
    var block :- CheckedCipher(m, key);
    if |ciphertext| < block.size {
      return Err(CiphertextTooShort);
    }
    if |ciphertext| % block.size != 0 {
      return Err(NotWholeBlocks);
    }
    DropFirst(block, ciphertext);
    var plaintext := DecryptBlocks(block, ciphertext[..block.size], ciphertext[block.size..]);
    return StripPadding(plaintext);
  }

  /** The standard library's CBC encrypter: one block at a time into the destination buffer. */
  method EncryptBlocks(c: BlockCipher, iv: Bytes, src: Bytes) returns (dst: Bytes)
    requires Permutes(c) && |iv| == c.size && WholeBlocks(c, src)
    ensures dst == Chain(c, iv, src) && Sealed(c, iv, src, dst)
  {
    ChainIsSealed(c, iv, src);
    hide Sealed, Xor, Permutes, Chain;
    dst := [];
    var previous, rest := iv, src;
    while rest != []
      invariant |previous| == c.size && WholeBlocks(c, rest)
      invariant dst + Chain(c, previous, rest) == Chain(c, iv, src) && |Chain(c, previous, rest)| == |rest|
      decreases |rest|
    {
      DropBlock(c, rest);
      SealOpens(c, Xor(rest[..c.size], previous));
      ghost var before := dst;
      ChainStep(c, previous, rest);
      previous := c.seal(Xor(rest[..c.size], previous));
      dst := dst + previous;
      rest := rest[c.size..];
      assert before + (previous + Chain(c, previous, rest)) == dst + Chain(c, previous, rest);
    }
  }

  lemma ChainStep(c: BlockCipher, previous: Bytes, rest: Bytes)
    requires Permutes(c) && |previous| == c.size && WholeBlocks(c, rest) && rest != []
    ensures c.size <= |rest| && WholeBlocks(c, rest[c.size..])
    ensures var block := c.seal(Xor(rest[..c.size], previous));
            |block| == c.size && Chain(c, previous, rest) == block + Chain(c, block, rest[c.size..])
  {
    DropBlock(c, rest);
  }

  method DecryptBlocks(c: BlockCipher, iv: Bytes, src: Bytes) returns (dst: Bytes)
    requires Permutes(c) && |iv| == c.size && WholeBlocks(c, src)
    ensures dst == Unchain(c, iv, src) && Opened(c, iv, src, dst)
  {
    UnchainIsOpened(c, iv, src);
    hide Opened, Xor, Permutes, Unchain;
    dst := [];
    var previous, rest := iv, src;
    while rest != []
      invariant |previous| == c.size && WholeBlocks(c, rest)
      invariant dst + Unchain(c, previous, rest) == Unchain(c, iv, src) && |Unchain(c, previous, rest)| == |rest|
      decreases |rest|
    {
      DropBlock(c, rest);
      Opens(c, rest[..c.size]);
      ghost var before := dst;
      UnchainStep(c, previous, rest);
      var block := Xor(c.open(rest[..c.size]), previous);
      dst := dst + block;
      previous := rest[..c.size];
      rest := rest[c.size..];
      assert before + (block + Unchain(c, previous, rest)) == dst + Unchain(c, previous, rest);
    }
  }

  lemma UnchainStep(c: BlockCipher, previous: Bytes, rest: Bytes)
    requires Permutes(c) && |previous| == c.size && WholeBlocks(c, rest) && rest != []
    ensures c.size <= |rest| && WholeBlocks(c, rest[c.size..])
    ensures var block := rest[..c.size];
            && |c.open(block)| == c.size
            && Unchain(c, previous, rest) == Xor(c.open(block), previous) + Unchain(c, block, rest[c.size..])
  {
    DropBlock(c, rest);
  }
}
