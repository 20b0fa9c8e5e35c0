/** The two AES-CBC streams of the device, fed one byte at a time: the CBC-MAC that guards the
    application image and the decryption of an encrypted hex file. The block cipher is a parameter;
    the reference is cipher block chaining as in section 6.2 of NIST SP 800-38A. */
module Cbc {
  import opened Crc16

  const BLOCK := 16

  type Block = b: seq<byte> | |b| == 16 witness seq(16, _ => 0)

  /** A keyed block cipher, key first. */
  type Cipher = (Block, Block) -> Block

  const ZERO: Block := Zeros8(16)

  function Zeros8(n: nat): (r: seq<byte>)
    ensures |r| == n
  {
    seq(n, _ => 0)
  }

  function XorBlock(a: Block, b: Block): Block {
    seq(16, i requires 0 <= i < 16 => a[i] ^ b[i])
  }

  function Encrypt(aes: Cipher, key: Block, iv: Block, plain: seq<byte>): (r: seq<byte>)
    requires |plain| % 16 == 0
    ensures |r| == |plain|
    decreases |plain|
  {
    if plain == [] then []
    else
      var c: Block := aes(key, XorBlock(plain[..16], iv));
      c + Encrypt(aes, key, c, plain[16..])
  }

  function Decrypt(inv: Cipher, key: Block, iv: Block, secret: seq<byte>): (r: seq<byte>)
    requires |secret| % 16 == 0
    ensures |r| == |secret|
    decreases |secret|
  {
    if secret == [] then []
    else XorBlock(inv(key, secret[..16]), iv) + Decrypt(inv, key, secret[..16], secret[16..])
  }

  /** The chaining value after `data`: the last cipher block, or iv if there is none. */
  function LastBlock(iv: Block, secret: seq<byte>): Block
    requires |secret| % 16 == 0
  {
    if secret == [] then iv else secret[|secret| - 16..]
  }

  function Padded(data: seq<byte>): (r: seq<byte>)
    ensures |r| % 16 == 0
  {
    data + Zeros8((16 - |data| % 16) % 16)
  }

  /** CBC-MAC with a zero initial vector. */
  function Mac(aes: Cipher, key: Block, data: seq<byte>): Block
    requires |data| % 16 == 0
  {
    LastBlock(ZERO, Encrypt(aes, key, ZERO, data))
  }

  lemma XorBlockTwice(a: Block, b: Block)
    ensures XorBlock(XorBlock(a, b), b) == a
  {
    forall i | 0 <= i < 16 ensures (a[i] ^ b[i]) ^ b[i] == a[i] {
      XorTwice(a[i], b[i]);
    }
  }

  lemma XorTwice(x: byte, y: byte)
    ensures (x ^ y) ^ y == x
  {
  }

  /** Decryption undoes encryption when the inverse cipher undoes the cipher. */
  lemma {:induction false} DecryptEncrypt(aes: Cipher, inv: Cipher, key: Block, iv: Block, plain: seq<byte>)
    requires |plain| % 16 == 0
    requires forall b: Block :: inv(key, aes(key, b)) == b
    ensures Decrypt(inv, key, iv, Encrypt(aes, key, iv, plain)) == plain
    decreases |plain|
  {
    if plain != [] {
      var c: Block := aes(key, XorBlock(plain[..16], iv));
      var rest := Encrypt(aes, key, c, plain[16..]);
      assert (c + rest)[..16] == c && (c + rest)[16..] == rest;
      XorBlockTwice(plain[..16], iv);
      DecryptEncrypt(aes, inv, key, c, plain[16..]);
    }
  }

  lemma {:induction false} EncryptAppend(aes: Cipher, key: Block, iv: Block, plain: seq<byte>, b: Block)
    requires |plain| % 16 == 0
    ensures var done := Encrypt(aes, key, iv, plain);
            Encrypt(aes, key, iv, plain + b) == done + aes(key, XorBlock(b, LastBlock(iv, done)))
    decreases |plain|
  {
    if plain == [] {
      assert plain + b == b && b[..16] == b && b[16..] == [];
      var c: Block := aes(key, XorBlock(b, iv));
      assert Encrypt(aes, key, iv, b) == c + Encrypt(aes, key, c, []) == c;
    } else {
      var c: Block := aes(key, XorBlock(plain[..16], iv));
      assert (plain + b)[..16] == plain[..16] && (plain + b)[16..] == plain[16..] + b;
      EncryptAppend(aes, key, c, plain[16..], b);
      var rest := Encrypt(aes, key, c, plain[16..]);
      assert LastBlock(iv, c + rest) == LastBlock(c, rest);
    }
  }

  lemma LastBlockOfTail(iv: Block, secret: seq<byte>)
    requires secret != [] && |secret| % 16 == 0
    ensures LastBlock(iv, secret) == LastBlock(secret[..16], secret[16..])
  {
  }

  lemma {:induction false} DecryptAppend(inv: Cipher, key: Block, iv: Block, secret: seq<byte>, b: Block)
    requires |secret| % 16 == 0
    ensures Decrypt(inv, key, iv, secret + b)
         == Decrypt(inv, key, iv, secret) + XorBlock(inv(key, b), LastBlock(iv, secret))
    decreases |secret|
  {
    hide LastBlock, XorBlock, Decrypt;
    if secret == [] {
      DecryptBlock(inv, key, iv, b);
      assert secret + b == b;
    } else {
      var rest, last := Decrypt(inv, key, secret[..16], secret[16..]), XorBlock(inv(key, b), LastBlock(iv, secret));
      assert (secret + b)[..16] == secret[..16] && (secret + b)[16..] == secret[16..] + b;
      DecryptFirst(inv, key, iv, secret);
      DecryptFirst(inv, key, iv, secret + b);
      DecryptAppend(inv, key, secret[..16], secret[16..], b);
      LastBlockOfTail(iv, secret);
      assert XorBlock(inv(key, secret[..16]), iv) + rest + last == XorBlock(inv(key, secret[..16]), iv) + (rest + last);
    }
  }

  lemma DecryptBlock(inv: Cipher, key: Block, iv: Block, b: Block)
    ensures Decrypt(inv, key, iv, b) == XorBlock(inv(key, b), iv) == Decrypt(inv, key, iv, []) + XorBlock(inv(key, b), LastBlock(iv, []))
  {
    hide XorBlock;
    assert b[..16] == b && b[16..] == [];
  }

  lemma DecryptFirst(inv: Cipher, key: Block, iv: Block, secret: seq<byte>)
    requires |secret| % 16 == 0 && secret != []
    ensures Decrypt(inv, key, iv, secret) == XorBlock(inv(key, secret[..16]), iv) + Decrypt(inv, key, secret[..16], secret[16..])
  {
    hide XorBlock;
  }

  /** Chaining one more block into the MAC. */
  lemma MacAppend(aes: Cipher, key: Block, data: seq<byte>, b: Block)
    requires |data| % 16 == 0
    ensures Mac(aes, key, data + b) == aes(key, XorBlock(b, Mac(aes, key, data)))
  {
    EncryptAppend(aes, key, ZERO, data, b);
    var done := Encrypt(aes, key, ZERO, data);
    var c: Block := aes(key, XorBlock(b, LastBlock(ZERO, done)));
    assert (done + c)[|done + c| - 16..] == c;
  }

  // ---------------------------------------------------------------- CBC-MAC of a byte stream

  /** The chaining value and the block buffer after a stream: the buffer holds the bytes of the last,
      incomplete block, or the last cipher block if there is none. */
  ghost predicate Chained(aes: Cipher, key: Block, stream: seq<byte>, count: nat, iv: Block, buffer: seq<byte>) {
    && |buffer| == 16 && count == |stream| % 16
    && iv == Mac(aes, key, stream[..|stream| - count])
    && buffer[..count] == stream[|stream| - count..]
    && (count == 0 ==> buffer == iv)
  }

  function PadLength(n: nat): nat {
    (16 - n % 16) % 16
  }

  lemma PadAll(start: seq<byte>)
    ensures start + Zeros8(0) == start
  {
  }

  lemma PaddedIs(start: seq<byte>)
    ensures Padded(start) == start + Zeros8(PadLength(|start|))
  {
  }

  /** The padding ends at the first whole block. */
  lemma PadEnds(len: nat, n: nat)
    requires n <= PadLength(len)
    ensures (len + n) % 16 == 0 <==> n == PadLength(len)
  {
    var q, r := len / 16, len % 16;
    assert len == 16 * q + r;
    if r + n < 16 {
      BlockRemainder(len + n, q, r + n);
    } else {
      BlockRemainder(len + n, q + 1, 0);
    }
  }

  lemma BlockRemainder(n: nat, q: nat, r: nat)
    requires n == 16 * q + r && r < 16
    ensures n % 16 == r
  {
  }

  lemma PadOne(start: seq<byte>, n: nat)
    ensures start + Zeros8(n) + [0] == start + Zeros8(n + 1)
  {
    assert Zeros8(n) + [0] == Zeros8(n + 1);
    assert start + (Zeros8(n) + [0]) == start + Zeros8(n) + [0];
  }

  /** A byte stored behind the last, incomplete block. */
  lemma Pushed(was: seq<byte>, before: seq<byte>, count: nat, data: byte)
    requires |was| == 16 && count < 16 && count <= |before| && was[..count] == before[|before| - count..]
    ensures was[count := data][..count + 1] == (before + [data])[|before| - count..]
  {
    assert was[count := data][..count + 1] == was[..count] + [data];
    assert (before + [data])[|before| - count..] == before[|before| - count..] + [data];
  }

  lemma CountUp(n: nat)
    ensures (n + 1) % 16 == if n % 16 == 15 then 0 else n % 16 + 1
  {
    var q, r := n / 16, n % 16;
    assert n == 16 * q + r;
    if r == 15 {
      BlockRemainder(n + 1, q + 1, 0);
    } else {
      BlockRemainder(n + 1, q, r + 1);
    }
  }

  lemma ChainedAtReset(aes: Cipher, key: Block, count: nat)
    requires count < 16
    ensures Chained(aes, key, Zeros8(count), count, ZERO, ZERO)
  {
  }

  lemma ChainedAtStart(aes: Cipher, buffer: seq<byte>)
    requires |buffer| == 16 && forall k :: 0 <= k < 16 ==> buffer[k] == 0
    ensures Chained(aes, ZERO, [], 0, ZERO, buffer)
  {
    hide Chained, Mac;
    assert buffer == ZERO && Zeros8(0) == [];
    ChainedAtReset(aes, ZERO, 0);
  }

  lemma ChainedMidBlock(aes: Cipher, key: Block, stream: seq<byte>, count: nat, iv: Block, buffer: seq<byte>, data: byte)
    requires Chained(aes, key, stream, count, iv, buffer) && count < 15
    ensures Chained(aes, key, stream + [data], count + 1, iv, buffer[count := data])
  {
    var done := |stream| - count;
    assert (stream + [data])[..done] == stream[..done];
    assert (stream + [data])[done..] == stream[done..] + [data];
  }

  lemma ChainedAtBlockEnd(aes: Cipher, key: Block, stream: seq<byte>, iv: Block, buffer: seq<byte>, data: byte)
    requires Chained(aes, key, stream, 15, iv, buffer)
    ensures var c := aes(key, XorBlock(buffer[15 := data], iv)); Chained(aes, key, stream + [data], 0, c, c)
  {
    var done := |stream| - 15;
    var block: Block := buffer[15 := data];
    assert block == stream[done..] + [data];
    assert stream + [data] == stream[..done] + block;
    MacAppend(aes, key, stream[..done], block);
    assert (stream + [data])[..|stream + [data]|] == stream + [data];
  }

  /** CryptoSignatureCheck_*: a block buffer, how much of it is filled, and the AES context. */
  class SignatureCheck {
    const aes: Cipher
    const buffer: array<byte>
    var signature: Block
    var key: Block
    var contextKey: Block
    var contextIv: Block
    var count: nat
    /** What has gone into the buffer since the last reset, padding included. */
    ghost var stream: seq<byte>

    constructor (aes: Cipher)
      ensures Valid() && fresh(buffer) && this.aes == aes && stream == []
      ensures signature == ZERO
    {
      hide Chained;
      this.aes := aes;
      buffer := new byte[16](_ => 0);
      signature, key, contextKey, contextIv := ZERO, ZERO, ZERO, ZERO;
      count, stream := 0, [];
      new;
      ChainedAtStart(aes, buffer[..]);
    }

    ghost predicate Valid()
      reads this, buffer
    {
      buffer.Length == 16 && Chained(aes, contextKey, stream, count, contextIv, buffer[..])
    }

    method SetSignature(s: Block)
      requires Valid()
      modifies this`signature
      ensures Valid() && signature == s
    {
      signature := s;
    }

    method SetKey(k: Block)
      requires Valid()
      modifies this`key
      ensures Valid() && key == k
    {
      key := k;
    }

    /** CryptoSignatureCheck_reset: the fill count is not touched, so what a partly filled block
        held counts as zeros in the new stream. */
    method Reset()
      requires Valid()
      modifies this`contextKey, this`contextIv, this`stream, buffer
      ensures Valid() && contextKey == key
      ensures stream == Zeros8(old(|stream|) % 16)
    {
      assert count == |stream| % 16;
      hide Chained;
      contextKey, contextIv := key, ZERO;
      Store(buffer, ZERO);
      stream := Zeros8(count);
      ChainedAtReset(aes, contextKey, count);
    }

    /** CryptoSignatureCheck_add. */
    method Add(data: byte)
      requires Valid()
      modifies this`count, this`contextIv, this`stream, buffer
      ensures Valid() && stream == old(stream) + [data]
    {
      assert count < 16;
      hide Chained;
      ghost var was := buffer[..];
      if count == 15 {
        ChainedAtBlockEnd(aes, contextKey, stream, contextIv, was, data);
      } else {
        ChainedMidBlock(aes, contextKey, stream, count, contextIv, was, data);
      }
      buffer[count] := data;
      assert buffer[..] == was[count := data];
      count := count + 1;
      if count >= 16 {
        count := 0;
        EncryptBuffer();
      }
      stream := stream + [data];
    }

    /** AES_CBC_encrypt_buffer on the block buffer. */
    method EncryptBuffer()
      requires buffer.Length == 16
      modifies this`contextIv, buffer
      ensures buffer[..] == contextIv == aes(contextKey, XorBlock(old(buffer[..]), old(contextIv)))
    {
      var c := aes(contextKey, XorBlock(buffer[..], contextIv));
      Store(buffer, c);
      contextIv := c;
    }

    /** CryptoSignatureCheck_check: whether the stored signature is the CBC-MAC of the zero-padded stream. */
    method Check() returns (result: bool)
      requires Valid()
      modifies this`count, this`contextIv, this`stream, buffer
      ensures Valid() && count == 0 && stream == Padded(old(stream))
      ensures result <==> signature == Mac(aes, contextKey, Padded(old(stream)))
    {
      hide Chained, Padded, PadLength;
      ghost var start := stream;
      ghost var n := 0;
      PadAll(start);
      CountOf();
      while count != 0
        invariant Valid() && count == |stream| % 16 && n <= PadLength(|start|) && stream == start + Zeros8(n)
        decreases PadLength(|start|) - n
      {
        PadEnds(|start|, n);
        PadOne(start, n);
        Add(0);
        n := n + 1;
        CountOf();
      }
      PadEnds(|start|, n);
      PaddedIs(start);
      BufferOf();
      result := buffer[..] == signature;
    }

    lemma CountOf()
      requires Valid()
      ensures count == |stream| % 16
    {
    }

    /** Between blocks the buffer holds the MAC of the stream. */
    lemma BufferOf()
      requires Valid() && count == 0
      ensures buffer[..] == Mac(aes, contextKey, stream)
    {
      hide Mac;
      assert stream[..|stream|] == stream;
    }
  }

  method Store(buffer: array<byte>, b: Block)
    requires buffer.Length == 16
    modifies buffer
    ensures buffer[..] == b
  {
    for i := 0 to 16
      invariant forall k :: 0 <= k < i ==> buffer[k] == b[k]
    {
      buffer[i] := b[i];
    }
  }

  // ---------------------------------------------------------------- decryption of a byte stream

  /** The low 32 bits of the length in the header block: four bytes, least significant first. */
  function FileSize(header: seq<byte>): nat
    requires |header| >= 4
  {
    Value(header[0]) + 0x100 * Value(header[1]) + 0x1_0000 * Value(header[2]) + 0x100_0000 * Value(header[3])
  }

  function Value(b: byte): (n: nat)
    ensures n < 0x100
  {
    b as nat
  }

  /** What the decryption of a file hands on: after the header block, as many bytes as it announces. */
  function Emitted(plain: seq<byte>): seq<byte> {
    if |plain| < 16 then []
    else if |plain| - 16 <= FileSize(plain) then plain[16..]
    else plain[16..16 + FileSize(plain)]
  }

  /** One `+=` and `<<=` of a 32-bit accumulator. */
  function ShiftIn(acc: nat, b: nat): nat {
    ((acc + b) * 0x100) % 0x1_0000_0000
  }

  lemma Mod16(x: nat, q: nat, r: nat)
    requires x == 0x1_0000 * q + r && r < 0x1_0000
    ensures x % 0x1_0000 == r
  {
  }

  lemma Mod24(x: nat, q: nat, r: nat)
    requires x == 0x100_0000 * q + r && r < 0x100_0000
    ensures x % 0x100_0000 == r
  {
  }

  lemma Mod32(x: nat, q: nat, r: nat)
    requires x == 0x1_0000_0000 * q + r && r < 0x1_0000_0000
    ensures x % 0x1_0000_0000 == r
  {
  }

  lemma ShiftInForm(acc: nat, b: nat)
    ensures ShiftIn(acc, b) == 0x100 * ((acc + b) % 0x100_0000)
  {
    var q, r := (acc + b) / 0x100_0000, (acc + b) % 0x100_0000;
    assert acc + b == 0x100_0000 * q + r;
    Mod32((acc + b) * 0x100, q, 0x100 * r);
  }

  lemma ShiftInNext(x: nat, b: nat)
    requires b < 0x100
    ensures ShiftIn(0x100 * x, b) == 0x100 * (0x100 * (x % 0x1_0000) + b)
  {
    hide ShiftIn;
    ShiftInForm(0x100 * x, b);
    var q, r := x / 0x1_0000, x % 0x1_0000;
    assert x == 0x1_0000 * q + r;
    Mod24(0x100 * x + b, q, 0x100 * r + b);
  }

  /** The eight additions and seven shifts leave the low four bytes, whatever the accumulator held before. */
  lemma LengthOfHeader(stale: nat, h: seq<nat>)
    requires |h| == 8 && forall k :: 0 <= k < 8 ==> h[k] < 0x100
    ensures var acc := ShiftIn(ShiftIn(ShiftIn(ShiftIn(ShiftIn(ShiftIn(ShiftIn(stale, h[7]), h[6]), h[5]), h[4]), h[3]), h[2]), h[1]);
            (acc + h[0]) % 0x1_0000_0000 == h[0] + 0x100 * h[1] + 0x1_0000 * h[2] + 0x100_0000 * h[3]
  {
    hide ShiftIn;
    var acc5 := ShiftIn(ShiftIn(ShiftIn(stale, h[7]), h[6]), h[5]);
    var x4 := (acc5 + h[4]) % 0x100_0000;
    var x3 := 0x100 * (x4 % 0x1_0000) + h[3];
    var x2 := 0x100 * (x3 % 0x1_0000) + h[2];
    ShiftInForm(acc5, h[4]);
    ShiftInNext(x4, h[3]);
    ShiftInNext(x3, h[2]);
    ShiftInNext(x2, h[1]);
    FourLowBytes(x4, h[3], h[2], h[1], h[0]);
  }

  lemma FourLowBytes(x4: nat, b3: nat, b2: nat, b1: nat, b0: nat)
    requires b3 < 0x100 && b2 < 0x100 && b1 < 0x100 && b0 < 0x100
    ensures var x3 := 0x100 * (x4 % 0x1_0000) + b3;
            var x2 := 0x100 * (x3 % 0x1_0000) + b2;
            var x1 := 0x100 * (x2 % 0x1_0000) + b1;
            (0x100 * x1 + b0) % 0x1_0000_0000 == b0 + 0x100 * b1 + 0x1_0000 * b2 + 0x100_0000 * b3
  {
    var r4 := x4 % 0x1_0000;
    var u, v := r4 / 0x100, r4 % 0x100;
    assert r4 == 0x100 * u + v;
    Mod16(0x100 * r4 + b3, u, 0x100 * v + b3);
    Mod16(0x100 * (0x100 * v + b3) + b2, v, 0x100 * b3 + b2);
    Mod32(0x100 * (0x100 * (0x100 * b3 + b2) + b1) + b0, 0, 0x100 * (0x100 * (0x100 * b3 + b2) + b1) + b0);
  }

  lemma SizeOf(header: seq<byte>, h: seq<nat>)
    requires |header| >= 4 && |h| >= 4 && forall k :: 0 <= k < 4 ==> h[k] == Value(header[k])
    ensures FileSize(header) == h[0] + 0x100 * h[1] + 0x1_0000 * h[2] + 0x100_0000 * h[3]
  {
  }

  /** CryptoDecrypt_*: a block buffer that is decrypted in place when full; the first block is the header. */
  class DecryptStream {
    const inv: Cipher
    const buffer: array<byte>
    var key: Block
    var contextKey: Block
    var contextIv: Block
    var count: nat
    var firstBlock: bool
    var fileSize: nat
    /** What has gone into the buffer since the last reset, and what has been handed on. */
    ghost var stream: seq<byte>
    ghost var output: seq<byte>

    ghost predicate Valid()
      reads this, buffer
    {
      && buffer.Length == 16 && count == |stream| % 16
      && Decrypting(inv, contextKey, stream, count, contextIv, firstBlock, fileSize, output)
      && buffer[..count] == stream[|stream| - count..]
    }

    constructor (inv: Cipher)
      ensures Fresh() && fresh(buffer) && this.inv == inv
    {
      this.inv := inv;
      buffer := new byte[16](_ => 0);
      key, contextKey, contextIv := ZERO, ZERO, ZERO;
      count, firstBlock, fileSize := 0, false, 0;
      stream, output := [], [];
    }

    /** What holds even before the first reset. */
    ghost predicate Fresh()
      reads this
    {
      buffer.Length == 16 && count < 16
    }

    method SetKey(k: Block)
      requires Valid()
      modifies this`key
      ensures Valid() && key == k
    {
      key := k;
    }

    /** CryptoDecrypt_reset: the fill count and the file size are not touched. */
    method Reset()
      requires Fresh()
      modifies this`contextKey, this`contextIv, this`firstBlock, this`stream, this`output, buffer
      ensures Valid() && contextKey == key && stream == Zeros8(count) && output == []
    {
      contextKey, contextIv := key, ZERO;
      Store(buffer, ZERO);
      firstBlock := true;
      stream, output := Zeros8(count), [];
      DecryptingAtReset(inv, contextKey, count, fileSize);
      assert buffer[..count] == ZERO[..count] == stream;
    }

    /** CryptoDecrypt_add: when it returns true, the first len bytes of the buffer are handed on. */
    method Add(data: byte, lenBefore: nat) returns (result: bool, len: nat)
      requires Valid()
      modifies this`count, this`contextIv, this`firstBlock, this`fileSize, this`stream, this`output, buffer
      ensures Valid() && stream == old(stream) + [data]
      ensures result ==> len <= 16 && output == old(output) + buffer[..len]
      ensures !result ==> len == lenBefore && output == old(output)
    {
      hide Decrypting;
      result, len := false, lenBefore;
      ghost var was, before, n := buffer[..], stream, count;
      CountUp(|before|);
      Pushed(was, before, n, data);
      buffer[count] := data;
      assert buffer[..] == was[n := data];
      assert buffer[..n + 1] == buffer[..][..n + 1];
      stream := stream + [data];
      count := count + 1;
      if count == 16 {
        assert buffer[..15] == was[..15];
        result, len := FinishBlock(before, lenBefore);
      } else {
        DecryptingMidBlock(inv, contextKey, before, n, contextIv, firstBlock, fileSize, output, data);
      }
    }

    /** The part of CryptoDecrypt_add that runs when the buffer is full; `before` is the stream
        without its last byte. */
    method FinishBlock(ghost before: seq<byte>, lenBefore: nat) returns (result: bool, len: nat)
      requires buffer.Length == 16 && count == 16
      requires Decrypting(inv, contextKey, before, 15, contextIv, firstBlock, fileSize, output)
      requires |before| % 16 == 15 && buffer[..15] == before[|before| - 15..] && stream == before + [buffer[15]]
      modifies this`count, this`contextIv, this`firstBlock, this`fileSize, this`output, buffer
      ensures Valid()
      ensures result ==> len <= 16 && output == old(output) + buffer[..len]
      ensures !result ==> len == lenBefore && output == old(output)
    {
      hide Decrypting, XorBlock, FileSize;
      result, len := false, lenBefore;
      DecryptingAtBlockEnd(inv, contextKey, before, contextIv, firstBlock, fileSize, output, buffer[..]);
      count := 0;
      DecryptBuffer();
      if firstBlock {
        firstBlock := false;
        ReadHeader();
      } else {
        len := TakeBlock();
        output := output + buffer[..len];
        result := true;
      }
    }

    /** The file size from the header block, added and shifted in byte by byte. */
    method ReadHeader()
      requires buffer.Length == 16
      modifies this`fileSize
      ensures fileSize == FileSize(buffer[..])
    {
      hide ShiftIn, FileSize, Value;
      var h := [Value(buffer[0]), Value(buffer[1]), Value(buffer[2]), Value(buffer[3]),
                Value(buffer[4]), Value(buffer[5]), Value(buffer[6]), Value(buffer[7])];
      LengthOfHeader(fileSize, h);
      SizeOf(buffer[..], h);
      fileSize := ShiftIn(fileSize, h[7]);
      fileSize := ShiftIn(fileSize, h[6]);
      fileSize := ShiftIn(fileSize, h[5]);
      fileSize := ShiftIn(fileSize, h[4]);
      fileSize := ShiftIn(fileSize, h[3]);
      fileSize := ShiftIn(fileSize, h[2]);
      fileSize := ShiftIn(fileSize, h[1]);
      fileSize := (fileSize + h[0]) % 0x1_0000_0000;
    }

    /** How many bytes of a decrypted block belong to the file. */
    method TakeBlock() returns (len: nat)
      modifies this`fileSize
      ensures len == if old(fileSize) >= BLOCK then BLOCK else old(fileSize)
      ensures fileSize == old(fileSize) - len
    {
      if fileSize >= BLOCK {
        len := BLOCK;
        fileSize := fileSize - BLOCK;
      } else {
        len := fileSize;
        fileSize := fileSize - fileSize;
      }
    }

    /** AES_CBC_decrypt_buffer on the block buffer. */
    method DecryptBuffer()
      requires buffer.Length == 16
      modifies this`contextIv, buffer
      ensures buffer[..] == XorBlock(inv(contextKey, old(buffer[..])), old(contextIv))
      ensures contextIv == old(buffer[..])
    {
      var next := buffer[..];
      Store(buffer, XorBlock(inv(contextKey, next), contextIv));
      contextIv := next;
    }
  }

  /** The decryption state after a stream whose last, incomplete block has `count` bytes. */
  ghost predicate Decrypting(inv: Cipher, key: Block, stream: seq<byte>, count: nat, iv: Block,
                             first: bool, fileSize: nat, output: seq<byte>)
  {
    && count == |stream| % 16
    && Decrypted(inv, key, stream[..|stream| - count], iv, first, fileSize, output)
  }

  /** The decryption state after whole blocks. */
  ghost predicate Decrypted(inv: Cipher, key: Block, done: seq<byte>, iv: Block,
                            first: bool, fileSize: nat, output: seq<byte>)
    requires |done| % 16 == 0
  {
    var plain := Decrypt(inv, key, ZERO, done);
    && iv == LastBlock(ZERO, done)
    && (first <==> done == [])
    && output == Emitted(plain)
    && (!first ==> fileSize == if FileSize(plain) > |plain| - 16 then FileSize(plain) - (|plain| - 16) else 0)
  }

  lemma DecryptingAtReset(inv: Cipher, key: Block, count: nat, fileSize: nat)
    requires count < 16
    ensures Decrypting(inv, key, Zeros8(count), count, ZERO, true, fileSize, [])
  {
  }

  lemma DecryptingMidBlock(inv: Cipher, key: Block, stream: seq<byte>, count: nat, iv: Block,
                           first: bool, fileSize: nat, output: seq<byte>, data: byte)
    requires Decrypting(inv, key, stream, count, iv, first, fileSize, output) && count < 15
    ensures Decrypting(inv, key, stream + [data], count + 1, iv, first, fileSize, output)
  {
    assert (stream + [data])[..|stream| - count] == stream[..|stream| - count];
  }

  lemma DecryptingAtBlockEnd(inv: Cipher, key: Block, stream: seq<byte>, iv: Block,
                             first: bool, fileSize: nat, output: seq<byte>, block: Block)
    requires Decrypting(inv, key, stream, 15, iv, first, fileSize, output)
    requires block[..15] == stream[|stream| - 15..]
    ensures var plain := XorBlock(inv(key, block), iv);
            var stream' := stream + [block[15]];
            var len := if fileSize >= 16 then 16 else fileSize;
            if first then Decrypting(inv, key, stream', 0, block, false, FileSize(plain), output)
            else Decrypting(inv, key, stream', 0, block, false, fileSize - len, output + plain[..len])
  {
    hide Decrypted;
    BlockEndsStream(stream, block);
    DecryptedMore(inv, key, stream[..|stream| - 15], iv, first, fileSize, output, block);
  }

  lemma DecryptedMore(inv: Cipher, key: Block, done: seq<byte>, iv: Block,
                      first: bool, fileSize: nat, output: seq<byte>, block: Block)
    requires |done| % 16 == 0 && Decrypted(inv, key, done, iv, first, fileSize, output)
    ensures var plain := XorBlock(inv(key, block), iv);
            var len := if fileSize >= 16 then 16 else fileSize;
            if first then Decrypted(inv, key, done + block, block, false, FileSize(plain), output)
            else Decrypted(inv, key, done + block, block, false, fileSize - len, output + plain[..len])
  {
    hide Decrypt, XorBlock, FileSize, Emitted;
    var was := Decrypt(inv, key, ZERO, done);
    var plain := XorBlock(inv(key, block), iv);
    DecryptAppend(inv, key, ZERO, done, block);
    assert LastBlock(ZERO, done + block) == block;
    hide LastBlock;
    if first {
      EmittedHeader(plain);
      assert was + plain == plain;
    } else {
      EmittedMore(was, plain);
    }
  }

  lemma BlockEndsStream(stream: seq<byte>, block: Block)
    requires |stream| % 16 == 15 && block[..15] == stream[|stream| - 15..]
    ensures var stream' := stream + [block[15]];
            stream'[..|stream'|] == stream' == stream[..|stream| - 15] + block
  {
    assert block == block[..15] + [block[15]];
  }

  lemma EmittedHeader(header: seq<byte>)
    requires |header| == 16
    ensures Emitted(header) == [] && Emitted([]) == []
  {
  }

  lemma EmittedMore(plain: seq<byte>, block: seq<byte>)
    requires |plain| >= 16 && |block| == 16
    ensures var left := if FileSize(plain) > |plain| - 16 then FileSize(plain) - (|plain| - 16) else 0;
            Emitted(plain + block) == Emitted(plain) + block[..if left >= 16 then 16 else left]
    ensures FileSize(plain + block) == FileSize(plain)
  {
    hide FileSize, Emitted;
    SameSize(plain, block);
    EmittedIs(plain);
    EmittedIs(plain + block);
    TextTaken(plain, block, FileSize(plain));
  }

  lemma SameSize(plain: seq<byte>, block: seq<byte>)
    requires |plain| >= 16
    ensures FileSize(plain + block) == FileSize(plain)
  {
    var both := plain + block;
    assert both[0] == plain[0] && both[1] == plain[1] && both[2] == plain[2] && both[3] == plain[3];
  }

  /** The text behind the header block, as far as it is announced and there. */
  function TextOf(plain: seq<byte>, size: nat): seq<byte>
    requires |plain| >= 16
  {
    if |plain| - 16 <= size then plain[16..] else plain[16..16 + size]
  }

  lemma EmittedIs(plain: seq<byte>)
    requires |plain| >= 16
    ensures Emitted(plain) == TextOf(plain, FileSize(plain))
  {
    hide FileSize;
  }

  lemma TextTaken(plain: seq<byte>, block: seq<byte>, size: nat)
    requires |plain| >= 16 && |block| == 16
    ensures var left := if size > |plain| - 16 then size - (|plain| - 16) else 0;
            TextOf(plain + block, size) == TextOf(plain, size) + block[..if left >= 16 then 16 else left]
  {
    var left := if size > |plain| - 16 then size - (|plain| - 16) else 0;
    var n := if left >= 16 then 16 else left;
    var whole, parts := TextOf(plain + block, size), TextOf(plain, size) + block[..n];
    assert |whole| == |parts|;
    forall k | 0 <= k < |whole| ensures whole[k] == parts[k] {
      assert whole[k] == (plain + block)[16 + k];
    }
  }

  /** An encrypted file (a header with the length of the text, the text, filling) hands on the text. */
  lemma EncryptedFileEmitted(aes: Cipher, inv: Cipher, key: Block, header: Block, text: seq<byte>, filling: seq<byte>)
    requires forall b: Block :: inv(key, aes(key, b)) == b
    requires |text + filling| % 16 == 0 && FileSize(header) == |text|
    ensures Emitted(Decrypt(inv, key, ZERO, Encrypt(aes, key, ZERO, header + text + filling))) == text
  {
    DecryptEncrypt(aes, inv, key, ZERO, header + text + filling);
    assert (header + text + filling)[16..16 + |text|] == text;
  }
}
