/**
  The AES-CBC/base64 codec of the router session (tplink.go, aesCBCEncryptBase64 and aesCBCDecryptBase64).
  The block cipher is a parameter; all that is known about it is that each key gives a permutation of
  blocks. Chaining follows section 6.2 of NIST SP 800-38A.
 */
module Codec {
  import opened Arithmetic
  import opened Basics
  import Base64
  import Padding

  const BLOCK_SIZE := 16

  type Block = b: Bytes | |b| == 16 witness seq(16, _ => 0)

  datatype BlockCipher = BlockCipher(encrypt: (Bytes, Block) -> Block, decrypt: (Bytes, Block) -> Block)

  ghost predicate IsPermutation(cipher: BlockCipher) {
    && (forall key, b :: cipher.decrypt(key, cipher.encrypt(key, b)) == b)
    && (forall key, b :: cipher.encrypt(key, cipher.decrypt(key, b)) == b)
  }

  // The assumption can be met: the cipher that changes nothing meets it.
  lemma SomeCipherIsPermutation()
    ensures IsPermutation(BlockCipher((key, b) => b, (key, b) => b))
  {
  }

  // Exclusive or on the low `bits` bits.
  function XorBits(bits: nat, a: nat, b: nat): nat {
    if bits == 0 then 0 else (a + b) % 2 + 2 * XorBits(bits - 1, a / 2, b / 2)
  }

  lemma LowBit(low: nat, high: nat)
    requires low < 2
    ensures (low + 2 * high) / 2 == high && (low + 2 * high) % 2 == low
  {
  }

  lemma SumParity(x: nat, b: nat)
    ensures (x + b) % 2 == (x % 2 + b) % 2
  {
  }

  lemma XorLowBit(a: nat, b: nat)
    ensures ((a + b) % 2 + b) % 2 == a % 2 && (a + b) % 2 < 2
  {
  }

  lemma {:induction false} XorBitsInverse(bits: nat, a: nat, b: nat)
    requires a < Pow2(bits)
    ensures XorBits(bits, XorBits(bits, a, b), b) == a
    ensures XorBits(bits, a, b) < Pow2(bits)
  {
    if bits > 0 {
      XorBitsInverse(bits - 1, a / 2, b / 2);
      XorLowBit(a, b);
      LowBit((a + b) % 2, XorBits(bits - 1, a / 2, b / 2));
      XorFlipsBack(bits, a, b, XorBits(bits, a, b));
    }
  }

  lemma XorFlipsBack(bits: nat, a: nat, b: nat, x: nat)
    requires bits > 0 && XorBits(bits - 1, x / 2, b / 2) == a / 2 && x % 2 == (a + b) % 2
    ensures XorBits(bits, x, b) == a
  {
    SumParity(x, b);
    XorLowBit(a, b);
  }

  function Pow2(n: nat): (p: nat)
    ensures p >= 1
  {
    if n == 0 then 1 else 2 * Pow2(n - 1)
  }

  lemma ByteIsEightBits()
    ensures Pow2(8) == 256
  {
    assert Pow2(4) == 16;
  }

  function XorByte(a: Byte, b: Byte): Byte {
    ByteIsEightBits();
    XorBitsInverse(8, a, b);
    XorBits(8, a, b)
  }

  // Bit by bit it is exclusive or: a bit is set exactly if just one of the two is.
  lemma {:induction false} XorBitsAt(bits: nat, a: nat, b: nat, i: nat)
    requires i < bits
    ensures XorBits(bits, a, b) / Pow2(i) % 2 == (a / Pow2(i) + b / Pow2(i)) % 2
    decreases bits
  {
    XorHalves(bits, a, b);
    if i > 0 {
      XorBitsAt(bits - 1, a / 2, b / 2, i - 1);
      BitOfHalf(XorBits(bits, a, b), XorBits(bits - 1, a / 2, b / 2), i);
      BitOfHalf(a, a / 2, i);
      BitOfHalf(b, b / 2, i);
    }
  }

  lemma XorHalves(bits: nat, a: nat, b: nat)
    requires bits > 0
    ensures XorBits(bits, a, b) / 2 == XorBits(bits - 1, a / 2, b / 2) && XorBits(bits, a, b) % 2 == (a + b) % 2
  {
    LowBit((a + b) % 2, XorBits(bits - 1, a / 2, b / 2));
  }

  lemma BitOfHalf(x: nat, half: nat, i: nat)
    requires i > 0 && half == x / 2
    ensures x / Pow2(i) == half / Pow2(i - 1)
  {
    var p := Pow2(i - 1);
    var q, r := half / p, half % p;
    assert half == q * p + r;
    assert x == q * (2 * p) + (2 * r + x % 2) by {
      assert q * (2 * p) == 2 * (q * p);
    }
    DivisionIsUnique(x, q, 2 * r + x % 2, 2 * p);
  }

  lemma XorByteAt(a: Byte, b: Byte, i: nat)
    requires i < 8
    ensures XorByte(a, b) / Pow2(i) % 2 == (a / Pow2(i) + b / Pow2(i)) % 2
  {
    XorBitsAt(8, a, b, i);
  }

  function Xor(a: Block, b: Block): Block {
    seq(16, i requires 0 <= i < 16 => XorByte(a[i], b[i]))
  }

  lemma XorInverse(a: Block, b: Block)
    ensures Xor(Xor(a, b), b) == a
  {
    forall i | 0 <= i < 16 ensures Xor(Xor(a, b), b)[i] == a[i] {
      ByteIsEightBits();
      XorBitsInverse(8, a[i], b[i]);
    }
  }

  function CbcEncrypt(cipher: BlockCipher, key: Bytes, previous: Block, plain: Bytes): (raw: Bytes)
    requires |plain| % BLOCK_SIZE == 0
    ensures |raw| == |plain|
    decreases |plain|
  {
    if plain == [] then []
    else
      var block := cipher.encrypt(key, Xor(plain[..16], previous));
      block + CbcEncrypt(cipher, key, block, plain[16..])
  }

  function CbcDecrypt(cipher: BlockCipher, key: Bytes, previous: Block, raw: Bytes): (plain: Bytes)
    requires |raw| % BLOCK_SIZE == 0
    ensures |plain| == |raw|
    decreases |raw|
  {
    if raw == [] then []
    else
      Xor(cipher.decrypt(key, raw[..16]), previous) + CbcDecrypt(cipher, key, raw[..16], raw[16..])
  }

  lemma {:induction false} CbcDecryptOfEncrypt(cipher: BlockCipher, key: Bytes, previous: Block, plain: Bytes)
    requires IsPermutation(cipher) && |plain| % BLOCK_SIZE == 0
    ensures CbcDecrypt(cipher, key, previous, CbcEncrypt(cipher, key, previous, plain)) == plain
    decreases |plain|
  {
    if plain != [] {
      var block := cipher.encrypt(key, Xor(plain[..16], previous));
      var raw := CbcEncrypt(cipher, key, previous, plain);
      assert raw[..16] == block && raw[16..] == CbcEncrypt(cipher, key, block, plain[16..]);
      XorInverse(plain[..16], previous);
      CbcDecryptOfEncrypt(cipher, key, block, plain[16..]);
    }
  }

  lemma {:induction false} CbcEncryptOfDecrypt(cipher: BlockCipher, key: Bytes, previous: Block, raw: Bytes)
    requires IsPermutation(cipher) && |raw| % BLOCK_SIZE == 0
    ensures CbcEncrypt(cipher, key, previous, CbcDecrypt(cipher, key, previous, raw)) == raw
    decreases |raw|
  {
    if raw != [] {
      var plain := CbcDecrypt(cipher, key, previous, raw);
      var first := cipher.decrypt(key, raw[..16]);
      assert plain[..16] == Xor(first, previous) && plain[16..] == CbcDecrypt(cipher, key, raw[..16], raw[16..]);
      XorInverse(first, previous);
      CbcEncryptOfDecrypt(cipher, key, raw[..16], raw[16..]);
    }
  }

  // ----- The chaining, block by block. -----

  function BlockAt(data: Bytes, j: nat): Block
    requires (j + 1) * BLOCK_SIZE <= |data|
  {
    data[j * BLOCK_SIZE..(j + 1) * BLOCK_SIZE]
  }

  lemma BlockAtLater(first: Block, rest: Bytes, j: nat)
    requires (j + 1) * BLOCK_SIZE <= |rest|
    ensures BlockAt(first + rest, 0) == first && BlockAt(first + rest, j + 1) == BlockAt(rest, j)
  {
  }

  // Every block is encrypted after exclusive or with the ciphertext block before it, the first with the vector.
  lemma {:induction false} CbcEncryptAt(cipher: BlockCipher, key: Bytes, iv: Block, plain: Bytes, j: nat)
    requires |plain| % BLOCK_SIZE == 0 && (j + 1) * BLOCK_SIZE <= |plain|
    ensures var raw := CbcEncrypt(cipher, key, iv, plain);
      BlockAt(raw, j)
      == cipher.encrypt(key, Xor(BlockAt(plain, j), if j == 0 then iv else BlockAt(raw, j - 1)))
    decreases |plain|
  {
    var block, rest := cipher.encrypt(key, Xor(plain[..16], iv)), plain[16..];
    var more := CbcEncrypt(cipher, key, block, rest);
    assert plain == plain[..16] + rest;
    if j > 0 {
      CbcEncryptAt(cipher, key, block, rest, j - 1);
      BlockAtLater(block, more, j - 1);
      BlockAtLater(plain[..16], rest, j - 1);
      if j > 1 { BlockAtLater(block, more, j - 2); }
    }
  }

  lemma {:induction false} CbcDecryptAt(cipher: BlockCipher, key: Bytes, iv: Block, raw: Bytes, j: nat)
    requires |raw| % BLOCK_SIZE == 0 && (j + 1) * BLOCK_SIZE <= |raw|
    ensures BlockAt(CbcDecrypt(cipher, key, iv, raw), j)
      == Xor(cipher.decrypt(key, BlockAt(raw, j)), if j == 0 then iv else BlockAt(raw, j - 1))
    decreases |raw|
  {
    var first, rest := raw[..16], raw[16..];
    var more := CbcDecrypt(cipher, key, first, rest);
    assert raw == first + rest;
    if j > 0 {
      CbcDecryptAt(cipher, key, first, rest, j - 1);
      BlockAtLater(Xor(cipher.decrypt(key, first), iv), more, j - 1);
      BlockAtLater(first, rest, j - 1);
      if j > 1 { BlockAtLater(first, rest, j - 2); }
    }
  }

  datatype CodecError = BadKeySize | BadBase64 | BadCiphertextSize | BadPadding(kind: Padding.PadError)

  // The key lengths crypto/aes accepts.
  predicate KeySizeOk(key: Bytes) {
    |key| == 16 || |key| == 24 || |key| == 32
  }

  function RawCiphertext(cipher: BlockCipher, key: Bytes, iv: Block, plain: Bytes): Bytes {
    CbcEncrypt(cipher, key, iv, Padding.Padded(plain, BLOCK_SIZE))
  }

  function EncryptBase64(cipher: BlockCipher, key: Bytes, iv: Block, plain: Bytes): Result<Bytes, CodecError> {
    if !KeySizeOk(key) then Err(BadKeySize)
    else Ok(Base64.Encode(RawCiphertext(cipher, key, iv, plain)))
  }

  ghost function DecryptBase64(cipher: BlockCipher, key: Bytes, iv: Block, text: Bytes): Result<Bytes, CodecError> {
    match Base64.Decode(text)
    case None => Err(BadBase64)
    case Some(raw) =>
      if |raw| % BLOCK_SIZE != 0 then Err(BadCiphertextSize)
      else if !KeySizeOk(key) then Err(BadKeySize)
      else
        match Padding.Unpadded(CbcDecrypt(cipher, key, iv, raw), BLOCK_SIZE)
        case Err(kind) => Err(BadPadding(kind))
        case Ok(plain) => Ok(plain)
  }

  // The buffers of the source: pad into a fresh buffer, then chain and print it.
  method AesCbcEncryptBase64(cipher: BlockCipher, key: Bytes, iv: Block, plain: Bytes)
    returns (r: Result<Bytes, CodecError>)
    ensures r == EncryptBase64(cipher, key, iv, plain)
  {
    if !KeySizeOk(key) {
      return Err(BadKeySize);
    }
    var padded := Padding.Pkcs7Pad(plain, BLOCK_SIZE);
    return Ok(Base64.Encode(CbcEncrypt(cipher, key, iv, padded[..])));
  }

  method AesCbcDecryptBase64(cipher: BlockCipher, key: Bytes, iv: Block, text: Bytes)
    returns (r: Result<Bytes, CodecError>)
    ensures r == DecryptBase64(cipher, key, iv, text)
  {
    var raw := Base64.Decode(text);
    if raw.None? {
      return Err(BadBase64);
    }
    if |raw.value| % BLOCK_SIZE != 0 {
      return Err(BadCiphertextSize);
    }
    if !KeySizeOk(key) {
      return Err(BadKeySize);
    }
    var unpadded := Padding.Pkcs7Unpad(CbcDecrypt(cipher, key, iv, raw.value), BLOCK_SIZE);
    match unpadded
    case Err(kind) => return Err(BadPadding(kind));
    case Ok(plain) => return Ok(plain);
  }

  // The codec is a two-sided inverse: a text decrypts to `plain` exactly when its base64
  // payload is the raw ciphertext of `plain`.
  lemma DecryptsExactlyTheCiphertexts(cipher: BlockCipher, key: Bytes, iv: Block, text: Bytes, plain: Bytes)
    requires IsPermutation(cipher) && KeySizeOk(key)
    ensures DecryptBase64(cipher, key, iv, text) == Ok(plain)
       <==> Base64.Decode(text) == Some(RawCiphertext(cipher, key, iv, plain))
  {
    var padded := Padding.Padded(plain, BLOCK_SIZE);
    CbcDecryptOfEncrypt(cipher, key, iv, padded);
    Padding.UnpadInvertsPadExactly(padded, plain, BLOCK_SIZE);
    var decoded := Base64.Decode(text);
    if decoded.Some? && |decoded.value| % BLOCK_SIZE == 0 {
      CbcEncryptOfDecrypt(cipher, key, iv, decoded.value);
      Padding.UnpadInvertsPadExactly(CbcDecrypt(cipher, key, iv, decoded.value), plain, BLOCK_SIZE);
    }
  }

  // What is sent: every block of the decoded text is the encryption of the padded data's block, chained to the
  // ciphertext block before it or to the vector; and the padding is as many bytes as each of them says.
  lemma CiphertextBlocks(cipher: BlockCipher, key: Bytes, iv: Block, plain: Bytes, j: nat)
    requires KeySizeOk(key) && j * BLOCK_SIZE <= |plain|
    ensures var raw, padded := RawCiphertext(cipher, key, iv, plain), Padding.Padded(plain, BLOCK_SIZE);
      && Base64.Decode(EncryptBase64(cipher, key, iv, plain).value) == Some(raw)
      && (j + 1) * BLOCK_SIZE <= |padded| == |raw|
      && BlockAt(raw, j)
         == cipher.encrypt(key, Xor(BlockAt(padded, j), if j == 0 then iv else BlockAt(raw, j - 1)))
  {
    Base64.DecodeOfEncode(RawCiphertext(cipher, key, iv, plain));
    PaddedReaches(plain, j);
    CbcEncryptAt(cipher, key, iv, Padding.Padded(plain, BLOCK_SIZE), j);
  }

  lemma PaddedReaches(plain: Bytes, j: nat)
    requires j * BLOCK_SIZE <= |plain|
    ensures (j + 1) * BLOCK_SIZE <= |Padding.Padded(plain, BLOCK_SIZE)|
  {
  }

  lemma DecryptOfEncrypt(cipher: BlockCipher, key: Bytes, iv: Block, plain: Bytes)
    requires IsPermutation(cipher) && KeySizeOk(key)
    ensures EncryptBase64(cipher, key, iv, plain).Ok?
    ensures DecryptBase64(cipher, key, iv, EncryptBase64(cipher, key, iv, plain).value) == Ok(plain)
  {
    var text := EncryptBase64(cipher, key, iv, plain).value;
    Base64.DecodeOfEncode(RawCiphertext(cipher, key, iv, plain));
    DecryptsExactlyTheCiphertexts(cipher, key, iv, text, plain);
  }

  // Re-encrypting what was decrypted gives the same raw ciphertext, and the same text
  // exactly when the text was canonical base64.
  lemma EncryptOfDecrypt(cipher: BlockCipher, key: Bytes, iv: Block, text: Bytes)
    requires IsPermutation(cipher) && DecryptBase64(cipher, key, iv, text).Ok?
    ensures var plain := DecryptBase64(cipher, key, iv, text).value;
            && Base64.Decode(text) == Some(RawCiphertext(cipher, key, iv, plain))
            && (EncryptBase64(cipher, key, iv, plain) == Ok(text) <==> Base64.Canonical(text))
  {
    DecryptsExactlyTheCiphertexts(cipher, key, iv, text, DecryptBase64(cipher, key, iv, text).value);
    Base64.EncodeOfDecode(text);
  }

  // The printed ciphertext has 4/3 of the padded length, rounded up to a multiple of four.
  lemma {:induction false} EncodedLength(data: Bytes)
    ensures |Base64.Encode(data)| == (|data| + 2) / 3 * 4
  {
    if |data| > 2 {
      EncodedLength(data[3..]);
      assert (|data| + 2) / 3 == (|data| - 3 + 2) / 3 + 1;
    }
  }

  lemma CiphertextTextLength(cipher: BlockCipher, key: Bytes, iv: Block, plain: Bytes)
    requires KeySizeOk(key)
    ensures |EncryptBase64(cipher, key, iv, plain).value| == ((|plain| / 16 + 1) * 16 + 2) / 3 * 4
  {
    EncodedLength(RawCiphertext(cipher, key, iv, plain));
  }
}
