/**
  The request signatures of the encrypted router session (tplink.go, sgLoginSignature and
  sgRequestSignature): the sign string is cut into pieces of 53 bytes, each piece is encrypted or
  authenticated on its own, and the pieces are joined as fixed-width hexadecimal blocks.
 */
module Signature {
  import opened Basics
  import opened Text

  const PIECE := 53

  // RSA-OAEP with SHA-1 (section 7.1 of RFC 8017) as a parameter. `keySize` is the modulus length in
  // bytes, or None when the hexadecimal modulus and exponent do not give a usable key; `seed` is the
  // randomness one encryption consumes.
  datatype Oaep = Oaep(
    keySize: (Bytes, Bytes) -> Option<nat>,
    encrypt: (Bytes, Bytes, Bytes, Bytes) -> Bytes,
    decrypt: (Bytes, Bytes, Bytes) -> Option<Bytes>)

  // Two SHA-1 digests and two marker bytes are spent on padding.
  const OAEP_OVERHEAD := 42

  // What is asked of one key: the ciphertext is as long as the modulus, and whoever holds the private key reads
  // it back.
  ghost predicate LawfulAt(rsa: Oaep, n: Bytes, e: Bytes) {
    forall seed, m ::
      rsa.keySize(n, e).Some? && |m| + OAEP_OVERHEAD <= rsa.keySize(n, e).value ==>
        && |rsa.encrypt(n, e, seed, m)| == rsa.keySize(n, e).value
        && rsa.decrypt(n, e, rsa.encrypt(n, e, seed, m)) == Some(m)
  }

  // The assumption can be met by a key of any size: write the length, the message and zeros.
  function Framed(size: nat, m: Bytes): Bytes {
    if |m| < 256 && |m| < size then [|m|] + m + seq(size - |m| - 1, _ => 0) else []
  }

  function Unframed(c: Bytes): Option<Bytes> {
    if c == [] || c[0] >= |c| then None else Some(c[1..c[0] + 1])
  }

  lemma SomeOaepIsLawful(size: nat, n: Bytes, e: Bytes)
    requires size <= 256
    ensures LawfulAt(Oaep((n, e) => Some(size), (n, e, seed, m) => Framed(size, m), (n, e, c) => Unframed(c)), n, e)
  {
    forall m: Bytes | |m| + OAEP_OVERHEAD <= size
      ensures |Framed(size, m)| == size && Unframed(Framed(size, m)) == Some(m)
    {
      assert Framed(size, m)[1..|m| + 1] == m;
    }
  }

  datatype RsaError = BadKey | MessageTooLong

  function RsaEncryptOaep(rsa: Oaep, n: Bytes, e: Bytes, seed: Bytes, m: Bytes): Result<Bytes, RsaError> {
    match rsa.keySize(n, e)
    case None => Err(BadKey)
    case Some(size) =>
      if |m| + OAEP_OVERHEAD > size then Err(MessageTooLong)
      else Ok(LeftPad(HexEncode(rsa.encrypt(n, e, seed, m)), |n|))
  }

  function Min(a: int, b: int): int { if a < b then a else b }

  function Pieces(sign: Bytes): nat { (|sign| + PIECE - 1) / PIECE }

  function Piece(sign: Bytes): Bytes { sign[..Min(PIECE, |sign|)] }

  function AfterPiece(sign: Bytes): Bytes { sign[Min(PIECE, |sign|)..] }

  // The blocks of a sign string; seeds(i) is the randomness of the i-th encryption of the call.
  ghost function LoginBlocks(rsa: Oaep, n: Bytes, e: Bytes, seeds: nat -> Bytes, i: nat,
                             sign: Bytes): Result<Bytes, RsaError>
    decreases |sign|
  {
    if sign == [] then Ok([])
    else Join(RsaEncryptOaep(rsa, n, e, seeds(i), Piece(sign)), LoginBlocks(rsa, n, e, seeds, i + 1, AfterPiece(sign)))
  }

  function Join(first: Result<Bytes, RsaError>, rest: Result<Bytes, RsaError>): Result<Bytes, RsaError> {
    match first
    case Err(error) => Err(error)
    case Ok(block) =>
      match rest
      case Err(error) => Err(error)
      case Ok(blocks) => Ok(block + blocks)
  }

  // The session fields that go into a signature.
  datatype Secrets = Secrets(aesKey: Bytes, aesIV: Bytes, hash: Bytes, sequence: int)

  function LoginSignString(s: Secrets, dataLen: nat): Bytes {
    Ascii("k=") + s.aesKey + Ascii("&i=") + s.aesIV + Ascii("&h=") + s.hash + Ascii("&s=")
      + Decimal(Wrap64(s.sequence + dataLen))
  }

  function RequestSignString(s: Secrets, dataLen: nat): Bytes {
    Ascii("h=") + s.hash + Ascii("&s=") + Decimal(Wrap64(s.sequence + dataLen))
  }

  // One turn of the signature loop.
  lemma LoginStep(rsa: Oaep, n: Bytes, e: Bytes, seeds: nat -> Bytes, i: nat, sign: Bytes, start: nat, end: nat,
                  out: Bytes)
    requires start < |sign| && end == Min(start + PIECE, |sign|)
    ensures sign[start..] != [] && (start + PIECE >= |sign| ==> sign[end..] == [])
    ensures var chunk := RsaEncryptOaep(rsa, n, e, seeds(i), sign[start..end]);
      Join(Ok(out), LoginBlocks(rsa, n, e, seeds, i, sign[start..]))
      == if chunk.Err? then Err(chunk.error)
         else Join(Ok(out + chunk.value), LoginBlocks(rsa, n, e, seeds, i + 1, sign[end..]))
  {
    var rest := sign[start..];
    assert Piece(rest) == sign[start..end] && AfterPiece(rest) == sign[end..];
    var chunk := RsaEncryptOaep(rsa, n, e, seeds(i), sign[start..end]);
    if chunk.Ok? {
      JoinIsAssociative(out, chunk.value, LoginBlocks(rsa, n, e, seeds, i + 1, sign[end..]));
    }
  }

  method SgLoginSignature(rsa: Oaep, n: Bytes, e: Bytes, seeds: nat -> Bytes, s: Secrets, dataLen: nat)
    returns (r: Result<Bytes, RsaError>)
    ensures r == LoginBlocks(rsa, n, e, seeds, 0, LoginSignString(s, dataLen))
  {
    var sign := LoginSignString(s, dataLen);
    var out: Bytes := [];
    var start, i := 0, 0;
    assert sign[0..] == sign;
    assert forall rest: Bytes :: [] + rest == rest;
    while start < |sign|
      invariant start >= 0
      invariant var rest := if start <= |sign| then sign[start..] else [];
        LoginBlocks(rsa, n, e, seeds, 0, sign) == Join(Ok(out), LoginBlocks(rsa, n, e, seeds, i, rest))
      decreases |sign| - start
    {
      var end := start + PIECE;
      if end > |sign| {
        end := |sign|;
      }
      LoginStep(rsa, n, e, seeds, i, sign, start, end, out);
      var chunk := RsaEncryptOaep(rsa, n, e, seeds(i), sign[start..end]);
      if chunk.Err? {
        return Err(chunk.error);
      }
      out := out + chunk.value;
      start := start + PIECE;
      i := i + 1;
    }
    assert out + [] == out;
    return Ok(out);
  }

  lemma JoinIsAssociative(a: Bytes, b: Bytes, rest: Result<Bytes, RsaError>)
    ensures Join(Ok(a), Join(Ok(b), rest)) == Join(Ok(a + b), rest)
  {
    if rest.Ok? {
      assert a + (b + rest.value) == a + b + rest.value;
    }
  }

  // ----- The router's side: equal-width blocks, each hexadecimal block decrypted on its own. -----

  function BlockWidth(size: nat, n: Bytes): nat {
    if 2 * size >= |n| then 2 * size else |n|
  }

  function DecryptBlock(rsa: Oaep, n: Bytes, e: Bytes, size: nat, block: Bytes): Option<Bytes>
    requires 2 * size <= |block|
  {
    match HexDecode(block[|block| - 2 * size..])
    case None => None
    case Some(raw) => rsa.decrypt(n, e, raw)
  }

  function DecryptBlocks(rsa: Oaep, n: Bytes, e: Bytes, size: nat, text: Bytes): Option<Bytes>
    requires size > 0
    decreases |text|
  {
    var width := BlockWidth(size, n);
    if text == [] then Some([])
    else if |text| < width then None
    else
      match (DecryptBlock(rsa, n, e, size, text[..width]), DecryptBlocks(rsa, n, e, size, text[width..]))
      case (Some(m), Some(rest)) => Some(m + rest)
      case _ => None
  }

  lemma BlockRoundTrip(rsa: Oaep, n: Bytes, e: Bytes, seed: Bytes, m: Bytes)
    requires LawfulAt(rsa, n, e) && RsaEncryptOaep(rsa, n, e, seed, m).Ok?
    ensures var size := rsa.keySize(n, e).value;
            var block := RsaEncryptOaep(rsa, n, e, seed, m).value;
            && size > 0 && |block| == BlockWidth(size, n)
            && DecryptBlock(rsa, n, e, size, block) == Some(m)
  {
    HexDecodeOfEncode(rsa.encrypt(n, e, seed, m));
  }

  // Splitting a successful signature into equal-width blocks and decrypting
  // each gives back the whole sign string: nothing is lost, repeated or reordered.
  lemma {:induction false} LoginBlocksRecoverable(rsa: Oaep, n: Bytes, e: Bytes, seeds: nat -> Bytes, i: nat,
                                                  sign: Bytes)
    requires LawfulAt(rsa, n, e) && rsa.keySize(n, e).Some? && rsa.keySize(n, e).value > 0
    requires LoginBlocks(rsa, n, e, seeds, i, sign).Ok?
    ensures var size := rsa.keySize(n, e).value;
            var text := LoginBlocks(rsa, n, e, seeds, i, sign).value;
            && |text| == Pieces(sign) * BlockWidth(size, n)
            && DecryptBlocks(rsa, n, e, size, text) == Some(sign)
    decreases |sign|
  {
    if sign != [] {
      var size := rsa.keySize(n, e).value;
      var block := RsaEncryptOaep(rsa, n, e, seeds(i), Piece(sign)).value;
      var rest := LoginBlocks(rsa, n, e, seeds, i + 1, AfterPiece(sign)).value;
      BlockRoundTrip(rsa, n, e, seeds(i), Piece(sign));
      LoginBlocksRecoverable(rsa, n, e, seeds, i + 1, AfterPiece(sign));
      PiecesStep(sign, BlockWidth(size, n));
      DecryptFirstBlock(rsa, n, e, size, block, rest);
    }
  }

  lemma PiecesStep(sign: Bytes, width: nat)
    requires sign != []
    ensures Pieces(sign) * width == width + Pieces(AfterPiece(sign)) * width
    ensures Piece(sign) + AfterPiece(sign) == sign
  {
    assert Pieces(sign) == 1 + Pieces(AfterPiece(sign));
  }

  lemma DecryptFirstBlock(rsa: Oaep, n: Bytes, e: Bytes, size: nat, block: Bytes, rest: Bytes)
    requires size > 0 && |block| == BlockWidth(size, n)
    requires DecryptBlock(rsa, n, e, size, block).Some? && DecryptBlocks(rsa, n, e, size, rest).Some?
    ensures DecryptBlocks(rsa, n, e, size, block + rest)
         == Some(DecryptBlock(rsa, n, e, size, block).value + DecryptBlocks(rsa, n, e, size, rest).value)
  {
    assert (block + rest)[..|block|] == block && (block + rest)[|block|..] == rest;
  }

  // A non-empty sign string is signed exactly when the key is usable and large enough for its longest piece.
  lemma {:induction false} LoginBlocksSucceed(rsa: Oaep, n: Bytes, e: Bytes, seeds: nat -> Bytes, i: nat, sign: Bytes)
    requires sign != []
    ensures LoginBlocks(rsa, n, e, seeds, i, sign).Ok?
       <==> rsa.keySize(n, e).Some? && Min(PIECE, |sign|) + OAEP_OVERHEAD <= rsa.keySize(n, e).value
    decreases |sign|
  {
    if |sign| > PIECE {
      LoginBlocksSucceed(rsa, n, e, seeds, i + 1, AfterPiece(sign));
    } else {
      assert AfterPiece(sign) == [];
    }
  }

  // What prepareSGLogin and requestSG put into the session: sixteen digits each for
  // the key and the IV, and a hexadecimal SHA-256.
  predicate Prepared(s: Secrets) {
    |s.aesKey| == 16 && |s.aesIV| == 16 && |s.hash| == 64
  }

  // The router reads the fields back at their fixed offsets, each behind its name.
  function ParseLoginSign(sign: Bytes): Option<Secrets> {
    if |sign| <= 107 || sign[..2] != Ascii("k=") || sign[18..21] != Ascii("&i=")
       || sign[37..40] != Ascii("&h=") || sign[104..107] != Ascii("&s=")
    then None
    else Some(Secrets(sign[2..18], sign[21..37], sign[40..104], DecimalValue(sign[107..])))
  }

  lemma FieldsAtOffsets(k: Bytes, key: Bytes, i: Bytes, iv: Bytes, h: Bytes, hash: Bytes, s: Bytes, number: Bytes)
    requires |k| == 2 && |key| == 16 && |i| == 3 && |iv| == 16 && |h| == 3 && |hash| == 64 && |s| == 3
    ensures var sign := k + key + i + iv + h + hash + s + number;
      && |sign| == 107 + |number|
      && sign[..2] == k && sign[18..21] == i && sign[37..40] == h && sign[104..107] == s
      && sign[2..18] == key && sign[21..37] == iv && sign[40..104] == hash && sign[107..] == number
  {
  }

  lemma ParseOfLoginSignString(s: Secrets, dataLen: nat)
    requires Prepared(s)
    ensures 108 <= |LoginSignString(s, dataLen)| <= 127
    ensures ParseLoginSign(LoginSignString(s, dataLen)) == Some(s.(sequence := Wrap64(s.sequence + dataLen)))
  {
    var sign := LoginSignString(s, dataLen);
    var number := Decimal(Wrap64(s.sequence + dataLen));
    Int64DecimalLength(Wrap64(s.sequence + dataLen));
    DecimalValueOfDecimal(Wrap64(s.sequence + dataLen));
    FieldsAtOffsets(Ascii("k="), s.aesKey, Ascii("&i="), s.aesIV, Ascii("&h="), s.hash, Ascii("&s="), number);
  }

  // A prepared session's login signature is issued exactly when the key is usable and has at least 95 bytes,
  // whoever can decrypt under it.
  lemma LoginSignatureIssued(rsa: Oaep, n: Bytes, e: Bytes, seeds: nat -> Bytes, s: Secrets, dataLen: nat)
    requires Prepared(s)
    ensures LoginBlocks(rsa, n, e, seeds, 0, LoginSignString(s, dataLen)).Ok?
       <==> rsa.keySize(n, e).Some? && rsa.keySize(n, e).value >= 95
  {
    ParseOfLoginSignString(s, dataLen);
    LoginBlocksSucceed(rsa, n, e, seeds, 0, LoginSignString(s, dataLen));
  }

  lemma ThreePieces(sign: Bytes)
    requires 108 <= |sign| <= 127
    ensures Pieces(sign) == 3
  {
  }

  // The whole way: it always has exactly three blocks, and the router that splits and decrypts it reads
  // exactly the session's key, IV, hash and sequence.
  lemma LoginSignatureDecodes(rsa: Oaep, n: Bytes, e: Bytes, seeds: nat -> Bytes, s: Secrets, dataLen: nat)
    requires Prepared(s) && LawfulAt(rsa, n, e)
    requires rsa.keySize(n, e).Some? && rsa.keySize(n, e).value >= 95
    ensures var signature := LoginBlocks(rsa, n, e, seeds, 0, LoginSignString(s, dataLen));
      var size := rsa.keySize(n, e).value;
            && signature.Ok? && |signature.value| == 3 * BlockWidth(size, n)
            && DecryptBlocks(rsa, n, e, size, signature.value) == Some(LoginSignString(s, dataLen))
    ensures ParseLoginSign(LoginSignString(s, dataLen)) == Some(s.(sequence := Wrap64(s.sequence + dataLen)))
  {
    LoginSignatureIssued(rsa, n, e, seeds, s, dataLen);
    ParseOfLoginSignString(s, dataLen);
    ThreePieces(LoginSignString(s, dataLen));
    LoginBlocksRecoverable(rsa, n, e, seeds, 0, LoginSignString(s, dataLen));
  }

  // ----- Request signatures: HMAC-SHA256 of each piece. -----

  type Digest = b: Bytes | |b| == 32 witness seq(32, _ => 0)

  function MacKey(s: Secrets): Bytes {
    Ascii("k=") + s.aesKey + Ascii("&i=") + s.aesIV
  }

  function RequestBlocks(hmac: (Bytes, Bytes) -> Digest, key: Bytes, sign: Bytes): Bytes
    decreases |sign|
  {
    if sign == [] then [] else HexEncode(hmac(key, Piece(sign))) + RequestBlocks(hmac, key, AfterPiece(sign))
  }

  method SgRequestSignature(hmac: (Bytes, Bytes) -> Digest, s: Secrets, dataLen: nat) returns (out: Bytes)
    ensures out == RequestBlocks(hmac, MacKey(s), RequestSignString(s, dataLen))
  {
    var sign := RequestSignString(s, dataLen);
    var key := MacKey(s);
    out := [];
    var start := 0;
    assert sign[0..] == sign;
    while start < |sign|
      invariant start >= 0
      invariant RequestBlocks(hmac, key, sign)
        == out + RequestBlocks(hmac, key, if start <= |sign| then sign[start..] else [])
      decreases |sign| - start
    {
      var end := start + PIECE;
      if end > |sign| {
        end := |sign|;
      }
      ghost var rest := sign[start..];
      assert Piece(rest) == sign[start..end] && AfterPiece(rest) == sign[end..];
      assert end == |sign| ==> sign[end..] == [];
      RequestStep(hmac, key, out, rest);
      out := out + HexEncode(hmac(key, sign[start..end]));
      start := start + PIECE;
    }
  }

  lemma RequestStep(hmac: (Bytes, Bytes) -> Digest, key: Bytes, out: Bytes, rest: Bytes)
    requires rest != []
    ensures out + RequestBlocks(hmac, key, rest)
         == out + HexEncode(hmac(key, Piece(rest))) + RequestBlocks(hmac, key, AfterPiece(rest))
  {
  }

  // What a router that knows the session checks them with: the key and the vector, each behind its name ...
  function ParseMacKey(key: Bytes): Option<(Bytes, Bytes)> {
    if |key| != 37 || key[..2] != Ascii("k=") || key[18..21] != Ascii("&i=") then None
    else Some((key[2..18], key[21..37]))
  }

  // ... and the hash and the sequence.
  function ParseRequestSign(sign: Bytes): Option<(Bytes, int)> {
    if |sign| <= 69 || sign[..2] != Ascii("h=") || sign[66..69] != Ascii("&s=") then None
    else Some((sign[2..66], DecimalValue(sign[69..])))
  }

  lemma ParseOfMacKey(s: Secrets)
    requires Prepared(s)
    ensures ParseMacKey(MacKey(s)) == Some((s.aesKey, s.aesIV))
  {
    var k, i, key := Ascii("k="), Ascii("&i="), MacKey(s);
    assert key[..2] == k && key[2..18] == s.aesKey && key[18..21] == i && key[21..37] == s.aesIV;
  }

  lemma ParseOfRequestSignString(s: Secrets, dataLen: nat)
    requires Prepared(s)
    ensures ParseRequestSign(RequestSignString(s, dataLen)) == Some((s.hash, Wrap64(s.sequence + dataLen)))
  {
    var h, field, number := Ascii("h="), Ascii("&s="), Decimal(Wrap64(s.sequence + dataLen));
    Int64DecimalLength(Wrap64(s.sequence + dataLen));
    DecimalValueOfDecimal(Wrap64(s.sequence + dataLen));
    var sign := RequestSignString(s, dataLen);
    assert sign[..2] == h && sign[2..66] == s.hash && sign[66..69] == field && sign[69..] == number;
  }

  // A request signature is always two blocks of 64 characters: the
  // authentication codes of the first 53 bytes and of the remaining ones.
  lemma RequestSignatureShape(hmac: (Bytes, Bytes) -> Digest, s: Secrets, dataLen: nat)
    requires |s.hash| == 64
    ensures var sign := RequestSignString(s, dataLen);
            var text := RequestBlocks(hmac, MacKey(s), sign);
            && |text| == 128 && |sign| > 53
            && HexDecode(text[..64]) == Some(hmac(MacKey(s), sign[..53]))
            && HexDecode(text[64..]) == Some(hmac(MacKey(s), sign[53..]))
  {
    var sign := RequestSignString(s, dataLen);
    Int64DecimalLength(Wrap64(s.sequence + dataLen));
    var rest := AfterPiece(sign);
    assert Piece(sign) == sign[..PIECE] && rest == sign[PIECE..];
    assert Piece(rest) == rest && AfterPiece(rest) == [];
    var first, second := HexEncode(hmac(MacKey(s), Piece(sign))), HexEncode(hmac(MacKey(s), rest));
    assert RequestBlocks(hmac, MacKey(s), rest) == second + [] == second;
    var text := RequestBlocks(hmac, MacKey(s), sign);
    assert text == first + second;
    assert text[..64] == first && text[64..] == second;
    HexDecodeOfEncode(hmac(MacKey(s), Piece(sign)));
    HexDecodeOfEncode(hmac(MacKey(s), rest));
  }
}
