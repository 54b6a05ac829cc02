/**
  PKCS#7 padding as the router client applies it before AES-CBC (tplink.go, pkcs7Pad and pkcs7Unpad;
  section 6.3 of RFC 5652).
 */
module Padding {
  import opened Arithmetic
  import opened Basics

  datatype PadError = InvalidData | InvalidPadding

  function PadLength(size: nat, blockSize: nat): (padding: nat)
    requires blockSize >= 1
    ensures 1 <= padding <= blockSize && (size + padding) % blockSize == 0
  {
    var q := size / blockSize;
    assert q * blockSize + blockSize == (q + 1) * blockSize;
    DivisionIsUnique(size + blockSize - size % blockSize, q + 1, 0, blockSize);
    blockSize - size % blockSize
  }

  // The byte written `padding` times: Go's conversion to byte keeps the low eight bits.
  function Padded(data: Bytes, blockSize: nat): Bytes
    requires blockSize >= 1
  {
    var padding := PadLength(|data|, blockSize);
    data + seq(padding, _ => padding % 256)
  }

  // What follows the data is as many bytes as each of them says, one to blockSize of them, up to a whole block.
  lemma PaddedBytes(data: Bytes, blockSize: nat)
    requires blockSize >= 1
    ensures var out := Padded(data, blockSize);
      && |data| < |out| <= |data| + blockSize && |out| % blockSize == 0 && out[..|data|] == data
      && forall i :: |data| <= i < |out| ==> out[i] == (|out| - |data|) % 256
  {
  }

  ghost predicate EndsWithCopies(data: Bytes, padding: nat)
    requires padding <= |data|
  {
    forall i :: |data| - padding <= i < |data| ==> data[i] == padding
  }

  ghost function Unpadded(data: Bytes, blockSize: nat): Result<Bytes, PadError>
    requires blockSize >= 1
  {
    if |data| == 0 || |data| % blockSize != 0 then
      Err(InvalidData)
    else
      var padding := data[|data| - 1];
      if 0 < padding <= blockSize && padding <= |data| && EndsWithCopies(data, padding) then
        Ok(data[..|data| - padding])
      else
        Err(InvalidPadding)
  }

  method Pkcs7Pad(data: Bytes, blockSize: nat) returns (out: array<Byte>)
    requires blockSize >= 1
    ensures fresh(out)
    ensures out[..] == Padded(data, blockSize)
  {
    var padding := blockSize - |data| % blockSize;
    out := new Byte[|data| + padding](_ => 0);
    forall k | 0 <= k < |data| {
      out[k] := data[k];
    }
    var i := |data|;
    while i < out.Length
      invariant |data| <= i <= out.Length
      invariant out[..|data|] == data
      invariant forall k :: |data| <= k < i ==> out[k] == padding % 256
    {
      out[i] := padding % 256;
      i := i + 1;
    }
    assert out[..] == out[..|data|] + out[|data|..];
    assert out[|data|..] == seq(padding, _ => padding % 256);
  }

  method Pkcs7Unpad(data: Bytes, blockSize: nat) returns (r: Result<Bytes, PadError>)
    requires blockSize >= 1
    ensures r == Unpadded(data, blockSize)
  {
    if |data| == 0 || |data| % blockSize != 0 {
      return Err(InvalidData);
    }
    var padding := data[|data| - 1];
    if padding == 0 || padding > blockSize || padding > |data| {
      return Err(InvalidPadding);
    }
    var i := |data| - padding;
    while i < |data|
      invariant |data| - padding <= i <= |data|
      invariant forall k :: |data| - padding <= k < i ==> data[k] == padding
    {
      if data[i] != padding {
        assert !EndsWithCopies(data, padding);
        return Err(InvalidPadding);
      }
      i := i + 1;
    }
    return Ok(data[..|data| - padding]);
  }

  // For every block size a byte can hold, unpadding succeeds on exactly the image of padding.
  lemma UnpadInvertsPadExactly(data: Bytes, plain: Bytes, blockSize: nat)
    requires 1 <= blockSize <= 255
    ensures Unpadded(data, blockSize) == Ok(plain) <==> data == Padded(plain, blockSize)
  {
    if data == Padded(plain, blockSize) {
      RoundTripExactly(plain, blockSize);
    }
    if Unpadded(data, blockSize) == Ok(plain) {
      var padding := data[|data| - 1];
      PadLengthIsUnique(|plain|, blockSize, padding);
      assert data == plain + data[|data| - padding..];
    }
  }

  lemma PadLengthIsUnique(size: nat, blockSize: nat, padding: nat)
    requires 1 <= padding <= blockSize && (size + padding) % blockSize == 0
    ensures padding == PadLength(size, blockSize)
  {
    var q := (size + padding) / blockSize;
    assert size + padding == q * blockSize;
    if padding == blockSize {
      Distribute(q, 1, blockSize);
      DivisionIsUnique(size, q - 1, 0, blockSize);
    } else {
      Distribute(q, 1, blockSize);
      DivisionIsUnique(size, q - 1, blockSize - padding, blockSize);
    }
  }

  // For block sizes beyond 255 the padding byte is truncated: the round trip
  // survives exactly while the padding length itself fits in a byte.
  lemma RoundTripExactly(plain: Bytes, blockSize: nat)
    requires blockSize >= 1
    ensures Unpadded(Padded(plain, blockSize), blockSize) == Ok(plain)
       <==> blockSize - |plain| % blockSize <= 255
  {
    var padding := PadLength(|plain|, blockSize);
    var data := Padded(plain, blockSize);
    assert data[|data| - 1] == padding % 256;
    if padding <= 255 {
      assert data[..|data| - padding] == plain;
    } else if padding % 256 != 0 {
      assert padding % 256 < padding;
    }
  }
}
