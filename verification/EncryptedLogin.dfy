/**
  The encrypted login from end to end (tplink.go, finishSGLogin and signedForm): the client encrypts the login
  body, signs its length and sends both as one form; a router holding the private key reads the form back.
 */
module EncryptedLogin {
  import opened Basics
  import opened Text
  import opened Signature
  import Codec

  // ----- url.QueryEscape and its inverse. -----

  const SPACE: Byte := 32
  const PERCENT: Byte := 37
  const AMPERSAND: Byte := 38
  const PLUS: Byte := 43

  predicate Unreserved(b: Byte) {
    48 <= b <= 57 || 65 <= b <= 90 || 97 <= b <= 122 || b == 45 || b == 46 || b == 95 || b == 126
  }

  function UpperHexDigit(v: int): Byte
    requires 0 <= v < 16
  {
    if v < 10 then 48 + v else 55 + v
  }

  // Letters, digits and four marks, as section 2.3 of RFC 3986 lists them; the escapes are printed in upper case.
  lemma UnreservedExactly(b: Byte)
    ensures var c := b as char;
      Unreserved(b) <==> 'A' <= c <= 'Z' || 'a' <= c <= 'z' || '0' <= c <= '9' || c in "-._~"
  {
  }

  lemma EscapeDigitsInOrder(v: int)
    requires 0 <= v < 16
    ensures UpperHexDigit(v) == "0123456789ABCDEF"[v] as int
  {
  }

  function EscapeByte(b: Byte): Bytes {
    if Unreserved(b) then [b]
    else if b == SPACE then [PLUS]
    else [PERCENT, UpperHexDigit(b / 16), UpperHexDigit(b % 16)]
  }

  // A blank is sent as a plus, any other reserved byte as a percent sign and its two digits.
  lemma EscapesExactly(b: Byte)
    ensures Unreserved(b) ==> EscapeByte(b) == [b]
    ensures b as char == ' ' ==> EscapeByte(b) == Ascii("+")
    ensures !Unreserved(b) && b as char != ' ' ==>
      EscapeByte(b) == Ascii("%") + ["0123456789ABCDEF"[b / 16] as Byte, "0123456789ABCDEF"[b % 16] as Byte]
  {
    EscapeDigitsInOrder(b / 16);
    EscapeDigitsInOrder(b % 16);
  }

  function QueryEscape(s: Bytes): Bytes {
    if s == [] then [] else EscapeByte(s[0]) + QueryEscape(s[1..])
  }

  function Prepend(b: Byte, rest: Option<Bytes>): Option<Bytes> { if rest.None? then None else Some([b] + rest.value) }

  function QueryUnescape(t: Bytes): Option<Bytes> {
    if t == [] then Some([])
    else if t[0] == PLUS then Prepend(SPACE, QueryUnescape(t[1..]))
    else if t[0] != PERCENT then Prepend(t[0], QueryUnescape(t[1..]))
    else if |t| < 3 || HexValue(t[1]).None? || HexValue(t[2]).None? then None
    else Prepend(HexValue(t[1]).value * 16 + HexValue(t[2]).value, QueryUnescape(t[3..]))
  }

  lemma UnescapeOne(b: Byte, rest: Bytes)
    ensures QueryUnescape(EscapeByte(b) + rest) == Prepend(b, QueryUnescape(rest))
  {
    var t := EscapeByte(b) + rest;
    assert t[|EscapeByte(b)|..] == rest;
    if !Unreserved(b) && b != SPACE {
      assert HexValue(UpperHexDigit(b / 16)) == Some(b / 16) && HexValue(UpperHexDigit(b % 16)) == Some(b % 16);
    }
  }

  lemma {:induction false} UnescapeOfEscape(s: Bytes)
    ensures QueryUnescape(QueryEscape(s)) == Some(s)
  {
    if s != [] {
      UnescapeOfEscape(s[1..]);
      UnescapeOne(s[0], QueryEscape(s[1..]));
      assert s == [s[0]] + s[1..];
    }
  }

  lemma {:induction false} EscapeHasNoAmpersand(s: Bytes)
    ensures AMPERSAND !in QueryEscape(s)
  {
    if s != [] { EscapeHasNoAmpersand(s[1..]); }
  }

  // ----- The form. -----

  function SignedForm(sign: Bytes, data: Bytes): Bytes {
    Ascii("sign=") + QueryEscape(sign) + (Ascii("&data=") + QueryEscape(data))
  }

  function UpToAmpersand(t: Bytes): (n: nat)
    ensures n <= |t|
  {
    if t == [] || t[0] == AMPERSAND then 0 else 1 + UpToAmpersand(t[1..])
  }

  // What the router makes of a form of two fields.
  function ReadForm(form: Bytes): Option<(Bytes, Bytes)> {
    var n := UpToAmpersand(form);
    if n < 5 || |form| < n + 6 || form[..5] != Ascii("sign=") || form[n..n + 6] != Ascii("&data=") then None
    else
      match (QueryUnescape(form[5..n]), QueryUnescape(form[n + 6..]))
      case (Some(sign), Some(data)) => Some((sign, data))
      case _ => None
  }

  lemma {:induction false} FirstAmpersand(t: Bytes, rest: Bytes)
    requires AMPERSAND !in t && rest != [] && rest[0] == AMPERSAND
    ensures UpToAmpersand(t + rest) == |t|
  {
    if t == [] {
      assert t + rest == rest;
    } else {
      assert (t + rest)[1..] == t[1..] + rest;
      FirstAmpersand(t[1..], rest);
    }
  }

  lemma FieldNames()
    ensures |Ascii("sign=")| == 5 && |Ascii("&data=")| == 6
    ensures AMPERSAND !in Ascii("sign=") && Ascii("&data=")[0] == AMPERSAND
  {
  }

  lemma FormParts(name: Bytes, x: Bytes, next: Bytes, y: Bytes)
    ensures var form, n := name + x + (next + y), |name| + |x|;
      && form[..|name|] == name && form[|name|..n] == x
      && form[n..n + |next|] == next && form[n + |next|..] == y
  {
  }

  lemma ReadFormOfSignedForm(sign: Bytes, data: Bytes)
    ensures ReadForm(SignedForm(sign, data)) == Some((sign, data))
  {
    FieldNames();
    EscapeHasNoAmpersand(sign);
    FirstAmpersand(Ascii("sign=") + QueryEscape(sign), Ascii("&data=") + QueryEscape(data));
    FormParts(Ascii("sign="), QueryEscape(sign), Ascii("&data="), QueryEscape(data));
    UnescapeOfEscape(sign);
    UnescapeOfEscape(data);
  }

  // ----- The login. -----

  function LoginBody(passwordValue: Bytes): Bytes {
    Ascii("operation=login&password=") + passwordValue + Ascii("&confirm=true")
  }

  // What a router makes of the opened body.
  function ReadPassword(body: Bytes): Option<Bytes> {
    if |body| < 38 || body[..25] != Ascii("operation=login&password=") || body[|body| - 13..] != Ascii("&confirm=true")
    then None
    else Some(body[25..|body| - 13])
  }

  lemma ReadPasswordOfLoginBody(passwordValue: Bytes)
    ensures ReadPassword(LoginBody(passwordValue)) == Some(passwordValue)
  {
    var head, tail, body := Ascii("operation=login&password="), Ascii("&confirm=true"), LoginBody(passwordValue);
    assert |head| == 25 && |tail| == 13;
    assert body[..25] == head && body[25..|body| - 13] == passwordValue && body[|body| - 13..] == tail;
  }

  datatype LoginError = NotEncrypted(codec: Codec.CodecError) | NotSigned(rsa: RsaError)

  // A session's initialisation vector is handed to the cipher as a block.
  predicate HasIV(s: Secrets) { |s.aesIV| == 16 }

  ghost function LoginForm(cipher: Codec.BlockCipher, rsa: Oaep, n: Bytes, e: Bytes, seeds: nat -> Bytes, s: Secrets,
                           body: Bytes): Result<Bytes, LoginError>
    requires HasIV(s)
  {
    match Codec.EncryptBase64(cipher, s.aesKey, s.aesIV, body)
    case Err(codec) => Err(NotEncrypted(codec))
    case Ok(data) =>
      match LoginBlocks(rsa, n, e, seeds, 0, LoginSignString(s, |data|))
      case Err(error) => Err(NotSigned(error))
      case Ok(sign) => Ok(SignedForm(sign, data))
  }

  // The first half of finishSGLogin.
  method BuildLoginForm(cipher: Codec.BlockCipher, rsa: Oaep, n: Bytes, e: Bytes, seeds: nat -> Bytes, s: Secrets,
                        passwordValue: Bytes)
    returns (r: Result<Bytes, LoginError>)
    requires HasIV(s)
    ensures r == LoginForm(cipher, rsa, n, e, seeds, s, LoginBody(passwordValue))
  {
    var data := Codec.AesCbcEncryptBase64(cipher, s.aesKey, s.aesIV, LoginBody(passwordValue));
    if data.Err? {
      return Err(NotEncrypted(data.error));
    }
    var sign := SgLoginSignature(rsa, n, e, seeds, s, |data.value|);
    if sign.Err? {
      return Err(NotSigned(sign.error));
    }
    return Ok(SignedForm(sign.value, data.value));
  }

  lemma WrapUndone(x: int, d: nat)
    requires IsInt64(x)
    ensures Wrap64(Wrap64(x + d) - d) == x
  {
  }

  // With the secrets of a signature the router opens the body they were sent with.
  ghost function OpenBody(cipher: Codec.BlockCipher, s: Secrets, data: Bytes): Option<(Secrets, Bytes)>
    requires HasIV(s)
  {
    match Codec.DecryptBase64(cipher, s.aesKey, s.aesIV, data)
    case Err(_) => None
    case Ok(body) => Some((s.(sequence := Wrap64(s.sequence - |data|)), body))
  }

  ghost function OpenSigned(cipher: Codec.BlockCipher, plain: Option<Bytes>, data: Bytes): Option<(Secrets, Bytes)> {
    if plain.None? || ParseLoginSign(plain.value).None? then None
    else OpenBody(cipher, ParseLoginSign(plain.value).value, data)
  }

  // What a router with the private key reads: the secrets out of the signature, and with them the body.
  ghost function RouterReads(cipher: Codec.BlockCipher, rsa: Oaep, n: Bytes, e: Bytes, size: nat,
                             form: Bytes): Option<(Secrets, Bytes)>
    requires size > 0
  {
    match ReadForm(form)
    case None => None
    case Some((sign, data)) => OpenSigned(cipher, DecryptBlocks(rsa, n, e, size, sign), data)
  }

  lemma BodyOpens(cipher: Codec.BlockCipher, s: Secrets, body: Bytes)
    requires Codec.IsPermutation(cipher) && Prepared(s) && IsInt64(s.sequence)
    ensures var data := Codec.EncryptBase64(cipher, s.aesKey, s.aesIV, body);
      data.Ok? && OpenBody(cipher, s.(sequence := Wrap64(s.sequence + |data.value|)), data.value) == Some((s, body))
  {
    Codec.DecryptOfEncrypt(cipher, s.aesKey, s.aesIV, body);
    WrapUndone(s.sequence, |Codec.EncryptBase64(cipher, s.aesKey, s.aesIV, body).value|);
  }

  // A prepared session's login is sent exactly if the key is usable and has at least 95 bytes.
  lemma LoginIsSentExactly(cipher: Codec.BlockCipher, rsa: Oaep, n: Bytes, e: Bytes, seeds: nat -> Bytes, s: Secrets,
                           body: Bytes)
    requires Prepared(s)
    ensures LoginForm(cipher, rsa, n, e, seeds, s, body).Ok?
       <==> rsa.keySize(n, e).Some? && rsa.keySize(n, e).value >= 95
  {
    LoginSignatureIssued(rsa, n, e, seeds, s, |Codec.EncryptBase64(cipher, s.aesKey, s.aesIV, body).value|);
  }

  // End to end: the router that holds the private key recovers from it the session's key, IV, hash and sequence, and
  // the login body.
  lemma RouterReadsTheLogin(cipher: Codec.BlockCipher, rsa: Oaep, n: Bytes, e: Bytes, seeds: nat -> Bytes, s: Secrets,
                            body: Bytes)
    requires Codec.IsPermutation(cipher) && LawfulAt(rsa, n, e) && Prepared(s) && IsInt64(s.sequence)
    requires rsa.keySize(n, e).Some? && rsa.keySize(n, e).value >= 95
    ensures var form := LoginForm(cipher, rsa, n, e, seeds, s, body);
      form.Ok? && RouterReads(cipher, rsa, n, e, rsa.keySize(n, e).value, form.value) == Some((s, body))
  {
    BodyOpens(cipher, s, body);
    var data := Codec.EncryptBase64(cipher, s.aesKey, s.aesIV, body).value;
    LoginSignatureDecodes(rsa, n, e, seeds, s, |data|);
    var sign := LoginBlocks(rsa, n, e, seeds, 0, LoginSignString(s, |data|)).value;
    ReadFormOfSignedForm(sign, data);
  }
}
