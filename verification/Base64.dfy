/**
  Standard base64 (section 4 of RFC 4648) with the reading rules of Go's StdEncoding, which the router
  client uses: line breaks anywhere are skipped and the unused bits of a last quantum are ignored.
 */
module Base64 {
  import opened Basics

  type Sextet = x: int | 0 <= x < 64

  const PAD: Byte := 61  // '='
  const CR: Byte := 13
  const LF: Byte := 10

  function Symbol(v: Sextet): (c: Byte)
    ensures c != PAD && c != CR && c != LF
  {
    if v < 26 then 65 + v
    else if v < 52 then 97 + (v - 26)
    else if v < 62 then 48 + (v - 52)
    else if v == 62 then 43
    else 47
  }

  // Table 1 of RFC 4648.
  lemma SymbolsOfTheAlphabet(v: Sextet)
    ensures v < 26 ==> Symbol(v) == "ABCDEFGHIJKLMNOPQRSTUVWXYZ"[v] as int
    ensures 26 <= v < 52 ==> Symbol(v) == "abcdefghijklmnopqrstuvwxyz"[v - 26] as int
    ensures 52 <= v ==> Symbol(v) == "0123456789+/"[v - 52] as int
  {
  }

  function Value(c: Byte): (v: Option<Sextet>)
    ensures v.Some? <==> exists s: Sextet :: Symbol(s) == c
    ensures v.Some? ==> Symbol(v.value) == c
  {
    if 65 <= c <= 90 then assert Symbol(c - 65) == c; Some(c - 65)
    else if 97 <= c <= 122 then assert Symbol(c - 71) == c; Some(c - 71)
    else if 48 <= c <= 57 then assert Symbol(c + 4) == c; Some(c + 4)
    else if c == 43 then assert Symbol(62) == c; Some(62)
    else if c == 47 then assert Symbol(63) == c; Some(63)
    else None
  }

  lemma ValueOfSymbol(v: Sextet)
    ensures Value(Symbol(v)) == Some(v)
  {
  }

  // A quantum of four symbols without padding.
  function Quantum(a: Sextet, b: Sextet, c: Sextet, d: Sextet): (q: Bytes)
    ensures |q| == 4 && CR !in q && LF !in q && PAD !in q
  {
    [Symbol(a), Symbol(b), Symbol(c), Symbol(d)]
  }

  // The last quantum, for one or two bytes.
  function LastOne(a: Sextet, b: Sextet): (q: Bytes)
    ensures |q| == 4 && CR !in q && LF !in q
  {
    [Symbol(a), Symbol(b), PAD, PAD]
  }

  function LastTwo(a: Sextet, b: Sextet, c: Sextet): (q: Bytes)
    ensures |q| == 4 && CR !in q && LF !in q
  {
    [Symbol(a), Symbol(b), Symbol(c), PAD]
  }

  // The four symbols of three bytes.
  function QuantumOf(x: Byte, y: Byte, z: Byte): (q: Bytes)
    ensures |q| == 4 && CR !in q && LF !in q && PAD !in q
  {
    Quantum(x / 4, x % 4 * 16 + y / 16, y % 16 * 4 + z / 64, z % 64)
  }

  function Encode(data: Bytes): Bytes {
    if |data| == 0 then []
    else if |data| == 1 then
      LastOne(data[0] / 4, data[0] % 4 * 16)
    else if |data| == 2 then
      LastTwo(data[0] / 4, data[0] % 4 * 16 + data[1] / 16, data[1] % 16 * 4)
    else QuantumOf(data[0], data[1], data[2]) + Encode(data[3..])
  }

  // Six bits a symbol, the high ones first: the number the symbols of a quantum spell is that of its three bytes.
  lemma QuantumSpells(x: Byte, y: Byte, z: Byte)
    ensures exists a: Sextet, b: Sextet, c: Sextet, d: Sextet ::
      QuantumOf(x, y, z) == [Symbol(a), Symbol(b), Symbol(c), Symbol(d)]
      && ((a * 64 + b) * 64 + c) * 64 + d == (x * 256 + y) * 256 + z
  {
    var a: Sextet, b: Sextet, c: Sextet, d: Sextet := x / 4, x % 4 * 16 + y / 16, y % 16 * 4 + z / 64, z % 64;
    assert QuantumOf(x, y, z) == [Symbol(a), Symbol(b), Symbol(c), Symbol(d)];
  }

  function WithoutLineBreaks(text: Bytes): Bytes {
    if text == [] then []
    else if text[0] == CR || text[0] == LF then WithoutLineBreaks(text[1..])
    else [text[0]] + WithoutLineBreaks(text[1..])
  }

  // Reads quanta of four symbols; padding may only close the last one.
  function DecodeQuanta(text: Bytes): Option<Bytes> {
    if text == [] then Some([])
    else if |text| < 4 then None
    else
      match (Value(text[0]), Value(text[1]))
      case (Some(a), Some(b)) =>
        var first: Byte := a * 4 + b / 16;
        (match Value(text[2])
         case None => if text[2..] == [PAD, PAD] then Some([first]) else None
         case Some(c) =>
           var second: Byte := b % 16 * 16 + c / 4;
           match Value(text[3])
           case None => if text[3..] == [PAD] then Some([first, second]) else None
           case Some(d) =>
             var third: Byte := c % 4 * 64 + d;
             match DecodeQuanta(text[4..])
             case None => None
             case Some(rest) => Some([first, second, third] + rest))
      case _ => None
  }

  function Decode(text: Bytes): Option<Bytes> {
    DecodeQuanta(WithoutLineBreaks(text))
  }

  // Nothing but line breaks is skipped: every other character of a text that decodes is a symbol or padding.
  lemma {:induction false} QuantaAreSymbols(text: Bytes)
    requires DecodeQuanta(text).Some?
    ensures forall c :: c in text ==> Value(c).Some? || c == PAD
  {
    if text != [] {
      assert text == text[..4] + text[4..] && text[..4] == [text[0], text[1], text[2], text[3]];
      if Value(text[2]).Some? && Value(text[3]).Some? {
        QuantaAreSymbols(text[4..]);
      } else if Value(text[2]).Some? {
        assert text[3..] == [PAD];
        assert text[3] == text[3..][0];
      } else {
        assert text[2..] == [PAD, PAD];
        assert text[2] == text[2..][0] && text[3] == text[2..][1];
      }
    }
  }

  lemma {:induction false} SkippedAreLineBreaks(text: Bytes)
    ensures forall c :: c in text ==> c in WithoutLineBreaks(text) || c == CR || c == LF
  {
    if text != [] {
      SkippedAreLineBreaks(text[1..]);
      assert text == [text[0]] + text[1..];
    }
  }

  lemma DecodedAreSymbols(text: Bytes)
    requires Decode(text).Some?
    ensures forall c :: c in text ==> Value(c).Some? || c == PAD || c == CR || c == LF
  {
    QuantaAreSymbols(WithoutLineBreaks(text));
    SkippedAreLineBreaks(text);
  }

  lemma {:induction false} EncodeHasWholeQuanta(data: Bytes)
    ensures |Encode(data)| % 4 == 0
  {
    if |data| > 2 { EncodeHasWholeQuanta(data[3..]); }
  }

  lemma ShortHasNoLineBreaks(data: Bytes)
    requires |data| <= 2
    ensures CR !in Encode(data) && LF !in Encode(data)
  {
  }

  lemma NoLineBreaksIsKept(text: Bytes)
    requires CR !in text && LF !in text
    ensures WithoutLineBreaks(text) == text
  {
    NoLineBreaksPrefix(text, []);
    assert text + [] == text;
  }

  lemma {:induction false} EncodeHasNoLineBreaks(data: Bytes)
    ensures WithoutLineBreaks(Encode(data)) == Encode(data)
  {
    if |data| > 2 {
      EncodeHasNoLineBreaks(data[3..]);
      NoLineBreaksPrefix(QuantumOf(data[0], data[1], data[2]), Encode(data[3..]));
    } else {
      ShortHasNoLineBreaks(data);
      NoLineBreaksIsKept(Encode(data));
    }
  }

  lemma {:induction false} NoLineBreaksPrefix(head: Bytes, rest: Bytes)
    requires CR !in head && LF !in head
    ensures WithoutLineBreaks(head + rest) == head + WithoutLineBreaks(rest)
  {
    if head == [] {
      assert head + rest == rest;
    } else {
      assert (head + rest)[1..] == head[1..] + rest;
      NoLineBreaksPrefix(head[1..], rest);
    }
  }

  lemma DecodeOneQuantum(a: Sextet, b: Sextet, c: Sextet, d: Sextet, rest: Bytes, more: Bytes)
    requires DecodeQuanta(rest) == Some(more)
    ensures DecodeQuanta([Symbol(a), Symbol(b), Symbol(c), Symbol(d)] + rest)
         == Some([a * 4 + b / 16, b % 16 * 16 + c / 4, c % 4 * 64 + d] + more)
  {
    var text := [Symbol(a), Symbol(b), Symbol(c), Symbol(d)] + rest;
    assert text[4..] == rest;
    ValueOfSymbol(a); ValueOfSymbol(b); ValueOfSymbol(c); ValueOfSymbol(d);
  }

  lemma DecodeOfThree(x: Byte, y: Byte, z: Byte, rest: Bytes, more: Bytes)
    requires DecodeQuanta(rest) == Some(more)
    ensures DecodeQuanta([Symbol(x / 4), Symbol(x % 4 * 16 + y / 16), Symbol(y % 16 * 4 + z / 64), Symbol(z % 64)]
                         + rest)
         == Some([x, y, z] + more)
  {
    var a: Sextet, b: Sextet := x / 4, x % 4 * 16 + y / 16;
    var c: Sextet, d: Sextet := y % 16 * 4 + z / 64, z % 64;
    DecodeOneQuantum(a, b, c, d, rest, more);
    assert a * 4 + b / 16 == x;
    assert b % 16 * 16 + c / 4 == y;
    assert c % 4 * 64 + d == z;
  }

  lemma DecodeLastTwo(a: Sextet, b: Sextet, c: Sextet)
    ensures DecodeQuanta([Symbol(a), Symbol(b), Symbol(c), PAD]) == Some([a * 4 + b / 16, b % 16 * 16 + c / 4])
  {
    assert [Symbol(a), Symbol(b), Symbol(c), PAD][3..] == [PAD];
    ValueOfSymbol(a); ValueOfSymbol(b); ValueOfSymbol(c);
  }

  lemma DecodeLastOne(a: Sextet, b: Sextet)
    ensures DecodeQuanta([Symbol(a), Symbol(b), PAD, PAD]) == Some([a * 4 + b / 16])
  {
    assert [Symbol(a), Symbol(b), PAD, PAD][2..] == [PAD, PAD];
    ValueOfSymbol(a); ValueOfSymbol(b);
  }

  lemma DecodeOfTwo(x: Byte, y: Byte)
    ensures DecodeQuanta([Symbol(x / 4), Symbol(x % 4 * 16 + y / 16), Symbol(y % 16 * 4), PAD]) == Some([x, y])
  {
    var a: Sextet, b: Sextet, c: Sextet := x / 4, x % 4 * 16 + y / 16, y % 16 * 4;
    DecodeLastTwo(a, b, c);
    assert a * 4 + b / 16 == x;
    assert b % 16 * 16 + c / 4 == y;
  }

  lemma DecodeOfOne(x: Byte)
    ensures DecodeQuanta([Symbol(x / 4), Symbol(x % 4 * 16), PAD, PAD]) == Some([x])
  {
    DecodeLastOne(x / 4, x % 4 * 16);
  }

  lemma {:induction false} DecodeQuantaOfEncode(data: Bytes)
    ensures DecodeQuanta(Encode(data)) == Some(data)
  {
    if |data| == 1 {
      DecodeOfOne(data[0]);
      assert data == [data[0]];
    } else if |data| == 2 {
      DecodeOfTwo(data[0], data[1]);
      assert data == [data[0], data[1]];
    } else if |data| > 2 {
      DecodeQuantaOfEncode(data[3..]);
      DecodeOfThree(data[0], data[1], data[2], Encode(data[3..]), data[3..]);
      SplitThree(data);
    }
  }

  lemma SplitThree(data: Bytes)
    requires |data| > 2
    ensures data == [data[0], data[1], data[2]] + data[3..]
  {
  }

  lemma DecodeOfEncode(data: Bytes)
    ensures Decode(Encode(data)) == Some(data)
  {
    EncodeHasNoLineBreaks(data);
    DecodeQuantaOfEncode(data);
  }

  // A text is canonical when it has no line breaks and the last quantum leaves no stray bits.
  predicate Canonical(text: Bytes) {
    && CR !in text
    && LF !in text
    && (|text| >= 4 && text[|text| - 1] == PAD ==>
          if text[|text| - 2] == PAD then Low(text[|text| - 3], 16) else Low(text[|text| - 2], 4))
  }

  predicate Low(c: Byte, m: int)
    requires m > 0
  {
    match Value(c) case Some(v) => v % m == 0 case None => true
  }

  // Decoding then encoding gives the text back on exactly the canonical texts.
  lemma EncodeOfDecode(text: Bytes)
    requires Decode(text).Some?
    ensures Encode(Decode(text).value) == text <==> Canonical(text)
  {
    var data := Decode(text).value;
    if Canonical(text) {
      NoLineBreaksIsKept(text);
      EncodeOfDecodeQuanta(text);
    }
    if Encode(data) == text {
      EncodeHasNoLineBreaks(data);
      WithoutLineBreaksHasNone(text);
      EncodeIsCanonical(data);
    }
  }

  lemma {:induction false} WithoutLineBreaksHasNone(text: Bytes)
    ensures CR !in WithoutLineBreaks(text) && LF !in WithoutLineBreaks(text)
  {
    if text != [] {
      WithoutLineBreaksHasNone(text[1..]);
    }
  }

  lemma LastOneIsCanonical(a: Sextet, b: Sextet)
    requires b % 16 == 0
    ensures Canonical([Symbol(a), Symbol(b), PAD, PAD])
  {
    ValueOfSymbol(b);
  }

  lemma LastTwoIsCanonical(a: Sextet, b: Sextet, c: Sextet)
    requires c % 4 == 0
    ensures Canonical([Symbol(a), Symbol(b), Symbol(c), PAD])
  {
    ValueOfSymbol(c);
  }

  lemma {:induction false} EncodeIsCanonical(data: Bytes)
    ensures Canonical(Encode(data))
  {
    if |data| == 1 {
      LastOneIsCanonical(data[0] / 4, data[0] % 4 * 16);
    } else if |data| == 2 {
      LastTwoIsCanonical(data[0] / 4, data[0] % 4 * 16 + data[1] / 16, data[1] % 16 * 4);
    } else if |data| > 2 {
      EncodeIsCanonical(data[3..]);
      EncodeHasWholeQuanta(data[3..]);
      CanonicalAppend(QuantumOf(data[0], data[1], data[2]), Encode(data[3..]));
    }
  }

  // Only the last quantum decides about stray bits.
  lemma CanonicalAppend(head: Bytes, rest: Bytes)
    requires |head| == 4 && |rest| != 1 && |rest| != 2 && |rest| != 3
    requires CR !in head && LF !in head && PAD !in head
    ensures Canonical(head + rest) == Canonical(rest)
  {
    assert forall c :: c in head + rest <==> c in head || c in rest;
    if rest == [] {
      assert head + rest == head;
    } else {
      assert (head + rest)[|head + rest| - 1] == rest[|rest| - 1];
      assert (head + rest)[|head + rest| - 2] == rest[|rest| - 2];
      assert (head + rest)[|head + rest| - 3] == rest[|rest| - 3];
    }
  }

  lemma {:induction false} EncodeOfDecodeQuanta(text: Bytes)
    requires DecodeQuanta(text).Some? && Canonical(text)
    ensures Encode(DecodeQuanta(text).value) == text
    decreases |text|, 1
  {
    if text == [] {
    } else if Value(text[2]).None? {
      assert text == text[..2] + text[2..] == [text[0], text[1], PAD, PAD];
      EncodeOfOne(Value(text[0]).value, Value(text[1]).value);
    } else if Value(text[3]).None? {
      assert text == text[..3] + text[3..] == [text[0], text[1], text[2], PAD];
      EncodeOfTwo(Value(text[0]).value, Value(text[1]).value, Value(text[2]).value);
    } else {
      EncodeOfFullQuantum(text);
    }
  }

  lemma {:induction false} EncodeOfFullQuantum(text: Bytes)
    requires DecodeQuanta(text).Some? && Canonical(text) && |text| >= 4
    requires Value(text[2]).Some? && Value(text[3]).Some?
    ensures Encode(DecodeQuanta(text).value) == text
    decreases |text|, 0
  {
    var head, rest := text[..4], text[4..];
    FirstFour(text);
    HeadIsSymbols(text);
    DecodedLengths(rest);
    CanonicalAppend(head, rest);
    EncodeOfDecodeQuanta(rest);
    var a, b, c, d := Value(text[0]).value, Value(text[1]).value, Value(text[2]).value, Value(text[3]).value;
    EncodeOfThree(a, b, c, d, DecodeQuanta(rest).value);
    DecodeOneQuantum(a, b, c, d, rest, DecodeQuanta(rest).value);
  }

  lemma FirstFour(text: Bytes)
    requires |text| >= 4
    ensures text == text[..4] + text[4..]
    ensures text[..4] == [text[0], text[1], text[2], text[3]]
  {
  }

  lemma HeadIsSymbols(text: Bytes)
    requires DecodeQuanta(text).Some? && |text| >= 4 && Value(text[2]).Some? && Value(text[3]).Some?
    ensures Value(text[0]).Some? && Value(text[1]).Some? && DecodeQuanta(text[4..]).Some?
    ensures PAD !in text[..4]
  {
  }

  lemma EncodeOfOne(a: Sextet, b: Sextet)
    requires b % 16 == 0
    ensures Encode([a * 4 + b / 16]) == [Symbol(a), Symbol(b), PAD, PAD]
  {
    assert (a * 4 + b / 16) / 4 == a && (a * 4 + b / 16) % 4 * 16 == b;
  }

  lemma EncodeOfTwo(a: Sextet, b: Sextet, c: Sextet)
    requires c % 4 == 0
    ensures Encode([a * 4 + b / 16, b % 16 * 16 + c / 4]) == [Symbol(a), Symbol(b), Symbol(c), PAD]
  {
    var x, y := a * 4 + b / 16, b % 16 * 16 + c / 4;
    assert x / 4 == a && x % 4 * 16 + y / 16 == b && y % 16 * 4 == c;
  }

  lemma DecodedLengths(text: Bytes)
    requires DecodeQuanta(text).Some?
    ensures text == [] || |text| >= 4
  {
  }

  lemma EncodeOfThree(a: Sextet, b: Sextet, c: Sextet, d: Sextet, rest: Bytes)
    ensures Encode([a * 4 + b / 16, b % 16 * 16 + c / 4, c % 4 * 64 + d] + rest)
         == [Symbol(a), Symbol(b), Symbol(c), Symbol(d)] + Encode(rest)
  {
    var data: Bytes := [a * 4 + b / 16, b % 16 * 16 + c / 4, c % 4 * 64 + d] + rest;
    assert data[3..] == rest;
    assert data[0] / 4 == a;
    assert data[0] % 4 * 16 + data[1] / 16 == b;
    assert data[1] % 16 * 4 + data[2] / 64 == c;
    assert data[2] % 64 == d;
  }
}
