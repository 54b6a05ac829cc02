/** Hexadecimal and decimal text as Go's encoding/hex and fmt's %d print it. */
module Text {
  import opened Arithmetic
  import opened Basics

  function Ascii(s: string): (b: Bytes)
    requires forall i :: 0 <= i < |s| ==> s[i] as int < 128
    ensures |b| == |s|
  {
    seq(|s|, i requires 0 <= i < |s| => AsciiByte(s[i]))
  }

  function AsciiByte(c: char): Byte
    requires c as int < 128
  {
    c as int
  }

  function HexDigit(v: int): Byte
    requires 0 <= v < 16
  {
    if v < 10 then 48 + v else 87 + v
  }

  // Go prints hexadecimal in lower case.
  lemma HexDigitsInOrder(v: int)
    requires 0 <= v < 16
    ensures HexDigit(v) == "0123456789abcdef"[v] as int
  {
  }

  function HexValue(c: Byte): (v: Option<int>)
    ensures v.Some? ==> 0 <= v.value < 16
  {
    if 48 <= c <= 57 then Some(c - 48)
    else if 97 <= c <= 102 then Some(c - 87)
    else if 65 <= c <= 70 then Some(c - 55)
    else None
  }

  function HexEncode(data: Bytes): (text: Bytes)
    ensures |text| == 2 * |data|
  {
    if data == [] then [] else [HexDigit(data[0] / 16), HexDigit(data[0] % 16)] + HexEncode(data[1..])
  }

  function HexDecode(text: Bytes): Option<Bytes> {
    if text == [] then Some([])
    else if |text| == 1 then None
    else
      match (HexValue(text[0]), HexValue(text[1]), HexDecode(text[2..]))
      case (Some(hi), Some(lo), Some(rest)) => Some([hi * 16 + lo] + rest)
      case _ => None
  }

  lemma {:induction false} HexDecodeOfEncode(data: Bytes)
    ensures HexDecode(HexEncode(data)) == Some(data)
  {
    if data != [] {
      HexDecodeOfEncode(data[1..]);
      assert HexEncode(data)[2..] == HexEncode(data[1..]);
      assert data == [data[0]] + data[1..];
    }
  }

  // leftPadHex of the router client.
  function LeftPad(value: Bytes, size: nat): (padded: Bytes)
    ensures |padded| == if |value| >= size then |value| else size
    ensures padded[|padded| - |value|..] == value
    ensures forall i :: 0 <= i < |padded| - |value| ==> padded[i] == 48
  {
    if |value| >= size then value
    else
      var zeros: Bytes := seq(size - |value|, _ => 48);
      assert (zeros + value)[|zeros|..] == value;
      zeros + value
  }

  function Digits(n: nat): (d: Bytes)
    ensures |d| >= 1
    ensures forall c :: c in d ==> 48 <= c <= 57
  {
    if n < 10 then [48 + n] else Digits(n / 10) + [48 + n % 10]
  }

  function DigitsValue(d: Bytes): int {
    if d == [] then 0 else DigitsValue(d[..|d| - 1]) * 10 + (d[|d| - 1] as int) - 48
  }

  lemma {:induction false} DigitsValueOfDigits(n: nat)
    ensures DigitsValue(Digits(n)) == n
  {
    if n < 10 {
      assert DigitsValue([]) == 0;
      assert Digits(n)[..0] == [];
    } else {
      DigitsValueOfDigits(n / 10);
      assert Digits(n)[..|Digits(n)| - 1] == Digits(n / 10);
    }
  }

  const MINUS: Byte := 45

  function Decimal(n: int): Bytes {
    if n >= 0 then Digits(n) else [MINUS] + Digits(-n)
  }

  function DecimalValue(text: Bytes): int {
    if text != [] && text[0] == MINUS then -DigitsValue(text[1..]) else DigitsValue(text)
  }

  lemma DecimalValueOfDecimal(n: int)
    ensures DecimalValue(Decimal(n)) == n
  {
    DigitsValueOfDigits(if n >= 0 then n else -n);
    if n < 0 {
      assert Decimal(n)[1..] == Digits(-n);
    } else {
      assert Digits(n)[0] in Digits(n);
    }
  }

  lemma {:induction false} DigitsLength(n: nat, k: nat)
    requires k >= 1 && n < Pow10(k)
    ensures |Digits(n)| <= k
  {
    if n >= 10 {
      assert k > 1;
      DigitsLength(n / 10, k - 1);
    }
  }

  lemma Pow10Of19()
    ensures Pow10(19) == 10_000_000_000_000_000_000
  {
    assert Pow10(5) == 100_000;
    assert Pow10(10) == 10_000_000_000;
    assert Pow10(15) == 1_000_000_000_000_000;
  }

  const TWO63 := 0x8000_0000_0000_0000

  predicate IsInt64(n: int) { -TWO63 <= n < TWO63 }

  // Go's int addition wraps around at 64 bits.
  function Wrap64(n: int): (w: int)
    ensures IsInt64(w)
    ensures IsInt64(n) ==> w == n
  {
    (n + TWO63) % (2 * TWO63) - TWO63
  }

  lemma Int64DecimalLength(n: int)
    requires IsInt64(n)
    ensures 1 <= |Decimal(n)| <= 20
  {
    Pow10Of19();
    DigitsLength(if n >= 0 then n else -n, 19);
  }
}
