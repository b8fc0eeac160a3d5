/** Characters and their bytes, as far as several components need them. */
module Text {
  import opened Findings

  const CAPITALS: string := "ABCDEFGHIJKLMNOPQRSTUVWXYZ"
  const SMALL: string := "abcdefghijklmnopqrstuvwxyz"
  const DECIMALS: string := "0123456789"

  /** The byte is one of the characters of `s`. */
  predicate CharIn(b: byte, s: string) {
    exists i :: 0 <= i < |s| && s[i] as int == b
  }

  lemma CapitalPlace(v: nat)
    ensures |CAPITALS| == 26 && (v < 26 ==> CAPITALS[v] as int == 0x41 + v)
  {
  }

  lemma SmallPlace(v: nat)
    ensures |SMALL| == 26 && (v < 26 ==> SMALL[v] as int == 0x61 + v)
  {
  }

  lemma DecimalPlace(v: nat)
    ensures |DECIMALS| == 10 && (v < 10 ==> DECIMALS[v] as int == 0x30 + v)
  {
  }

  lemma IsCapital(b: byte)
    ensures CharIn(b, CAPITALS) <==> 0x41 <= b <= 0x5A
  {
    hide CAPITALS;
    CapitalPlace(if b >= 0x41 then b - 0x41 else 0);
    forall i: nat {
      CapitalPlace(i);
    }
  }

  lemma IsSmall(b: byte)
    ensures CharIn(b, SMALL) <==> 0x61 <= b <= 0x7A
  {
    hide SMALL;
    SmallPlace(if b >= 0x61 then b - 0x61 else 0);
    forall i: nat {
      SmallPlace(i);
    }
  }

  lemma DigitIsDecimal(b: byte)
    ensures CharIn(b, DECIMALS) <==> IsDigit(b)
  {
    hide DECIMALS;
    DecimalPlace(if b >= 0x30 then b - 0x30 else 0);
    forall i: nat {
      DecimalPlace(i);
    }
  }

  predicate IsDigit(b: byte) {
    0x30 <= b <= 0x39
  }

  /** A Unicode scalar value. */
  type rune = c: int | 0 <= c <= 0x10FFFF && !(0xD800 <= c <= 0xDFFF)

  /** The UTF-8 encoding of one character. */
  function Utf8(c: rune): (b: seq<byte>)
    ensures 1 <= |b| <= 4 && (|b| == 1 <==> c < 0x80)
  {
    if c < 0x80 then [c]
    else if c < 0x800 then [0xC0 + c / 64, 0x80 + c % 64]
    else if c < 0x10000 then [0xE0 + c / 4096, 0x80 + c / 64 % 64, 0x80 + c % 64]
    else [0xF0 + c / 262144, 0x80 + c / 4096 % 64, 0x80 + c / 64 % 64, 0x80 + c % 64]
  }

  /** The number that one to four bytes spell: the free bits of the first, then six bits of each other. */
  function Spelled(s: seq<byte>): int
    requires 1 <= |s| <= 4
  {
    var b: seq<int> := s;
    match |s|
    case 1 => b[0]
    case 2 => (b[0] - 0xC0) * 64 + (b[1] - 0x80)
    case 3 => ((b[0] - 0xE0) * 64 + (b[1] - 0x80)) * 64 + (b[2] - 0x80)
    case _ => (((b[0] - 0xF0) * 64 + (b[1] - 0x80)) * 64 + (b[2] - 0x80)) * 64 + (b[3] - 0x80)
  }

  lemma Utf8Spells(c: rune)
    ensures Spelled(Utf8(c)) == c
  {
    SixBitsOff(c);
    SixBitsOff(c / 64);
    SixBitsOff(c / 64 / 64);
  }

  lemma SixBitsOff(n: nat)
    ensures n == n / 64 * 64 + n % 64 && n / 64 / 64 == n / 4096 && n / 64 / 64 / 64 == n / 262144
  {
  }
}
