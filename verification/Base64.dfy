/** The base64 encoding of section 4 of RFC 4648, over bytes. */
module Base64 {
  import opened Findings
  import opened Text

  const PAD: byte := '=' as int

  function Sextet(c: byte): (r: Option<nat>)
    ensures r.Some? ==> r.value < 64
  {
    if 0x41 <= c <= 0x5A then Some(c - 0x41)
    else if 0x61 <= c <= 0x7A then Some(c - 0x61 + 26)
    else if 0x30 <= c <= 0x39 then Some(c - 0x30 + 52)
    else if c == 0x2B then Some(62)
    else if c == 0x2F then Some(63)
    else None
  }

  predicate IsAlphabet(c: byte) {
    Sextet(c).Some?
  }

  function Letter(v: nat): (c: byte)
    requires v < 64
    ensures Sextet(c) == Some(v)
  {
    if v < 26 then 0x41 + v
    else if v < 52 then 0x61 + v - 26
    else if v < 62 then 0x30 + v - 52
    else if v == 62 then 0x2B
    else 0x2F
  }

  const ALPHABET: string := CAPITALS + SMALL + DECIMALS + "+/"

  /** The letter for `v` is the one at place `v` of the table. */
  lemma LetterIsPlace(v: nat)
    requires v < 64
    ensures |ALPHABET| == 64 && Letter(v) == ALPHABET[v] as int
  {
    hide CAPITALS, SMALL, DECIMALS;
    CapitalPlace(v);
    SmallPlace(if v < 26 then 0 else v - 26);
    DecimalPlace(if v < 52 then 0 else v - 52);
  }

  /** A byte stands for `v` exactly when it is the letter at place `v`; no other byte stands for anything. */
  lemma {:induction false} SextetIsPlace(c: byte, v: nat)
    ensures Sextet(c) == Some(v) <==> v < 64 && |ALPHABET| == 64 && ALPHABET[v] as int == c
  {
    hide ALPHABET;
    if v < 64 {
      LetterIsPlace(v);
    }
  }

  /** Three bytes as four letters. */
  function EncodeGroup(b0: byte, b1: byte, b2: byte): (g: seq<byte>)
    ensures |g| == 4 && Alphabet(g, 4)
  {
    [Letter(b0 / 4), Letter(b0 % 4 * 16 + b1 / 16), Letter(b1 % 16 * 4 + b2 / 64), Letter(b2 % 64)]
  }

  function Encode(b: seq<byte>): seq<byte> {
    if |b| == 0 then []
    else if |b| == 1 then EncodeGroup(b[0], 0, 0)[..2] + [PAD, PAD]
    else if |b| == 2 then EncodeGroup(b[0], b[1], 0)[..3] + [PAD]
    else EncodeGroup(b[0], b[1], b[2]) + Encode(b[3..])
  }

  predicate Alphabet(s: seq<byte>, n: nat) {
    n <= |s| && forall i :: 0 <= i < n ==> IsAlphabet(s[i])
  }

  /** Four letters as three bytes. */
  function DecodeGroup(c0: byte, c1: byte, c2: byte, c3: byte): (b: seq<byte>)
    requires IsAlphabet(c0) && IsAlphabet(c1) && IsAlphabet(c2) && IsAlphabet(c3)
    ensures |b| == 3
  {
    var d0, d1, d2, d3 := Sextet(c0).value, Sextet(c1).value, Sextet(c2).value, Sextet(c3).value;
    [d0 * 4 + d1 / 16, d1 % 16 * 16 + d2 / 4, d2 % 4 * 64 + d3]
  }

  /** The letter for zero. */
  const ZERO: byte := 'A' as int

  /** A lenient decoder: whole groups, a final group may be padded, and the spare bits of a padded
      group are ignored. */
  function Decode(s: seq<byte>): Option<seq<byte>> {
    if |s| == 0 then Some([])
    else if |s| < 4 then None
    else if Alphabet(s, 4) then
      match Decode(s[4..])
      case None => None
      case Some(rest) => Some(DecodeGroup(s[0], s[1], s[2], s[3]) + rest)
    else if |s| == 4 && Alphabet(s, 3) && s[3] == PAD then
      Some(DecodeGroup(s[0], s[1], s[2], ZERO)[..2])
    else if |s| == 4 && Alphabet(s, 2) && s[2] == PAD && s[3] == PAD then
      Some(DecodeGroup(s[0], s[1], ZERO, ZERO)[..1])
    else None
  }

  /** The two halves of a letter that spans a byte border can be told apart. */
  lemma Halves(hi: nat, lo: nat)
    ensures lo < 16 ==> (hi * 16 + lo) / 16 == hi && (hi * 16 + lo) % 16 == lo
    ensures lo < 4 ==> (hi * 4 + lo) / 4 == hi && (hi * 4 + lo) % 4 == lo
  {
  }

  lemma ZeroLetter()
    ensures Sextet(ZERO) == Some(0)
  {
  }

  lemma GroupRoundTrip(b0: byte, b1: byte, b2: byte)
    ensures var g := EncodeGroup(b0, b1, b2); DecodeGroup(g[0], g[1], g[2], g[3]) == [b0, b1, b2]
  {
    hide Letter, Sextet;
    Halves(b0 % 4, b1 / 16);
    Halves(b1 % 16, b2 / 64);
  }

  /** The bytes of a padded group do not depend on its last letters. */
  lemma OnePadRoundTrip(b0: byte, b1: byte)
    ensures IsAlphabet(ZERO)
    ensures var g := EncodeGroup(b0, b1, 0); DecodeGroup(g[0], g[1], g[2], ZERO)[..2] == [b0, b1]
  {
    hide Letter, Sextet;
    ZeroLetter();
    Halves(b0 % 4, b1 / 16);
    Halves(b1 % 16, 0);
  }

  lemma TwoPadsRoundTrip(b0: byte)
    ensures IsAlphabet(ZERO)
    ensures var g := EncodeGroup(b0, 0, 0); DecodeGroup(g[0], g[1], ZERO, ZERO)[..1] == [b0]
  {
    hide Letter, Sextet;
    ZeroLetter();
    Halves(b0 % 4, 0);
  }

  lemma {:induction false} DecodeInvertsEncode(b: seq<byte>)
    ensures Decode(Encode(b)) == Some(b)
  {
    hide EncodeGroup, DecodeGroup;
    var s := Encode(b);
    if |b| == 0 {
    } else if |b| == 1 {
      TwoPadsRoundTrip(b[0]);
      assert !IsAlphabet(s[2]) && b == [b[0]];
    } else if |b| == 2 {
      OnePadRoundTrip(b[0], b[1]);
      assert !IsAlphabet(s[3]) && b == [b[0], b[1]];
    } else {
      GroupRoundTrip(b[0], b[1], b[2]);
      DecodeInvertsEncode(b[3..]);
      assert s[4..] == Encode(b[3..]);
      assert [b[0], b[1], b[2]] + b[3..] == b;
    }
  }

  /** The number of pad bytes that end an encoding of `n` bytes. */
  function Pads(n: nat): nat {
    if n % 3 == 0 then 0 else 3 - n % 3
  }

  /** Whole groups of letters for `n` bytes, with the pads at the very end. */
  ghost predicate Shaped(s: seq<byte>, n: nat) {
    var k := Pads(n);
    && |s| == (n + k) / 3 * 4
    && k <= |s| && Alphabet(s, |s| - k)
    && forall i :: |s| - k <= i < |s| ==> s[i] == PAD
  }

  lemma {:induction false} EncodeShape(b: seq<byte>)
    ensures Shaped(Encode(b), |b|)
  {
    hide EncodeGroup, Shaped, Alphabet;
    if |b| == 0 {
      NothingShaped();
    } else if |b| == 1 {
      PaddedGroup(EncodeGroup(b[0], 0, 0), [PAD, PAD]);
    } else if |b| == 2 {
      PaddedGroup(EncodeGroup(b[0], b[1], 0), [PAD]);
    } else {
      EncodeShape(b[3..]);
      PrependGroup(EncodeGroup(b[0], b[1], b[2]), Encode(b[3..]), |b| - 3);
    }
  }

  lemma NothingShaped()
    ensures Shaped([], 0)
  {
  }

  lemma PaddedGroup(g: seq<byte>, pads: seq<byte>)
    requires |g| == 4 && Alphabet(g, 4) && (pads == [PAD] || pads == [PAD, PAD])
    ensures Shaped(g[..4 - |pads|] + pads, 3 - |pads|)
  {
    hide IsAlphabet;
  }

  lemma PrependGroup(g: seq<byte>, s: seq<byte>, n: nat)
    requires |g| == 4 && Alphabet(g, 4) && Shaped(s, n)
    ensures Shaped(g + s, n + 3)
  {
    hide IsAlphabet, Pads;
    PadsOfMore(n);
  }

  lemma PadsOfMore(n: nat)
    ensures Pads(n + 3) == Pads(n) && (n + 3 + Pads(n + 3)) / 3 * 4 == (n + Pads(n)) / 3 * 4 + 4
  {
  }

  /** Letters followed by at most two pads, in whole groups, always decode. */
  lemma {:induction false} WholeGroupsDecode(s: seq<byte>, r: nat)
    requires r <= |s| <= r + 2 && |s| % 4 == 0
    requires Alphabet(s, r) && forall i :: r <= i < |s| ==> s[i] == PAD
    ensures Decode(s).Some? && |Decode(s).value| == |s| / 4 * 3 - (|s| - r)
  {
    hide DecodeGroup;
    if |s| >= 4 && r >= 4 {
      assert forall i :: 0 <= i < |s| - 4 ==> s[4..][i] == s[i + 4];
      WholeGroupsDecode(s[4..], r - 4);
    }
  }

  /** Every byte of a decoding, padded groups included, is made of the bits of two letters. */
  lemma {:induction false} DecodedByte(s: seq<byte>, i: nat)
    requires Decode(s).Some? && i < |Decode(s).value|
    ensures var g := i / 3 * 4;
            && g + i % 3 + 1 < |s| && IsAlphabet(s[g + i % 3]) && IsAlphabet(s[g + i % 3 + 1])
            && var hi, lo := Sextet(s[g + i % 3]).value, Sextet(s[g + i % 3 + 1]).value;
               Decode(s).value[i] == match i % 3
                                     case 0 => hi * 4 + lo / 16
                                     case 1 => hi % 16 * 16 + lo / 4
                                     case _ => hi % 4 * 64 + lo
    decreases |s|
  {
    hide Sextet, DecodeGroup;
    if i >= 3 {
      assert Alphabet(s, 4);
      DecodedByte(s[4..], i - 3);
      assert i / 3 * 4 == (i - 3) / 3 * 4 + 4 && i % 3 == (i - 3) % 3;
    } else {
      FirstGroupByte(s, i);
    }
  }

  lemma FirstGroupByte(s: seq<byte>, i: nat)
    requires Decode(s).Some? && i < |Decode(s).value| && i < 3
    ensures i + 1 < |s| && IsAlphabet(s[i]) && IsAlphabet(s[i + 1])
    ensures var hi, lo := Sextet(s[i]).value, Sextet(s[i + 1]).value;
            Decode(s).value[i] == match i
                                  case 0 => hi * 4 + lo / 16
                                  case 1 => hi % 16 * 16 + lo / 4
                                  case _ => hi % 4 * 64 + lo
  {
    hide Sextet;
  }

  /** What decodes at all: whole groups of letters, the last of which may end in one or two pads. */
  lemma {:induction false} DecodesIff(s: seq<byte>)
    ensures Decode(s).Some? <==> |s| % 4 == 0 && exists k :: 0 <= k <= 2 && k <= |s| && EndsInPads(s, k)
    decreases |s|
  {
    hide IsAlphabet, DecodeGroup;
    if |s| == 0 {
      assert EndsInPads(s, 0);
    } else if |s| > 4 && Alphabet(s, 4) {
      DecodesIff(s[4..]);
      assert s[..4] + s[4..] == s;
      if k :| 0 <= k <= 2 && k <= |s[4..]| && EndsInPads(s[4..], k) {
        PadsBehind(s, k);
      }
      if k :| 0 <= k <= 2 && k <= |s| && EndsInPads(s, k) && |s| % 4 == 0 {
        PadsBehind(s, k);
      }
    } else if |s| >= 4 {
      OneGroupDecodes(s);
    }
  }

  /** Letters up to the last `k` bytes, which are pads. */
  ghost predicate EndsInPads(s: seq<byte>, k: nat)
    requires k <= |s|
  {
    Alphabet(s, |s| - k) && forall i :: |s| - k <= i < |s| ==> s[i] == PAD
  }

  lemma PadsBehind(s: seq<byte>, k: nat)
    requires |s| > 4 && Alphabet(s, 4) && k <= |s| - 4
    ensures EndsInPads(s, k) <==> EndsInPads(s[4..], k)
  {
    hide IsAlphabet;
    var rest := s[4..];
    assert forall i :: 0 <= i < |rest| ==> rest[i] == s[i + 4];
    if EndsInPads(rest, k) {
      forall i | 0 <= i < |s| - k
        ensures IsAlphabet(s[i])
      {
        if i >= 4 {
          assert IsAlphabet(rest[i - 4]);
        }
      }
      forall i | |s| - k <= i < |s|
        ensures s[i] == PAD
      {
        assert s[i] == rest[i - 4];
      }
    }
  }

  lemma PadIsNoLetter()
    ensures !IsAlphabet(PAD)
  {
  }

  lemma OneGroupDecodes(s: seq<byte>)
    requires |s| >= 4 && (|s| == 4 || !Alphabet(s, 4))
    ensures Decode(s).Some? <==> |s| % 4 == 0 && exists k :: 0 <= k <= 2 && k <= |s| && EndsInPads(s, k)
  {
    hide IsAlphabet, DecodeGroup;
    PadIsNoLetter();
    if Decode(s).Some? {
      assert |s| == 4;
      assert s[4..] == [];
      assert EndsInPads(s, if Alphabet(s, 4) then 0 else if Alphabet(s, 3) then 1 else 2);
    }
    if k :| 0 <= k <= 2 && k <= |s| && EndsInPads(s, k) && |s| % 4 == 0 {
      assert |s| == 4;
      assert s[4..] == [];
    }
  }
}
