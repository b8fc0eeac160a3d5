/** Translating the character offsets of a plugin into the byte offsets of the body. */
module Presidio {
  import opened Findings
  import opened Text

  function Encode(text: seq<rune>): seq<byte> {
    if text == [] then [] else Encode(text[..|text| - 1]) + Utf8(text[|text| - 1])
  }

  /** Entry `i` is the byte offset of character `i`; the last is the length in bytes. */
  method CharToByteMap(text: seq<rune>) returns (out: seq<nat>)
    ensures |out| == |text| + 1
    ensures forall i :: 0 <= i <= |text| ==> out[i] == |Encode(text[..i])|
  {
    out := [0];
    var pos := 0;
    for n := 0 to |text|
      invariant |out| == n + 1 && pos == |Encode(text[..n])|
      invariant forall i :: 0 <= i <= n ==> out[i] == |Encode(text[..i])|
    {
      assert text[..n + 1][..n] == text[..n];
      pos := pos + |Utf8(text[n])|;
      out := out + [pos];
    }
  }

  lemma {:induction false} EncodeConcat(s: seq<rune>, t: seq<rune>)
    ensures Encode(s + t) == Encode(s) + Encode(t)
  {
    hide Utf8;
    if t == [] {
      assert s + t == s;
    } else {
      assert (s + t)[..|s + t| - 1] == s + t[..|t| - 1];
      EncodeConcat(s, t[..|t| - 1]);
    }
  }

  /** The bytes between two mapped offsets are the encoding of the characters between the two. */
  lemma MappedBytesAreTheText(text: seq<rune>, a: nat, b: nat)
    requires a <= b <= |text|
    ensures |Encode(text[..a])| <= |Encode(text[..b])| <= |Encode(text)|
    ensures Encode(text)[|Encode(text[..a])|..|Encode(text[..b])|] == Encode(text[a..b])
  {
    hide Encode;
    EncodeConcat(text[..a], text[a..b]);
    EncodeConcat(text[..b], text[b..]);
    assert text[..a] + text[a..b] == text[..b] && text[..b] + text[b..] == text;
  }

  lemma {:induction false} AtLeastOneByteEach(text: seq<rune>)
    ensures |Encode(text)| >= |text|
  {
    if text != [] {
      AtLeastOneByteEach(text[..|text| - 1]);
    }
  }

  /** When the body has as many bytes as characters, every offset maps to itself, so the map may be skipped;
      and only then. */
  lemma {:induction false} FastPathAgrees(text: seq<rune>)
    ensures |Encode(text)| == |text| <==> forall i :: 0 <= i <= |text| ==> |Encode(text[..i])| == i
  {
    hide Encode;
    if |Encode(text)| == |text| {
      forall i | 0 <= i <= |text|
        ensures |Encode(text[..i])| == i
      {
        EncodeConcat(text[..i], text[i..]);
        assert text[..i] + text[i..] == text;
        AtLeastOneByteEach(text[..i]);
        AtLeastOneByteEach(text[i..]);
      }
    } else {
      assert text[..|text|] == text;
      assert |Encode(text[..|text|])| != |text|;
    }
  }
}
