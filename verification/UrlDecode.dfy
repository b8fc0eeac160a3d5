/** Relaxed percent-decoding, section 2.1 of RFC 3986: malformed escapes pass through. */
module UrlDecode {
  import opened Findings
  import opened Views

  const PERCENT: byte := '%' as int

  /** The value of a hexadecimal digit of either case. */
  function HexValue(c: byte): Option<nat> {
    if 0x30 <= c <= 0x39 then Some(c - 0x30)
    else if 0x61 <= c <= 0x66 then Some(c - 0x61 + 10)
    else if 0x41 <= c <= 0x46 then Some(c - 0x41 + 10)
    else None
  }

  const LOWER: string := "0123456789abcdef"
  const UPPER: string := "0123456789ABCDEF"

  /** Exactly the sixteen digits, in both cases, have a value: their place in the table. */
  lemma HexValueIsPlace(c: byte, v: nat)
    ensures HexValue(c) == Some(v) <==> v < 16 && (c == LOWER[v] as int || c == UPPER[v] as int)
  {
  }

  predicate ContainsPercent(data: seq<byte>) {
    PERCENT in data
  }

  /** The token at `p`: a well-formed escape, or a single byte. */
  function UrlStep(src: seq<byte>, p: int, q: int): Token {
    if !(0 <= p < q <= |src|) then Token(0, [], [])
    else if src[p] == PERCENT && p + 2 < q && HexValue(src[p + 1]).Some? && HexValue(src[p + 2]).Some? then
      Token(3, [HexValue(src[p + 1]).value * 16 + HexValue(src[p + 2]).value], [0])
    else Verbatim(src[p])
  }

  lemma UrlTokens(src: seq<byte>)
    ensures Tokenizer(UrlStep, src)
  {
  }

  /** The decoded view of `src`. */
  ghost function Decoded(src: seq<byte>): seq<byte> {
    UrlTokens(src);
    Out(UrlStep, src, 0, |src|)
  }

  /** Where each decoded byte came from. */
  ghost function OrigIdx(src: seq<byte>): seq<int> {
    UrlTokens(src);
    Idx(UrlStep, src, 0, |src|)
  }

  lemma UrlStepIsLocal(src: seq<byte>)
    ensures UnitTokens(UrlStep, src) && PrefixStable(UrlStep, src)
  {
  }

  /** The decoding loop computes the view and its table. */
  method Decode(src: seq<byte>) returns (decoded: seq<byte>, origIdx: seq<int>)
    ensures decoded == Decoded(src) && origIdx == OrigIdx(src)
  {
    hide Out, Idx, ReadUpTo, Tokenizer;
    UrlTokens(src);
    ReadNothing(UrlStep, src);
    decoded, origIdx := [], [];
    var i := 0;
    while i < |src|
      invariant i <= |src| && ReadUpTo(UrlStep, src, i, decoded, origIdx)
    {
      var b, next := src[i], i + 1;
      if src[i] == PERCENT && i + 2 < |src| {
        var hi, lo := HexValue(src[i + 1]), HexValue(src[i + 2]);
        if hi.Some? && lo.Some? {
          b, next := hi.value * 16 + lo.value, i + 3;
        }
      }
      ReadOne(UrlStep, src, i, decoded, origIdx, next, b);
      origIdx := origIdx + [i];
      decoded := decoded + [b];
      i := next;
    }
    ReadAll(UrlStep, src, decoded, origIdx);
    origIdx := origIdx + [i];
  }

  lemma UrlSlides(src: seq<byte>, c: nat, d: nat)
    requires c <= d <= |src|
    ensures Slides(UrlStep, src[c..d], src, c)
  {
  }

  /** Decoding any mapped slice of the source on its own gives exactly that stretch of the view. */
  lemma DecodingIsLocal(src: seq<byte>, a: nat, b: nat)
    requires a <= b <= |Decoded(src)|
    ensures var idx := OrigIdx(src);
            && Table(idx, |Decoded(src)|, 0, |src|)
            && (a < b ==> idx[a] < idx[b])
            && Decoded(src[idx[a]..idx[b]]) == Decoded(src)[a..b]
  {
    hide UrlStep, Out, Idx, Tokenizer, PrefixStable, UnitTokens, Slides;
    UrlTokens(src);
    UrlStepIsLocal(src);
    IdxIsTable(UrlStep, src, 0, |src|);
    UnitViewsAreLocal(UrlStep, src, a, b);
    var c, d := Idx(UrlStep, src, 0, |src|)[a], Idx(UrlStep, src, 0, |src|)[b];
    UrlTokens(src[c..d]);
    UrlSlides(src, c, d);
    SliceIsSource(UrlStep, src[c..d], src, c, 0);
  }

  // ----- Decoding inverts encoding ----------------------------------------------------------------

  /** How a byte of text is written: as itself, or as `%` and two hexadecimal digits of any case. */
  datatype Form = Plain | Escaped(hi: byte, lo: byte)

  /** Any byte may be escaped, and a literal `%` must be. */
  predicate Legal(b: byte, form: Form) {
    match form
    case Plain => b != PERCENT
    case Escaped(hi, lo) =>
      HexValue(hi).Some? && HexValue(lo).Some? && HexValue(hi).value * 16 + HexValue(lo).value == b
  }

  function Written(b: byte, form: Form): seq<byte> {
    match form
    case Plain => [b]
    case Escaped(hi, lo) => [PERCENT, hi, lo]
  }

  function Encode(text: seq<byte>, forms: seq<Form>): seq<byte>
    requires |forms| == |text|
  {
    if text == [] then [] else Written(text[0], forms[0]) + Encode(text[1..], forms[1..])
  }

  lemma {:induction false} DecodeFrom(src: seq<byte>, p: nat, text: seq<byte>, forms: seq<Form>)
    requires Tokenizer(UrlStep, src) && p <= |src|
    requires |forms| == |text| && forall i :: 0 <= i < |text| ==> Legal(text[i], forms[i])
    requires src[p..] == Encode(text, forms)
    ensures Out(UrlStep, src, p, |src|) == text
    decreases |text|
  {
    hide Out, Idx, Tokenizer;
    if text != [] {
      var w, rest := Written(text[0], forms[0]), Encode(text[1..], forms[1..]);
      assert src[p..] == w + rest;
      assert src[p + |w|..] == rest;
      assert Legal(text[0], forms[0]);
      WrittenIsToken(src, p, text[0], forms[0]);
      Unfold(UrlStep, src, p, |src|);
      DecodeFrom(src, p + |w|, text[1..], forms[1..]);
    } else {
      EmptyOut(UrlStep, src, p);
    }
  }

  lemma WrittenIsToken(src: seq<byte>, p: nat, b: byte, form: Form)
    requires Legal(b, form) && p < |src| && Written(b, form) <= src[p..]
    ensures UrlStep(src, p, |src|) == Token(|Written(b, form)|, [b], [0])
  {
    assert forall i :: 0 <= i < |Written(b, form)| ==> src[p + i] == src[p..][i] == Written(b, form)[i];
  }

  /** Decoding inverts every encoding that escapes at least each literal `%`. */
  lemma DecodeInvertsEncode(text: seq<byte>, forms: seq<Form>)
    requires |forms| == |text| && forall i :: 0 <= i < |text| ==> Legal(text[i], forms[i])
    ensures Decoded(Encode(text, forms)) == text
  {
    var src := Encode(text, forms);
    UrlTokens(src);
    assert src[0..] == src;
    DecodeFrom(src, 0, text, forms);
  }

  /** A well-formed escape starts at `p`. */
  predicate EscapeAt(src: seq<byte>, p: int) {
    0 <= p < |src| - 2 && src[p] == PERCENT && HexValue(src[p + 1]).Some? && HexValue(src[p + 2]).Some?
  }

  /** Malformed escapes pass through: a body without a well-formed one is its own decoding. */
  lemma MalformedPassesThrough(src: seq<byte>)
    requires forall p :: !EscapeAt(src, p)
    ensures Decoded(src) == src
  {
    UrlTokens(src);
    forall i | 0 <= i < |src|
      ensures UrlStep(src, i, |src|) == Verbatim(src[i])
    {
      assert !EscapeAt(src, i);
    }
    AllVerbatim(UrlStep, src, 0, |src|);
    assert src[0..|src|] == src;
  }

  /** Without a `%` there is nothing to decode, so the pre-check loses nothing. */
  lemma NoPercentNoChange(src: seq<byte>)
    requires !ContainsPercent(src)
    ensures Decoded(src) == src
  {
    MalformedPassesThrough(src);
  }

  /** The leftmost well-formed escape yields its byte, what precedes it stays, malformed escapes included, and
      the rest is decoded on its own. */
  lemma FirstEscapeDecodes(src: seq<byte>, p: nat)
    requires EscapeAt(src, p) && forall i :: 0 <= i < p ==> !EscapeAt(src, i)
    ensures var b := HexValue(src[p + 1]).value * 16 + HexValue(src[p + 2]).value;
            Decoded(src) == src[..p] + [b] + Decoded(src[p + 3..])
  {
    hide Out, Idx, PrefixStable, Slides, Tokenizer;
    var rest := src[p + 3..];
    UrlTokens(src);
    UrlTokens(rest);
    UrlStepIsLocal(src);
    UrlSlides(src, p + 3, |src|);
    assert src[p + 3..|src|] == rest;
    forall i | 0 <= i < p
      ensures UrlStep(src, i, |src|) == Verbatim(src[i])
    {
      assert !EscapeAt(src, i);
    }
    FirstToken(UrlStep, src, p, rest);
  }
}
