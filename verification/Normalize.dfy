/** Rune-by-rune normalisation with a map back to the source. The per-rune normal form is a parameter. */
module Normalize {
  import opened Findings
  import opened Views
  import opened Text

  type NormalForm = seq<byte> -> seq<byte>

  /** ASCII is in normal form already. */
  ghost predicate AsciiFixed(nf: NormalForm) {
    forall b: byte :: b < 0x80 ==> nf([b]) == [b]
  }

  predicate Continues(s: seq<byte>, i: int, q: int, lo: byte, hi: byte) {
    0 <= i < q <= |s| && lo <= s[i] <= hi
  }

  /** The length of the UTF-8 rune at `p` in `s[..q]`, or 0 when the bytes there are not well-formed. */
  function RuneSize(s: seq<byte>, p: int, q: int): (n: nat)
    requires 0 <= p < q <= |s|
    ensures n <= 4 && p + n <= q
  {
    var b := s[p];
    if b < 0x80 then 1
    else if 0xC2 <= b <= 0xDF then
      if Continues(s, p + 1, q, 0x80, 0xBF) then 2 else 0
    else if 0xE0 <= b <= 0xEF then
      var lo, hi := if b == 0xE0 then 0xA0 else 0x80, if b == 0xED then 0x9F else 0xBF;
      if Continues(s, p + 1, q, lo, hi) && Continues(s, p + 2, q, 0x80, 0xBF) then 3 else 0
    else if 0xF0 <= b <= 0xF4 then
      var lo, hi := if b == 0xF0 then 0x90 else 0x80, if b == 0xF4 then 0x8F else 0xBF;
      if Continues(s, p + 1, q, lo, hi) && Continues(s, p + 2, q, 0x80, 0xBF) && Continues(s, p + 3, q, 0x80, 0xBF)
      then 4 else 0
    else 0
  }

  function Zeros(n: nat): seq<int> { seq(n, _ => 0) }

  /** An ill-formed byte yields itself; a rune yields its normal form, every byte standing for the rune. */
  function RuneToken(nf: NormalForm, src: seq<byte>, p: int, q: int): Token {
    if !(0 <= p < q <= |src|) then Token(0, [], [])
    else
      var n := RuneSize(src, p, q);
      if n == 0 then Verbatim(src[p]) else Token(n, nf(src[p..p + n]), Zeros(|nf(src[p..p + n])|))
  }

  function RuneStep(nf: NormalForm): Step {
    (src: seq<byte>, p: int, q: int) => RuneToken(nf, src, p, q)
  }

  lemma RuneTokens(nf: NormalForm, src: seq<byte>)
    ensures Tokenizer(RuneStep(nf), src)
  {
    forall p, q | 0 <= p < q <= |src|
      ensures WellFormed(RuneStep(nf)(src, p, q), q - p)
    {
      assert RuneStep(nf)(src, p, q) == RuneToken(nf, src, p, q);
    }
  }

  /** The normalised view of `src`. */
  ghost function NormalView(nf: NormalForm, src: seq<byte>): seq<byte> {
    RuneTokens(nf, src);
    Out(RuneStep(nf), src, 0, |src|)
  }

  /** Where the rune behind each normalised byte starts. */
  ghost function RuneIdx(nf: NormalForm, src: seq<byte>): seq<int> {
    RuneTokens(nf, src);
    Idx(RuneStep(nf), src, 0, |src|)
  }

  /** Which rune starts at a position, if any, does not depend on the bytes behind it. */
  lemma RuneStepIsLocal(nf: NormalForm, src: seq<byte>)
    ensures PrefixStable(RuneStep(nf), src)
  {
    forall p, q, c | 0 <= p < q <= |src| && p + RuneStep(nf)(src, p, q).len <= c <= q
      ensures RuneStep(nf)(src, p, c) == RuneStep(nf)(src, p, q)
    {
      assert RuneStep(nf)(src, p, q) == RuneToken(nf, src, p, q);
      assert RuneStep(nf)(src, p, c) == RuneToken(nf, src, p, c);
      assert RuneSize(src, p, c) == RuneSize(src, p, q);
    }
  }

  method ContainsNonASCII(data: seq<byte>) returns (found: bool)
    ensures found <==> exists i :: 0 <= i < |data| && data[i] >= 0x80
  {
    for i := 0 to |data|
      invariant forall j :: 0 <= j < i ==> data[j] < 0x80
    {
      if data[i] >= 0x80 {
        return true;
      }
    }
    return false;
  }

  /** The normalising loop computes the view and its table; unchanged bodies get no table. */
  method Normalized(nf: NormalForm, src: seq<byte>) returns (view: View)
    requires AsciiFixed(nf)
    ensures view == if NormalView(nf, src) == src then View(src, None)
                    else View(NormalView(nf, src), Some(RuneIdx(nf, src)))
  {
    RuneTokens(nf, src);
    var found := ContainsNonASCII(src);
    if !found {
      AsciiUnchanged(nf, src);
      return View(src, None);
    }
    var out, idx := Rewrite(RuneStep(nf), nf, src);
    if out == src {
      return View(src, None);
    }
    return View(out, Some(idx));
  }

  method Rewrite(ghost step: Step, nf: NormalForm, src: seq<byte>) returns (out: seq<byte>, origIdx: seq<int>)
    requires step == RuneStep(nf) && Tokenizer(step, src)
    ensures out == Out(step, src, 0, |src|) && origIdx == Idx(step, src, 0, |src|)
  {
    hide Out, Idx, Tokenizer, ReadUpTo;
    out, origIdx := [], [];
    var pos: nat := 0;
    ReadNothing(step, src);
    while pos < |src|
      invariant pos <= |src| && ReadUpTo(step, src, pos, out, origIdx)
    {
      ReadToken(step, src, pos, out, origIdx);
      assert step(src, pos, |src|) == RuneToken(nf, src, pos, |src|);
      var size := RuneSize(src, pos, |src|);
      if size == 0 {
        assert Shift([0], pos) == [pos];
        origIdx := origIdx + [pos];
        out := out + [src[pos]];
        pos := pos + 1;
      } else {
        var normalized := nf(src[pos..pos + size]);
        assert Shift(Zeros(|normalized|), pos) == seq(|normalized|, _ => pos);
        origIdx := origIdx + seq(|normalized|, _ => pos);
        out := out + normalized;
        pos := pos + size;
      }
    }
    ReadAll(step, src, out, origIdx);
    origIdx := origIdx + [pos];
  }

  /** Pure ASCII is left alone, so the pre-check loses nothing. */
  lemma AsciiUnchanged(nf: NormalForm, src: seq<byte>)
    requires AsciiFixed(nf)
    requires forall i :: 0 <= i < |src| ==> src[i] < 0x80
    ensures NormalView(nf, src) == src
  {
    RuneTokens(nf, src);
    forall i | 0 <= i < |src|
      ensures RuneStep(nf)(src, i, |src|) == Verbatim(src[i])
    {
      assert RuneStep(nf)(src, i, |src|) == RuneToken(nf, src, i, |src|);
      assert src[i..i + 1] == [src[i]];
      assert Zeros(1) == [0];
    }
    AllVerbatim(RuneStep(nf), src, 0, |src|);
    assert src[0..|src|] == src;
  }

  // ----- Every well-formed character is replaced by its normal form ----------------------------------

  lemma RuneSizeSlides(sub: seq<byte>, src: seq<byte>, c: nat, p: nat, q: nat)
    requires c + |sub| <= |src| && p < q <= |sub| && forall i :: 0 <= i < |sub| ==> sub[i] == src[c + i]
    ensures RuneSize(sub, p, q) == RuneSize(src, c + p, c + q)
  {
    assert forall i, lo, hi :: p <= i ==> Continues(sub, i, q, lo, hi) == Continues(src, c + i, c + q, lo, hi);
  }

  lemma RuneTokenSlides(nf: NormalForm, sub: seq<byte>, src: seq<byte>, c: nat, p: nat, q: nat)
    requires c + |sub| <= |src| && p < q <= |sub| && forall i :: 0 <= i < |sub| ==> sub[i] == src[c + i]
    ensures RuneToken(nf, sub, p, q) == RuneToken(nf, src, c + p, c + q)
  {
    hide RuneSize;
    RuneSizeSlides(sub, src, c, p, q);
    var n := RuneSize(sub, p, q);
    assert sub[p..p + n] == src[c + p..c + p + n];
  }

  lemma RuneSlides(nf: NormalForm, sub: seq<byte>, src: seq<byte>, c: nat)
    requires c + |sub| <= |src| && forall i :: 0 <= i < |sub| ==> sub[i] == src[c + i]
    ensures Slides(RuneStep(nf), sub, src, c)
  {
    hide RuneToken;
    forall p, q | 0 <= p < q <= |sub|
      ensures RuneStep(nf)(sub, p, q) == RuneStep(nf)(src, c + p, c + q)
    {
      RuneTokenSlides(nf, sub, src, c, p, q);
    }
  }

  predicate IsContinuation(b: byte) {
    0x80 <= b <= 0xBF
  }

  /** Any byte that is not a continuation byte starts a token, whatever is around it. */
  lemma {:induction false} EdgeBeforeLead(nf: NormalForm, src: seq<byte>, p: nat, c: nat)
    requires Tokenizer(RuneStep(nf), src) && p <= c < |src| && !IsContinuation(src[c])
    ensures Boundary(RuneStep(nf), src, p, |src|, c)
    decreases c - p
  {
    if p < c {
      assert RuneStep(nf)(src, p, |src|) == RuneToken(nf, src, p, |src|);
      EdgeBeforeLead(nf, src, p + RuneToken(nf, src, p, |src|).len, c);
    }
  }

  /** One to four bytes in the ranges of the well-formed sequences. */
  predicate InRanges(u: seq<byte>) {
    match |u|
    case 0 => false
    case 1 => u[0] < 0x80
    case 2 => 0xC2 <= u[0] <= 0xDF && IsContinuation(u[1])
    case 3 =>
      && 0xE0 <= u[0] <= 0xEF && IsContinuation(u[1]) && IsContinuation(u[2])
      && (u[0] == 0xE0 ==> u[1] >= 0xA0) && (u[0] == 0xED ==> u[1] <= 0x9F)
    case 4 =>
      && 0xF0 <= u[0] <= 0xF4 && IsContinuation(u[1]) && IsContinuation(u[2]) && IsContinuation(u[3])
      && (u[0] == 0xF0 ==> u[1] >= 0x90) && (u[0] == 0xF4 ==> u[1] <= 0x8F)
    case _ => false
  }

  /** The ranges of the bytes of an encoding. */
  lemma EncodingRanges(c: rune)
    ensures InRanges(Utf8(c))
  {
    if 0x800 <= c < 0x10000 {
      ThreeByteLead(c);
    } else if 0x10000 <= c {
      FourByteLead(c);
    }
  }

  lemma ThreeByteLead(c: rune)
    requires 0x800 <= c < 0x10000
    ensures c / 4096 <= 0xF && (c / 4096 == 0 ==> c / 64 % 64 >= 0x20) && (c / 4096 == 0xD ==> c / 64 % 64 <= 0x1F)
  {
  }

  lemma FourByteLead(c: rune)
    requires 0x10000 <= c
    ensures c / 262144 <= 4
    ensures (c / 262144 == 0 ==> c / 4096 % 64 >= 0x10) && (c / 262144 == 4 ==> c / 4096 % 64 <= 0x0F)
  {
  }

  /** The encoding of a character is read back as one rune. */
  lemma CharacterIsRune(c: rune, src: seq<byte>, p: nat)
    requires p + |Utf8(c)| <= |src| && forall i :: 0 <= i < |Utf8(c)| ==> src[p + i] == Utf8(c)[i]
    ensures RuneSize(src, p, |src|) == |Utf8(c)| && !IsContinuation(src[p])
  {
    hide Utf8;
    var u := Utf8(c);
    EncodingRanges(c);
    assert src[p + 0] == u[0];
    assert |u| > 1 ==> src[p + 1] == u[1];
    assert |u| > 2 ==> src[p + 2] == u[2];
    assert |u| > 3 ==> src[p + 3] == u[3];
  }

  /** Wherever a well-formed character stands, and whatever bytes surround it, it is replaced in the view
      by its normal form, and the rest is normalised as if it stood alone. */
  lemma CharacterIsNormalised(nf: NormalForm, pre: seq<byte>, c: rune, post: seq<byte>)
    ensures NormalView(nf, pre + Utf8(c) + post) == NormalView(nf, pre) + nf(Utf8(c)) + NormalView(nf, post)
    ensures var o, idx := |NormalView(nf, pre)|, RuneIdx(nf, pre + Utf8(c) + post);
            |idx| > o + |nf(Utf8(c))| && forall i :: o <= i < o + |nf(Utf8(c))| ==> idx[i] == |pre|
  {
    hide Utf8, Out, Idx, Tokenizer, Boundary, PrefixStable, Slides, RuneSize;
    var u, step := Utf8(c), RuneStep(nf);
    var src := pre + u + post;
    RuneTokens(nf, src);
    RuneTokens(nf, pre);
    RuneTokens(nf, post);
    RuneStepIsLocal(nf, src);
    CharacterIsRune(c, src, |pre|);
    assert src[|pre|..|pre| + |u|] == u;
    var t := RuneToken(nf, src, |pre|, |src|);
    assert step(src, |pre|, |src|) == t;
    EdgeBeforeLead(nf, src, 0, |pre|);
    RuneSlides(nf, pre, src, 0);
    RuneSlides(nf, post, src, |pre| + |u|);
    ViewOfThreeParts(step, src, pre, post, t);
    IdxIsTable(step, src, |pre| + |u|, |src|);
  }

  // ----- Which runes a finding in the view covers ----------------------------------------------------

  ghost predicate RuneEdge(nf: NormalForm, src: seq<byte>, p: nat) {
    RuneTokens(nf, src);
    Boundary(RuneStep(nf), src, 0, |src|, p)
  }

  /** How many view bytes stand for `src[..p]`. */
  ghost function NormalBefore(nf: NormalForm, src: seq<byte>, p: nat): nat
    requires p <= |src|
  {
    RuneTokens(nf, src);
    |Out(RuneStep(nf), src, 0, p)|
  }

  /** For every body and every rune of it, at `p`: a view range that contains a byte of the rune's normal
      form maps to source bytes that hold the rune exactly when it goes on to the end of that form. */
  lemma RuneCoveredIff(nf: NormalForm, src: seq<byte>, p: nat, k: nat, x: nat, y: nat)
    requires p < |src| && RuneEdge(nf, src, p) && RuneSize(src, p, |src|) > 0
    requires k < |nf(src[p..p + RuneSize(src, p, |src|)])|
    requires x <= NormalBefore(nf, src, p) + k < y <= |NormalView(nf, src)|
    ensures var n := RuneSize(src, p, |src|);
            Covers(RuneIdx(nf, src), x, y, p, p + n) <==> y >= NormalBefore(nf, src, p) + |nf(src[p..p + n])|
  {
    hide Out, Idx, Tokenizer, PrefixStable, Boundary, RuneSize;
    var t := RuneToken(nf, src, p, |src|);
    RuneTokens(nf, src);
    RuneStepIsLocal(nf, src);
    assert RuneStep(nf)(src, p, |src|) == t;
    assert StandsFor(t, k, t.len);
    StretchCoveredIff(RuneStep(nf), src, p, t, k, t.len, x, y);
  }

  /** So a finding on the first letter of the ligature U+FB01 alone maps to an empty source range. */
  lemma {:induction false} LigatureCanStayUncovered(nf: NormalForm)
    requires nf(Utf8(0xFB01)) == [0x66, 0x69]
    ensures var idx := RuneIdx(nf, Utf8(0xFB01)); |idx| == 3 && idx[0] == 0 && idx[1] == 0 && idx[2] == 3
  {
    hide Out, Idx, Tokenizer, RuneSize;
    var u := Utf8(0xFB01);
    var step := RuneStep(nf);
    RuneTokens(nf, u);
    CharacterIsRune(0xFB01, u, 0);
    assert u[0..3] == u;
    assert step(u, 0, 3) == RuneToken(nf, u, 0, 3) == Token(3, [0x66, 0x69], Zeros(2));
    Unfold(step, u, 0, 3);
    EmptyOut(step, u, 3);
  }

  // ----- Where a rune is read, and what happens elsewhere ----------------------------------------------

  /** The encoding of some character stands at `p`. */
  ghost predicate StartsCharacter(src: seq<byte>, p: nat)
    requires p <= |src|
  {
    exists c: rune :: Utf8(c) <= src[p..]
  }

  /** The bytes of a rune are the encoding of the character they spell. */
  lemma RuneSpellsCharacter(src: seq<byte>, p: nat, q: nat) returns (c: rune)
    requires p < q <= |src| && RuneSize(src, p, q) > 0
    ensures Utf8(c) == src[p..p + RuneSize(src, p, q)] && c == Spelled(Utf8(c))
  {
    var n := RuneSize(src, p, q);
    var u := src[p..p + n];
    RuneBytes(src, p, q);
    match n
    case 1 => c := u[0];
    case 2 => c := TwoBytes(u);
    case 3 => c := ThreeBytes(u);
    case _ => c := FourBytes(u);
    Utf8Spells(c);
  }

  lemma RuneBytes(src: seq<byte>, p: nat, q: nat)
    requires p < q <= |src| && RuneSize(src, p, q) > 0
    ensures var n := RuneSize(src, p, q);
            && n <= 4 && p + n <= |src|
            && InRanges(src[p..p + n])
  {
  }

  lemma TwoBytes(u: seq<byte>) returns (c: rune)
    requires |u| == 2 && InRanges(u)
    ensures Utf8(c) == u
  {
    var b: seq<int> := u;
    c := (b[0] - 0xC0) * 64 + (b[1] - 0x80);
  }

  lemma ThreeBytes(u: seq<byte>) returns (c: rune)
    requires |u| == 3 && InRanges(u)
    ensures Utf8(c) == u
  {
    var b: seq<int> := u;
    var hi := (b[0] - 0xE0) * 64 + (b[1] - 0x80);
    SixBits(b[0] - 0xE0, b[1] - 0x80);
    SixBits(hi, b[2] - 0x80);
    c := hi * 64 + (b[2] - 0x80);
    SixBitsOff(c);
  }

  lemma FourBytes(u: seq<byte>) returns (c: rune)
    requires |u| == 4 && InRanges(u)
    ensures Utf8(c) == u
  {
    var b: seq<int> := u;
    var hi := (b[0] - 0xF0) * 64 + (b[1] - 0x80);
    var mid := hi * 64 + (b[2] - 0x80);
    SixBits(b[0] - 0xF0, b[1] - 0x80);
    SixBits(hi, b[2] - 0x80);
    SixBits(mid, b[3] - 0x80);
    c := mid * 64 + (b[3] - 0x80);
    SixBitsOff(c);
  }

  lemma SixBits(hi: nat, lo: nat)
    requires lo < 64
    ensures (hi * 64 + lo) / 64 == hi && (hi * 64 + lo) % 64 == lo
  {
  }

  /** A rune is read exactly where the encoding of a character stands. */
  lemma RuneIffCharacter(src: seq<byte>, p: nat)
    requires p < |src|
    ensures RuneSize(src, p, |src|) > 0 <==> StartsCharacter(src, p)
  {
    hide RuneSize, Utf8;
    if RuneSize(src, p, |src|) > 0 {
      var c := RuneSpellsCharacter(src, p, |src|);
      assert src[p..p + |Utf8(c)|] <= src[p..];
    }
    if c: rune :| Utf8(c) <= src[p..] {
      forall i | 0 <= i < |Utf8(c)|
        ensures src[p + i] == Utf8(c)[i]
      {
        assert src[p..][i] == Utf8(c)[i];
      }
      CharacterIsRune(c, src, p);
    }
  }

  /** A byte that starts no character stays in the view and maps to itself, and every view range with it maps
      to source bytes that hold it. */
  lemma {:induction false} IllFormedStays(nf: NormalForm, src: seq<byte>, p: nat, x: nat, y: nat)
    requires p < |src| && RuneEdge(nf, src, p) && !StartsCharacter(src, p)
    requires x <= NormalBefore(nf, src, p) < y <= |NormalView(nf, src)|
    ensures var o := NormalBefore(nf, src, p);
            && |RuneIdx(nf, src)| > o + 1 && RuneIdx(nf, src)[o] == p && RuneIdx(nf, src)[o + 1] >= p + 1
            && NormalView(nf, src)[o] == src[p]
            && Covers(RuneIdx(nf, src), x, y, p, p + 1)
  {
    hide Out, Idx, Tokenizer, PrefixStable, Boundary, RuneSize, StartsCharacter;
    var step := RuneStep(nf);
    RuneIffCharacter(src, p);
    RuneTokens(nf, src);
    RuneStepIsLocal(nf, src);
    assert step(src, p, |src|) == RuneToken(nf, src, p, |src|) == Verbatim(src[p]);
    ViewAroundToken(step, src, p, p + 1, Verbatim(src[p]));
    IdxIsTable(step, src, p + 1, |src|);
    StretchCoveredIff(step, src, p, Verbatim(src[p]), 0, 1, x, y);
  }
}
