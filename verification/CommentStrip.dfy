/** Removing SQL block comments from a view of the body. */
module CommentStrip {
  import opened Findings
  import opened Views

  const SLASH: byte := '/' as int
  const STAR: byte := '*' as int

  predicate OpensAt(s: seq<byte>, i: int) {
    0 <= i < |s| - 1 && s[i] == SLASH && s[i + 1] == STAR
  }

  predicate ClosesAt(s: seq<byte>, i: int) {
    0 <= i < |s| - 1 && s[i] == STAR && s[i + 1] == SLASH
  }

  method ContainsSlashStar(data: seq<byte>) returns (found: bool)
    ensures found <==> exists i :: OpensAt(data, i)
  {
    var i := 0;
    while i + 1 < |data|
      invariant forall j :: 0 <= j < i ==> !OpensAt(data, j)
    {
      if data[i] == SLASH && data[i + 1] == STAR {
        assert OpensAt(data, i);
        return true;
      }
      i := i + 1;
    }
    return false;
  }

  /** The earliest closing mark at or after `i` that ends by `q`. */
  function FirstClose(s: seq<byte>, i: nat, q: nat): (r: Option<nat>)
    requires q <= |s|
    ensures r.Some? ==> i <= r.value && r.value + 2 <= q && ClosesAt(s, r.value)
                        && forall j :: i <= j < r.value ==> !ClosesAt(s, j)
    ensures r.None? ==> forall j :: i <= j && j + 2 <= q ==> !ClosesAt(s, j)
    decreases q - i
  {
    if i + 2 > q then None else if ClosesAt(s, i) then Some(i) else FirstClose(s, i + 1, q)
  }

  /** A comment runs from an opening mark to the earliest closing mark behind it and yields nothing;
      every other byte, an unterminated opening included, yields itself. */
  function CommentStep(src: seq<byte>, p: int, q: int): Token {
    if !(0 <= p < q <= |src|) then Token(0, [], [])
    else if OpensAt(src, p) && p + 2 <= q && FirstClose(src, p + 2, q).Some? then
      Token(FirstClose(src, p + 2, q).value + 2 - p, [], [])
    else Verbatim(src[p])
  }

  lemma CommentTokens(src: seq<byte>)
    ensures Tokenizer(CommentStep, src)
  {
  }

  /** `src` without its comments. */
  ghost function Stripped(src: seq<byte>): seq<byte> {
    CommentTokens(src);
    Out(CommentStep, src, 0, |src|)
  }

  /** Where each kept byte came from. */
  ghost function StripIdx(src: seq<byte>): seq<int> {
    CommentTokens(src);
    Idx(CommentStep, src, 0, |src|)
  }

  ghost predicate SpansVanish(step: Step, src: seq<byte>) {
    forall p {:trigger step(src, p, |src|)} :: 0 <= p < |src| && step(src, p, |src|).len > 1 ==>
      step(src, p, |src|).out == [] && step(src, p, |src|).offs == []
  }

  lemma CommentTokenKinds(src: seq<byte>)
    ensures SinglesVerbatim(CommentStep, src) && SpansVanish(CommentStep, src)
  {
  }

  lemma CommentStepIsLocal(src: seq<byte>)
    ensures UnitTokens(CommentStep, src) && PrefixStable(CommentStep, src)
  {
  }

  lemma CommentSlides(src: seq<byte>, c: nat, d: nat)
    requires c <= d <= |src|
    ensures Slides(CommentStep, src[c..d], src, c)
  {
    var sub := src[c..d];
    assert forall i :: 0 <= i && i + 2 <= |sub| ==> (ClosesAt(sub, i) <==> ClosesAt(src, c + i));
    forall p, q | 0 <= p < q <= |sub|
      ensures CommentStep(sub, p, q) == CommentStep(src, c + p, c + q)
    {
      if OpensAt(sub, p) && p + 2 <= q {
        var mine, theirs := FirstClose(sub, p + 2, q), FirstClose(src, c + p + 2, c + q);
        if mine.Some? {
          assert ClosesAt(src, c + mine.value);
        }
        if theirs.Some? {
          assert ClosesAt(sub, theirs.value - c);
        }
      }
    }
  }

  /** Copies everything outside the spans, recording where each byte came from. */
  method DropSpans(ghost step: Step, src: seq<byte>, matches: seq<Range>) returns (out: seq<byte>, idx: seq<int>)
    requires Tokenizer(step, src) && SinglesVerbatim(step, src) && SpansVanish(step, src)
    requires matches == Spans(step, src, 0)
    ensures out == Out(step, src, 0, |src|) && idx == Idx(step, src, 0, |src|)
  {
    hide Out, Idx, Spans, Tokenizer, ReadUpTo, SinglesVerbatim;
    out, idx := [], [];
    var pos: nat := 0;
    ReadNothing(step, src);
    for k := 0 to |matches|
      invariant pos <= |src| && Spans(step, src, pos) == matches[k..]
      invariant ReadUpTo(step, src, pos, out, idx)
    {
      var m := matches[k];
      SpansBehind(step, src, pos);
      out, idx, pos := CopyTo(step, src, pos, m.start, out, idx);
      SpansHead(step, src, pos);
      ReadToken(step, src, pos, out, idx);
      assert out + [] == out && idx + Shift([], pos) == idx;
      pos := m.end;
    }
    out, idx, pos := CopyTo(step, src, pos, |src|, out, idx);
    ReadAll(step, src, out, idx);
    idx := idx + [pos];
  }

  /** The view of `src` without its comments, or `src` itself when there are none. */
  method Strip(src: seq<byte>) returns (view: View)
    ensures view == if Stripped(src) == src then View(src, None) else View(Stripped(src), Some(StripIdx(src)))
  {
    CommentTokens(src);
    var found := ContainsSlashStar(src);
    if !found {
      NoOpeningNoChange(src);
      return View(src, None);
    }
    CommentTokenKinds(src);
    var matches := FindSpans(CommentStep, src);
    var out, idx := DropSpans(CommentStep, src, matches);
    if out == src {
      return View(src, None);
    }
    return View(out, Some(idx));
  }

  /** Without an opening mark nothing is removed, so the pre-check loses nothing. */
  lemma NoOpeningNoChange(src: seq<byte>)
    requires forall i :: !OpensAt(src, i)
    ensures Stripped(src) == src
  {
    CommentTokens(src);
    forall i | 0 <= i < |src|
      ensures CommentStep(src, i, |src|) == Verbatim(src[i])
    {
      assert !OpensAt(src, i);
    }
    AllVerbatim(CommentStep, src, 0, |src|);
    assert src[0..|src|] == src;
  }

  /** Stripping any mapped slice of the source on its own gives exactly that stretch of the view, and
      the table is strictly increasing; unterminated comments are no exception. */
  lemma StrippingIsLocal(src: seq<byte>, a: nat, b: nat)
    requires a <= b <= |Stripped(src)|
    ensures var idx := StripIdx(src);
            && Table(idx, |Stripped(src)|, 0, |src|)
            && (a < b ==> idx[a] < idx[b])
            && Stripped(src[idx[a]..idx[b]]) == Stripped(src)[a..b]
  {
    hide CommentStep, Out, Idx, Tokenizer, PrefixStable, UnitTokens, Slides;
    CommentTokens(src);
    CommentStepIsLocal(src);
    IdxIsTable(CommentStep, src, 0, |src|);
    UnitViewsAreLocal(CommentStep, src, a, b);
    var c, d := Idx(CommentStep, src, 0, |src|)[a], Idx(CommentStep, src, 0, |src|)[b];
    CommentTokens(src[c..d]);
    CommentSlides(src, c, d);
    SliceIsSource(CommentStep, src[c..d], src, c, 0);
  }

  // ----- What stripping removes: the two lemmas below determine it on every source -----------------

  /** A comment: an opening mark, then anything up to the first closing mark. */
  ghost predicate IsComment(m: seq<byte>) {
    |m| >= 4 && OpensAt(m, 0) && ClosesAt(m, |m| - 2) && forall j :: 2 <= j < |m| - 2 ==> !ClosesAt(m, j)
  }

  lemma {:induction false} CommentIsToken(pre: seq<byte>, m: seq<byte>, post: seq<byte>)
    requires IsComment(m)
    ensures var src := pre + m + post; CommentStep(src, |pre|, |src|) == Token(|m|, [], [])
  {
    hide OpensAt, ClosesAt;
    var src, p, n := pre + m + post, |pre|, |m|;
    forall j | 0 <= j <= n - 2
      ensures ClosesAt(src, p + j) == ClosesAt(m, j) && OpensAt(src, p + j) == OpensAt(m, j)
    {
      MarksInPlace(pre, m, post, j);
    }
    forall j | p + 2 <= j < p + n - 2
      ensures !ClosesAt(src, j)
    {
      assert ClosesAt(src, p + (j - p)) == ClosesAt(m, j - p);
    }
    assert OpensAt(src, p + 0) && ClosesAt(src, p + (n - 2));
    assert FirstClose(src, p + 2, |src|) == Some(p + n - 2);
  }

  lemma MarksInPlace(pre: seq<byte>, m: seq<byte>, post: seq<byte>, j: nat)
    requires j <= |m| - 2
    ensures var src, p := pre + m + post, |pre|;
            ClosesAt(src, p + j) == ClosesAt(m, j) && OpensAt(src, p + j) == OpensAt(m, j)
  {
    var src, p := pre + m + post, |pre|;
    assert src[p + j] == m[j] && src[p + j + 1] == m[j + 1];
  }

  lemma {:induction false} EdgeAfterPlain(src: seq<byte>, p: nat, c: nat)
    requires Tokenizer(CommentStep, src) && p <= c <= |src| && forall i :: p <= i < c ==> !OpensAt(src, i)
    ensures Boundary(CommentStep, src, p, |src|, c)
    decreases c - p
  {
    if p < c {
      EdgeAfterPlain(src, p + 1, c);
    }
  }

  lemma CommentSlidesIn(sub: seq<byte>, src: seq<byte>, c: nat)
    requires c + |sub| <= |src| && sub == src[c..c + |sub|]
    ensures Slides(CommentStep, sub, src, c)
  {
    CommentSlides(src, c, c + |sub|);
  }

  /** The first comment goes and everything before it stays: what is left is stripped on its own. */
  lemma FirstCommentGoes(pre: seq<byte>, m: seq<byte>, post: seq<byte>)
    requires IsComment(m) && forall i :: 0 <= i < |pre| ==> !OpensAt(pre + m, i)
    ensures Stripped(pre + m + post) == pre + Stripped(post)
  {
    hide CommentStep, Out, Idx, Tokenizer, Boundary, PrefixStable, Slides;
    var src, n := pre + m + post, |pre| + |m|;
    CommentTokens(src);
    CommentTokens(pre);
    CommentTokens(post);
    CommentStepIsLocal(src);
    CommentIsToken(pre, m, post);
    forall i | 0 <= i < |pre|
      ensures !OpensAt(src, i)
    {
      assert !OpensAt(pre + m, i);
    }
    EdgeAfterPlain(src, 0, |pre|);
    assert pre == src[0..0 + |pre|] && post == src[n..n + |post|];
    CommentSlidesIn(pre, src, 0);
    CommentSlidesIn(post, src, n);
    ViewOfThreeParts(CommentStep, src, pre, post, Token(|m|, [], []));
    forall i
      ensures !OpensAt(pre, i)
    {
      assert OpensAt(pre, i) ==> OpensAt(pre + m, i);
    }
    NoOpeningNoChange(pre);
  }

  /** With no comment that is ever closed, nothing goes. */
  lemma UnterminatedStays(src: seq<byte>)
    requires forall i, j :: OpensAt(src, i) && i + 2 <= j ==> !ClosesAt(src, j)
    ensures Stripped(src) == src
  {
    CommentTokens(src);
    forall i | 0 <= i < |src|
      ensures CommentStep(src, i, |src|) == Verbatim(src[i])
    {
    }
    AllVerbatim(CommentStep, src, 0, |src|);
    assert src[0..|src|] == src;
  }
}
