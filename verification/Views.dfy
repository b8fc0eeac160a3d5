/** Transformed views of a body: the source is read token by token, every token yields some view bytes,
    and a table maps each view offset back to a source offset. */
module Views {
  import opened Findings

  /** A token: its length in the source, the bytes it yields, and for each of them the offset, within
      the token, of the source bytes it stands for. */
  datatype Token = Token(len: int, out: seq<byte>, offs: seq<int>)

  /** `step(src, p, q)` is the token at `p` when `src` is read up to `q`. */
  type Step = (seq<byte>, int, int) -> Token

  ghost predicate Ascending(idx: seq<int>) {
    forall i, j :: 0 <= i < j < |idx| ==> idx[i] <= idx[j]
  }

  ghost predicate WellFormed(t: Token, n: nat) {
    && 0 < t.len <= n
    && |t.offs| == |t.out|
    && (forall i :: 0 <= i < |t.offs| ==> 0 <= t.offs[i] < t.len)
    && Ascending(t.offs)
  }

  /** Reading any slice of `src` makes progress. */
  ghost predicate Tokenizer(step: Step, src: seq<byte>) {
    forall p, q {:trigger step(src, p, q)} :: 0 <= p < q <= |src| ==> WellFormed(step(src, p, q), q - p)
  }

  /** The view of `src[p..q]` taken on its own. */
  ghost function Out(step: Step, src: seq<byte>, p: nat, q: nat): seq<byte>
    requires Tokenizer(step, src) && p <= q <= |src|
    decreases q - p
  {
    if p == q then []
    else
      var t := step(src, p, q);
      assert WellFormed(t, q - p);
      t.out + Out(step, src, p + t.len, q)
  }

  function Shift(offs: seq<int>, base: int): seq<int> {
    seq(|offs|, i requires 0 <= i < |offs| => offs[i] + base)
  }

  /** The table of that view, with offsets into `src`; the last entry is `q`. */
  ghost function Idx(step: Step, src: seq<byte>, p: nat, q: nat): seq<int>
    requires Tokenizer(step, src) && p <= q <= |src|
    decreases q - p
  {
    if p == q then [q]
    else
      var t := step(src, p, q);
      assert WellFormed(t, q - p);
      Shift(t.offs, p) + Idx(step, src, p + t.len, q)
  }

  /** What a transform returns: the view, and the table unless nothing changed. */
  datatype View = View(out: seq<byte>, idx: Option<seq<int>>)

  lemma Unfold(step: Step, src: seq<byte>, p: nat, q: nat)
    requires Tokenizer(step, src) && p < q <= |src|
    ensures var t := step(src, p, q);
            && WellFormed(t, q - p)
            && Out(step, src, p, q) == t.out + Out(step, src, p + t.len, q)
            && Idx(step, src, p, q) == Shift(t.offs, p) + Idx(step, src, p + t.len, q)
  {
  }

  // ----- The table is well shaped ---------------------------------------------------------------

  /** One entry per view byte and one more, never decreasing, between `lo` and `hi`, ending at `hi`. */
  ghost predicate Table(idx: seq<int>, outLen: nat, lo: nat, hi: nat) {
    && |idx| == outLen + 1
    && (forall i :: 0 <= i < |idx| ==> lo <= idx[i] <= hi)
    && Ascending(idx)
    && idx[outLen] == hi
  }

  lemma PrependToken(t: Token, p: nat, q: nat, rest: seq<int>, m: nat)
    requires p <= q && WellFormed(t, q - p) && Table(rest, m, p + t.len, q)
    ensures Table(Shift(t.offs, p) + rest, |t.out| + m, p, q)
  {
    var idx, k := Shift(t.offs, p) + rest, |t.out|;
    forall i, j | 0 <= i < j < |idx|
      ensures idx[i] <= idx[j]
    {
      if i >= k {
        assert idx[i] == rest[i - k] && idx[j] == rest[j - k];
      } else if j >= k {
        assert idx[j] == rest[j - k];
      }
    }
  }

  lemma {:induction false} IdxIsTable(step: Step, src: seq<byte>, p: nat, q: nat)
    requires Tokenizer(step, src) && p <= q <= |src|
    ensures Table(Idx(step, src, p, q), |Out(step, src, p, q)|, p, q)
    decreases q - p
  {
    hide Tokenizer;
    if p < q {
      var t := step(src, p, q);
      Unfold(step, src, p, q);
      IdxIsTable(step, src, p + t.len, q);
      PrependToken(t, p, q, Idx(step, src, p + t.len, q), |Out(step, src, p + t.len, q)|);
    }
  }

  /** `out` and `idx` are the view and the table of the tokens before `p`. */
  ghost predicate ReadUpTo(step: Step, src: seq<byte>, p: nat, out: seq<byte>, idx: seq<int>) {
    && Tokenizer(step, src) && p <= |src|
    && out + Out(step, src, p, |src|) == Out(step, src, 0, |src|)
    && idx + Idx(step, src, p, |src|) == Idx(step, src, 0, |src|)
  }

  lemma ReadNothing(step: Step, src: seq<byte>)
    requires Tokenizer(step, src)
    ensures ReadUpTo(step, src, 0, [], [])
  {
  }

  lemma ReadToken(step: Step, src: seq<byte>, p: nat, out: seq<byte>, idx: seq<int>)
    requires p < |src| && ReadUpTo(step, src, p, out, idx)
    ensures var t := step(src, p, |src|);
            WellFormed(t, |src| - p) && ReadUpTo(step, src, p + t.len, out + t.out, idx + Shift(t.offs, p))
  {
    hide Out, Idx, Tokenizer;
    var t := step(src, p, |src|);
    Unfold(step, src, p, |src|);
    Assoc(out, t.out, Out(step, src, p + t.len, |src|));
    Assoc(idx, Shift(t.offs, p), Idx(step, src, p + t.len, |src|));
  }

  /** Reading a token that yields one byte. */
  lemma ReadOne(step: Step, src: seq<byte>, p: nat, out: seq<byte>, idx: seq<int>, next: nat, b: byte)
    requires p < next && p < |src| && ReadUpTo(step, src, p, out, idx)
    requires step(src, p, |src|) == Token(next - p, [b], [0])
    ensures next <= |src| && ReadUpTo(step, src, next, out + [b], idx + [p])
  {
    hide Out, Idx, ReadUpTo, Tokenizer;
    ReadToken(step, src, p, out, idx);
    assert Shift([0], p) == [p];
  }

  lemma ReadAll(step: Step, src: seq<byte>, out: seq<byte>, idx: seq<int>)
    requires ReadUpTo(step, src, |src|, out, idx)
    ensures out == Out(step, src, 0, |src|) && idx + [|src|] == Idx(step, src, 0, |src|)
  {
  }

  // ----- Verbatim bytes ---------------------------------------------------------------------------

  function Verbatim(b: byte): Token { Token(1, [b], [0]) }

  lemma NextVerbatim(step: Step, src: seq<byte>, p: nat, q: nat)
    requires Tokenizer(step, src) && p < q <= |src| && step(src, p, q) == Verbatim(src[p])
    ensures Out(step, src, p, q) == [src[p]] + Out(step, src, p + 1, q)
    ensures Idx(step, src, p, q) == [p] + Idx(step, src, p + 1, q)
  {
    assert Shift([0], p) == [p];
  }

  /** If every token is a verbatim byte, the view is the source itself. */
  lemma {:induction false} AllVerbatim(step: Step, src: seq<byte>, p: nat, q: nat)
    requires Tokenizer(step, src) && p <= q <= |src|
    requires forall i :: p <= i < q ==> step(src, i, q) == Verbatim(src[i])
    ensures Out(step, src, p, q) == src[p..q]
    decreases q - p
  {
    if p < q {
      NextVerbatim(step, src, p, q);
      AllVerbatim(step, src, p + 1, q);
    }
  }

  // ----- Where the tokens longer than one byte are --------------------------------------------------

  /** The tokens longer than one byte, left to right: what a regular-expression search reports. */
  ghost function Spans(step: Step, src: seq<byte>, p: nat): seq<Range>
    requires Tokenizer(step, src) && p <= |src|
    decreases |src| - p
  {
    if p == |src| then []
    else
      var t := step(src, p, |src|);
      assert WellFormed(t, |src| - p);
      (if t.len > 1 then [Range(p, p + t.len)] else []) + Spans(step, src, p + t.len)
  }

  /** Up to the first span the tokens are single bytes; the span itself is the token there. */
  lemma {:induction false} SpansHead(step: Step, src: seq<byte>, p: nat)
    requires Tokenizer(step, src) && p < |src|
    ensures var spans, t := Spans(step, src, p), step(src, p, |src|);
            && WellFormed(t, |src| - p)
            && (spans != [] ==> p <= spans[0].start < spans[0].end <= |src|)
            && (spans != [] && spans[0].start == p ==>
                  t.len > 1 && spans[0].end == p + t.len && Spans(step, src, p + t.len) == spans[1..])
            && (spans == [] || spans[0].start > p ==> t.len == 1 && Spans(step, src, p + 1) == spans)
    decreases |src| - p
  {
    hide Spans, Tokenizer;
    var t := step(src, p, |src|);
    UnfoldSpans(step, src, p);
    if t.len == 1 {
      assert [] + Spans(step, src, p + 1) == Spans(step, src, p + 1);
      if p + 1 < |src| {
        SpansHead(step, src, p + 1);
      } else {
        NoSpansAtEnd(step, src);
      }
    }
  }

  lemma SpansBehind(step: Step, src: seq<byte>, p: nat)
    requires Tokenizer(step, src) && p <= |src|
    ensures Spans(step, src, p) != [] ==> p <= Spans(step, src, p)[0].start < |src|
  {
    if p < |src| {
      SpansHead(step, src, p);
    }
  }

  lemma UnfoldSpans(step: Step, src: seq<byte>, p: nat)
    requires Tokenizer(step, src) && p < |src|
    ensures var t := step(src, p, |src|);
            && WellFormed(t, |src| - p)
            && Spans(step, src, p) == (if t.len > 1 then [Range(p, p + t.len)] else []) + Spans(step, src, p + t.len)
  {
  }

  lemma ReadSpan(step: Step, src: seq<byte>, p: nat, found: seq<Range>)
    requires Tokenizer(step, src) && p < |src| && found + Spans(step, src, p) == Spans(step, src, 0)
    ensures var t := step(src, p, |src|);
            && WellFormed(t, |src| - p)
            && (found + if t.len > 1 then [Range(p, p + t.len)] else []) + Spans(step, src, p + t.len)
               == Spans(step, src, 0)
  {
    hide Spans, Tokenizer;
    var t := step(src, p, |src|);
    UnfoldSpans(step, src, p);
    Assoc(found, if t.len > 1 then [Range(p, p + t.len)] else [], Spans(step, src, p + t.len));
  }

  /** Stands for a regular-expression search: the spans, leftmost first, not overlapping. */
  method FindSpans(step: Step, src: seq<byte>) returns (found: seq<Range>)
    requires Tokenizer(step, src)
    ensures found == Spans(step, src, 0)
  {
    hide Spans, Tokenizer;
    found := [];
    var pos: nat := 0;
    assert [] + Spans(step, src, 0) == Spans(step, src, 0);
    while pos < |src|
      invariant pos <= |src| && found + Spans(step, src, pos) == Spans(step, src, 0)
    {
      var t := step(src, pos, |src|);
      ReadSpan(step, src, pos, found);
      found := found + if t.len > 1 then [Range(pos, pos + t.len)] else [];
      pos := pos + t.len;
    }
    NoSpansAtEnd(step, src);
  }

  lemma NoSpansAtEnd(step: Step, src: seq<byte>)
    requires Tokenizer(step, src)
    ensures Spans(step, src, |src|) == []
  {
  }

  ghost predicate SinglesVerbatim(step: Step, src: seq<byte>) {
    forall p {:trigger step(src, p, |src|)} :: 0 <= p < |src| && step(src, p, |src|).len == 1 ==>
      step(src, p, |src|) == Verbatim(src[p])
  }

  /** Copies the bytes up to the next span, or to the end, recording where each one came from. */
  method CopyTo(ghost step: Step, src: seq<byte>, from: nat, end: nat, out0: seq<byte>, idx0: seq<int>)
    returns (out: seq<byte>, idx: seq<int>, pos: nat)
    requires Tokenizer(step, src) && SinglesVerbatim(step, src)
    requires from <= |src| && ReadUpTo(step, src, from, out0, idx0)
    requires var spans := Spans(step, src, from); end == if spans == [] then |src| else spans[0].start
    ensures pos == end && pos <= |src| && ReadUpTo(step, src, pos, out, idx)
    ensures Spans(step, src, pos) == Spans(step, src, from)
    ensures from <= pos && out == out0 + src[from..pos]
  {
    hide Out, Idx, Spans, ReadUpTo, Tokenizer, SinglesVerbatim;
    SpansBehind(step, src, from);
    out, idx, pos := out0, idx0, from;
    while pos < end
      invariant from <= pos <= end <= |src|
      invariant out == out0 + src[from..pos] && idx == idx0 + Positions(from, pos)
    {
      idx := idx + [pos];
      out := out + [src[pos]];
      pos := pos + 1;
    }
    CopyRange(step, src, from, pos, out0, idx0);
  }

  function Positions(p: nat, q: nat): seq<int>
    requires p <= q
  {
    seq(q - p, i requires 0 <= i => p + i)
  }

  lemma {:induction false} CopyRange(step: Step, src: seq<byte>, p: nat, q: nat, out: seq<byte>, idx: seq<int>)
    requires Tokenizer(step, src) && p <= q <= |src| && ReadUpTo(step, src, p, out, idx) && SinglesVerbatim(step, src)
    requires Spans(step, src, p) == [] || Spans(step, src, p)[0].start >= q
    ensures ReadUpTo(step, src, q, out + src[p..q], idx + Positions(p, q))
    ensures Spans(step, src, q) == Spans(step, src, p)
    decreases q - p
  {
    hide Out, Idx, Spans, ReadUpTo, Tokenizer, SinglesVerbatim;
    if p == q {
      assert out + src[p..q] == out && idx + Positions(p, q) == idx;
    } else {
      CopyRange(step, src, p, q - 1, out, idx);
      CopyByte(step, src, q - 1, out + src[p..q - 1], idx + Positions(p, q - 1));
      assert src[p..q] == src[p..q - 1] + [src[q - 1]];
      assert Positions(p, q) == Positions(p, q - 1) + [q - 1];
      Assoc(out, src[p..q - 1], [src[q - 1]]);
      Assoc(idx, Positions(p, q - 1), [q - 1]);
    }
  }

  lemma Assoc<T>(a: seq<T>, b: seq<T>, c: seq<T>)
    ensures a + (b + c) == (a + b) + c
  {
  }

  lemma CopyByte(step: Step, src: seq<byte>, p: nat, out: seq<byte>, idx: seq<int>)
    requires Tokenizer(step, src) && p < |src| && ReadUpTo(step, src, p, out, idx) && SinglesVerbatim(step, src)
    requires Spans(step, src, p) == [] || Spans(step, src, p)[0].start > p
    ensures ReadUpTo(step, src, p + 1, out + [src[p]], idx + [p])
    ensures Spans(step, src, p + 1) == Spans(step, src, p)
  {
    hide Out, Idx, ReadUpTo, Tokenizer;
    SpansHead(step, src, p);
    ReadOne(step, src, p, out, idx, p + 1, src[p]);
  }

  // ----- Views are local at token boundaries ------------------------------------------------------

  /** A token does not depend on what follows it. */
  ghost predicate PrefixStable(step: Step, src: seq<byte>) {
    forall p, q, c {:trigger step(src, p, q), step(src, p, c)} ::
      0 <= p < q <= |src| && p + step(src, p, q).len <= c <= q ==>
      step(src, p, c) == step(src, p, q)
  }

  predicate Unit(t: Token) {
    |t.offs| <= 1 && (|t.offs| == 1 ==> t.offs[0] == 0)
  }

  /** Every token yields at most one byte, standing for the whole token. */
  ghost predicate UnitTokens(step: Step, src: seq<byte>) {
    forall p, q {:trigger step(src, p, q)} :: 0 <= p < q <= |src| ==> Unit(step(src, p, q))
  }

  /** Reading `src[p..q]` from `p` puts a token edge at `c`. */
  ghost predicate Boundary(step: Step, src: seq<byte>, p: nat, q: nat, c: nat)
    requires Tokenizer(step, src) && p <= q <= |src|
    decreases q - p
  {
    c == p || (p < q && var t := step(src, p, q);
                        WellFormed(t, q - p) && p + t.len <= c && Boundary(step, src, p + t.len, q, c))
  }

  lemma EmptyOut(step: Step, src: seq<byte>, p: nat)
    requires Tokenizer(step, src) && p <= |src|
    ensures Out(step, src, p, p) == [] && Idx(step, src, p, p) == [p]
  {
  }

  lemma TokenOfPrefix(step: Step, src: seq<byte>, p: nat, q: nat, c: nat)
    requires Tokenizer(step, src) && PrefixStable(step, src) && p < q <= |src|
    requires p + step(src, p, q).len <= c <= q
    ensures p < c && step(src, p, c) == step(src, p, q)
    ensures Out(step, src, p, c) == step(src, p, q).out + Out(step, src, p + step(src, p, q).len, c)
    ensures Idx(step, src, p, c) == Shift(step(src, p, q).offs, p) + Idx(step, src, p + step(src, p, q).len, c)
  {
    hide Out, Idx;
    assert WellFormed(step(src, p, q), q - p);
    assert step(src, p, c) == step(src, p, q);
    Unfold(step, src, p, c);
  }

  /** Cutting at a token edge cuts the view in two, each side being the view of its own half. */
  lemma {:induction false} SplitAtBoundary(step: Step, src: seq<byte>, p: nat, q: nat, c: nat)
    requires Tokenizer(step, src) && PrefixStable(step, src) && p <= q <= |src| && Boundary(step, src, p, q, c)
    ensures p <= c <= q && Out(step, src, p, q) == Out(step, src, p, c) + Out(step, src, c, q)
    decreases q - p
  {
    hide Out, Tokenizer, PrefixStable;
    if c != p {
      var t := step(src, p, q);
      Unfold(step, src, p, q);
      SplitAtBoundary(step, src, p + t.len, q, c);
      TokenOfPrefix(step, src, p, q, c);
      Assoc(t.out, Out(step, src, p + t.len, c), Out(step, src, c, q));
    } else {
      EmptyOut(step, src, p);
      assert [] + Out(step, src, p, q) == Out(step, src, p, q);
    }
  }

  /** The table splits at an edge too: the left part without its end entry, then the right part. */
  lemma {:induction false} TableSplitsAtBoundary(step: Step, src: seq<byte>, p: nat, q: nat, c: nat)
    requires Tokenizer(step, src) && PrefixStable(step, src) && p <= q <= |src| && Boundary(step, src, p, q, c)
    ensures p <= c <= q && |Idx(step, src, p, c)| == |Out(step, src, p, c)| + 1
    ensures Idx(step, src, p, q) == Idx(step, src, p, c)[..|Out(step, src, p, c)|] + Idx(step, src, c, q)
    decreases q - p
  {
    hide Out, Idx, Tokenizer, PrefixStable;
    SplitAtBoundary(step, src, p, q, c);
    IdxIsTable(step, src, p, c);
    if c != p {
      var t := step(src, p, q);
      Unfold(step, src, p, q);
      TableSplitsAtBoundary(step, src, p + t.len, q, c);
      TokenOfPrefix(step, src, p, q, c);
      var rest, m := Idx(step, src, p + t.len, c), |Out(step, src, p + t.len, c)|;
      assert (Shift(t.offs, p) + rest)[..|t.out| + m] == Shift(t.offs, p) + rest[..m];
      Assoc(Shift(t.offs, p), rest[..m], Idx(step, src, c, q));
    } else {
      EmptyOut(step, src, p);
      assert [p][..0] + Idx(step, src, p, q) == Idx(step, src, p, q);
    }
  }

  /** The view around a token that starts at an edge. */
  lemma ViewAroundToken(step: Step, src: seq<byte>, c: nat, d: nat, t: Token)
    requires Tokenizer(step, src) && PrefixStable(step, src) && c < d <= |src|
    requires Boundary(step, src, 0, |src|, c) && step(src, c, |src|) == t && t.len == d - c
    ensures Out(step, src, 0, |src|) == Out(step, src, 0, c) + (t.out + Out(step, src, d, |src|))
    ensures var left, o := Idx(step, src, 0, c), |Out(step, src, 0, c)|;
            |left| > o && Idx(step, src, 0, |src|) == left[..o] + (Shift(t.offs, c) + Idx(step, src, d, |src|))
  {
    hide Out, Idx, Tokenizer, PrefixStable, Boundary;
    Unfold(step, src, c, |src|);
    SplitAtBoundary(step, src, 0, |src|, c);
    TableSplitsAtBoundary(step, src, 0, |src|, c);
  }

  /** In `pre + mid + post`, if an edge precedes `mid` and `mid` is the token there, the view is that of
      `pre`, the token's bytes, and that of `post`. */
  lemma ViewOfThreeParts(step: Step, src: seq<byte>, pre: seq<byte>, post: seq<byte>, t: Token)
    requires Tokenizer(step, src) && Tokenizer(step, pre) && Tokenizer(step, post) && PrefixStable(step, src)
    requires |pre| + t.len + |post| == |src| && t.len > 0
    requires Slides(step, pre, src, 0) && Slides(step, post, src, |pre| + t.len)
    requires Boundary(step, src, 0, |src|, |pre|) && step(src, |pre|, |src|) == t
    ensures Out(step, src, 0, |src|) == Out(step, pre, 0, |pre|) + t.out + Out(step, post, 0, |post|)
    ensures var left, o := Idx(step, src, 0, |pre|), |Out(step, pre, 0, |pre|)|;
            && |left| > o
            && Idx(step, src, 0, |src|) == left[..o] + (Shift(t.offs, |pre|) + Idx(step, src, |pre| + t.len, |src|))
  {
    hide Out, Idx, Tokenizer, PrefixStable, Slides, Boundary;
    ViewAroundToken(step, src, |pre|, |pre| + t.len, t);
    SliceIsSource(step, pre, src, 0, 0);
    SliceIsSource(step, post, src, |pre| + t.len, 0);
    Assoc(Out(step, pre, 0, |pre|), t.out, Out(step, post, 0, |post|));
  }

  /** An edge stays an edge when the source is cut short at a later edge. */
  lemma {:induction false} BoundaryOfPrefix(step: Step, src: seq<byte>, p: nat, q: nat, c: nat, d: nat)
    requires Tokenizer(step, src) && PrefixStable(step, src) && p <= q <= |src| && c <= d <= q
    requires Boundary(step, src, p, q, c) && Boundary(step, src, p, q, d)
    ensures p <= d && Boundary(step, src, p, d, c)
    decreases q - p
  {
    SplitAtBoundary(step, src, p, q, d);
    if c != p {
      var t := step(src, p, q);
      SplitAtBoundary(step, src, p, q, c);
      BoundaryOfPrefix(step, src, p + t.len, q, c, d);
      assert step(src, p, d) == t;
    }
  }

  /** Between two token edges the view is the view of that slice alone. */
  lemma LocalBetweenBoundaries(step: Step, src: seq<byte>, c: nat, d: nat)
    requires Tokenizer(step, src) && PrefixStable(step, src) && c <= d <= |src|
    requires Boundary(step, src, 0, |src|, c) && Boundary(step, src, 0, |src|, d)
    ensures Out(step, src, 0, |src|) == Out(step, src, 0, c) + Out(step, src, c, d) + Out(step, src, d, |src|)
    ensures Out(step, src, 0, d) == Out(step, src, 0, c) + Out(step, src, c, d)
  {
    SplitAtBoundary(step, src, 0, |src|, d);
    BoundaryOfPrefix(step, src, 0, |src|, c, d);
    SplitAtBoundary(step, src, 0, d, c);
  }

  /** With at most one byte per token, every table entry is a token edge, and the source before it
      yields exactly the view bytes before it. */
  lemma {:induction false} EntryIsBoundary(step: Step, src: seq<byte>, p: nat, q: nat, a: nat)
    requires Tokenizer(step, src) && UnitTokens(step, src) && PrefixStable(step, src)
    requires p <= q <= |src| && a <= |Out(step, src, p, q)|
    ensures |Idx(step, src, p, q)| == |Out(step, src, p, q)| + 1
    ensures var c := Idx(step, src, p, q)[a];
            p <= c <= q && Boundary(step, src, p, q, c) && |Out(step, src, p, c)| == a
    decreases q - p
  {
    hide Out, Idx, Tokenizer, PrefixStable;
    IdxIsTable(step, src, p, q);
    EmptyOut(step, src, p);
    if p < q {
      var t := step(src, p, q);
      var c := Idx(step, src, p, q)[a];
      Unfold(step, src, p, q);
      if a < |t.out| {
        assert c == p;
      } else {
        EntryIsBoundary(step, src, p + t.len, q, a - |t.out|);
        assert c == Idx(step, src, p + t.len, q)[a - |t.out|];
        TokenOfPrefix(step, src, p, q, c);
      }
    }
  }

  /** Unit-token views are local everywhere: the source slice that any stretch of the view maps back to
      yields, on its own, exactly that stretch, and no two view bytes share a source offset. */
  lemma UnitViewsAreLocal(step: Step, src: seq<byte>, a: nat, b: nat)
    requires Tokenizer(step, src) && UnitTokens(step, src) && PrefixStable(step, src)
    requires a <= b <= |Out(step, src, 0, |src|)|
    ensures |Idx(step, src, 0, |src|)| == |Out(step, src, 0, |src|)| + 1
    ensures var c, d := Idx(step, src, 0, |src|)[a], Idx(step, src, 0, |src|)[b];
            && 0 <= c <= d <= |src|
            && (a < b ==> c < d)
            && Out(step, src, c, d) == Out(step, src, 0, |src|)[a..b]
  {
    EntryIsBoundary(step, src, 0, |src|, a);
    EntryIsBoundary(step, src, 0, |src|, b);
    IdxIsTable(step, src, 0, |src|);
    LocalBetweenBoundaries(step, src, Idx(step, src, 0, |src|)[a], Idx(step, src, 0, |src|)[b]);
  }

  /** Reading `sub` is reading `src` from `c` on: tokens look only at what they are given. */
  ghost predicate Slides(step: Step, sub: seq<byte>, src: seq<byte>, c: int) {
    forall p, q {:trigger step(sub, p, q)} :: 0 <= p < q <= |sub| ==> step(sub, p, q) == step(src, c + p, c + q)
  }

  /** The view of a slice in place is the view of the slice as a source of its own. */
  lemma {:induction false} SliceIsSource(step: Step, sub: seq<byte>, src: seq<byte>, c: nat, p: nat)
    requires Tokenizer(step, src) && Tokenizer(step, sub) && Slides(step, sub, src, c)
    requires c + |sub| <= |src| && p <= |sub|
    ensures Out(step, sub, p, |sub|) == Out(step, src, c + p, c + |sub|)
    decreases |sub| - p
  {
    if p < |sub| {
      var t := step(sub, p, |sub|);
      assert WellFormed(t, |sub| - p);
      SliceIsSource(step, sub, src, c, p + t.len);
    }
  }

  // ----- What a mapped view range covers in the source ----------------------------------------------

  /** The view range `[x, y)` maps back to a source range that holds `[lo, hi)`. */
  predicate Covers(idx: seq<int>, x: nat, y: nat, lo: int, hi: int) {
    x <= y < |idx| && idx[x] <= lo && hi <= idx[y]
  }

  /** `[t.offs[k], end)` is the stretch of the token that its byte `k` stands for: no byte of the token
      stands for anything that starts inside it. */
  ghost predicate StandsFor(t: Token, k: nat, end: int) {
    && k < |t.offs| && t.offs[k] < end <= t.len
    && forall j :: 0 <= j < |t.offs| ==> t.offs[j] <= t.offs[k] || end <= t.offs[j]
  }

  /** A view range that contains byte `k` of a token covers the stretch that byte stands for exactly when
      the range goes on to the end of the token, or to a byte that stands for a later stretch. */
  lemma StretchCoveredIff(step: Step, src: seq<byte>, p: nat, t: Token, k: nat, end: int, x: nat, y: nat)
    requires Tokenizer(step, src) && PrefixStable(step, src) && p < |src|
    requires Boundary(step, src, 0, |src|, p) && step(src, p, |src|) == t && StandsFor(t, k, end)
    requires x <= |Out(step, src, 0, p)| + k < y <= |Out(step, src, 0, |src|)|
    ensures var o := |Out(step, src, 0, p)|;
            && |t.offs| == |t.out|
            && (Covers(Idx(step, src, 0, |src|), x, y, p + t.offs[k], p + end)
                <==> y >= o + |t.out| || t.offs[k] < t.offs[y - o])
  {
    hide Out, Idx, Tokenizer, PrefixStable, Boundary;
    Unfold(step, src, p, |src|);
    var d := p + t.len;
    ViewAroundToken(step, src, p, d, t);
    IdxIsTable(step, src, 0, |src|);
    IdxIsTable(step, src, d, |src|);
    StretchInTable(Idx(step, src, 0, p), |Out(step, src, 0, p)|, p, t, Idx(step, src, d, |src|), k, end, x, y);
  }

  lemma StretchInTable(left: seq<int>, o: nat, p: nat, t: Token, rest: seq<int>, k: nat, end: int, x: nat, y: nat)
    requires o < |left| && |t.offs| == |t.out| && StandsFor(t, k, end)
    requires forall i :: 0 <= i < |rest| ==> p + t.len <= rest[i]
    requires Ascending(left[..o] + (Shift(t.offs, p) + rest)) && x <= o + k < y < o + |t.out| + |rest|
    ensures Covers(left[..o] + (Shift(t.offs, p) + rest), x, y, p + t.offs[k], p + end)
            <==> y >= o + |t.out| || t.offs[k] < t.offs[y - o]
  {
    var idx := left[..o] + (Shift(t.offs, p) + rest);
    assert idx[o + k] == p + t.offs[k];
    assert idx[x] <= idx[o + k];
    if y >= o + |t.out| {
      assert idx[y] == rest[y - o - |t.out|];
    } else {
      assert idx[y] == p + t.offs[y - o];
    }
  }

  /** Every view byte is byte `k` of the token at some edge `c`. */
  lemma {:induction false} TokenOfByte(step: Step, src: seq<byte>, p: nat, x: nat) returns (c: nat, k: nat)
    requires Tokenizer(step, src) && PrefixStable(step, src) && p <= |src| && x < |Out(step, src, p, |src|)|
    ensures p <= c < |src| && Boundary(step, src, p, |src|, c)
    ensures k < |step(src, c, |src|).out| && |Out(step, src, p, c)| + k == x
    decreases |src| - p
  {
    hide Tokenizer, PrefixStable, Out;
    EmptyOut(step, src, p);
    EmptyOut(step, src, |src|);
    Unfold(step, src, p, |src|);
    var t := step(src, p, |src|);
    if x < |t.out| {
      c, k := p, x;
    } else {
      c, k := TokenOfByte(step, src, p + t.len, x - |t.out|);
      TokenOfPrefix(step, src, p, |src|, c);
    }
  }

  // ----- Up to the first token that is not a verbatim byte --------------------------------------------

  /** A source whose tokens before `p` are single verbatim bytes has an edge at `p`. */
  lemma {:induction false} EdgeAfterVerbatim(step: Step, src: seq<byte>, q: nat, p: nat)
    requires Tokenizer(step, src) && q <= p <= |src|
    requires forall i :: q <= i < p ==> step(src, i, |src|) == Verbatim(src[i])
    ensures Boundary(step, src, q, |src|, p)
    decreases p - q
  {
    if q < p {
      assert step(src, q, |src|) == Verbatim(src[q]);
      EdgeAfterVerbatim(step, src, q + 1, p);
    }
  }

  /** The view of such a source: the bytes before `p`, what the token there yields, and then the view of the
      rest on its own. */
  lemma {:induction false} FirstToken(step: Step, src: seq<byte>, p: nat, rest: seq<byte>)
    requires Tokenizer(step, src) && PrefixStable(step, src) && Tokenizer(step, rest) && p < |src|
    requires forall i :: 0 <= i < p ==> step(src, i, |src|) == Verbatim(src[i])
    requires var t := step(src, p, |src|); p + t.len + |rest| == |src| && Slides(step, rest, src, p + t.len)
    ensures var t := step(src, p, |src|);
            && Out(step, src, 0, |src|) == src[..p] + t.out + Out(step, rest, 0, |rest|)
            && |t.offs| == |t.out|
            && |Idx(step, src, 0, |src|)| > p + |t.out|
            && (forall j :: p <= j < p + |t.out| ==> Idx(step, src, 0, |src|)[j] == p + t.offs[j - p])
  {
    hide Out, Idx, PrefixStable, Boundary, Slides, Tokenizer;
    var t := step(src, p, |src|);
    Unfold(step, src, p, |src|);
    EdgeAfterVerbatim(step, src, 0, p);
    ViewAroundToken(step, src, p, p + t.len, t);
    VerbatimBefore(step, src, p);
    SliceIsSource(step, rest, src, p + t.len, 0);
    IdxIsTable(step, src, p + t.len, |src|);
    Assoc(src[..p], t.out, Out(step, rest, 0, |rest|));
  }

  lemma {:induction false} VerbatimBefore(step: Step, src: seq<byte>, p: nat)
    requires Tokenizer(step, src) && PrefixStable(step, src) && p < |src|
    requires forall i :: 0 <= i < p ==> step(src, i, |src|) == Verbatim(src[i])
    ensures Out(step, src, 0, p) == src[..p]
  {
    hide Out;
    forall i | 0 <= i < p
      ensures step(src, i, p) == Verbatim(src[i])
    {
      assert step(src, i, |src|) == Verbatim(src[i]);
    }
    AllVerbatim(step, src, 0, p);
    assert src[0..p] == src[..p];
  }
}
