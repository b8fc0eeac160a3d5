/** What a finding of a transformed view means in the body it is mapped back to. */
module Remapping {
  import opened Findings
  import opened FanOut
  import opened Views
  import opened Normalize
  import opened Pipeline
  import UrlDecode
  import CommentStrip
  import Base64View
  import Stitch

  /** Everything but the offsets. */
  predicate SameLabel(f: Finding, g: Finding) {
    f.kind == g.kind && f.severity == g.severity && f.confidence == g.confidence && f.scanner == g.scanner
  }

  predicate Within(f: Finding, n: nat) {
    0 <= f.start < f.end <= n
  }

  // ----- Per view: what the mapped range holds -------------------------------------------------------

  /** The mapped slice of the body, decoded on its own, is the stretch of the view that was reported. */
  ghost predicate UrlRight(data: seq<byte>, f: Finding, g: Finding) {
    && Within(f, |UrlDecode.Decoded(data)|) && Within(g, |data|)
    && UrlDecode.Decoded(data[g.start..g.end]) == UrlDecode.Decoded(data)[f.start..f.end]
  }

  /** The same for comments. */
  ghost predicate CommentsRight(data: seq<byte>, f: Finding, g: Finding) {
    && Within(f, |CommentStrip.Stripped(data)|) && Within(g, |data|)
    && CommentStrip.Stripped(data[g.start..g.end]) == CommentStrip.Stripped(data)[f.start..f.end]
  }

  /** The mapped range holds the reported bytes, each at its own position, and else only dropped whitespace. */
  ghost predicate StitchRight(data: seq<byte>, el: Stitch.Eligible, f: Finding, g: Finding) {
    var out, idx := Stitch.StitchedBytes(data, el), Stitch.StitchIdx(data, el);
    && Within(f, |out|) && Within(g, |data|) && |idx| == |out| + 1
    && (forall k :: f.start <= k < f.end ==> g.start <= idx[k] < g.end && data[idx[k]] == out[k])
    && (forall i :: g.start <= i < g.end ==>
          Stitch.Dropped(data, el, i) || exists k :: f.start <= k < f.end && idx[k] == i)
  }

  /** An accepted candidate at `p` that decodes to `d`. */
  ghost predicate AcceptedAt(data: seq<byte>, p: nat, d: seq<byte>) {
    && p < |data| && Base64View.TokenEdge(data, p)
    && var n := Base64View.CandidateLen(data, p, |data|);
       n > 0 && Base64View.Replacement(data[p..p + n]) == Some(d)
  }

  /** Byte `k` of what stands at `p` is copied: no candidate starts there, or a rejected one. */
  ghost predicate CopiedAt(data: seq<byte>, p: nat, k: nat) {
    && p < |data| && Base64View.TokenEdge(data, p)
    && var n := Base64View.CandidateLen(data, p, |data|);
       if n == 0 then k == 0 else Base64View.Replacement(data[p..p + n]) == None && k < n
  }

  /** The mapped range holds the four-letter group of a reported byte exactly when the report goes on to the end
      of the decoded bytes or into a later group, and it holds every reported byte that was copied. */
  ghost predicate Base64Right(data: seq<byte>, f: Finding, g: Finding) {
    && Within(f, |Base64View.DecodedView(data)|)
    && (forall p: nat, d, k: nat :: AcceptedAt(data, p, d) && k < |d| ==> GroupRight(data, p, d, k, f, g))
    && (forall p: nat, k: nat :: CopiedAt(data, p, k) && f.start <= Base64View.DecodedBefore(data, p) + k < f.end ==>
          g.start <= p + k < g.end)
  }

  ghost predicate GroupRight(data: seq<byte>, p: nat, d: seq<byte>, k: nat, f: Finding, g: Finding)
    requires p <= |data|
  {
    var o := Base64View.DecodedBefore(data, p);
    f.start <= o + k < f.end ==>
      (g.start <= p + k / 3 * 4 && p + k / 3 * 4 + 4 <= g.end <==> f.end >= o + |d| || k / 3 < (f.end - o) / 3)
  }

  /** The mapped range holds a rune with a reported byte exactly when the report goes on to the end of the rune's
      normal form, and it holds every reported byte that starts no character. */
  ghost predicate NfkcRight(nf: NormalForm, data: seq<byte>, f: Finding, g: Finding) {
    && Within(f, |NormalView(nf, data)|)
    && (forall p: nat, k: nat :: RuneByteAt(nf, data, p, k) && f.start <= NormalBefore(nf, data, p) + k < f.end ==>
          var n := RuneSize(data, p, |data|);
          (g.start <= p && p + n <= g.end <==> f.end >= NormalBefore(nf, data, p) + |nf(data[p..p + n])|))
    && (forall p: nat :: IllFormedAt(nf, data, p) && f.start <= NormalBefore(nf, data, p) < f.end ==>
          g.start <= p < g.end)
  }

  /** A rune stands at `p` and its normal form has a byte `k`. */
  ghost predicate RuneByteAt(nf: NormalForm, data: seq<byte>, p: nat, k: nat) {
    && p < |data| && RuneEdge(nf, data, p) && RuneSize(data, p, |data|) > 0
    && k < |nf(data[p..p + RuneSize(data, p, |data|)])|
  }

  ghost predicate IllFormedAt(nf: NormalForm, data: seq<byte>, p: nat) {
    p < |data| && RuneEdge(nf, data, p) && !StartsCharacter(data, p)
  }

  /** Finding `f` of the view of a pass, mapped to `g`. */
  ghost predicate Right(pass: Pass, nf: NormalForm, data: seq<byte>, f: Finding, g: Finding) {
    match pass
    case Url => UrlRight(data, f, g)
    case Nfkc => NfkcRight(nf, data, f, g)
    case Base64 => Base64Right(data, f, g)
    case Comments => CommentsRight(data, f, g)
    case Spaces => StitchRight(data, Stitch.IsStitchEligible, f, g)
    case Digits => StitchRight(data, Stitch.IsDigitOrSpecial, f, g)
  }

  // ----- Every mapped finding is right ---------------------------------------------------------------

  lemma UrlTranslates(data: seq<byte>, f: Finding)
    requires Within(f, |UrlDecode.Decoded(data)|)
    ensures InView(f, UrlDecode.OrigIdx(data)) && UrlRight(data, f, Translate(f, UrlDecode.OrigIdx(data)))
  {
    hide UrlDecode.Decoded, UrlDecode.OrigIdx;
    UrlDecode.DecodingIsLocal(data, f.start, f.end);
  }

  lemma CommentsTranslate(data: seq<byte>, f: Finding)
    requires Within(f, |CommentStrip.Stripped(data)|)
    ensures InView(f, CommentStrip.StripIdx(data)) && CommentsRight(data, f, Translate(f, CommentStrip.StripIdx(data)))
  {
    hide CommentStrip.Stripped, CommentStrip.StripIdx;
    CommentStrip.StrippingIsLocal(data, f.start, f.end);
  }

  lemma StitchTranslates(data: seq<byte>, el: Stitch.Eligible, f: Finding)
    requires Within(f, |Stitch.StitchedBytes(data, el)|)
    ensures InView(f, Stitch.StitchIdx(data, el)) && StitchRight(data, el, f, Translate(f, Stitch.StitchIdx(data, el)))
  {
    hide Stitch.StitchedBytes, Stitch.StitchIdx, Stitch.Dropped;
    Stitch.StitchedRangeIsSource(data, el, f.start, f.end);
    Stitch.StitchEntries(data, el);
  }

  lemma {:induction false} Base64Translates(data: seq<byte>, f: Finding)
    requires Within(f, |Base64View.DecodedView(data)|)
    ensures InView(f, Base64View.GroupIdx(data)) && Base64Right(data, f, Translate(f, Base64View.GroupIdx(data)))
  {
    hide Base64View.DecodedView, Base64View.GroupIdx, Base64View.DecodedBefore, Base64View.TokenEdge,
         Base64View.CandidateLen, Base64View.Replacement;
    Base64Table(data);
    var idx := Base64View.GroupIdx(data);
    var g := Translate(f, idx);
    forall p: nat, d, k: nat | AcceptedAt(data, p, d) && k < |d|
      ensures GroupRight(data, p, d, k, f, g)
    {
      if f.start <= Base64View.DecodedBefore(data, p) + k < f.end {
        Base64View.GroupCoveredIff(data, p, d, k, f.start, f.end);
      }
    }
    forall p: nat, k: nat | CopiedAt(data, p, k) && f.start <= Base64View.DecodedBefore(data, p) + k < f.end
      ensures g.start <= p + k < g.end
    {
      Base64View.VerbatimCovered(data, p, k, f.start, f.end);
    }
  }

  lemma Base64Table(data: seq<byte>)
    ensures |Base64View.GroupIdx(data)| == |Base64View.DecodedView(data)| + 1
  {
    Base64View.Base64Tokens(data);
    IdxIsTable(Base64View.Base64Step, data, 0, |data|);
  }

  lemma {:induction false} NfkcTranslates(nf: NormalForm, data: seq<byte>, f: Finding)
    requires Within(f, |NormalView(nf, data)|)
    ensures InView(f, RuneIdx(nf, data)) && NfkcRight(nf, data, f, Translate(f, RuneIdx(nf, data)))
  {
    hide NormalView, RuneIdx, NormalBefore, RuneEdge, RuneSize, StartsCharacter;
    NfkcTable(nf, data);
    var g := Translate(f, RuneIdx(nf, data));
    forall p: nat, k: nat | RuneByteAt(nf, data, p, k) && f.start <= NormalBefore(nf, data, p) + k < f.end
      ensures var n := RuneSize(data, p, |data|);
              g.start <= p && p + n <= g.end <==> f.end >= NormalBefore(nf, data, p) + |nf(data[p..p + n])|
    {
      RuneCoveredIff(nf, data, p, k, f.start, f.end);
    }
    forall p: nat | IllFormedAt(nf, data, p) && f.start <= NormalBefore(nf, data, p) < f.end
      ensures g.start <= p < g.end
    {
      IllFormedStays(nf, data, p, f.start, f.end);
    }
  }

  lemma NfkcTable(nf: NormalForm, data: seq<byte>)
    ensures |RuneIdx(nf, data)| == |NormalView(nf, data)| + 1
  {
    RuneTokens(nf, data);
    IdxIsTable(RuneStep(nf), data, 0, |data|);
  }

  /** Whatever the pass, a finding inside its view is mapped to the right source range, and keeps its labels. */
  lemma {:induction false} TranslateIsRight(pass: Pass, nf: NormalForm, data: seq<byte>, f: Finding)
    requires Within(f, |ViewFor(pass, nf, data).out|)
    ensures var view := ViewFor(pass, nf, data);
            && view.idx.Some? && InView(f, view.idx.value)
            && SameLabel(f, Translate(f, view.idx.value))
            && Right(pass, nf, data, f, Translate(f, view.idx.value))
  {
    hide UrlRight, NfkcRight, Base64Right, CommentsRight, StitchRight;
    match pass
    case Url => UrlTranslates(data, f);
    case Nfkc => NfkcTranslates(nf, data, f);
    case Base64 => Base64Translates(data, f);
    case Comments => CommentsTranslate(data, f);
    case Spaces => StitchTranslates(data, Stitch.IsStitchEligible, f);
    case Digits => StitchTranslates(data, Stitch.IsDigitOrSpecial, f);
  }

  // ----- Lifted to what a pass contributes -------------------------------------------------------------

  /** The findings that lie inside a view of `n` bytes, in order. */
  function Inside(fs: seq<Finding>, n: nat): seq<Finding> {
    if fs == [] then []
    else Inside(fs[..|fs| - 1], n) + if Within(fs[|fs| - 1], n) then [fs[|fs| - 1]] else []
  }

  lemma {:induction false} InsideIff(fs: seq<Finding>, n: nat, f: Finding)
    ensures f in Inside(fs, n) <==> f in fs && 0 <= f.start < f.end <= n
  {
    if fs != [] {
      InsideIff(fs[..|fs| - 1], n, f);
      assert fs == fs[..|fs| - 1] + [fs[|fs| - 1]];
    }
  }

  lemma {:induction false} InsideInParts(a: seq<Finding>, b: seq<Finding>, n: nat)
    ensures Inside(a + b, n) == Inside(a, n) + Inside(b, n)
  {
    if b == [] {
      assert a + b == a;
    } else {
      InsideInParts(a, b[..|b| - 1], n);
      assert (a + b)[..|a + b| - 1] == a + b[..|b| - 1];
    }
  }

  lemma {:induction false} MapBackIsInside(fs: seq<Finding>, idx: seq<int>, n: nat)
    requires |idx| == n + 1
    ensures |MapBack(fs, idx)| == |Inside(fs, n)|
    ensures forall i :: 0 <= i < |Inside(fs, n)| ==>
              InView(Inside(fs, n)[i], idx) && MapBack(fs, idx)[i] == Translate(Inside(fs, n)[i], idx)
  {
    hide Translate;
    if fs != [] {
      MapBackIsInside(fs[..|fs| - 1], idx, n);
    }
  }

  /** What a pass contributes: nothing when its view is the body; otherwise exactly one offer for each finding,
      inside the view, of the scanners that opted in, in order, each mapped to the right source range. */
  lemma {:induction false} ContributionIsRight(scanners: seq<Scanner>, nf: NormalForm, data: seq<byte>, pass: Pass)
    ensures var view, c := ViewFor(pass, nf, data), Contribution(scanners, nf, data, pass);
            var found := ScanAll(Willing(scanners), view.out);
            var inside := Inside(found.findings, |view.out|);
            if view.out == data then c.findings == [] && c.errs == []
            else
              && c.errs == found.errs
              && |c.findings| == |inside|
              && forall i :: 0 <= i < |inside| ==>
                   SameLabel(inside[i], c.findings[i]) && Right(pass, nf, data, inside[i], c.findings[i])
  {
    hide ViewFor, ScanAll, Willing, Inside, MapBack, Right, Translate, SameLabel;
    var view := ViewFor(pass, nf, data);
    ViewIsTable(pass, nf, data);
    if view.out != data {
      var found := ScanAll(Willing(scanners), view.out).findings;
      var inside := Inside(found, |view.out|);
      MapBackIsInside(found, view.idx.value, |view.out|);
      forall i | 0 <= i < |inside|
        ensures SameLabel(inside[i], MapBack(found, view.idx.value)[i])
        ensures Right(pass, nf, data, inside[i], MapBack(found, view.idx.value)[i])
      {
        TranslateIsRight(pass, nf, data, inside[i]);
      }
    }
  }
}
