/** Scanning a whole body: one raw pass, six passes over transformed views, merged by type and range. */
module Pipeline {
  import opened Findings
  import opened Mask
  import opened FanOut
  import opened Views
  import opened Normalize
  import UrlDecode
  import CommentStrip
  import Base64View
  import Stitch
  import Stream

  // ----- Merging findings -----------------------------------------------------------------------

  /** Same type, and the two ranges share a byte. */
  predicate Duplicates(e: Finding, f: Finding) {
    e.kind == f.kind && e.start < f.end && f.start < e.end
  }

  predicate Known(existing: seq<Finding>, f: Finding) {
    exists i :: 0 <= i < |existing| && Duplicates(existing[i], f)
  }

  method OverlapsExisting(existing: seq<Finding>, f: Finding) returns (known: bool)
    ensures known == Known(existing, f)
  {
    for i := 0 to |existing|
      invariant forall j :: 0 <= j < i ==> !Duplicates(existing[j], f)
    {
      var e := existing[i];
      if e.kind == f.kind && e.start < f.end && f.start < e.end {
        assert Duplicates(existing[i], f);
        return true;
      }
    }
    return false;
  }

  /** Adds the findings of `extra`, in order, that duplicate nothing already there. */
  function Merge(existing: seq<Finding>, extra: seq<Finding>): seq<Finding> {
    if extra == [] then existing
    else
      var sofar, f := Merge(existing, extra[..|extra| - 1]), extra[|extra| - 1];
      if Known(sofar, f) then sofar else sofar + [f]
  }

  method MergeNew(existing: seq<Finding>, extra: seq<Finding>) returns (merged: seq<Finding>)
    ensures merged == Merge(existing, extra)
  {
    merged := existing;
    for i := 0 to |extra|
      invariant merged == Merge(existing, extra[..i])
    {
      assert extra[..i + 1][..i] == extra[..i];
      var known := OverlapsExisting(merged, extra[i]);
      if !known {
        merged := merged + [extra[i]];
      }
    }
    assert extra[..|extra|] == extra;
  }

  /** From position `n` on, no finding duplicates an earlier one. */
  ghost predicate FreshFrom(fs: seq<Finding>, n: nat) {
    forall j, k :: 0 <= j < k < |fs| && n <= k ==> !Duplicates(fs[j], fs[k])
  }

  /** What merging keeps: the old findings in front, freshness behind them, and nothing of `extra` lost
      except to a finding of the same type that overlaps it. */
  lemma {:induction false} MergeKeeps(existing: seq<Finding>, extra: seq<Finding>, n: nat)
    requires n <= |existing| && FreshFrom(existing, n)
    ensures var merged := Merge(existing, extra);
            && existing <= merged
            && FreshFrom(merged, n)
            && (forall k :: |existing| <= k < |merged| ==> merged[k] in extra)
            && (forall f :: f in extra ==> f in merged || Known(merged, f))
  {
    if extra != [] {
      var before, f := extra[..|extra| - 1], extra[|extra| - 1];
      MergeKeeps(existing, before, n);
      var sofar, merged := Merge(existing, before), Merge(existing, extra);
      assert extra == before + [f];
      forall g | g in extra
        ensures g in merged || Known(merged, g)
      {
        if g in before && Known(sofar, g) {
          var i :| 0 <= i < |sofar| && Duplicates(sofar[i], g);
          assert merged[i] == sofar[i];
        }
      }
    }
  }

  // ----- What a duplicate is -------------------------------------------------------------------------

  /** Byte `i` lies in both findings. */
  predicate BothHold(e: Finding, f: Finding, i: int) {
    e.start <= i < e.end && f.start <= i < f.end
  }

  /** Two findings duplicate each other exactly when they are of one type and some byte lies in both, or
      one of them is empty and stands strictly inside the other. */
  lemma DuplicatesIff(e: Finding, f: Finding)
    ensures Duplicates(e, f) <==>
            && e.kind == f.kind
            && (|| (exists i :: BothHold(e, f, i))
                || (e.start >= e.end && f.start < e.end && e.start < f.end)
                || (f.start >= f.end && e.start < f.end && f.start < e.end))
  {
    if e.start < e.end && f.start < f.end && e.start < f.end && f.start < e.end {
      assert BothHold(e, f, if e.start < f.start then f.start else e.start);
    }
  }

  ghost predicate SharesTypedByte(e: Finding, f: Finding) {
    e.kind == f.kind && exists i :: BothHold(e, f, i)
  }

  ghost predicate NonEmpty(fs: seq<Finding>) {
    forall k :: 0 <= k < |fs| ==> fs[k].start < fs[k].end
  }

  /** Among findings that are not empty: known means that one of the same type shares a byte. */
  lemma KnownIff(existing: seq<Finding>, f: Finding)
    requires NonEmpty(existing) && f.start < f.end
    ensures Known(existing, f) <==> exists e :: e in existing && SharesTypedByte(e, f)
  {
    forall k | 0 <= k < |existing|
      ensures Duplicates(existing[k], f) <==> SharesTypedByte(existing[k], f)
    {
      DuplicatesIff(existing[k], f);
    }
    if e :| e in existing && SharesTypedByte(e, f) {
      var k :| 0 <= k < |existing| && existing[k] == e;
      assert Duplicates(existing[k], f);
    }
    if k :| 0 <= k < |existing| && Duplicates(existing[k], f) {
      assert existing[k] in existing;
    }
  }

  /** Nothing from position `n` on shares a byte with an earlier finding of its type. */
  ghost predicate ApartFrom(fs: seq<Finding>, n: nat) {
    forall j, k :: 0 <= j < k < |fs| && n <= k ==> !SharesTypedByte(fs[j], fs[k])
  }

  /** A merge keeps every offer exactly when no offer shares a byte with an earlier finding of its type;
      findings that only touch, and findings of different types, are all kept. */
  lemma {:induction false} AllOffersKeptIff(existing: seq<Finding>, offers: seq<Finding>)
    requires NonEmpty(existing + offers)
    ensures Merge(existing, offers) == existing + offers <==> ApartFrom(existing + offers, |existing|)
  {
    hide SharesTypedByte, Known;
    if offers == [] {
      assert existing + offers == existing;
    } else {
      var before, f := offers[..|offers| - 1], offers[|offers| - 1];
      var sofar, all := existing + before, existing + offers;
      assert all == sofar + [f];
      assert forall k :: 0 <= k < |sofar| ==> all[k] == sofar[k];
      AllOffersKeptIff(existing, before);
      MergeShorter(existing, before);
      assert f == all[|sofar|];
      LastApart(sofar, f, |existing|);
      if Merge(existing, before) == sofar {
        KnownIff(sofar, f);
      }
    }
  }

  lemma {:induction false} MergeShorter(existing: seq<Finding>, offers: seq<Finding>)
    ensures |Merge(existing, offers)| <= |existing + offers|
  {
    if offers != [] {
      MergeShorter(existing, offers[..|offers| - 1]);
    }
  }

  lemma LastApart(fs: seq<Finding>, f: Finding, n: nat)
    requires n <= |fs|
    ensures ApartFrom(fs + [f], n) <==> ApartFrom(fs, n) && !exists e :: e in fs && SharesTypedByte(e, f)
  {
    hide SharesTypedByte;
    var all := fs + [f];
    assert forall k :: 0 <= k < |fs| ==> all[k] == fs[k];
    if ApartFrom(all, n) {
      forall e | e in fs
        ensures !SharesTypedByte(e, f)
      {
        var k :| 0 <= k < |fs| && fs[k] == e;
        assert !SharesTypedByte(all[k], all[|fs|]);
      }
    }
    if ApartFrom(fs, n) && !exists e :: e in fs && SharesTypedByte(e, f) {
      forall j, k | 0 <= j < k < |all| && n <= k
        ensures !SharesTypedByte(all[j], all[k])
      {
        assert all[j] in fs;
      }
    }
  }

  lemma TouchingAreKept(e: Finding, f: Finding)
    requires e.start < e.end && f.start < f.end && (e.end <= f.start || f.end <= e.start)
    ensures Merge([e], [f]) == [e, f]
  {
    MergeOne([e], f);
  }

  // ----- What merging covers -------------------------------------------------------------------------

  /** Every byte of `f` lies in the range of some finding of `fs`. */
  ghost predicate CoveredBy(fs: seq<Finding>, f: Finding) {
    forall i :: f.start <= i < f.end ==> Covered(Mask.Spans(fs), i)
  }

  /** Merging a list is merging its parts one after the other. */
  lemma {:induction false} MergeInParts(existing: seq<Finding>, a: seq<Finding>, b: seq<Finding>)
    ensures Merge(existing, a + b) == Merge(Merge(existing, a), b)
  {
    if b == [] {
      assert a + b == a;
    } else {
      var n := |b| - 1;
      MergeInParts(existing, a, b[..n]);
      assert (a + b)[..|a + b| - 1] == a + b[..n];
    }
  }

  lemma {:induction false} MergeExtends(existing: seq<Finding>, extra: seq<Finding>)
    ensures existing <= Merge(existing, extra)
  {
    if extra != [] {
      MergeExtends(existing, extra[..|extra| - 1]);
    }
  }

  /** What one offer in a list adds: itself unless it duplicates what is there by then, and then nothing. */
  lemma MergeOffer(existing: seq<Finding>, before: seq<Finding>, f: Finding, after: seq<Finding>)
    ensures var sofar, merged := Merge(existing, before), Merge(existing, before + [f] + after);
            if Known(sofar, f) then merged == Merge(existing, before + after) else sofar + [f] <= merged
  {
    var sofar := Merge(existing, before);
    MergeInParts(existing, before + [f], after);
    MergeInParts(existing, before, after);
    assert (before + [f])[..|before|] == before;
    MergeExtends(sofar + [f], after);
  }

  /** Wherever a finding stands in the list on offer, its bytes end up covered exactly when it duplicates
      nothing that is there by then, or the other findings cover them without it. */
  lemma OfferCoversIff(existing: seq<Finding>, before: seq<Finding>, f: Finding, after: seq<Finding>)
    ensures CoveredBy(Merge(existing, before + [f] + after), f)
            <==> !Known(Merge(existing, before), f) || CoveredBy(Merge(existing, before + after), f)
  {
    hide Merge, Known;
    MergeOffer(existing, before, f, after);
    var sofar, merged := Merge(existing, before), Merge(existing, before + [f] + after);
    if !Known(sofar, f) {
      assert merged[|sofar|] == f && f.Span() in Mask.Spans(merged);
    }
  }

  lemma MergeOne(existing: seq<Finding>, f: Finding)
    ensures Merge(existing, [f]) == if Known(existing, f) then existing else existing + [f]
  {
    assert [f][..0] == [] && Merge(existing, []) == existing;
  }

  /** A finding that duplicates, and was not covered, can still be covered by a later offer. */
  lemma LaterOfferCanCover()
    ensures var short, long, other := At(0, 5), At(0, 10), At(0, 10).(kind := "other");
            Known([short], long) && !CoveredBy([short], long) && CoveredBy(Merge([short], [long, other]), long)
  {
    hide Merge;
    var short, long, other := At(0, 5), At(0, 10), At(0, 10).(kind := "other");
    assert Duplicates([short][0], long);
    assert !CoveredBy([short], long) by {
      assert !Covered(Mask.Spans([short]), 7);
    }
    MergeOne([short], long);
    MergeOne([short], other);
    assert "any"[0] != "other"[0];
    assert [long, other] == [long] + [other];
    MergeInParts([short], [long], [other]);
    var merged := Merge([short], [long, other]);
    assert merged[1] == other && other.Span() in Mask.Spans(merged);
  }

  /** `f` is a finding the mask of an `n`-byte body respects, and byte `i` is in it. */
  predicate Hits(f: Finding, n: nat, i: int) {
    InBounds(f, n) && f.start <= i < f.end
  }

  lemma CoveredIffHit(fs: seq<Finding>, n: nat, i: int)
    ensures Covered(ValidRanges(fs, n), i) <==> exists k :: 0 <= k < |fs| && Hits(fs[k], n, i)
  {
    if Covered(ValidRanges(fs, n), i) {
      var r :| r in ValidRanges(fs, n) && r.start <= i < r.end;
      var f :| f in fs && InBounds(f, n) && f.Span() == r;
      var k :| 0 <= k < |fs| && fs[k] == f;
      assert Hits(fs[k], n, i);
    }
    if k :| 0 <= k < |fs| && Hits(fs[k], n, i) {
      assert fs[k].Span() in ValidRanges(fs, n);
    }
  }

  /** Offer `j` is appended when its turn comes. */
  predicate Kept(existing: seq<Finding>, offers: seq<Finding>, j: int) {
    0 <= j < |offers| && !Known(Merge(existing, offers[..j]), offers[j])
  }

  ghost predicate KeptHits(existing: seq<Finding>, offers: seq<Finding>, n: nat, i: int) {
    exists j :: Kept(existing, offers, j) && Hits(offers[j], n, i)
  }

  lemma KeptHitsSnoc(existing: seq<Finding>, before: seq<Finding>, f: Finding, n: nat, i: int)
    ensures KeptHits(existing, before + [f], n, i)
            <==> KeptHits(existing, before, n, i) || (!Known(Merge(existing, before), f) && Hits(f, n, i))
  {
    hide Known, Hits, Merge;
    var offers := before + [f];
    forall j | 0 <= j < |before|
      ensures offers[j] == before[j] && (Kept(existing, before, j) <==> Kept(existing, offers, j))
    {
      assert before[..j] == offers[..j];
    }
    assert offers[..|before|] == before && offers[|before|] == f;
    if KeptHits(existing, before, n, i) {
      var j :| Kept(existing, before, j) && Hits(before[j], n, i);
      assert Kept(existing, offers, j) && Hits(offers[j], n, i);
    }
    if !Known(Merge(existing, before), f) {
      assert Kept(existing, offers, |before|);
    }
  }

  /** A byte is covered after the merge exactly when it was before, or an offer that is kept covers it. */
  lemma {:induction false} MergeCoversByteIff(existing: seq<Finding>, offers: seq<Finding>, n: nat, i: int)
    ensures Covered(ValidRanges(Merge(existing, offers), n), i)
            <==> Covered(ValidRanges(existing, n), i) || KeptHits(existing, offers, n, i)
  {
    hide Known, Hits, ValidRanges, Covered, Kept;
    if offers == [] {
      NothingKept(existing, n, i);
    } else {
      var before, f := offers[..|offers| - 1], offers[|offers| - 1];
      MergeCoversByteIff(existing, before, n, i);
      SnocCovers(Merge(existing, before), f, n, i);
      assert offers == before + [f];
      KeptHitsSnoc(existing, before, f, n, i);
    }
  }

  lemma NothingKept(existing: seq<Finding>, n: nat, i: int)
    ensures !KeptHits(existing, [], n, i)
  {
  }

  lemma SnocCovers(fs: seq<Finding>, f: Finding, n: nat, i: int)
    ensures Covered(ValidRanges(fs + [f], n), i) <==> Covered(ValidRanges(fs, n), i) || Hits(f, n, i)
  {
    hide ValidRanges, Covered, Hits;
    CoveredIffHit(fs, n, i);
    CoveredIffHit(fs + [f], n, i);
    assert forall k :: 0 <= k < |fs| ==> (fs + [f])[k] == fs[k];
    assert (fs + [f])[|fs|] == f;
  }

  /** `[0,5)` found first hides `[0,10)` of the same type, and byte 7 stays in the clear. */
  lemma DedupCanUncover()
    ensures var short, long := At(0, 5), At(0, 10); !Covered(Mask.Spans(Merge([short], [long])), 7)
  {
    var short, long := At(0, 5), At(0, 10);
    MergeOne([short], long);
    assert Duplicates([short][0], long);
  }

  // ----- One transformed pass -------------------------------------------------------------------

  predicate InView(f: Finding, idx: seq<int>) {
    0 <= f.start < f.end <= |idx| - 1
  }

  function Translate(f: Finding, idx: seq<int>): Finding
    requires InView(f, idx)
  {
    f.(start := idx[f.start], end := idx[f.end])
  }

  /** The findings that lie in the view, with their offsets translated to the source. */
  function MapBack(fs: seq<Finding>, idx: seq<int>): seq<Finding> {
    if fs == [] then []
    else
      var f := fs[|fs| - 1];
      MapBack(fs[..|fs| - 1], idx) + if InView(f, idx) then [Translate(f, idx)] else []
  }

  /** The source reuses the findings' own storage: entries are translated and moved down in place. */
  method CompactInPlace(a: array<Finding>, idx: seq<int>) returns (n: nat)
    modifies a
    ensures n <= a.Length && a[..n] == MapBack(old(a[..]), idx)
  {
    n := 0;
    ghost var was := a[..];
    for i := 0 to a.Length
      invariant n <= i && forall j :: i <= j < a.Length ==> a[j] == was[j]
      invariant a[..n] == MapBack(was[..i], idx)
    {
      assert was[..i + 1][..i] == was[..i];
      var f := a[i];
      assert f == was[i];
      if f.start < 0 || f.end > |idx| - 1 || f.start >= f.end {
        continue;
      }
      a[n] := f.(start := idx[f.start], end := idx[f.end]);
      assert a[..n + 1] == a[..n] + [Translate(f, idx)];
      n := n + 1;
    }
    assert was[..a.Length] == was;
  }

  /** Through a well-shaped table, a finding of the view lands inside the source. It may come out empty. */
  lemma {:induction false} MappedInBounds(fs: seq<Finding>, idx: seq<int>, outLen: nat, n: nat)
    requires Table(idx, outLen, 0, n)
    ensures forall f :: f in MapBack(fs, idx) ==> 0 <= f.start <= f.end <= n
  {
    if fs != [] {
      MappedInBounds(fs[..|fs| - 1], idx, outLen, n);
    }
  }

  /** What a pass contributes: nothing when the view is the body itself. */
  function PassOut(scanners: seq<Scanner>, data: seq<byte>, view: View): ScanOut {
    if view.idx.None? || view.out == data then NOTHING
    else
      var found := ScanAll(scanners, view.out);
      ScanOut(MapBack(found.findings, view.idx.value), found.errs)
  }

  method TransformedPass(scanners: seq<Scanner>, data: seq<byte>, view: View, schedule: seq<nat>) returns (out: ScanOut)
    requires Fair(schedule, |scanners|)
    ensures out == PassOut(scanners, data, view)
  {
    if view.idx.None? || view.out == data {
      return NOTHING;
    }
    var found := ScanWith(scanners, view.out, schedule);
    var fs := found.findings;
    var a := new Finding[|fs|](i requires 0 <= i < |fs| => fs[i]);
    assert a[..] == fs;
    var n := CompactInPlace(a, view.idx.value);
    return ScanOut(a[..n], found.errs);
  }

  // ----- The whole scan -------------------------------------------------------------------------

  datatype Pass = Url | Nfkc | Base64 | Comments | Spaces | Digits

  const PASSES: seq<Pass> := [Url, Nfkc, Base64, Comments, Spaces, Digits]

  ghost function Stitched(data: seq<byte>, el: Stitch.Eligible): View {
    View(Stitch.StitchedBytes(data, el), Some(Stitch.StitchIdx(data, el)))
  }

  /** The view a pass scans. */
  ghost function ViewFor(pass: Pass, nf: NormalForm, data: seq<byte>): View {
    match pass
    case Url => View(UrlDecode.Decoded(data), Some(UrlDecode.OrigIdx(data)))
    case Nfkc => View(NormalView(nf, data), Some(RuneIdx(nf, data)))
    case Base64 => View(Base64View.DecodedView(data), Some(Base64View.GroupIdx(data)))
    case Comments => View(CommentStrip.Stripped(data), Some(CommentStrip.StripIdx(data)))
    case Spaces => Stitched(data, Stitch.IsStitchEligible)
    case Digits => Stitched(data, Stitch.IsDigitOrSpecial)
  }

  function Willing(scanners: seq<Scanner>): seq<Scanner> {
    if scanners == [] then []
    else
      var s := scanners[|scanners| - 1];
      Willing(scanners[..|scanners| - 1]) + if s.acceptsTransforms then [s] else []
  }

  lemma WillingSnoc(scanners: seq<Scanner>, s: Scanner)
    ensures Willing(scanners + [s]) == Willing(scanners) + if s.acceptsTransforms then [s] else []
  {
    assert (scanners + [s])[..|scanners|] == scanners;
  }

  /** The scanners that opt in, exactly those. */
  lemma {:induction false} WillingIff(scanners: seq<Scanner>, s: Scanner)
    ensures s in Willing(scanners) <==> s in scanners && s.acceptsTransforms
  {
    if scanners != [] {
      hide Willing;
      var before, last := scanners[..|scanners| - 1], scanners[|scanners| - 1];
      WillingIff(before, s);
      assert scanners == before + [last];
      WillingSnoc(before, last);
    }
  }

  lemma {:induction false} WillingInParts(a: seq<Scanner>, b: seq<Scanner>)
    ensures Willing(a + b) == Willing(a) + Willing(b)
  {
    if b == [] {
      assert a + b == a;
    } else {
      hide Willing;
      var before, last := b[..|b| - 1], b[|b| - 1];
      WillingInParts(a, before);
      assert b == before + [last];
      assert a + b == (a + before) + [last];
      WillingSnoc(before, last);
      WillingSnoc(a + before, last);
      Assoc(Willing(a), Willing(before), if last.acceptsTransforms then [last] else []);
    }
  }

  predicate AllAccept(scanners: seq<Scanner>) {
    forall i :: 0 <= i < |scanners| ==> scanners[i].acceptsTransforms
  }

  predicate AllDecline(scanners: seq<Scanner>) {
    forall i :: 0 <= i < |scanners| ==> !scanners[i].acceptsTransforms
  }

  lemma {:induction false} AllOrNoneWilling(scanners: seq<Scanner>)
    ensures AllAccept(scanners) ==> Willing(scanners) == scanners
    ensures AllDecline(scanners) ==> Willing(scanners) == []
  {
    if scanners != [] {
      hide Willing;
      var before, last := scanners[..|scanners| - 1], scanners[|scanners| - 1];
      AllOrNoneWilling(before);
      assert scanners == before + [last];
      WillingSnoc(before, last);
    }
  }

  /** If every scanner declines, the scan is the raw pass; if every scanner accepts, each pass scans its view
      with all of them. */
  lemma DeclineOrAccept(scanners: seq<Scanner>, nf: NormalForm, data: seq<byte>, pass: Pass)
    ensures AllDecline(scanners) ==>
              Unguarded(scanners, nf, data, |PASSES|) == ScanAll(scanners, data)
    ensures AllAccept(scanners) ==>
              Contribution(scanners, nf, data, pass) == PassOut(scanners, data, ViewFor(pass, nf, data))
  {
    hide Unguarded, ViewFor, PassOut, ScanAll, Willing;
    AllOrNoneWilling(scanners);
    if Willing(scanners) == [] {
      NobodyWilling(scanners, nf, data, |PASSES|);
    }
  }

  ghost function Contribution(scanners: seq<Scanner>, nf: NormalForm, data: seq<byte>, pass: Pass): ScanOut {
    PassOut(Willing(scanners), data, ViewFor(pass, nf, data))
  }

  function Absorb(sofar: ScanOut, extra: ScanOut): ScanOut {
    ScanOut(Merge(sofar.findings, extra.findings), sofar.errs + extra.errs)
  }

  /** The raw pass and then the first `n` passes, every one of them, without looking at the body first. */
  ghost function Unguarded(scanners: seq<Scanner>, nf: NormalForm, data: seq<byte>, n: nat): ScanOut
    requires n <= |PASSES|
  {
    if n == 0 then ScanAll(scanners, data)
    else Absorb(Unguarded(scanners, nf, data, n - 1), Contribution(scanners, nf, data, PASSES[n - 1]))
  }

  /** Everything the first `n` passes found, in the order in which it is offered. */
  ghost function Offers(scanners: seq<Scanner>, nf: NormalForm, data: seq<byte>, n: nat): seq<Finding>
    requires n <= |PASSES|
  {
    if n == 0 then []
    else Offers(scanners, nf, data, n - 1) + Contribution(scanners, nf, data, PASSES[n - 1]).findings
  }

  lemma {:induction false} ScanMergesOffers(scanners: seq<Scanner>, nf: NormalForm, data: seq<byte>, n: nat)
    requires n <= |PASSES|
    ensures Unguarded(scanners, nf, data, n).findings
            == Merge(ScanAll(scanners, data).findings, Offers(scanners, nf, data, n))
  {
    hide Contribution, ScanAll, Known;
    if n > 0 {
      ScanMergesOffers(scanners, nf, data, n - 1);
      MergeInParts(ScanAll(scanners, data).findings, Offers(scanners, nf, data, n - 1),
                   Contribution(scanners, nf, data, PASSES[n - 1]).findings);
    }
  }

  /** The whole scan, spelled out: the URL, NFKC, base64, comment, whitespace and digit passes over their views
      are offered in this order to the raw findings, and their errors follow the raw errors. */
  lemma {:induction false} SixPasses(scanners: seq<Scanner>, nf: NormalForm, data: seq<byte>)
    ensures var raw, w, all := ScanAll(scanners, data), Willing(scanners), Unguarded(scanners, nf, data, |PASSES|);
            var url := PassOut(w, data, View(UrlDecode.Decoded(data), Some(UrlDecode.OrigIdx(data))));
            var nfkc := PassOut(w, data, View(NormalView(nf, data), Some(RuneIdx(nf, data))));
            var b64 := PassOut(w, data, View(Base64View.DecodedView(data), Some(Base64View.GroupIdx(data))));
            var sql := PassOut(w, data, View(CommentStrip.Stripped(data), Some(CommentStrip.StripIdx(data))));
            var broad := PassOut(w, data, Stitched(data, Stitch.IsStitchEligible));
            var narrow := PassOut(w, data, Stitched(data, Stitch.IsDigitOrSpecial));
            && |PASSES| == 6
            && all.findings == Merge(raw.findings, url.findings + nfkc.findings + b64.findings + sql.findings
                                                   + broad.findings + narrow.findings)
            && all.errs == raw.errs + url.errs + nfkc.errs + b64.errs + sql.errs + broad.errs + narrow.errs
  {
    hide PassOut, ScanAll, Merge, Willing, Offers, Unguarded, UrlDecode.Decoded, UrlDecode.OrigIdx, NormalView, RuneIdx,
         Base64View.DecodedView, Base64View.GroupIdx, CommentStrip.Stripped, CommentStrip.StripIdx,
         Stitch.StitchedBytes, Stitch.StitchIdx;
    ScanMergesOffers(scanners, nf, data, 6);
    assert [] + Contribution(scanners, nf, data, Url).findings == Contribution(scanners, nf, data, Url).findings;
    OfferNext(scanners, nf, data, 0);
    OfferNext(scanners, nf, data, 1);
    OfferNext(scanners, nf, data, 2);
    OfferNext(scanners, nf, data, 3);
    OfferNext(scanners, nf, data, 4);
    OfferNext(scanners, nf, data, 5);
  }

  lemma OfferNext(scanners: seq<Scanner>, nf: NormalForm, data: seq<byte>, n: nat)
    requires n < |PASSES|
    ensures var c := Contribution(scanners, nf, data, PASSES[n]);
            && Offers(scanners, nf, data, n + 1) == Offers(scanners, nf, data, n) + c.findings
            && Unguarded(scanners, nf, data, n + 1).errs == Unguarded(scanners, nf, data, n).errs + c.errs
    ensures Offers(scanners, nf, data, 0) == [] && Unguarded(scanners, nf, data, 0) == ScanAll(scanners, data)
  {
    hide Contribution, ScanAll, Merge;
  }

  /** Which bytes a scan covers: those of the raw findings and those of each finding of a later pass that
      duplicates nothing merged before it. Every other byte, found by a pass or not, stays in the clear. */
  lemma ScanCoversByteIff(scanners: seq<Scanner>, nf: NormalForm, data: seq<byte>, n: nat, i: int)
    requires n <= |PASSES|
    ensures var raw, offers := ScanAll(scanners, data).findings, Offers(scanners, nf, data, n);
            Covered(ValidRanges(Unguarded(scanners, nf, data, n).findings, |data|), i)
            <==> || Covered(ValidRanges(raw, |data|), i)
                 || exists j :: Kept(raw, offers, j) && offers[j].start <= i < offers[j].end
  {
    hide Contribution, ScanAll, Merge, Known, Covered, ValidRanges, Offers, Unguarded;
    var raw, offers := ScanAll(scanners, data).findings, Offers(scanners, nf, data, n);
    ScanMergesOffers(scanners, nf, data, n);
    MergeCoversByteIff(raw, offers, |data|, i);
    OffersInBounds(scanners, nf, data, n);
    forall j | 0 <= j < |offers|
      ensures Hits(offers[j], |data|, i) <==> offers[j].start <= i < offers[j].end
    {
      assert offers[j] in offers;
    }
  }

  lemma {:induction false} OffersInBounds(scanners: seq<Scanner>, nf: NormalForm, data: seq<byte>, n: nat)
    requires n <= |PASSES|
    ensures forall f :: f in Offers(scanners, nf, data, n) ==> 0 <= f.start <= f.end <= |data|
  {
    hide Contribution;
    if n > 0 {
      OffersInBounds(scanners, nf, data, n - 1);
      ContributionInBounds(scanners, nf, data, PASSES[n - 1]);
    }
  }

  lemma ViewIsTable(pass: Pass, nf: NormalForm, data: seq<byte>)
    ensures var view := ViewFor(pass, nf, data); view.idx.Some? && Table(view.idx.value, |view.out|, 0, |data|)
  {
    match pass
    case Url => UrlDecode.UrlTokens(data); IdxIsTable(UrlDecode.UrlStep, data, 0, |data|);
    case Nfkc => RuneTokens(nf, data); IdxIsTable(RuneStep(nf), data, 0, |data|);
    case Base64 => Base64View.Base64Tokens(data); IdxIsTable(Base64View.Base64Step, data, 0, |data|);
    case Comments => CommentStrip.CommentTokens(data); IdxIsTable(CommentStrip.CommentStep, data, 0, |data|);
    case Spaces => Stitch.StitchIsTable(data, Stitch.IsStitchEligible);
    case Digits => Stitch.StitchIsTable(data, Stitch.IsDigitOrSpecial);
  }

  /** The result of scanning: the raw findings come first, every later finding duplicates none before it
      and lies inside the body, and whatever a pass found is in the result or duplicates something there. */
  lemma {:induction false} ScanKeeps(scanners: seq<Scanner>, nf: NormalForm, data: seq<byte>, n: nat)
    requires n <= |PASSES|
    ensures var raw, all := ScanAll(scanners, data).findings, Unguarded(scanners, nf, data, n).findings;
            && raw <= all
            && FreshFrom(all, |raw|)
            && (forall k :: |raw| <= k < |all| ==> 0 <= all[k].start <= all[k].end <= |data|)
            && (forall i, f :: 0 <= i < n && f in Contribution(scanners, nf, data, PASSES[i]).findings ==>
                  f in all || Known(all, f))
  {
    hide ViewFor, Merge, ScanAll;
    if n > 0 {
      ScanKeeps(scanners, nf, data, n - 1);
      var raw := ScanAll(scanners, data).findings;
      var sofar := Unguarded(scanners, nf, data, n - 1).findings;
      var extra := Contribution(scanners, nf, data, PASSES[n - 1]).findings;
      MergeKeeps(sofar, extra, |raw|);
      ContributionInBounds(scanners, nf, data, PASSES[n - 1]);
      var all := Unguarded(scanners, nf, data, n).findings;
      assert all == Merge(sofar, extra);
      forall k | |raw| <= k < |all|
        ensures 0 <= all[k].start <= all[k].end <= |data|
      {
        assert k < |sofar| ==> all[k] == sofar[k];
      }
      forall i, f | 0 <= i < n && f in Contribution(scanners, nf, data, PASSES[i]).findings
        ensures f in all || Known(all, f)
      {
        if i < n - 1 && Known(sofar, f) {
          KnownGrows(sofar, all, f);
        }
      }
    }
  }

  lemma KnownGrows(fs: seq<Finding>, more: seq<Finding>, f: Finding)
    requires fs <= more && Known(fs, f)
    ensures Known(more, f)
  {
    var i :| 0 <= i < |fs| && Duplicates(fs[i], f);
    assert more[i] == fs[i];
  }

  lemma ContributionInBounds(scanners: seq<Scanner>, nf: NormalForm, data: seq<byte>, pass: Pass)
    ensures forall f :: f in Contribution(scanners, nf, data, pass).findings ==> 0 <= f.start <= f.end <= |data|
  {
    hide ViewFor, MapBack, ScanAll;
    var view := ViewFor(pass, nf, data);
    ViewIsTable(pass, nf, data);
    MappedInBounds(ScanAll(Willing(scanners), view.out).findings, view.idx.value, |view.out|, |data|);
  }

  // ----- The guarded program ----------------------------------------------------------------------

  /** The cheap look at the body that decides whether a pass is worth running. */
  method Guard(pass: Pass, nf: NormalForm, data: seq<byte>) returns (run: bool)
    requires AsciiFixed(nf)
    ensures !run ==> ViewFor(pass, nf, data).out == data
  {
    match pass
    case Url =>
      run := UrlDecode.ContainsPercent(data);
      if !run { UrlDecode.NoPercentNoChange(data); }
    case Nfkc =>
      run := ContainsNonASCII(data);
      if !run { AsciiUnchanged(nf, data); }
    case Base64 =>
      run := Base64View.ContainsCandidate(data);
      if !run { Base64View.NoRunNoChange(data); }
    case Comments =>
      run := CommentStrip.ContainsSlashStar(data);
      if !run { CommentStrip.NoOpeningNoChange(data); }
    case Spaces =>
      run := Stitch.ContainsSpaceOrTab(data);
      if !run { Stitch.NoSpaceNoChange(data, Stitch.IsStitchEligible); }
    case Digits =>
      run := Stitch.ContainsSpaceOrTab(data);
      if !run { Stitch.NoSpaceNoChange(data, Stitch.IsDigitOrSpecial); }
  }

  /** Builds the view of a pass and scans it. */
  method RunPass(pass: Pass, scanners: seq<Scanner>, nf: NormalForm, data: seq<byte>, schedule: seq<nat>)
    returns (out: ScanOut)
    requires AsciiFixed(nf) && Fair(schedule, |scanners|)
    ensures out == PassOut(scanners, data, ViewFor(pass, nf, data))
  {
    hide UrlDecode.Decoded, UrlDecode.OrigIdx, NormalView, RuneIdx, Base64View.DecodedView, Base64View.GroupIdx;
    var view;
    match pass {
      case Url =>
        var decoded, origIdx := UrlDecode.Decode(data);
        view := View(decoded, Some(origIdx));
      case Nfkc => view := Normalized(nf, data);
      case Base64 => view := Base64View.DecodeView(data);
      case Comments => view := CommentStrip.Strip(data);
      case Spaces => view := Stitch.StitchByEligible(data, Stitch.IsStitchEligible);
      case Digits => view := Stitch.StitchByEligible(data, Stitch.IsDigitOrSpecial);
    }
    out := TransformedPass(scanners, data, view, schedule);
  }

  lemma IdlePass(scanners: seq<Scanner>, nf: NormalForm, data: seq<byte>, n: nat)
    requires n < |PASSES|
    requires ViewFor(PASSES[n], nf, data).out == data || Willing(scanners) == []
    ensures Unguarded(scanners, nf, data, n + 1) == Unguarded(scanners, nf, data, n)
  {
    hide ViewFor;
    assert Contribution(scanners, nf, data, PASSES[n]) == NOTHING;
    var sofar := Unguarded(scanners, nf, data, n);
    assert Merge(sofar.findings, []) == sofar.findings && sofar.errs + [] == sofar.errs;
  }

  method Select(scanners: seq<Scanner>) returns (willing: seq<Scanner>)
    ensures willing == Willing(scanners)
  {
    willing := [];
    for i := 0 to |scanners|
      invariant willing == Willing(scanners[..i])
    {
      assert scanners[..i + 1][..i] == scanners[..i];
      if scanners[i].acceptsTransforms {
        willing := willing + [scanners[i]];
      }
    }
    assert scanners[..|scanners|] == scanners;
  }

  /** One guarded pass on top of what was found so far. */
  method GuardedPass(n: nat, sofar: ScanOut, willing: seq<Scanner>, nf: NormalForm, data: seq<byte>, schedule: seq<nat>,
                     ghost scanners: seq<Scanner>) returns (out: ScanOut)
    requires AsciiFixed(nf) && n < |PASSES| && willing == Willing(scanners) && Fair(schedule, |willing|)
    requires sofar == Unguarded(scanners, nf, data, n)
    ensures out == Unguarded(scanners, nf, data, n + 1)
  {
    hide ViewFor, PassOut;
    var run := Guard(PASSES[n], nf, data);
    if !run {
      IdlePass(scanners, nf, data, n);
      return sofar;
    }
    var extra := RunPass(PASSES[n], willing, nf, data, schedule);
    var merged := MergeNew(sofar.findings, extra.findings);
    out := ScanOut(merged, sofar.errs + extra.errs);
  }

  lemma {:induction false} NobodyWilling(scanners: seq<Scanner>, nf: NormalForm, data: seq<byte>, n: nat)
    requires n <= |PASSES| && (Willing(scanners) == [] || data == [])
    ensures Unguarded(scanners, nf, data, n) == ScanAll(scanners, data)
  {
    hide ViewFor;
    if n > 0 {
      NobodyWilling(scanners, nf, data, n - 1);
      if data == [] {
        ViewOfNothing(PASSES[n - 1], nf);
      }
      IdlePass(scanners, nf, data, n - 1);
    }
  }

  lemma ViewOfNothing(pass: Pass, nf: NormalForm)
    ensures ViewFor(pass, nf, []).out == []
  {
  }

  /** The scan with its pre-checks and shortcuts finds exactly what running every pass on every body
      would find, under every fair schedule of the scanners. */
  method Scan(scanners: seq<Scanner>, nf: NormalForm, data: seq<byte>, schedule: seq<nat>) returns (out: ScanOut)
    requires AsciiFixed(nf) && Fair(schedule, |scanners|)
    ensures out == Unguarded(scanners, nf, data, |PASSES|)
  {
    hide ViewFor, Unguarded;
    if |data| == 0 || |scanners| == 0 {
      NobodyWilling(scanners, nf, data, |PASSES|);
      return NOTHING;
    }
    out := ScanWith(scanners, data, schedule);
    var willing := Select(scanners);
    if |willing| == 0 {
      NobodyWilling(scanners, nf, data, |PASSES|);
      return;
    }
    FewerWilling(scanners, schedule);
    UnguardedStart(scanners, nf, data);
    out := GuardedPass(0, out, willing, nf, data, schedule, scanners);
    out := GuardedPass(1, out, willing, nf, data, schedule, scanners);
    out := GuardedPass(2, out, willing, nf, data, schedule, scanners);
    out := GuardedPass(3, out, willing, nf, data, schedule, scanners);
    out := GuardedPass(4, out, willing, nf, data, schedule, scanners);
    out := GuardedPass(5, out, willing, nf, data, schedule, scanners);
  }

  lemma UnguardedStart(scanners: seq<Scanner>, nf: NormalForm, data: seq<byte>)
    ensures Unguarded(scanners, nf, data, 0) == ScanAll(scanners, data)
  {
  }

  lemma {:induction false} FewerWilling(scanners: seq<Scanner>, schedule: seq<nat>)
    requires Fair(schedule, |scanners|)
    ensures |Willing(scanners)| <= |scanners| && Fair(schedule, |Willing(scanners)|)
  {
    if scanners != [] {
      FewerWilling(scanners[..|scanners| - 1], schedule);
    }
  }

  /** Scan, then redact: without findings or a redactor, or when the redactor fails, the body passes as it is. */
  method Process(scanners: seq<Scanner>, nf: NormalForm, redactor: Stream.Redactor, data: seq<byte>, schedule: seq<nat>)
    returns (body: seq<byte>, findings: seq<Finding>, errs: seq<string>)
    requires AsciiFixed(nf) && Fair(schedule, |scanners|)
    ensures findings == Unguarded(scanners, nf, data, |PASSES|).findings
    ensures findings == [] || redactor.NoRedactor? ==>
              body == data && errs == Unguarded(scanners, nf, data, |PASSES|).errs
    ensures findings != [] && redactor.Redactor? ==>
              match redactor.run(data, findings)
              case None => body == data && errs == Unguarded(scanners, nf, data, |PASSES|).errs + ["redactor"]
              case Some(redacted) => body == redacted && errs == Unguarded(scanners, nf, data, |PASSES|).errs
    ensures forall ph :: redactor == Stream.MaskWith(ph) ==> body == Masked(data, ValidRanges(findings, |data|), ph)
  {
    hide Unguarded;
    var out := Scan(scanners, nf, data, schedule);
    findings, errs := out.findings, out.errs;
    if |findings| == 0 || redactor.NoRedactor? {
      forall ph {
        RenderVerbatim(data, ValidRanges([], |data|), ph, 0, |data|);
      }
      return data, findings, errs;
    }
    match redactor.run(data, findings)
    case None => body, errs := data, errs + ["redactor"];
    case Some(redacted) => body := redacted;
  }
}
