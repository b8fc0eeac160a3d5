/** Whitespace stitching: token-shaped regions broken by single spaces or tabs are fused. */
module Stitch {
  import opened Findings
  import opened Text
  import opened Views

  const MIN_LENGTH: nat := 12
  const MIN_RATIO_PCT: nat := 50

  predicate IsSpace(b: byte) {
    b == 0x20 || b == 0x09
  }

  /** `. _ - + @` */
  predicate IsSpecial(b: byte) {
    b == 0x2E || b == 0x5F || b == 0x2D || b == 0x2B || b == 0x40
  }

  predicate IsStitchEligible(b: byte) {
    0x41 <= b <= 0x5A || 0x61 <= b <= 0x7A || IsDigit(b) || IsSpecial(b)
  }

  predicate IsDigitOrSpecial(b: byte) {
    IsDigit(b) || IsSpecial(b)
  }

  type Eligible = byte -> bool

  // ----- What a region is ---------------------------------------------------------------------------

  /** Byte `i` belongs to a run: it is eligible, or a single space or tab between two eligible bytes. */
  predicate Member(src: seq<byte>, el: Eligible, i: int) {
    0 <= i < |src| && (el(src[i]) || Bridge(src, el, i))
  }

  predicate Bridge(src: seq<byte>, el: Eligible, i: int) {
    0 < i < |src| - 1 && IsSpace(src[i]) && el(src[i - 1]) && el(src[i + 1])
  }

  /** Eligible bytes joined by single spaces or tabs. */
  ghost predicate Joined(src: seq<byte>, el: Eligible, a: int, b: int) {
    && 0 <= a < b <= |src|
    && el(src[a]) && el(src[b - 1])
    && forall i :: a <= i < b ==> Member(src, el, i)
  }

  /** Spelled out: it starts and ends with an eligible byte, holds nothing but eligible bytes and whitespace,
      and no two bytes of whitespace are next to each other. */
  lemma JoinedIff(src: seq<byte>, el: Eligible, a: int, b: int)
    requires NoSpaces(el)
    ensures Joined(src, el, a, b) <==>
            && 0 <= a < b <= |src| && el(src[a]) && el(src[b - 1])
            && (forall i :: a <= i < b ==> el(src[i]) || IsSpace(src[i]))
            && (forall i :: a < i < b ==> !IsSpace(src[i - 1]) || !IsSpace(src[i]))
  {
    if Joined(src, el, a, b) {
      forall i | a <= i < b
        ensures el(src[i]) || IsSpace(src[i])
      {
        assert Member(src, el, i);
      }
      forall i | a < i < b
        ensures !IsSpace(src[i - 1]) || !IsSpace(src[i])
      {
        assert Member(src, el, i);
      }
    } else if 0 <= a < b <= |src| && el(src[a]) && el(src[b - 1])
              && (forall i :: a <= i < b ==> el(src[i]) || IsSpace(src[i]))
              && (forall i :: a < i < b ==> !IsSpace(src[i - 1]) || !IsSpace(src[i])) {
      forall i | a <= i < b
        ensures Member(src, el, i)
      {
        if !el(src[i]) {
          assert el(src[i - 1]) && el(src[i + 1]);
        }
      }
    }
  }

  /** A joined run that no longer joined run contains. */
  ghost predicate Maximal(src: seq<byte>, el: Eligible, a: int, b: int) {
    && Joined(src, el, a, b)
    && forall c, d :: Joined(src, el, c, d) && c <= a && b <= d ==> c == a && d == b
  }

  /** The regions to stitch: the maximal runs of at least twelve bytes. */
  ghost predicate Region(src: seq<byte>, el: Eligible, a: int, b: int) {
    Maximal(src, el, a, b) && b - a >= MIN_LENGTH
  }

  /** Eligibility never includes the whitespace it bridges. */
  ghost predicate NoSpaces(el: Eligible) {
    !el(0x20) && !el(0x09)
  }

  /** A member next to a joined run extends it. */
  lemma Extend(src: seq<byte>, el: Eligible, a: int, b: int) returns (c: int, d: int)
    requires NoSpaces(el) && Joined(src, el, a, b) && (Member(src, el, a - 1) || Member(src, el, b))
    ensures Joined(src, el, c, d) && c <= a && b <= d && b - a < d - c
  {
    c, d := a, b;
    if Member(src, el, b) {
      d := if el(src[b]) then b + 1 else b + 2;
      forall i | a <= i < d
        ensures Member(src, el, i)
      {
        assert i < b || i == b || i == b + 1;
      }
    } else {
      c := if el(src[a - 1]) then a - 1 else a - 2;
      forall i | c <= i < b
        ensures Member(src, el, i)
      {
        assert a <= i || i == a - 1 || i == a - 2;
      }
    }
  }

  /** A joined run is maximal exactly when the bytes around it are not members. */
  lemma MaximalIff(src: seq<byte>, el: Eligible, a: int, b: int)
    requires NoSpaces(el) && Joined(src, el, a, b)
    ensures Maximal(src, el, a, b) <==> !Member(src, el, a - 1) && !Member(src, el, b)
  {
    if Member(src, el, a - 1) || Member(src, el, b) {
      var c, d := Extend(src, el, a, b);
    } else {
      forall c, d | Joined(src, el, c, d) && c <= a && b <= d
        ensures c == a && d == b
      {
        assert c < a ==> Member(src, el, a - 1);
        assert b < d ==> Member(src, el, b);
      }
    }
  }

  /** Two maximal runs are the same or have a byte between them. */
  lemma RegionsApart(src: seq<byte>, el: Eligible, a: int, b: int, c: int, d: int)
    requires NoSpaces(el) && Maximal(src, el, a, b) && Maximal(src, el, c, d)
    ensures a < b && c < d && ((a == c && b == d) || b < c || d < a)
  {
    MaximalIff(src, el, a, b);
    MaximalIff(src, el, c, d);
  }

  /** Every joined run lies in a maximal one. */
  lemma {:induction false} Grow(src: seq<byte>, el: Eligible, a: int, b: int) returns (c: int, d: int)
    requires NoSpaces(el) && Joined(src, el, a, b)
    ensures Maximal(src, el, c, d) && c <= a && b <= d
    decreases |src| - (b - a)
  {
    MaximalIff(src, el, a, b);
    if Member(src, el, a - 1) || Member(src, el, b) {
      c, d := Extend(src, el, a, b);
      c, d := Grow(src, el, c, d);
    } else {
      c, d := a, b;
    }
  }

  // ----- Finding the regions ------------------------------------------------------------------------

  /** `rs` lists, left to right, exactly the regions that end at or before `upTo`. */
  ghost predicate RegionsUpTo(rs: seq<Range>, src: seq<byte>, el: Eligible, upTo: int) {
    && (forall k :: 0 <= k < |rs| ==> Region(src, el, rs[k].start, rs[k].end) && rs[k].end <= upTo)
    && (forall j, k :: 0 <= j < k < |rs| ==> rs[j].end < rs[k].start)
    && (forall a, b :: Region(src, el, a, b) && b <= upTo ==> Range(a, b) in rs)
  }

  ghost function CountEligible(src: seq<byte>, el: Eligible, a: nat, b: nat): nat
    requires a <= b <= |src|
  {
    if a == b then 0 else CountEligible(src, el, a, b - 1) + if el(src[b - 1]) then 1 else 0
  }

  /** Single whitespace leaves at least half of a joined run eligible: the ratio gate never decides. */
  lemma {:induction false} RatioIsImplied(src: seq<byte>, el: Eligible, a: nat, b: nat)
    requires NoSpaces(el) && Joined(src, el, a, b)
    ensures 2 * CountEligible(src, el, a, b) > b - a
    ensures CountEligible(src, el, a, b) * 100 >= (b - a) * MIN_RATIO_PCT
    decreases b - a
  {
    if b - a > 1 {
      assert Member(src, el, b - 2);
      var c := if el(src[b - 2]) then b - 1 else b - 2;
      RatioIsImplied(src, el, a, c);
    }
  }

  /** The open run `[start, pos)`, or none: what the scan knows between two bytes. */
  ghost predicate Open(src: seq<byte>, el: Eligible, start: int, count: int, pos: int) {
    && 0 <= pos <= |src|
    && if start < 0 then !Member(src, el, pos - 1) && count == 0
       else
         && start < pos && !Member(src, el, start - 1) && el(src[start])
         && (forall i :: start <= i < pos ==> Member(src, el, i))
         && (el(src[pos - 1]) || (pos < |src| && el(src[pos])))
         && count == CountEligible(src, el, start, pos)
  }

  lemma NoRegionYet(src: seq<byte>, el: Eligible)
    ensures RegionsUpTo([], src, el, 0)
  {
  }

  /** Nothing ends between the last closed run and `pos`, unless the run open there does. */
  lemma NoRegionEndsInside(rs: seq<Range>, src: seq<byte>, el: Eligible, from: int, to: int)
    requires NoSpaces(el) && RegionsUpTo(rs, src, el, from) && from <= to <= |src|
    requires forall i :: from <= i < to ==> !Member(src, el, i)
    ensures RegionsUpTo(rs, src, el, to)
  {
    forall a, b | Region(src, el, a, b) && b <= to
      ensures Range(a, b) in rs
    {
      assert Member(src, el, b - 1);
    }
  }

  /** Closing the run `[start, end)`: it is maximal, and its length alone decides. */
  lemma CloseRun(rs: seq<Range>, src: seq<byte>, el: Eligible, start: nat, end: nat)
    requires NoSpaces(el) && RegionsUpTo(rs, src, el, start)
    requires Joined(src, el, start, end) && !Member(src, el, start - 1) && !Member(src, el, end)
    ensures RegionsUpTo(if end - start >= MIN_LENGTH then rs + [Range(start, end)] else rs, src, el, end)
  {
    hide Member, Maximal;
    MaximalIff(src, el, start, end);
    var rs' := if end - start >= MIN_LENGTH then rs + [Range(start, end)] else rs;
    forall a, b | Region(src, el, a, b) && b <= end
      ensures Range(a, b) in rs'
    {
      RegionsApart(src, el, start, end, a, b);
      if b <= start {
        assert Range(a, b) in rs;
      }
    }
    forall k | 0 <= k < |rs|
      ensures rs[k].end < start
    {
      RegionsApart(src, el, start, end, rs[k].start, rs[k].end);
    }
  }

  /** The scan over the source; `start` is -1 while no run is open. */
  method FindRegions(src: seq<byte>, el: Eligible) returns (regions: seq<Range>)
    requires NoSpaces(el)
    ensures RegionsUpTo(regions, src, el, |src|)
  {
    hide RegionsUpTo;
    regions := [];
    NoRegionYet(src, el);
    var start, count, pos := -1, 0, 0;
    while pos < |src|
      invariant Open(src, el, start, count, pos)
      invariant RegionsUpTo(regions, src, el, if start < 0 then pos else start)
    {
      var b := src[pos];
      if el(b) {
        if start < 0 {
          start := pos;
        }
        count := count + 1;
        pos := pos + 1;
      } else if IsSpace(b) {
        var ahead := pos + 1;
        while ahead < |src| && IsSpace(src[ahead])
          invariant pos < ahead <= |src|
          invariant forall i :: pos <= i < ahead ==> IsSpace(src[i])
        {
          ahead := ahead + 1;
        }
        var joinable := ahead - pos == 1 && ahead < |src| && el(src[ahead]) && start >= 0;
        if joinable {
          pos := pos + 1;
        } else {
          regions := Flush(src, el, regions, start, count, pos);
          NoRegionEndsInside(regions, src, el, pos, ahead);
          start, count := -1, 0;
          pos := ahead;
        }
      } else {
        regions := Flush(src, el, regions, start, count, pos);
        NoRegionEndsInside(regions, src, el, pos, pos + 1);
        start, count := -1, 0;
        pos := pos + 1;
      }
    }
    regions := Flush(src, el, regions, start, count, pos);
  }

  /** Ends the open run, if any, and keeps it when it passes the length and ratio gates. */
  method Flush(src: seq<byte>, el: Eligible, regions: seq<Range>, start: int, count: int, end: int)
    returns (out: seq<Range>)
    requires NoSpaces(el) && Open(src, el, start, count, end) && !Member(src, el, end)
    requires start >= 0 ==> el(src[end - 1])
    requires RegionsUpTo(regions, src, el, if start < 0 then end else start)
    ensures RegionsUpTo(out, src, el, end)
  {
    out := regions;
    if start < 0 {
      return;
    }
    var length := end - start;
    CloseRun(regions, src, el, start, end);
    RatioIsImplied(src, el, start, end);
    if length >= MIN_LENGTH && count * 100 >= length * MIN_RATIO_PCT {
      out := out + [Range(start, end)];
    }
  }

  // ----- The stitched view --------------------------------------------------------------------------

  ghost predicate InRegion(src: seq<byte>, el: Eligible, i: int) {
    exists a, b :: Region(src, el, a, b) && a <= i < b
  }

  /** The whitespace inside regions is dropped. */
  ghost predicate Dropped(src: seq<byte>, el: Eligible, i: int) {
    0 <= i < |src| && IsSpace(src[i]) && InRegion(src, el, i)
  }

  /** The positions before `n` that stay. */
  ghost function Kept(src: seq<byte>, el: Eligible, n: nat): (idx: seq<int>)
    requires n <= |src|
    ensures forall k :: 0 <= k < |idx| ==> 0 <= idx[k] < n && !Dropped(src, el, idx[k])
  {
    if n == 0 then [] else Kept(src, el, n - 1) + if Dropped(src, el, n - 1) then [] else [n - 1]
  }

  /** The bytes at the given positions. */
  function Pick(src: seq<byte>, idx: seq<int>): seq<byte>
    requires forall k :: 0 <= k < |idx| ==> 0 <= idx[k] < |src|
  {
    seq(|idx|, k requires 0 <= k < |idx| => src[idx[k]])
  }

  ghost function StitchedBytes(src: seq<byte>, el: Eligible): seq<byte> {
    Pick(src, Kept(src, el, |src|))
  }

  ghost function StitchIdx(src: seq<byte>, el: Eligible): seq<int> {
    Kept(src, el, |src|) + [|src|]
  }

  lemma OutsideNotDropped(rs: seq<Range>, src: seq<byte>, el: Eligible, k: nat, i: nat)
    requires RegionsUpTo(rs, src, el, |src|) && k <= |rs| && i < |src|
    requires (k > 0 ==> rs[k - 1].end <= i) && (k < |rs| ==> i < rs[k].start)
    ensures !Dropped(src, el, i)
  {
    hide Maximal, IsSpace;
    forall a, b | Region(src, el, a, b)
      ensures !(a <= i < b)
    {
      MaximalInRange(src, el, a, b);
      assert Range(a, b) in rs;
      var j :| 0 <= j < |rs| && rs[j] == Range(a, b);
    }
  }

  lemma MaximalInRange(src: seq<byte>, el: Eligible, a: int, b: int)
    requires Maximal(src, el, a, b)
    ensures 0 <= a < b <= |src|
  {
  }

  lemma NoneKept(src: seq<byte>, el: Eligible)
    ensures Kept(src, el, 0) == [] && Pick(src, []) == []
  {
  }

  lemma NextKept(src: seq<byte>, el: Eligible, n: nat)
    requires n < |src|
    ensures Dropped(src, el, n) ==> Kept(src, el, n + 1) == Kept(src, el, n)
    ensures !Dropped(src, el, n) ==>
              && Kept(src, el, n + 1) == Kept(src, el, n) + [n]
              && Pick(src, Kept(src, el, n + 1)) == Pick(src, Kept(src, el, n)) + [src[n]]
  {
    hide Dropped;
  }

  /** Copies `src` without the whitespace inside the regions, recording where each byte came from. */
  method DropInner(src: seq<byte>, el: Eligible, regions: seq<Range>) returns (out: seq<byte>, idx: seq<int>)
    requires RegionsUpTo(regions, src, el, |src|)
    ensures idx == Kept(src, el, |src|) && out == Pick(src, idx)
  {
    hide Dropped, Region, Kept, Pick, IsSpace;
    NoneKept(src, el);
    out, idx := [], [];
    var pos := 0;
    for k := 0 to |regions|
      invariant 0 <= pos <= |src| && (k > 0 ==> pos == regions[k - 1].end) && (k == 0 ==> pos == 0)
      invariant idx == Kept(src, el, pos) && out == Pick(src, idx)
    {
      var r := regions[k];
      RegionBounds(regions, src, el, k);
      while pos < r.start
        invariant pos <= r.start && (k > 0 ==> pos >= regions[k - 1].end) && 0 <= pos
        invariant idx == Kept(src, el, pos) && out == Pick(src, idx)
      {
        OutsideNotDropped(regions, src, el, k, pos);
        NextKept(src, el, pos);
        idx := idx + [pos];
        out := out + [src[pos]];
        pos := pos + 1;
      }
      while pos < r.end
        invariant r.start <= pos <= r.end
        invariant idx == Kept(src, el, pos) && out == Pick(src, idx)
      {
        InsideDropped(src, el, r.start, r.end, pos);
        NextKept(src, el, pos);
        if IsSpace(src[pos]) {
          pos := pos + 1;
          continue;
        }
        idx := idx + [pos];
        out := out + [src[pos]];
        pos := pos + 1;
      }
    }
    while pos < |src|
      invariant 0 <= pos <= |src| && (|regions| > 0 ==> pos >= regions[|regions| - 1].end)
      invariant idx == Kept(src, el, pos) && out == Pick(src, idx)
    {
      OutsideNotDropped(regions, src, el, |regions|, pos);
      NextKept(src, el, pos);
      idx := idx + [pos];
      out := out + [src[pos]];
      pos := pos + 1;
    }
  }

  lemma RegionBounds(rs: seq<Range>, src: seq<byte>, el: Eligible, k: nat)
    requires RegionsUpTo(rs, src, el, |src|) && k < |rs|
    ensures Region(src, el, rs[k].start, rs[k].end)
    ensures 0 <= rs[k].start < rs[k].end <= |src| && (k > 0 ==> rs[k - 1].end < rs[k].start)
  {
    MaximalInRange(src, el, rs[k].start, rs[k].end);
  }

  lemma InsideDropped(src: seq<byte>, el: Eligible, a: int, b: int, i: int)
    requires Region(src, el, a, b) && a <= i < b && 0 <= i < |src|
    ensures Dropped(src, el, i) <==> IsSpace(src[i])
  {
  }

  method ContainsSpaceOrTab(data: seq<byte>) returns (found: bool)
    ensures found <==> exists i :: 0 <= i < |data| && IsSpace(data[i])
  {
    for i := 0 to |data|
      invariant forall j :: 0 <= j < i ==> !IsSpace(data[j])
    {
      if IsSpace(data[i]) {
        return true;
      }
    }
    return false;
  }

  method StitchByEligible(src: seq<byte>, el: Eligible) returns (view: View)
    requires NoSpaces(el)
    ensures view == if StitchedBytes(src, el) == src then View(src, None)
                    else View(StitchedBytes(src, el), Some(StitchIdx(src, el)))
  {
    hide Dropped, RegionsUpTo, Kept;
    var found := ContainsSpaceOrTab(src);
    if !found {
      NoSpaceNoChange(src, el);
      return View(src, None);
    }
    var regions := FindRegions(src, el);
    var out, idx := DropInner(src, el, regions);
    if out == src {
      return View(src, None);
    }
    return View(out, Some(idx + [|src|]));
  }

  lemma {:induction false} KeptAll(src: seq<byte>, el: Eligible, n: nat)
    requires n <= |src| && forall i :: 0 <= i < n ==> !Dropped(src, el, i)
    ensures Kept(src, el, n) == Positions(0, n)
  {
    hide Dropped;
    if n > 0 {
      KeptAll(src, el, n - 1);
    }
  }

  /** Without a space or tab nothing is dropped, so the pre-check loses nothing. */
  lemma NoSpaceNoChange(src: seq<byte>, el: Eligible)
    requires forall i :: 0 <= i < |src| ==> !IsSpace(src[i])
    ensures StitchedBytes(src, el) == src
  {
    KeptAll(src, el, |src|);
  }

  // ----- What stitching removes ---------------------------------------------------------------------

  /** The view is the source with some spaces and tabs left out: kept positions ascend, every position
      left out holds a space or a tab inside a region, and no other whitespace is lost. */
  lemma {:induction false} OnlyInnerSpacesGo(src: seq<byte>, el: Eligible, n: nat)
    requires n <= |src|
    ensures forall j, k :: 0 <= j < k < |Kept(src, el, n)| ==> Kept(src, el, n)[j] < Kept(src, el, n)[k]
    ensures forall i :: 0 <= i < n ==> (i in Kept(src, el, n) <==> !Dropped(src, el, i))
  {
    hide Dropped;
    if n > 0 {
      OnlyInnerSpacesGo(src, el, n - 1);
    }
  }

  /** The table of a stitched view is well shaped. */
  lemma StitchIsTable(src: seq<byte>, el: Eligible)
    ensures Table(StitchIdx(src, el), |StitchedBytes(src, el)|, 0, |src|)
  {
    OnlyInnerSpacesGo(src, el, |src|);
  }

  /** What a view range `[a, b)` covers in the source: its own bytes, each at its own position, and between
      them nothing but dropped whitespace. */
  lemma StitchedRangeIsSource(src: seq<byte>, el: Eligible, a: nat, b: nat)
    requires a <= b <= |StitchedBytes(src, el)|
    ensures var idx, out := StitchIdx(src, el), StitchedBytes(src, el);
            && |idx| == |out| + 1 && idx[a] <= idx[b] <= |src|
            && (forall k :: a <= k < b ==> idx[a] <= idx[k] < idx[b] && src[idx[k]] == out[k])
            && (forall i :: idx[a] <= i < idx[b] ==>
                  Dropped(src, el, i) || exists k :: a <= k < b && idx[k] == i && src[i] == out[k])
  {
    hide Dropped, StitchIdx, StitchedBytes;
    StitchEntries(src, el);
    var idx, out := StitchIdx(src, el), StitchedBytes(src, el);
    forall i | idx[a] <= i < idx[b] && !Dropped(src, el, i)
      ensures exists k :: a <= k < b && idx[k] == i && src[i] == out[k]
    {
      var k := EntryOf(src, el, i);
      assert a <= k < b;
    }
  }

  /** The entries of the table ascend strictly, up to the length of the source, and each names its byte. */
  lemma StitchEntries(src: seq<byte>, el: Eligible)
    ensures var idx, out := StitchIdx(src, el), StitchedBytes(src, el);
            && |idx| == |out| + 1 && idx[|out|] == |src|
            && (forall j, k :: 0 <= j < k < |idx| ==> idx[j] < idx[k])
            && (forall k :: 0 <= k < |out| ==> 0 <= idx[k] < |src| && src[idx[k]] == out[k])
  {
    hide Dropped;
    OnlyInnerSpacesGo(src, el, |src|);
  }

  lemma EntryOf(src: seq<byte>, el: Eligible, i: nat) returns (k: nat)
    requires i < |src| && !Dropped(src, el, i)
    ensures k < |StitchedBytes(src, el)| < |StitchIdx(src, el)|
    ensures StitchIdx(src, el)[k] == i && src[i] == StitchedBytes(src, el)[k]
  {
    hide Dropped, Kept;
    OnlyInnerSpacesGo(src, el, |src|);
    var kept := Kept(src, el, |src|);
    assert i in kept;
    k :| 0 <= k < |kept| && kept[k] == i;
  }

  lemma JoinedMono(src: seq<byte>, el: Eligible, wide: Eligible, a: int, b: int)
    requires (forall c :: el(c) ==> wide(c)) && Joined(src, el, a, b)
    ensures Joined(src, wide, a, b)
  {
    forall i | a <= i < b
      ensures Member(src, wide, i)
    {
      assert Member(src, el, i);
    }
  }

  /** Every region of a narrower eligibility lies inside a region of a wider one. */
  lemma RegionsNest(src: seq<byte>, el: Eligible, wide: Eligible, a: int, b: int) returns (c: int, d: int)
    requires NoSpaces(wide) && (forall c :: el(c) ==> wide(c)) && Region(src, el, a, b)
    ensures Region(src, wide, c, d) && c <= a && b <= d
  {
    JoinedMono(src, el, wide, a, b);
    c, d := Grow(src, wide, a, b);
  }

  /** The narrow pass removes only bytes that the broad pass removes too. */
  lemma DigitStitchRemovesLess(src: seq<byte>, i: int)
    requires Dropped(src, IsDigitOrSpecial, i)
    ensures Dropped(src, IsStitchEligible, i)
  {
    var a, b :| Region(src, IsDigitOrSpecial, a, b) && a <= i < b;
    var c, d := RegionsNest(src, IsDigitOrSpecial, IsStitchEligible, a, b);
  }

  // ----- The character classes and the length bound --------------------------------------------------

  lemma SpecialIff(b: byte)
    ensures IsSpecial(b) <==> CharIn(b, "._-+@")
  {
    var s := "._-+@";
    assert s[0] as int == 0x2E && s[1] as int == 0x5F && s[2] as int == 0x2D;
    assert s[3] as int == 0x2B && s[4] as int == 0x40;
  }

  lemma SpaceIff(b: byte)
    ensures IsSpace(b) <==> CharIn(b, " \t")
  {
    var s := " \t";
    assert s[0] as int == 0x20 && s[1] as int == 0x09;
  }

  /** Letters, digits and the five special characters; without the letters for the narrow pass. */
  lemma EligibleIff(b: byte)
    ensures IsDigitOrSpecial(b) <==> CharIn(b, DECIMALS) || CharIn(b, "._-+@")
    ensures IsStitchEligible(b) <==>
            CharIn(b, CAPITALS) || CharIn(b, SMALL) || CharIn(b, DECIMALS) || CharIn(b, "._-+@")
  {
    hide CharIn, CAPITALS, SMALL, DECIMALS, IsSpecial, IsDigit;
    IsCapital(b);
    IsSmall(b);
    DigitIsDecimal(b);
    SpecialIff(b);
  }

  /** Inside a maximal run whitespace goes exactly when the run is twelve bytes or longer. */
  lemma TwelveDecides(src: seq<byte>, el: Eligible, a: int, b: int, i: int)
    requires NoSpaces(el) && Maximal(src, el, a, b) && a <= i < b
    ensures 0 <= i < |src| && (Dropped(src, el, i) <==> IsSpace(src[i]) && b - a >= 12)
  {
    hide Maximal, IsSpace;
    MaximalInRange(src, el, a, b);
    if Dropped(src, el, i) {
      var c, d :| Region(src, el, c, d) && c <= i < d;
      RegionsApart(src, el, a, b, c, d);
    }
    if b - a >= 12 {
      assert Region(src, el, a, b);
    }
  }
}
