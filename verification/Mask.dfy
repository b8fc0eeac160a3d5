/** The mask redactor: every byte range covered by a finding becomes one placeholder. */
module Mask {
  import opened Findings

  // ----- The declarative meaning of masking ------------------------------------------------

  predicate InBounds(f: Finding, n: nat) {
    0 <= f.start < f.end <= n
  }

  /** The ranges of the findings that make sense for a body of `n` bytes. */
  function ValidRanges(fs: seq<Finding>, n: nat): set<Range> {
    set f | f in fs && InBounds(f, n) :: f.Span()
  }

  /** Byte `i` lies in some range. */
  predicate Covered(rs: set<Range>, i: int) {
    exists r :: r in rs && r.start <= i < r.end
  }

  /** Some range contains both byte `c - 1` and byte `c`, so a cut at `c` would split it. */
  predicate Crossed(rs: set<Range>, c: int) {
    exists r :: r in rs && r.start < c < r.end
  }

  /** What byte `i` contributes to the output: itself when no range covers it, the placeholder
      when it opens a connected block of ranges, and nothing further inside such a block. */
  function Piece(data: seq<byte>, rs: set<Range>, ph: seq<byte>, i: nat): seq<byte>
    requires i < |data|
  {
    if !Covered(rs, i) then [data[i]] else if Crossed(rs, i) then [] else ph
  }

  /** The masked form of `data[lo..hi]`, seen as part of the whole body. */
  function Render(data: seq<byte>, rs: set<Range>, ph: seq<byte>, lo: nat, hi: nat): seq<byte>
    requires lo <= hi <= |data|
    decreases hi
  {
    if lo == hi then [] else Render(data, rs, ph, lo, hi - 1) + Piece(data, rs, ph, hi - 1)
  }

  function Masked(data: seq<byte>, rs: set<Range>, ph: seq<byte>): seq<byte> {
    Render(data, rs, ph, 0, |data|)
  }

  lemma {:induction false} RenderSplit(data: seq<byte>, rs: set<Range>, ph: seq<byte>, lo: nat, mid: nat, hi: nat)
    requires lo <= mid <= hi <= |data|
    ensures Render(data, rs, ph, lo, hi) == Render(data, rs, ph, lo, mid) + Render(data, rs, ph, mid, hi)
  {
    if mid < hi {
      RenderSplit(data, rs, ph, lo, mid, hi - 1);
    }
  }

  lemma {:induction false} RenderVerbatim(data: seq<byte>, rs: set<Range>, ph: seq<byte>, lo: nat, hi: nat)
    requires lo <= hi <= |data|
    requires forall i :: lo <= i < hi ==> !Covered(rs, i)
    ensures Render(data, rs, ph, lo, hi) == data[lo..hi]
  {
    if lo < hi {
      RenderVerbatim(data, rs, ph, lo, hi - 1);
      assert data[lo..hi] == data[lo..hi - 1] + [data[hi - 1]];
    }
  }

  lemma {:induction false} RenderBlock(data: seq<byte>, rs: set<Range>, ph: seq<byte>, lo: nat, hi: nat)
    requires lo < hi <= |data|
    requires forall i :: lo <= i < hi ==> Covered(rs, i)
    requires !Crossed(rs, lo)
    requires forall c :: lo < c < hi ==> Crossed(rs, c)
    ensures Render(data, rs, ph, lo, hi) == ph
  {
    if lo < hi - 1 {
      RenderBlock(data, rs, ph, lo, hi - 1);
    } else {
      assert Render(data, rs, ph, lo, lo) == [];
    }
  }

  // ----- Masking distributes over cuts that split no finding --------------------------------

  /** The ranges lying inside `[a, b)`, in coordinates relative to `a`. */
  function Segment(rs: set<Range>, a: int, b: int): set<Range> {
    set r | r in rs && a <= r.start && r.end <= b :: Range(r.start - a, r.end - a)
  }

  lemma SegmentPieces(data: seq<byte>, rs: set<Range>, ph: seq<byte>, a: nat, b: nat, i: nat)
    requires a <= b <= |data| && i < b - a
    requires !Crossed(rs, a) && !Crossed(rs, b)
    ensures Piece(data[a..b], Segment(rs, a, b), ph, i) == Piece(data, rs, ph, i + a)
  {
    hide Covered, Crossed, Segment;
    SegmentCovers(rs, a, b, i);
    SegmentCrosses(rs, a, b, i);
  }

  lemma SegmentCovers(rs: set<Range>, a: nat, b: nat, i: nat)
    requires a <= b && i < b - a && !Crossed(rs, a) && !Crossed(rs, b)
    ensures Covered(Segment(rs, a, b), i) <==> Covered(rs, i + a)
  {
    if Covered(rs, i + a) {
      var r :| r in rs && r.start <= i + a < r.end;
      assert Range(r.start - a, r.end - a) in Segment(rs, a, b);
    }
  }

  lemma SegmentCrosses(rs: set<Range>, a: nat, b: nat, i: nat)
    requires a <= b && i < b - a && !Crossed(rs, a) && !Crossed(rs, b)
    ensures Crossed(Segment(rs, a, b), i) <==> Crossed(rs, i + a)
  {
    if Crossed(rs, i + a) {
      var r :| r in rs && r.start < i + a < r.end;
      assert Range(r.start - a, r.end - a) in Segment(rs, a, b);
    }
  }

  lemma {:induction false} RenderSegmentUpTo(data: seq<byte>, rs: set<Range>, ph: seq<byte>, a: nat, b: nat, n: nat)
    requires a <= b <= |data| && n <= b - a
    requires !Crossed(rs, a) && !Crossed(rs, b)
    ensures Render(data[a..b], Segment(rs, a, b), ph, 0, n) == Render(data, rs, ph, a, a + n)
  {
    hide Segment, Crossed, Piece;
    if n > 0 {
      RenderSegmentUpTo(data, rs, ph, a, b, n - 1);
      SegmentPieces(data, rs, ph, a, b, n - 1);
    }
  }

  /** Masking the slice between two safe cuts on its own gives that slice of the whole output. */
  lemma RenderSegment(data: seq<byte>, rs: set<Range>, ph: seq<byte>, a: nat, b: nat)
    requires a <= b <= |data|
    requires !Crossed(rs, a) && !Crossed(rs, b)
    ensures Masked(data[a..b], Segment(rs, a, b), ph) == Render(data, rs, ph, a, b)
  {
    hide Segment, Crossed, Piece;
    RenderSegmentUpTo(data, rs, ph, a, b, b - a);
  }

  /** Redacting the two sides of a safe cut separately and concatenating redacts the whole. */
  lemma MaskDistributesOverCut(data: seq<byte>, fs: seq<Finding>, ph: seq<byte>, c: nat)
    requires c <= |data|
    requires !Crossed(ValidRanges(fs, |data|), c)
    ensures var rs := ValidRanges(fs, |data|);
            Masked(data, rs, ph)
            == Masked(data[..c], Segment(rs, 0, c), ph) + Masked(data[c..], Segment(rs, c, |data|), ph)
  {
    var rs := ValidRanges(fs, |data|);
    RenderSplit(data, rs, ph, 0, c, |data|);
    RenderSegment(data, rs, ph, 0, c);
    RenderSegment(data, rs, ph, c, |data|);
    assert data[0..c] == data[..c] && data[c..|data|] == data[c..];
  }

  // ----- Connected components ---------------------------------------------------------------

  /** Two non-empty ranges have a byte in common; ranges that only touch do not. */
  predicate SharesByte(q: Range, r: Range) {
    q.start < r.end && r.start < q.end
  }

  predicate Contains(m: Range, r: Range) {
    m.start <= r.start && r.end <= m.end
  }

  ghost predicate InSomeBlock(ms: seq<Range>, r: Range) {
    exists k :: 0 <= k < |ms| && Contains(ms[k], r)
  }

  /** Some range of `rs` opens `m`, and every cut strictly inside `m` is crossed. */
  ghost predicate Solid(m: Range, rs: set<Range>) {
    && (exists r :: r in rs && r.start == m.start < r.end)
    && (forall c :: m.start < c < m.end ==> Crossed(rs, c))
  }

  /** Non-empty ranges, left to right, none overlapping the next. */
  ghost predicate Ordered(ms: seq<Range>) {
    && (forall k :: 0 <= k < |ms| ==> ms[k].start < ms[k].end)
    && (forall j, k :: 0 <= j < k < |ms| ==> ms[j].end <= ms[k].start)
  }

  /** `ms` lists, left to right, the blocks that `rs` falls into. */
  ghost predicate Blocks(ms: seq<Range>, rs: set<Range>) {
    && Ordered(ms)
    && (forall r {:trigger InSomeBlock(ms, r)} :: r in rs ==> r.start < r.end && InSomeBlock(ms, r))
    && (forall k {:trigger Solid(ms[k], rs)} :: 0 <= k < |ms| ==> Solid(ms[k], rs))
  }

  /** A chain of ranges from `rs`, each sharing a byte with the next. */
  ghost predicate Chain(path: seq<Range>, rs: set<Range>) {
    && |path| > 0
    && (forall i :: 0 <= i < |path| ==> path[i] in rs)
    && (forall i :: 0 <= i < |path| - 1 ==> SharesByte(path[i], path[i + 1]))
  }

  ghost predicate Connected(rs: set<Range>, q: Range, r: Range) {
    exists path :: Chain(path, rs) && path[0] == q && path[|path| - 1] == r
  }

  lemma ConnectedSnoc(rs: set<Range>, q: Range, r: Range, s: Range)
    requires Connected(rs, q, r) && s in rs && SharesByte(r, s)
    ensures Connected(rs, q, s)
  {
    var path :| Chain(path, rs) && path[0] == q && path[|path| - 1] == r;
    var longer := path + [s];
    assert forall i :: 0 <= i < |longer| - 1 ==> SharesByte(longer[i], longer[i + 1]);
    assert Chain(longer, rs) && longer[0] == q && longer[|longer| - 1] == s;
  }

  lemma ConnectedSymmetric(rs: set<Range>, q: Range, r: Range)
    requires Connected(rs, q, r)
    ensures Connected(rs, r, q)
  {
    var path :| Chain(path, rs) && path[0] == q && path[|path| - 1] == r;
    var n := |path|;
    var back := seq(n, i requires 0 <= i < n => path[n - 1 - i]);
    forall i | 0 <= i < n - 1
      ensures SharesByte(back[i], back[i + 1])
    {
      assert SharesByte(path[n - 2 - i], path[n - 2 - i + 1]);
    }
    assert Chain(back, rs) && back[0] == r && back[n - 1] == q;
  }

  /** Crossed cuts let a chain starting at `q` walk right to any byte `p` of the same block. */
  lemma {:induction false} ChainWalksRight(rs: set<Range>, q: Range, p: int) returns (r: Range)
    requires q in rs && q.start < q.end && q.start <= p
    requires forall c :: q.start < c <= p ==> Crossed(rs, c)
    ensures r in rs && r.start <= p < r.end && Connected(rs, q, r)
    decreases p - q.start
  {
    if p == q.start {
      r := q;
      assert Chain([q], rs) && [q][0] == q;
    } else {
      var r' := ChainWalksRight(rs, q, p - 1);
      assert Crossed(rs, p);
      r :| r in rs && r.start < p < r.end;
      ConnectedSnoc(rs, q, r', r);
    }
  }

  lemma {:induction false} ChainStaysInBlock(ms: seq<Range>, rs: set<Range>, path: seq<Range>, k: nat)
    requires Blocks(ms, rs) && Chain(path, rs) && k < |ms| && Contains(ms[k], path[0])
    ensures Contains(ms[k], path[|path| - 1])
    decreases |path|
  {
    if |path| > 1 {
      assert SharesByte(path[0], path[0 + 1]);
      assert InSomeBlock(ms, path[0]) && InSomeBlock(ms, path[1]);
      var j :| 0 <= j < |ms| && Contains(ms[j], path[1]);
      assert j == k;
      var rest := path[1..];
      forall i | 0 <= i < |rest| - 1
        ensures SharesByte(rest[i], rest[i + 1])
      {
        assert SharesByte(path[i + 1], path[i + 1 + 1]);
      }
      ChainStaysInBlock(ms, rs, rest, k);
    }
  }

  /** The blocks are exactly the connected components of "shares a byte". */
  lemma BlocksAreComponents(ms: seq<Range>, rs: set<Range>, q: Range, r: Range)
    requires Blocks(ms, rs)
    requires q in rs && r in rs
    ensures Connected(rs, q, r) <==> exists k :: 0 <= k < |ms| && Contains(ms[k], q) && Contains(ms[k], r)
  {
    assert InSomeBlock(ms, q) && InSomeBlock(ms, r);
    if Connected(rs, q, r) {
      var path :| Chain(path, rs) && path[0] == q && path[|path| - 1] == r;
      var k :| 0 <= k < |ms| && Contains(ms[k], q);
      ChainStaysInBlock(ms, rs, path, k);
    }
    if k :| 0 <= k < |ms| && Contains(ms[k], q) && Contains(ms[k], r) {
      if q.start <= r.start {
        ConnectWithinBlock(ms, rs, k, q, r);
      } else {
        ConnectWithinBlock(ms, rs, k, r, q);
        ConnectedSymmetric(rs, r, q);
      }
    }
  }

  lemma ConnectWithinBlock(ms: seq<Range>, rs: set<Range>, k: nat, q: Range, r: Range)
    requires Blocks(ms, rs) && k < |ms| && Contains(ms[k], q) && Contains(ms[k], r)
    requires q in rs && r in rs && q.start <= r.start
    ensures Connected(rs, q, r)
  {
    assert InSomeBlock(ms, q) && InSomeBlock(ms, r);
    assert Solid(ms[k], rs);
    var last := ChainWalksRight(rs, q, r.start);
    assert SharesByte(last, r);
    ConnectedSnoc(rs, q, last, r);
  }

  /** Blocks decide which bytes are covered and which cuts are crossed. */
  lemma BlocksCover(ms: seq<Range>, rs: set<Range>)
    requires Blocks(ms, rs)
    ensures forall i :: Covered(rs, i) <==> exists k :: 0 <= k < |ms| && ms[k].start <= i < ms[k].end
    ensures forall k :: 0 <= k < |ms| ==> !Crossed(rs, ms[k].start)
  {
    forall i, k | 0 <= k < |ms| && ms[k].start <= i < ms[k].end
      ensures Covered(rs, i)
    {
      assert Solid(ms[k], rs);
      assert i > ms[k].start ==> Crossed(rs, i);
    }
    forall r | r in rs
      ensures InSomeBlock(ms, r)
    {
    }
  }

  // ----- The redactor -------------------------------------------------------------------------

  /** The order in which the redactor visits findings: by start, longest first. */
  predicate Before(f: Finding, g: Finding) {
    f.start < g.start || (f.start == g.start && f.end >= g.end)
  }

  predicate Sorted(fs: seq<Finding>) {
    forall i, j :: 0 <= i < j < |fs| ==> Before(fs[i], fs[j])
  }

  function Insert(fs: seq<Finding>, f: Finding): seq<Finding> {
    if fs == [] || Before(f, fs[0]) then [f] + fs else [fs[0]] + Insert(fs[1..], f)
  }

  lemma {:induction false} InsertPermutes(fs: seq<Finding>, f: Finding)
    ensures multiset(Insert(fs, f)) == multiset(fs) + multiset{f}
  {
    if fs == [] || Before(f, fs[0]) {
    } else {
      InsertPermutes(fs[1..], f);
      assert fs == [fs[0]] + fs[1..];
    }
  }

  lemma {:induction false} InsertSorts(fs: seq<Finding>, f: Finding)
    requires Sorted(fs)
    ensures Sorted(Insert(fs, f))
  {
    if fs == [] || Before(f, fs[0]) {
    } else {
      var rest := Insert(fs[1..], f);
      InsertSorts(fs[1..], f);
      InsertPermutes(fs[1..], f);
      forall i | 0 <= i < |rest|
        ensures Before(fs[0], rest[i])
      {
        assert rest[i] in multiset(rest);
        assert rest[i] == f || rest[i] in fs[1..];
      }
    }
  }

  /** Stands for the library sort: all that is used of it is that the result is an ordered permutation. */
  method SortFindings(fs: seq<Finding>) returns (sorted: seq<Finding>)
    ensures multiset(sorted) == multiset(fs)
    ensures Sorted(sorted)
    ensures forall i, j :: 0 <= i < j < |sorted| ==> sorted[i].start <= sorted[j].start
    ensures forall i, j :: 0 <= i < j < |sorted| && sorted[i].start == sorted[j].start ==>
              sorted[i].end >= sorted[j].end
  {
    sorted := [];
    for n := 0 to |fs|
      invariant multiset(sorted) == multiset(fs[..n])
      invariant Sorted(sorted)
    {
      assert fs[..n + 1] == fs[..n] + [fs[n]];
      InsertPermutes(sorted, fs[n]);
      InsertSorts(sorted, fs[n]);
      sorted := Insert(sorted, fs[n]);
    }
    assert fs[..|fs|] == fs;
  }

  /** The ranges of a list of findings. */
  function Spans(fs: seq<Finding>): set<Range> {
    set f | f in fs :: f.Span()
  }

  /** Coalesces sorted findings: the result is the list of their connected components. */
  method Coalesce(fs: seq<Finding>) returns (merged: seq<Range>)
    requires Sorted(fs)
    requires forall f :: f in fs ==> f.start < f.end
    ensures Blocks(merged, Spans(fs))
  {
    merged := [];
    for n := 0 to |fs|
      invariant Blocks(merged, Spans(fs[..n]))
      invariant forall k, j :: 0 <= k < |merged| && n <= j < |fs| ==> merged[k].start <= fs[j].start
    {
      var f, m := fs[n], |merged|;
      assert fs[..n + 1] == fs[..n] + [f];
      assert Spans(fs[..n + 1]) == Spans(fs[..n]) + {f.Span()};
      if m > 0 && f.start < merged[m - 1].end {
        GrowLast(merged, Spans(fs[..n]), f.Span());
        if f.end > merged[m - 1].end {
          merged := merged[m - 1 := merged[m - 1].(end := f.end)];
        } else {
          assert merged == merged[m - 1 := merged[m - 1]];
        }
      } else {
        AddBlock(merged, Spans(fs[..n]), f.Span());
        merged := merged + [f.Span()];
      }
    }
    assert fs[..|fs|] == fs;
  }

  lemma SolidMono(m: Range, rs: set<Range>, r: Range)
    requires Solid(m, rs)
    ensures Solid(m, rs + {r})
  {
    var q :| q in rs && q.start == m.start < q.end;
    assert q in rs + {r};
    forall c | m.start < c < m.end
      ensures Crossed(rs + {r}, c)
    {
      assert Crossed(rs, c);
      var q :| q in rs && q.start < c < q.end;
      assert q in rs + {r};
    }
  }

  lemma AddBlock(ms: seq<Range>, rs: set<Range>, r: Range)
    requires Blocks(ms, rs) && r.start < r.end
    requires |ms| > 0 ==> ms[|ms| - 1].end <= r.start
    ensures Blocks(ms + [r], rs + {r})
  {
    var ms' := ms + [r];
    assert Ordered(ms');
    forall q | q in rs + {r}
      ensures q.start < q.end && InSomeBlock(ms', q)
    {
      if q == r {
        assert Contains(ms'[|ms|], q);
      } else {
        assert InSomeBlock(ms, q);
        var k :| 0 <= k < |ms| && Contains(ms[k], q);
        assert Contains(ms'[k], q);
      }
    }
    forall k | 0 <= k < |ms'|
      ensures Solid(ms'[k], rs + {r})
    {
      if k < |ms| {
        assert Solid(ms[k], rs);
        SolidMono(ms[k], rs, r);
      } else {
        assert r in rs + {r};
      }
    }
  }

  function Max(x: int, y: int): int { if x < y then y else x }

  lemma SolidGrows(m: Range, rs: set<Range>, r: Range)
    requires Solid(m, rs) && m.start <= r.start < m.end && r.start < r.end
    ensures Solid(Range(m.start, Max(m.end, r.end)), rs + {r})
  {
    SolidMono(m, rs, r);
    assert r in rs + {r};
  }

  lemma GrowLast(ms: seq<Range>, rs: set<Range>, r: Range)
    requires Blocks(ms, rs) && r.start < r.end
    requires |ms| > 0 && ms[|ms| - 1].start <= r.start < ms[|ms| - 1].end
    ensures var m := ms[|ms| - 1];
            Blocks(ms[|ms| - 1 := Range(m.start, Max(m.end, r.end))], rs + {r})
  {
    hide Solid;
    var last := |ms| - 1;
    var grown := Range(ms[last].start, Max(ms[last].end, r.end));
    var ms' := ms[last := grown];
    assert Ordered(ms');
    forall q | q in rs + {r}
      ensures q.start < q.end && InSomeBlock(ms', q)
    {
      if q == r {
        assert Contains(ms'[last], q);
      } else {
        assert InSomeBlock(ms, q);
        var k :| 0 <= k < |ms| && Contains(ms[k], q);
        assert Contains(ms'[k], q);
      }
    }
    SolidGrows(ms[last], rs, r);
    forall k | 0 <= k < |ms'|
      ensures Solid(ms'[k], rs + {r})
    {
      if k < last {
        assert Solid(ms[k], rs);
        SolidMono(ms[k], rs, r);
      }
    }
  }

  /** From the end of one block to the end of the next: the gap survives, the block becomes the placeholder. */
  lemma RenderThroughBlock(data: seq<byte>, rs: set<Range>, ph: seq<byte>, ms: seq<Range>, k: nat, pos: nat)
    requires Blocks(ms, rs) && k < |ms| && ms[k].end <= |data|
    requires pos <= ms[k].start && (k > 0 ==> pos == ms[k - 1].end) && (k == 0 ==> pos == 0)
    ensures Render(data, rs, ph, 0, ms[k].end) == Render(data, rs, ph, 0, pos) + data[pos..ms[k].start] + ph
  {
    var a, b := ms[k].start, ms[k].end;
    BlocksCover(ms, rs);
    assert Solid(ms[k], rs);
    forall i | pos <= i < a
      ensures !Covered(rs, i)
    {
      forall j | 0 <= j < |ms| ensures !(ms[j].start <= i < ms[j].end) {}
    }
    RenderVerbatim(data, rs, ph, pos, a);
    RenderBlock(data, rs, ph, a, b);
    RenderSplit(data, rs, ph, 0, pos, a);
    RenderSplit(data, rs, ph, 0, a, b);
  }

  lemma BlocksInBounds(ms: seq<Range>, rs: set<Range>, n: nat, k: nat)
    requires Blocks(ms, rs) && k < |ms|
    requires forall r :: r in rs ==> 0 <= r.start && r.end <= n
    ensures 0 <= ms[k].start && ms[k].end <= n
  {
    BlocksCover(ms, rs);
    assert Covered(rs, ms[k].start) && Covered(rs, ms[k].end - 1);
  }

  method KeepValid(findings: seq<Finding>, n: nat) returns (valid: seq<Finding>)
    ensures forall f :: f in valid <==> f in findings && InBounds(f, n)
  {
    valid := [];
    for i := 0 to |findings|
      invariant forall f :: f in valid <==> f in findings[..i] && InBounds(f, n)
    {
      var f := findings[i];
      assert findings[..i + 1] == findings[..i] + [f];
      if f.start < 0 || f.end > n || f.start >= f.end {
        continue;
      }
      valid := valid + [f];
    }
    assert findings[..|findings|] == findings;
  }

  lemma RenderNothing(data: seq<byte>, rs: set<Range>, ph: seq<byte>)
    ensures Render(data, rs, ph, 0, 0) == []
  {
  }

  method Rebuild(data: seq<byte>, merged: seq<Range>, placeholder: seq<byte>, ghost rs: set<Range>)
    returns (out: seq<byte>)
    requires Blocks(merged, rs)
    requires forall r :: r in rs ==> 0 <= r.start && r.end <= |data|
    ensures out == Masked(data, rs, placeholder)
  {
    hide Crossed, Solid, Covered, Render;
    assert Render(data, rs, placeholder, 0, 0) == [] by { RenderNothing(data, rs, placeholder); }
    out := [];
    var pos := 0;
    for k := 0 to |merged|
      invariant pos == if k == 0 then 0 else merged[k - 1].end
      invariant 0 <= pos <= |data|
      invariant out == Render(data, rs, placeholder, 0, pos)
    {
      BlocksInBounds(merged, rs, |data|, k);
      RenderThroughBlock(data, rs, placeholder, merged, k, pos);
      out := out + data[pos..merged[k].start];
      out := out + placeholder;
      pos := merged[k].end;
    }
    BlocksCover(merged, rs);
    RenderVerbatim(data, rs, placeholder, pos, |data|);
    RenderSplit(data, rs, placeholder, 0, pos, |data|);
    out := out + data[pos..];
  }

  /** Filter, sort, coalesce, rebuild. The result depends only on the set of valid ranges, so the order,
      the duplicates and the invalid entries of `findings` do not matter. */
  method Redact(data: seq<byte>, findings: seq<Finding>, placeholder: seq<byte>) returns (out: seq<byte>)
    ensures out == Masked(data, ValidRanges(findings, |data|), placeholder)
  {
    ghost var rs := ValidRanges(findings, |data|);
    if |findings| == 0 || |data| == 0 {
      RenderVerbatim(data, rs, placeholder, 0, |data|);
      return data;
    }
    var valid := KeepValid(findings, |data|);
    if |valid| == 0 {
      RenderVerbatim(data, rs, placeholder, 0, |data|);
      return data;
    }
    var sorted := SortFindings(valid);
    assert forall f :: f in sorted <==> f in valid by {
      assert forall f :: f in sorted <==> f in multiset(sorted);
    }
    assert Spans(sorted) == rs;
    var merged := Coalesce(sorted);
    out := Rebuild(data, merged, placeholder, rs);
  }
}
