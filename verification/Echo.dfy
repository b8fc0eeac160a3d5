/** The echo plugin's scanner: every occurrence of the literal TOKEN. */
module Echo {
  import opened Findings
  import opened Mask
  import opened Cut
  import opened Stream
  import opened StreamTheorems

  const TOKEN: seq<byte> := ['T' as int, 'O' as int, 'K' as int, 'E' as int, 'N' as int]

  predicate Occurs(data: seq<byte>, i: int) {
    && 0 <= i <= |data| - 5
    && data[i] == TOKEN[0] && data[i + 1] == TOKEN[1] && data[i + 2] == TOKEN[2] && data[i + 3] == TOKEN[3]
    && data[i + 4] == TOKEN[4]
  }

  function Hit(i: int): Finding {
    Finding("echo.token", High, i, i + 5, 1.0, "echo")
  }

  /** Every place where TOKEN occurs, overlapping or not. */
  function Occurrences(data: seq<byte>): set<Range> {
    set i | 0 <= i <= |data| - 5 && Occurs(data, i) :: Range(i, i + 5)
  }

  /** The search from `p`: report the next occurrence and continue behind it. */
  function TokensFrom(data: seq<byte>, p: nat): seq<Finding>
    decreases |data| - p
  {
    if p + 5 > |data| then []
    else if Occurs(data, p) then [Hit(p)] + TokensFrom(data, p + 5)
    else TokensFrom(data, p + 1)
  }

  function ScanTokens(data: seq<byte>): seq<Finding> {
    TokensFrom(data, 0)
  }

  /** The first occurrence at or after `from`, or -1. */
  method Index(data: seq<byte>, from: nat) returns (i: int)
    requires from <= |data|
    ensures i >= 0 ==> from <= i && Occurs(data, i) && forall j :: from <= j < i ==> !Occurs(data, j)
    ensures i < 0 ==> forall j :: from <= j ==> !Occurs(data, j)
  {
    i := from;
    while i + 5 <= |data|
      invariant from <= i
      invariant forall j :: from <= j < i ==> !Occurs(data, j)
    {
      if Occurs(data, i) {
        return;
      }
      i := i + 1;
    }
    i := -1;
  }

  lemma {:induction false} SkipTo(data: seq<byte>, from: nat, i: nat)
    requires from <= i && forall j :: from <= j < i ==> !Occurs(data, j)
    ensures i + 5 <= |data| ==> TokensFrom(data, from) == TokensFrom(data, i)
    ensures i + 5 > |data| ==> TokensFrom(data, from) == []
    decreases i - from
  {
    if from < i && from + 5 <= |data| {
      SkipTo(data, from + 1, i);
    }
  }

  /** The plugin's search loop finds exactly the occurrences of TOKEN, left to right. */
  method Scan(data: seq<byte>) returns (findings: seq<Finding>)
    ensures findings == ScanTokens(data)
    ensures forall f :: f in findings <==> exists i :: Occurs(data, i) && f == Hit(i)
    ensures forall f :: f in findings ==> 0 <= f.start <= f.end <= |data| && data[f.start..f.end] == TOKEN
    ensures forall f :: f in findings ==>
              f.kind == "echo.token" && f.severity == High && f.confidence == 1.0 && f.scanner == "echo"
    ensures forall j, k :: 0 <= j < k < |findings| ==> findings[j].end <= findings[k].start
  {
    findings := [];
    var start := 0;
    while true
      invariant start <= |data|
      invariant findings + TokensFrom(data, start) == TokensFrom(data, 0)
      decreases |data| - start
    {
      var i := Index(data, start);
      if i < 0 {
        SkipTo(data, start, |data|);
        break;
      }
      SkipTo(data, start, i);
      findings := findings + [Hit(i)];
      start := i + 5;
    }
    TokensAreOccurrences(data, 0);
    TokensAscend(data, 0);
    TokensSpell(data);
    assert findings == TokensFrom(data, 0);
  }

  lemma {:induction false} TokensSpell(data: seq<byte>)
    ensures forall f :: f in TokensFrom(data, 0) ==>
              0 <= f.start <= f.end <= |data| && data[f.start..f.end] == TOKEN
  {
    hide TokensFrom;
    TokensAreOccurrences(data, 0);
    forall f | f in TokensFrom(data, 0)
      ensures 0 <= f.start <= f.end <= |data| && data[f.start..f.end] == TOKEN
    {
      var i :| 0 <= i && Occurs(data, i) && f == Hit(i);
      OccurrenceSpells(data, i);
    }
  }

  lemma OccurrenceSpells(data: seq<byte>, i: int)
    requires Occurs(data, i)
    ensures 0 <= i && i + 5 <= |data| && data[i..i + 5] == TOKEN
  {
    assert |TOKEN| == 5;
    assert data[i..i + 5] == [data[i], data[i + 1], data[i + 2], data[i + 3], data[i + 4]];
  }

  /** From `p` on, left to right and apart. */
  ghost predicate InOrderFrom(fs: seq<Finding>, p: int) {
    && (forall k :: 0 <= k < |fs| ==> p <= fs[k].start)
    && (forall j, k :: 0 <= j < k < |fs| ==> fs[j].end <= fs[k].start)
  }

  lemma InOrderCons(f: Finding, rest: seq<Finding>, p: int, q: int)
    requires InOrderFrom(rest, q) && p <= f.start && f.start <= f.end <= q
    ensures InOrderFrom([f] + rest, p)
  {
    var fs := [f] + rest;
    assert forall k :: 0 < k < |fs| ==> fs[k] == rest[k - 1];
  }

  lemma InOrderLower(fs: seq<Finding>, p: int, q: int)
    requires InOrderFrom(fs, q) && p <= q
    ensures InOrderFrom(fs, p)
  {
  }

  lemma {:induction false} TokensAscend(data: seq<byte>, p: nat)
    ensures InOrderFrom(TokensFrom(data, p), p)
    decreases |data| - p
  {
    hide InOrderFrom, Occurs;
    if p + 5 > |data| {
      NoneInOrder(p);
    } else if Occurs(data, p) {
      TokensAscend(data, p + 5);
      InOrderCons(Hit(p), TokensFrom(data, p + 5), p, p + 5);
    } else {
      TokensAscend(data, p + 1);
      InOrderLower(TokensFrom(data, p + 1), p, p + 1);
    }
  }

  lemma NoneInOrder(p: int)
    ensures InOrderFrom([], p)
  {
  }

  /** TOKEN cannot overlap itself. */
  lemma NoSelfOverlap(data: seq<byte>, i: int, j: int)
    requires Occurs(data, i) && Occurs(data, j)
    ensures i == j || i + 5 <= j || j + 5 <= i
  {
  }

  lemma {:induction false} TokensAreOccurrences(data: seq<byte>, p: nat)
    ensures forall f :: f in TokensFrom(data, p) <==> exists i :: p <= i && Occurs(data, i) && f == Hit(i)
    decreases |data| - p
  {
    if p + 5 <= |data| {
      if Occurs(data, p) {
        TokensAreOccurrences(data, p + 5);
        forall i | p <= i && Occurs(data, i)
          ensures i == p || p + 5 <= i
        {
          NoSelfOverlap(data, p, i);
        }
      } else {
        TokensAreOccurrences(data, p + 1);
      }
    }
  }

  /** What is in a slice is what the body has there, if it fits. */
  lemma OccursInSlice(body: seq<byte>, a: nat, b: nat, i: int)
    requires a <= b <= |body|
    ensures Occurs(body[a..b], i) <==> 0 <= i && i + 5 <= b - a && Occurs(body, a + i)
  {
  }

  lemma OccurrencesApart(data: seq<byte>)
    ensures Apart(Occurrences(data))
  {
    forall q, r | q in Occurrences(data) && r in Occurrences(data)
      ensures q == r || !SharesByte(q, r)
    {
      NoSelfOverlap(data, q.start, r.start);
    }
  }

  lemma ScanSettled(body: seq<byte>, a: nat, b: nat, window: nat)
    requires a < b <= |body| && window >= 4
    ensures Settled(ScanTokens(body[a..b]), Occurrences(body), a, b - a - window)
  {
    var fs := ScanTokens(body[a..b]);
    TokensAreOccurrences(body[a..b], 0);
    forall f | f in fs
      ensures 0 <= f.start && Range(f.start + a, f.end + a) in Occurrences(body)
    {
      OccursInSlice(body, a, b, f.start);
    }
    forall r | r in Occurrences(body) && a <= r.start < a + (b - a - window)
      ensures Reported(fs, r, a)
    {
      OccursInSlice(body, a, b, r.start - a);
      assert Hit(r.start - a) in fs;
    }
  }

  lemma ScanExactAtEnd(body: seq<byte>, a: nat)
    requires a <= |body|
    ensures ValidRanges(ScanTokens(body[a..]), |body| - a) == Segment(Occurrences(body), a, |body|)
  {
    hide TokensFrom, Occurs;
    var fs := ScanTokens(body[a..]);
    TokensAreOccurrences(body[a..], 0);
    assert body[a..|body|] == body[a..];
    var left, right := ValidRanges(fs, |body| - a), Segment(Occurrences(body), a, |body|);
    forall q | q in left
      ensures q in right
    {
      var f :| f in fs && f.Span() == q;
      OccursInSlice(body, a, |body|, f.start);
      assert Range(f.start + a, f.end + a) in Occurrences(body);
    }
    forall q | q in right
      ensures q in left
    {
      OccursInSlice(body, a, |body|, q.start);
      assert Hit(q.start) in fs;
    }
  }

  lemma TokensDisjoint(data: seq<byte>)
    ensures Disjoint(ScanTokens(data)) && forall f :: f in ScanTokens(data) ==> f.end - f.start <= 5
  {
    var fs := ScanTokens(data);
    TokensAreOccurrences(data, 0);
    forall i, j | 0 <= i < j < |fs|
      ensures fs[i].Span() == fs[j].Span() || !SharesByte(fs[i].Span(), fs[j].Span())
    {
      assert fs[i] in fs && fs[j] in fs;
      NoSelfOverlap(data, fs[i].start, fs[j].start);
    }
  }

  /** With this scanner a live buffer never holds more than the window and four bytes, and with room for
      window plus five no flush is ever forced. */
  lemma EchoBufferBounded(cfg: Config, script: seq<Read>)
    requires cfg.scan == ScanTokens
    ensures Run(cfg, script).status == Running ==> |Run(cfg, script).buf| <= cfg.window + 4
    ensures cfg.maxBuffer >= cfg.window + 5 ==> forall data :: !ForcedFlush(cfg, data)
  {
    forall data: seq<byte> {
      TokensDisjoint(data);
    }
    DisjointFindingsAreSteady(ScanTokens, 5);
    BufferStaysBounded(cfg, script, 5);
    if cfg.maxBuffer >= cfg.window + 5 {
      forall data {
        SteadyNeverForces(cfg, data, 5);
      }
    }
  }

  /** The scanner meets the hypotheses of the refinement theorem. */
  lemma EchoSetting(cfg: Config, body: seq<byte>, ph: seq<byte>)
    requires cfg.scan == ScanTokens && cfg.redactor == MaskWith(ph)
    requires cfg.window >= 4 && cfg.maxBuffer >= cfg.window + 5
    ensures Setting(cfg, body, Occurrences(body), 5, ph)
  {
    OccurrencesApart(body);
    forall a, b | 0 <= a < b <= |body|
      ensures Settled(cfg.scan(body[a..b]), Occurrences(body), a, b - a - cfg.window)
    {
      ScanSettled(body, a, b, cfg.window);
    }
    forall a | 0 <= a < |body|
      ensures ValidRanges(cfg.scan(body[a..]), |body| - a) == Segment(Occurrences(body), a, |body|)
    {
      ScanExactAtEnd(body, a);
    }
    DisjointMatchesSetting(cfg, body, Occurrences(body), 5, ph);
  }

  /** On this chunking the stream finishes and writes what masking the whole body with the same
      scanner gives. */
  ghost predicate StreamsLikeBuffered(cfg: Config, ph: seq<byte>, chunks: seq<Read>, last: seq<byte>) {
    var body := Delivered(chunks) + last;
    var st := Run(cfg, chunks + [Read(last, Eof)]);
    st.status == Done && st.dst == Masked(body, ValidRanges(cfg.scan(body), |body|), ph)
  }

  /** No read delivers more than the read buffer holds. */
  ghost predicate Deliverable(chunks: seq<Read>, last: seq<byte>) {
    |last| <= READ_SIZE && forall i :: 0 <= i < |chunks| ==> |chunks[i].data| <= READ_SIZE
  }

  lemma WideWindowsSuffice(cfg: Config, ph: seq<byte>, chunks: seq<Read>, last: seq<byte>)
    requires cfg.scan == ScanTokens && cfg.redactor == MaskWith(ph)
    requires cfg.window >= 4 && cfg.maxBuffer >= cfg.window + 5
    requires Flowing(chunks)
    ensures StreamsLikeBuffered(cfg, ph, chunks, last)
  {
    var body := Delivered(chunks) + last;
    EchoSetting(cfg, body, ph);
    StreamingEqualsBuffering(cfg, body, Occurrences(body), 5, ph, chunks, last);
    ScanExactAtEnd(body, 0);
    assert body[0..] == body;
    SegmentOfAll(Occurrences(body), |body|);
  }

  lemma SegmentOfAll(rs: set<Range>, n: nat)
    requires forall r :: r in rs ==> 0 <= r.start && r.end <= n
    ensures Segment(rs, 0, n) == rs
  {
    forall r | r in rs
      ensures r in Segment(rs, 0, n)
    {
      assert Range(r.start - 0, r.end - 0) == r;
    }
  }

  // ----- Narrower windows and lower ceilings do split a TOKEN -------------------------------------

  lemma {:induction false} QuietScan(data: seq<byte>, p: nat)
    requires forall i :: p <= i ==> !Occurs(data, i)
    ensures TokensFrom(data, p) == []
    decreases |data| - p
  {
    if p + 5 <= |data| {
      QuietScan(data, p + 1);
    }
  }

  /** With nothing to report, a flush moves bytes from the buffer to the output unchanged. */
  lemma QuietFlush(cfg: Config, st: State)
    requires cfg.scan == ScanTokens && st.status == Running
    requires forall i :: 0 <= i ==> !Occurs(st.buf, i)
    ensures var st' := AfterFlush(cfg, st); st'.status == Running && st'.dst + st'.buf == st.dst + st.buf
    ensures |st.buf| > cfg.window ==> AfterFlush(cfg, st).buf == st.buf[|st.buf| - cfg.window..]
    ensures |st.buf| <= cfg.window ==> AfterFlush(cfg, st) == st
    ensures var st' := AfterFinal(cfg, st); st'.status == Running && st'.dst == st.dst + st.buf
  {
    QuietScan(st.buf, 0);
    assert cfg.scan(st.buf) == [];
    CutPointInBuffer(cfg, st.buf);
    assert st.buf[..|st.buf|] == st.buf;
    if |st.buf| > cfg.window {
      var c := |st.buf| - cfg.window;
      assert CutPoint(cfg, st.buf) == c || c <= 0;
      assert st.buf == st.buf[..c] + st.buf[c..];
    } else {
      assert st.dst + [] == st.dst;
    }
  }

  /** TOKEN followed by zero bytes masks to the placeholder followed by those bytes. */
  lemma MaskLeadingToken(body: seq<byte>, ph: seq<byte>)
    requires TOKEN <= body && forall i :: 5 <= i < |body| ==> body[i] == 0
    ensures ScanTokens(body) == [Hit(0)]
    ensures Masked(body, ValidRanges(ScanTokens(body), |body|), ph) == ph + body[5..]
  {
    assert Occurs(body, 0);
    QuietScan(body, 5);
    var rs := ValidRanges(ScanTokens(body), |body|);
    assert ScanTokens(body) == [Hit(0)];
    assert Hit(0).Span() in rs;
    assert rs == {Range(0, 5)};
    RenderBlock(body, rs, ph, 0, 5);
    RenderVerbatim(body, rs, ph, 5, |body|);
    RenderSplit(body, rs, ph, 0, 5, |body|);
  }

  lemma OutputUnmasked(body: seq<byte>, ph: seq<byte>)
    requires TOKEN <= body
    ensures body == ph + body[5..] ==> ph == TOKEN
  {
    if body == ph + body[5..] {
      assert |ph| == 5;
      assert ph == body[..5];
    }
  }

  /** A window below four bytes lets the head of a TOKEN go before its tail arrives. */
  lemma NarrowWindowSplits(cfg: Config, ph: seq<byte>)
    requires cfg.scan == ScanTokens && cfg.redactor == MaskWith(ph) && ph != TOKEN
    requires 0 < cfg.window < 4
    ensures !StreamsLikeBuffered(cfg, ph, [Read(TOKEN[..cfg.window + 1], More)], TOKEN[cfg.window + 1..])
  {
    hide AfterFlush, AfterFinal, Masked, ValidRanges, ScanTokens, Receive, Occurs, Run, Delivered;
    var w := cfg.window;
    var r, last := Read(TOKEN[..w + 1], More), TOKEN[w + 1..];
    var st := FirstByteGoes(cfg, r);
    assert st.buf + last == TOKEN[1..] && |last| > 0;
    RestGoesToo(cfg, st, last);
    RunSnoc(cfg, [r], Read(last, Eof));
    assert [TOKEN[0]] + TOKEN[1..] == TOKEN;
    OneRead(r);
    assert Delivered([r]) + last == TOKEN;
    MaskLeadingToken(TOKEN, ph);
    OutputUnmasked(TOKEN, ph);
  }

  lemma OneRead(r: Read)
    ensures Delivered([r]) == r.data
  {
    DeliveredSnoc([], r);
    assert [] + [r] == [r] && Delivered([]) == [];
  }

  lemma FirstByteGoes(cfg: Config, r: Read) returns (st: State)
    requires cfg.scan == ScanTokens && 0 < cfg.window < 4 && r == Read(TOKEN[..cfg.window + 1], More)
    ensures st == Run(cfg, [r]) && st.status == Running
    ensures st.dst == [TOKEN[0]] && st.buf == TOKEN[1..cfg.window + 1]
  {
    hide AfterFlush, AfterFinal, ScanTokens;
    assert [r][..0] == [] && Run(cfg, []) == INIT;
    var st0 := INIT.(buf := r.data);
    assert INIT.buf + r.data == r.data;
    QuietFlush(cfg, st0);
    st := Run(cfg, [r]);
    assert st == AfterFlush(cfg, st0);
    assert st.buf == TOKEN[1..cfg.window + 1];
    assert st.dst + st.buf == TOKEN[..cfg.window + 1];
  }

  lemma RestGoesToo(cfg: Config, st: State, last: seq<byte>)
    requires cfg.scan == ScanTokens && st.status == Running && |last| > 0 && |st.buf + last| < 5
    ensures var st' := Receive(cfg, st, Read(last, Eof));
            st'.status == Done && st'.dst == st.dst + (st.buf + last)
  {
    hide AfterFlush, AfterFinal, ScanTokens;
    var st1 := st.(buf := st.buf + last);
    QuietFlush(cfg, st1);
    QuietFlush(cfg, AfterFlush(cfg, st1));
  }

  /** TOKEN and then zero bytes, at least up to the fifth byte. */
  ghost predicate Leading(body: seq<byte>) {
    TOKEN <= body && forall i :: 5 <= i < |body| ==> body[i] == 0
  }

  /** A body delivered one byte at a time. */
  function Bytewise(body: seq<byte>): seq<Read> {
    if body == [] then [] else Bytewise(body[..|body| - 1]) + [Read(body[|body| - 1..], More)]
  }

  lemma {:induction false} BytewiseDelivers(body: seq<byte>)
    ensures Delivered(Bytewise(body)) == body && Flowing(Bytewise(body)) && Deliverable(Bytewise(body), [])
  {
    hide Flowing, Deliverable, Delivered;
    if body == [] {
      NothingFlows();
    } else {
      var before, r := body[..|body| - 1], Read(body[|body| - 1..], More);
      BytewiseDelivers(before);
      FlowingSnoc(Bytewise(before), r);
      DeliveredSnoc(Bytewise(before), r);
      assert before + r.data == body;
    }
  }

  lemma NothingFlows()
    ensures Flowing([]) && Deliverable([], []) && Delivered([]) == []
  {
  }

  lemma FlowingSnoc(chunks: seq<Read>, r: Read)
    requires Flowing(chunks) && Deliverable(chunks, []) && r.end == More && r.sink == Accepts && |r.data| <= READ_SIZE
    ensures Flowing(chunks + [r]) && Deliverable(chunks + [r], [])
  {
  }

  /** The cut offered for a leading TOKEN while it is within the window's reach: none, until the ceiling
      forces one. */
  lemma CutBeforeToken(cfg: Config, data: seq<byte>)
    requires cfg.scan == ScanTokens && cfg.window >= 4 && (|data| >= 5 ==> Leading(data))
    requires |data| <= cfg.window + 4
    ensures |data| <= cfg.window || |data| < cfg.maxBuffer ==> CutPoint(cfg, data) == 0
    ensures |data| > cfg.window && |data| >= cfg.maxBuffer ==>
              && ForcedFlush(cfg, data) && CutPoint(cfg, data) == |data| - cfg.window
              && EndingBy(cfg.scan(data), |data| - cfg.window) == []
  {
    hide ScanTokens, ValidRanges, Masked;
    if |data| > cfg.window {
      MaskLeadingToken(data, []);
      assert [Hit(0)][1..] == [] && [Hit(0)][..0] == [];
      assert PullBack([Hit(0)], |data| - cfg.window) == 0;
    }
  }

  lemma NextByte(cfg: Config, data: seq<byte>)
    requires data != []
    ensures var before, r := data[..|data| - 1], Read(data[|data| - 1..], More);
            Run(cfg, Bytewise(data)) == Receive(cfg, Run(cfg, Bytewise(before)), r) && before + r.data == data
  {
    hide Receive, Run;
    RunSnoc(cfg, Bytewise(data[..|data| - 1]), Read(data[|data| - 1..], More));
  }

  /** Up to there every byte stays in the buffer. */
  lemma {:induction false} BytesHeld(cfg: Config, data: seq<byte>)
    requires cfg.scan == ScanTokens && cfg.window >= 4 && |data| <= cfg.window + 4
    requires |data| >= 5 ==> Leading(data)
    requires |data| <= cfg.window || |data| < cfg.maxBuffer
    ensures Run(cfg, Bytewise(data)) == State(data, [], [], Running)
  {
    hide ScanTokens, CutPoint, Run, Bytewise, Emit;
    if data == [] {
      EmptyRun(cfg);
    } else {
      var before := data[..|data| - 1];
      BytesHeld(cfg, before);
      CutBeforeToken(cfg, data);
      NextByte(cfg, data);
    }
  }

  lemma EmptyRun(cfg: Config)
    ensures Run(cfg, Bytewise([])) == INIT
  {
  }

  /** The next byte forces the cut into the TOKEN. */
  lemma ForcedIntoToken(cfg: Config, body: seq<byte>) returns (c: nat)
    requires cfg.scan == ScanTokens && 4 <= cfg.window < |body| <= cfg.window + 4 && Leading(body)
    requires |body| >= cfg.maxBuffer && (|body| == cfg.window + 1 || |body| == cfg.maxBuffer)
    ensures 0 < c < 5 && ForcedFlush(cfg, body)
    ensures var st := Run(cfg, Bytewise(body)); st.status == Running && st.dst == body[..c] && st.buf == body[c..]
  {
    hide ScanTokens, CutPoint, EndingBy, Run, Bytewise;
    c := |body| - cfg.window;
    BytesHeld(cfg, body[..|body| - 1]);
    CutBeforeToken(cfg, body);
    NextByte(cfg, body);
    assert [] + body[..c] == body[..c];
  }

  /** A body on which a ceiling below window plus five loses a TOKEN: as long as the ceiling, or one byte
      longer than the window where that is more. */
  function LowCeilingBody(cfg: Config): (body: seq<byte>)
    requires cfg.window >= 4
    ensures Leading(body) && |body| == if cfg.maxBuffer > cfg.window then cfg.maxBuffer else cfg.window + 1
  {
    var n := if cfg.maxBuffer > cfg.window then cfg.maxBuffer else cfg.window + 1;
    TOKEN + seq(n - 5, _ => 0)
  }

  lemma LowCeilingSplits(cfg: Config, ph: seq<byte>)
    requires cfg.scan == ScanTokens && cfg.redactor == MaskWith(ph) && ph != TOKEN
    requires cfg.window >= 4 && cfg.maxBuffer < cfg.window + 5
    ensures !StreamsLikeBuffered(cfg, ph, Bytewise(LowCeilingBody(cfg)), [])
  {
    hide AfterFlush, AfterFinal, Masked, ValidRanges, ScanTokens, LowCeilingBody, Bytewise, Occurs;
    var body := LowCeilingBody(cfg);
    var chunks := Bytewise(body);
    BytewiseDelivers(body);
    var c := ForcedIntoToken(cfg, body);
    var st := Run(cfg, chunks);
    TailQuiet(body, c);
    QuietFlush(cfg, st);
    var script := chunks + [Read([], Eof)];
    assert script[..|chunks|] == chunks;
    assert Run(cfg, script) == AfterFinal(cfg, st).(status := Done);
    assert Delivered(chunks) + [] == body;
    MaskLeadingToken(body, ph);
    OutputUnmasked(body, ph);
  }

  lemma TailQuiet(body: seq<byte>, c: nat)
    requires Leading(body) && 0 < c < 5
    ensures forall i :: 0 <= i ==> !Occurs(body[c..], i)
    ensures body[..c] + body[c..] == body
  {
    forall i | 0 <= i
      ensures !Occurs(body[c..], i)
    {
      OccursInSlice(body, c, |body|, i);
    }
  }

  /** With the TOKEN scanner and any placeholder other than TOKEN itself, streaming agrees with
      buffering on every body and chunking exactly when the window is at least four bytes and the
      ceiling at least five more than the window. */
  lemma EchoStreamingExactly(window: int, maxBuffer: int, ph: seq<byte>)
    requires ph != TOKEN
    ensures var cfg := NewConfig(ScanTokens, MaskWith(ph), window, maxBuffer);
            (forall chunks, last ::
               Flowing(chunks) && Deliverable(chunks, last) ==> StreamsLikeBuffered(cfg, ph, chunks, last))
            <==> cfg.window >= 4 && cfg.maxBuffer >= cfg.window + 5
  {
    hide StreamsLikeBuffered;
    var cfg := NewConfig(ScanTokens, MaskWith(ph), window, maxBuffer);
    if cfg.window >= 4 && cfg.maxBuffer >= cfg.window + 5 {
      forall chunks, last | Flowing(chunks)
        ensures StreamsLikeBuffered(cfg, ph, chunks, last)
      {
        WideWindowsSuffice(cfg, ph, chunks, last);
      }
    } else if cfg.window < 4 {
      NarrowWindowSplits(cfg, ph);
      var chunks, last := [Read(TOKEN[..cfg.window + 1], More)], TOKEN[cfg.window + 1..];
      assert Flowing(chunks) && Deliverable(chunks, last);
    } else {
      LowCeilingSplits(cfg, ph);
      BytewiseDelivers(LowCeilingBody(cfg));
    }
  }
}
