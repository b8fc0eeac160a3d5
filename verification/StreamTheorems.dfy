/** What every run of the stream redactor keeps, and when it agrees with redacting the whole body. */
module StreamTheorems {
  import opened Findings
  import opened Mask
  import opened Cut
  import opened Stream

  // ----- Conservation: any scanner, any redactor, forced flushes included ------------------------

  function RawBytes(log: seq<Emission>): seq<byte> {
    if log == [] then [] else RawBytes(log[..|log| - 1]) + log[|log| - 1].raw
  }

  function Written(log: seq<Emission>): seq<byte> {
    if log == [] then [] else Written(log[..|log| - 1]) + log[|log| - 1].out
  }

  /** What a flush of the buffer `data` hands to the redactor: the prefix up to the cut with the findings
      that end there or before, or at end of input all of it with all findings. */
  ghost predicate Chosen(cfg: Config, data: seq<byte>, c: nat, fs: seq<Finding>) {
    || (c == CutPoint(cfg, data) <= |data| && fs == EndingBy(cfg.scan(data), c))
    || (c == |data| && fs == cfg.scan(data))
  }

  /** The last write broke off: behind the whole emissions stands a part of what the redactor made of the
      next piece, which is still in the buffer. */
  ghost predicate Torn(cfg: Config, st: State) {
    && st.status == Failed
    && exists c: nat, fs, out, n ::
         && c <= |st.buf| && Chosen(cfg, st.buf, c, fs)
         && ApplyRedactor(cfg, st.buf[..c], fs) == Some(out) && st.dst == Written(st.log) + Part(out, n)
  }

  /** The emission is what the redactor made of a flush of the buffer `data`. */
  ghost predicate EmittedFrom(cfg: Config, data: seq<byte>, e: Emission) {
    e.raw <= data && Chosen(cfg, data, |e.raw|, e.findings) && ApplyRedactor(cfg, e.raw, e.findings) == Some(e.out)
  }

  /** The same for some buffer that held the input from `at` on. */
  ghost predicate EmittedAt(cfg: Config, input: seq<byte>, at: nat, e: Emission) {
    exists n :: at <= n <= |input| && EmittedFrom(cfg, input[at..n], e)
  }

  /** Every emission comes from a buffer that held the input from where the one before it ended. */
  ghost predicate Honest(cfg: Config, log: seq<Emission>, input: seq<byte>) {
    forall i :: 0 <= i < |log| ==> EmittedAt(cfg, input, |RawBytes(log[..i])|, log[i])
  }

  /** The books balance: the emitted prefixes followed by the live buffer are exactly `input`, and the
      output is what the redactor made of those prefixes and the scanner's findings in them, up to one write
      that broke off. */
  ghost predicate Balanced(cfg: Config, st: State, input: seq<byte>) {
    && RawBytes(st.log) + st.buf == input
    && (st.dst == Written(st.log) || Torn(cfg, st))
    && Honest(cfg, st.log, input)
  }

  lemma HonestGrows(cfg: Config, log: seq<Emission>, input: seq<byte>, more: seq<byte>)
    requires Honest(cfg, log, input)
    ensures Honest(cfg, log, input + more)
  {
    hide RawBytes, EmittedFrom;
    forall i | 0 <= i < |log|
      ensures EmittedAt(cfg, input + more, |RawBytes(log[..i])|, log[i])
    {
      var at := |RawBytes(log[..i])|;
      assert EmittedAt(cfg, input, at, log[i]);
      var n :| at <= n <= |input| && EmittedFrom(cfg, input[at..n], log[i]);
      assert (input + more)[at..n] == input[at..n];
    }
  }

  lemma HonestSnoc(cfg: Config, log: seq<Emission>, input: seq<byte>, e: Emission)
    requires Honest(cfg, log, input) && EmittedAt(cfg, input, |RawBytes(log)|, e)
    ensures Honest(cfg, log + [e], input)
  {
    hide RawBytes, EmittedAt;
    forall i | 0 <= i < |log + [e]|
      ensures EmittedAt(cfg, input, |RawBytes((log + [e])[..i])|, (log + [e])[i])
    {
      if i < |log| {
        assert (log + [e])[..i] == log[..i];
      } else {
        assert (log + [e])[..i] == log;
      }
    }
  }

  lemma LogSnoc(log: seq<Emission>, e: Emission)
    ensures RawBytes(log + [e]) == RawBytes(log) + e.raw
    ensures Written(log + [e]) == Written(log) + e.out
  {
    assert (log + [e])[..|log|] == log;
  }

  lemma EmitBalances(cfg: Config, st: State, c: nat, fs: seq<Finding>, sink: Sink, input: seq<byte>)
    requires c <= |st.buf| && Chosen(cfg, st.buf, c, fs) && st.status == Running && Balanced(cfg, st, input)
    ensures Balanced(cfg, Emit(cfg, st, c, fs, sink), input)
  {
    hide RawBytes, Written, ApplyRedactor, Honest, Chosen;
    match ApplyRedactor(cfg, st.buf[..c], fs)
    case None =>
    case Some(out) =>
      var e := Emission(st.buf[..c], fs, out);
      LogSnoc(st.log, e);
      assert st.buf == st.buf[..c] + st.buf[c..];
      assert RawBytes(st.log) + e.raw + st.buf[c..] == RawBytes(st.log) + (e.raw + st.buf[c..]);
      assert EmittedAt(cfg, input, |RawBytes(st.log)|, e) by {
        assert input[|RawBytes(st.log)|..|input|] == st.buf;
        assert EmittedFrom(cfg, st.buf, e);
      }
      HonestSnoc(cfg, st.log, input, e);
  }

  lemma FlushBalances(cfg: Config, st: State, sink: Sink, input: seq<byte>)
    requires st.status == Running && Balanced(cfg, st, input)
    ensures Balanced(cfg, AfterFlush(cfg, st, sink), input) && Balanced(cfg, AfterFinal(cfg, st, sink), input)
  {
    hide Balanced, Emit;
    var c := CutPoint(cfg, st.buf);
    CutPointInBuffer(cfg, st.buf);
    if c > 0 {
      EmitBalances(cfg, st, c, EndingBy(cfg.scan(st.buf), c), sink, input);
    }
    EmitBalances(cfg, st, |st.buf|, cfg.scan(st.buf), sink, input);
  }

  /** Each byte read is handled once and in order, for any scanner, redactor and destination. */
  lemma {:induction false} Conservation(cfg: Config, script: seq<Read>)
    ensures Balanced(cfg, Run(cfg, script), Consumed(cfg, script))
    ensures Run(cfg, script).status == Done ==> Run(cfg, script).buf == []
  {
    if script != [] {
      var before, r := script[..|script| - 1], script[|script| - 1];
      Conservation(cfg, before);
      ReceiveBalances(cfg, Run(cfg, before), Consumed(cfg, before), r);
    }
  }

  lemma ReceiveBalances(cfg: Config, st: State, input: seq<byte>, r: Read)
    requires Balanced(cfg, st, input) && (st.status == Done ==> st.buf == [])
    ensures var st' := Receive(cfg, st, r);
            && Balanced(cfg, st', input + (if st.status == Running then r.data else []))
            && (st'.status == Done ==> st'.buf == [])
  {
    hide AfterFlush, AfterFinal, Honest, RawBytes, Written;
    if st.status != Running {
      assert input + [] == input;
      return;
    }
    var fed, input' := st.(buf := st.buf + r.data), input + r.data;
    HonestGrows(cfg, st.log, input, r.data);
    assert RawBytes(st.log) + fed.buf == input';
    FlushBalances(cfg, fed, r.sink, input');
    var st1 := if |r.data| > 0 then AfterFlush(cfg, fed, r.sink) else st;
    assert |r.data| == 0 ==> fed == st;
    assert Balanced(cfg, st1, input');
    FlushStatus(cfg, fed, r.sink);
    if st1.status == Running && r.end == Eof {
      FlushBalances(cfg, st1, r.lastSink, input');
      FlushStatus(cfg, st1, r.lastSink);
    }
  }

  lemma FlushStatus(cfg: Config, st: State, sink: Sink)
    requires st.status == Running
    ensures AfterFlush(cfg, st, sink).status in {Running, Failed}
    ensures AfterFinal(cfg, st, sink).status == Failed
            || (AfterFinal(cfg, st, sink).status == Running && AfterFinal(cfg, st, sink).buf == [])
  {
  }

  lemma {:induction false} NothingWithheldWithoutRedactor(cfg: Config, log: seq<Emission>, input: seq<byte>)
    requires cfg.redactor.NoRedactor? && Honest(cfg, log, input)
    ensures Written(log) == RawBytes(log)
  {
    if log != [] {
      var before := log[..|log| - 1];
      assert forall i :: 0 <= i < |before| ==> before[..i] == log[..i];
      NothingWithheldWithoutRedactor(cfg, before, input);
      assert EmittedAt(cfg, input, |RawBytes(before)|, log[|log| - 1]);
    }
  }

  /** With no redactor the bytes come out as they went in: what is written is a prefix of what was read,
      followed by the buffer unless the run failed, and a finished run has written it all. */
  lemma NoRedactorIsIdentity(cfg: Config, script: seq<Read>)
    requires cfg.redactor.NoRedactor?
    ensures var st, input := Run(cfg, script), Consumed(cfg, script);
            && st.dst <= input
            && (st.status != Failed ==> st.dst + st.buf == input)
            && (st.status == Done ==> st.dst == input)
  {
    hide Run, Consumed, RawBytes, Written;
    Conservation(cfg, script);
    var st := Run(cfg, script);
    NothingWithheldWithoutRedactor(cfg, st.log, Consumed(cfg, script));
    if st.dst != Written(st.log) {
      var c: nat, fs, out, n :|
        && c <= |st.buf| && Chosen(cfg, st.buf, c, fs)
        && ApplyRedactor(cfg, st.buf[..c], fs) == Some(out) && st.dst == Written(st.log) + Part(out, n);
      assert Part(out, n) <= st.buf;
    }
  }

  // ----- The buffer stays small ---------------------------------------------------------------------

  ghost predicate SafeCutNear(fs: seq<Finding>, b: int, len: nat) {
    exists c :: Safe(fs, c) && b - len < c <= b
  }

  /** The findings of every buffer have no ordered crossing, and within any `len` bytes there is a cut
      that splits none of them. */
  ghost predicate Steady(scan: Scan, len: nat) {
    forall data: seq<byte>, b: int {:trigger PullBack(scan(data), b)} ::
      NoOrderedCrossing(scan(data), b) && SafeCutNear(scan(data), b, len)
  }

  /** Pairwise disjoint findings of length at most `len` are steady. */
  lemma DisjointFindingsAreSteady(scan: Scan, len: nat)
    requires len > 0
    requires forall data: seq<byte> :: Disjoint(scan(data))
    requires forall data: seq<byte>, f :: f in scan(data) ==> f.end - f.start <= len
    ensures Steady(scan, len)
  {
    forall data: seq<byte>, b: int
      ensures NoOrderedCrossing(scan(data), b) && SafeCutNear(scan(data), b, len)
    {
      TidyListsHaveNoOrderedCrossing(scan(data), b);
      DisjointCutNear(scan(data), b, len);
    }
  }

  lemma DisjointCutNear(fs: seq<Finding>, b: int, len: nat)
    requires len > 0 && Disjoint(fs) && forall f :: f in fs ==> f.end - f.start <= len
    ensures SafeCutNear(fs, b, len)
  {
    if Safe(fs, b) {
    } else {
      var i :| 0 <= i < |fs| && Straddles(fs[i], b);
      var c := fs[i].start;
      forall j | 0 <= j < |fs|
        ensures !Straddles(fs[j], c)
      {
        assert i < j ==> fs[i].Span() == fs[j].Span() || !SharesByte(fs[i].Span(), fs[j].Span());
        assert j < i ==> fs[j].Span() == fs[i].Span() || !SharesByte(fs[j].Span(), fs[i].Span());
      }
      assert Safe(fs, c);
    }
  }

  /** The branch that gives up on not splitting a finding. */
  predicate ForcedFlush(cfg: Config, data: seq<byte>) {
    |data| > cfg.window && PullBack(cfg.scan(data), |data| - cfg.window) <= 0 && |data| >= cfg.maxBuffer
  }

  lemma SteadyCutIsDeep(cfg: Config, data: seq<byte>, len: nat)
    requires Steady(cfg.scan, len) && |data| > cfg.window
    ensures PullBack(cfg.scan(data), |data| - cfg.window) > |data| - cfg.window - len
  {
    var fs, k := cfg.scan(data), |data| - cfg.window;
    assert PullBack(fs, k) == PullBack(cfg.scan(data), k);
    var c :| Safe(fs, c) && k - len < c <= k;
    PullBackBounds(fs, k, c);
  }

  /** Steady findings and a ceiling of at least `window + len` never force a flush. */
  lemma SteadyNeverForces(cfg: Config, data: seq<byte>, len: nat)
    requires Steady(cfg.scan, len) && cfg.maxBuffer >= cfg.window + len
    ensures !ForcedFlush(cfg, data)
  {
    if |data| > cfg.window {
      SteadyCutIsDeep(cfg, data, len);
    }
  }

  /** Over every run, whatever the chunking, a live buffer holds fewer than `window + len` bytes. */
  lemma {:induction false} BufferStaysBounded(cfg: Config, script: seq<Read>, len: nat)
    requires Steady(cfg.scan, len) && len > 0
    ensures Run(cfg, script).status == Running ==> |Run(cfg, script).buf| <= cfg.window + len - 1
  {
    hide PullBack, EndingBy, Steady;
    if script != [] {
      var before, r := script[..|script| - 1], script[|script| - 1];
      var st := Run(cfg, before);
      BufferStaysBounded(cfg, before, len);
      var data := st.buf + r.data;
      assert |r.data| == 0 ==> data == st.buf;
      CutPointInBuffer(cfg, data);
      if |data| > cfg.window {
        SteadyCutIsDeep(cfg, data, len);
      }
    }
  }

  /** In one step, the buffer is left over the ceiling exactly when a finding pins the cut to a positive
      position that is too small. */
  lemma CeilingExceededIff(cfg: Config, st: State)
    requires AfterFlush(cfg, st).status == Running && cfg.maxBuffer >= cfg.window
    ensures |AfterFlush(cfg, st).buf| > cfg.maxBuffer <==>
            |st.buf| > cfg.window && 0 < PullBack(cfg.scan(st.buf), |st.buf| - cfg.window) < |st.buf| - cfg.maxBuffer
  {
    CutPointInBuffer(cfg, st.buf);
  }

  /** The same read off the findings, where none crosses a later one: no cut that would bring the buffer
      down to the ceiling is safe, and some positive one below those is. */
  lemma CeilingExceededIffNoSafeCut(cfg: Config, st: State)
    requires AfterFlush(cfg, st).status == Running && cfg.maxBuffer >= cfg.window
    requires NoOrderedCrossing(cfg.scan(st.buf), |st.buf| - cfg.window)
    ensures var fs, len := cfg.scan(st.buf), |st.buf|;
            |AfterFlush(cfg, st).buf| > cfg.maxBuffer <==>
            && len > cfg.window
            && (forall c :: len - cfg.maxBuffer <= c <= len - cfg.window ==> !Safe(fs, c))
            && (exists c :: 0 < c < len - cfg.maxBuffer && Safe(fs, c))
  {
    hide AfterFlush, PullBack, Safe, NoOrderedCrossing;
    CeilingExceededIff(cfg, st);
    PullBackIsLargestSafeCut(cfg.scan(st.buf), |st.buf| - cfg.window);
  }

  /** A scanner that reports everything from the second byte on. */
  function FromSecondByte(data: seq<byte>): seq<Finding> {
    if |data| < 2 then [] else [At(1, |data|)]
  }

  /** MaxBuffer is not a ceiling: against that scanner, reads of two bytes grow the buffer past any size. */
  lemma {:induction false} CeilingCanBeExceeded(redactor: Redactor, window: nat, maxBuffer: nat, n: nat)
    requires window > 0
    ensures var st := Run(Config(FromSecondByte, redactor, window, maxBuffer), seq(n, _ => Read([0, 0], More)));
            st.status == Running && |st.buf| >= n
  {
    var cfg := Config(FromSecondByte, redactor, window, maxBuffer);
    var script := seq(n, _ => Read([0, 0], More));
    if n > 0 {
      CeilingCanBeExceeded(redactor, window, maxBuffer, n - 1);
      assert script[..n - 1] == seq(n - 1, _ => Read([0, 0], More));
      var data := Run(cfg, script[..n - 1]).buf + [0, 0];
      var k := |data| - window;
      assert cfg.scan(data) == [At(1, |data|)] && [At(1, |data|)][1..] == [];
      assert k > 0 ==> PullBack(cfg.scan(data), k) == 1;
      assert [At(1, |data|)][..0] == [] && EndingBy(cfg.scan(data), 1) == [];
    }
  }

  // ----- Streaming refines buffering --------------------------------------------------------------

  ghost predicate CutNear(rs: set<Range>, p: int, len: nat) {
    exists c :: p - len < c <= p && !Crossed(rs, c)
  }

  /** Among the findings that start before `k` in the buffer that begins at `a`, the scanner reports
      exactly the true matches; about later findings nothing is said. */
  ghost predicate Settled(fs: seq<Finding>, truth: set<Range>, a: int, k: int) {
    && (forall f :: f in fs && f.start < k ==> 0 <= f.start && Range(f.start + a, f.end + a) in truth)
    && (forall r {:trigger Reported(fs, r, a)} :: r in truth && a <= r.start < a + k ==> Reported(fs, r, a))
  }

  ghost predicate Reported(fs: seq<Finding>, r: Range, a: int) {
    exists f :: f in fs && f.start + a == r.start && f.end + a == r.end
  }

  /** The scanner is local for the body and its true matches: in any buffer that starts at a cut
      splitting no match it is right about everything that starts more than a window before the end,
      and at the end of the body it is right about everything. */
  ghost predicate Local(cfg: Config, body: seq<byte>, truth: set<Range>) {
    && (forall a, b {:trigger cfg.scan(body[a..b])} :: 0 <= a < b <= |body| && !Crossed(truth, a) ==>
          && Settled(cfg.scan(body[a..b]), truth, a, b - a - cfg.window)
          && NoOrderedCrossing(cfg.scan(body[a..b]), b - a - cfg.window))
    && (forall a {:trigger body[a..]} :: 0 <= a < |body| && !Crossed(truth, a) ==>
          ValidRanges(cfg.scan(body[a..]), |body| - a) == Segment(truth, a, |body|))
  }

  /** The hypotheses of the refinement: true matches lie in the body, every `len` bytes hold a cut
      that splits none of them, the ceiling leaves room for one window and one match. */
  ghost predicate Setting(cfg: Config, body: seq<byte>, truth: set<Range>, len: nat, ph: seq<byte>) {
    && cfg.redactor == MaskWith(ph)
    && (forall r :: r in truth ==> 0 <= r.start < r.end <= |body|)
    && (forall p :: CutNear(truth, p, len))
    && cfg.maxBuffer >= cfg.window + len
    && Local(cfg, body, truth)
  }

  /** `dst` is the masked form of the first `a` bytes and the buffer holds bytes `a` to `b`. */
  ghost predicate InStep(st: State, body: seq<byte>, truth: set<Range>, ph: seq<byte>, a: nat, b: nat) {
    && a <= b <= |body|
    && st.status == Running
    && st.buf == body[a..b]
    && !Crossed(truth, a)
    && st.dst == Render(body, truth, ph, 0, a)
  }

  lemma {:induction false} EndingByMembers(fs: seq<Finding>, c: int)
    ensures forall f :: f in EndingBy(fs, c) <==> f in fs && f.end <= c
  {
    if fs != [] {
      EndingByMembers(fs[..|fs| - 1], c);
      assert fs == fs[..|fs| - 1] + [fs[|fs| - 1]];
    }
  }

  /** The cut of a settled buffer splits no true match and is deep enough not to be forced. */
  lemma CutSplitsNoMatch(cfg: Config, body: seq<byte>, truth: set<Range>, len: nat, ph: seq<byte>,
                         a: nat, b: nat)
    requires Setting(cfg, body, truth, len, ph) && a < b <= |body| && !Crossed(truth, a)
    requires b - a > cfg.window
    ensures var c := PullBack(cfg.scan(body[a..b]), b - a - cfg.window);
            0 <= c <= b - a - cfg.window && c > b - a - cfg.window - len && !Crossed(truth, a + c)
  {
    hide Reported, NoOrderedCrossing, PullBack;
    var fs, k := cfg.scan(body[a..b]), b - a - cfg.window;
    var c := PullBack(fs, k);
    PullBackIsLargestSafeCut(fs, k);
    assert CutNear(truth, a + k, len);
    var p :| a + k - len < p <= a + k && !Crossed(truth, p);
    forall i | 0 <= i < |fs|
      ensures !Straddles(fs[i], p - a)
    {
      assert fs[i] in fs;
    }
    assert Safe(fs, p - a);
    PullBackBounds(fs, k, p - a);
    forall r | r in truth
      ensures !(r.start < a + c < r.end)
    {
      if a <= r.start < a + k {
        ReportedNotSplit(fs, r, a, c);
      }
    }
  }

  lemma ReportedNotSplit(fs: seq<Finding>, r: Range, a: int, c: int)
    requires Reported(fs, r, a) && Safe(fs, c)
    ensures !(r.start < a + c < r.end)
  {
    var f :| f in fs && f.start + a == r.start && f.end + a == r.end;
    var i :| 0 <= i < |fs| && fs[i] == f;
    assert !Straddles(fs[i], c);
  }

  lemma EmittedAreTheMatches(fs: seq<Finding>, truth: set<Range>, a: nat, k: nat, c: nat)
    requires Settled(fs, truth, a, k) && c <= k
    requires forall r :: r in truth ==> r.start < r.end
    ensures ValidRanges(EndingBy(fs, c), c) == Segment(truth, a, a + c)
  {
    EndingByMembers(fs, c);
    var left, right := ValidRanges(EndingBy(fs, c), c), Segment(truth, a, a + c);
    forall q | q in left
      ensures q in right
    {
      var f :| f in EndingBy(fs, c) && InBounds(f, c) && f.Span() == q;
      assert Range(f.start + a, f.end + a) in truth;
    }
    forall q | q in right
      ensures q in left
    {
      var r :| r in truth && a <= r.start && r.end <= a + c && Range(r.start - a, r.end - a) == q;
      assert Reported(fs, r, a);
      var f :| f in fs && f.start + a == r.start && f.end + a == r.end;
      assert f in EndingBy(fs, c) && InBounds(f, c) && f.Span() == q;
    }
  }

  lemma SliceOfSlice(body: seq<byte>, a: nat, b: nat, c: nat)
    requires a + c <= b <= |body|
    ensures body[a..b][..c] == body[a..a + c] && body[a..b][c..] == body[a + c..b]
  {
  }

  /** Masking what is emitted between two cuts is that stretch of the masked body. */
  lemma EmissionExtendsMask(cfg: Config, body: seq<byte>, truth: set<Range>, ph: seq<byte>,
                            fs: seq<Finding>, st: State, a: nat, b: nat, c: nat)
    requires cfg.redactor == MaskWith(ph) && InStep(st, body, truth, ph, a, b) && c <= b - a
    requires !Crossed(truth, a + c) && ValidRanges(fs, c) == Segment(truth, a, a + c)
    ensures InStep(Emit(cfg, st, c, fs), body, truth, ph, a + c, b)
  {
    hide Render, Crossed, Segment, ValidRanges, ApplyRedactor;
    var raw := st.buf[..c];
    SliceOfSlice(body, a, b, c);
    MaskApplied(cfg, raw, fs, ph);
    RenderSegment(body, truth, ph, a, a + c);
    RenderSplit(body, truth, ph, 0, a, a + c);
  }

  lemma FlushKeepsStep(cfg: Config, body: seq<byte>, truth: set<Range>, len: nat, ph: seq<byte>,
                       st: State, a: nat, b: nat) returns (a': nat)
    requires Setting(cfg, body, truth, len, ph) && InStep(st, body, truth, ph, a, b)
    ensures InStep(AfterFlush(cfg, st), body, truth, ph, a', b)
  {
    hide Render, Settled, Segment, ValidRanges, Crossed, EndingBy, PullBack, Emit, NoOrderedCrossing, CutNear;
    a' := a;
    if b - a > cfg.window {
      var fs, k := cfg.scan(body[a..b]), b - a - cfg.window;
      var c := PullBack(fs, k);
      CutSplitsNoMatch(cfg, body, truth, len, ph, a, b);
      assert CutPoint(cfg, st.buf) == c;
      if c > 0 {
        assert Settled(fs, truth, a, k);
        EmittedAreTheMatches(fs, truth, a, k, c);
        EmissionExtendsMask(cfg, body, truth, ph, EndingBy(fs, c), st, a, b, c);
        a' := a + c;
      }
    }
  }

  /** Reads that go on, with writes that succeed. */
  ghost predicate Flowing(script: seq<Read>) {
    forall i :: 0 <= i < |script| ==> script[i].end == More && script[i].sink == Accepts
  }

  /** The bytes a script delivers. */
  function Delivered(script: seq<Read>): seq<byte> {
    if script == [] then [] else Delivered(script[..|script| - 1]) + script[|script| - 1].data
  }

  lemma {:induction false} StaysInStep(cfg: Config, body: seq<byte>, truth: set<Range>, len: nat, ph: seq<byte>,
                                       script: seq<Read>) returns (a: nat)
    requires Setting(cfg, body, truth, len, ph)
    requires Delivered(script) <= body && Flowing(script)
    ensures InStep(Run(cfg, script), body, truth, ph, a, |Delivered(script)|)
  {
    if script == [] {
      a := 0;
      assert body[0..0] == [];
    } else {
      var before, r := script[..|script| - 1], script[|script| - 1];
      a := StaysInStep(cfg, body, truth, len, ph, before);
      a := ReceiveKeepsStep(cfg, body, truth, len, ph, Run(cfg, before), a, Delivered(before), r);
    }
  }

  lemma ReceiveKeepsStep(cfg: Config, body: seq<byte>, truth: set<Range>, len: nat, ph: seq<byte>,
                         st: State, a: nat, sofar: seq<byte>, r: Read) returns (a': nat)
    requires Setting(cfg, body, truth, len, ph) && sofar + r.data <= body
    requires InStep(st, body, truth, ph, a, |sofar|) && r.end == More && r.sink == Accepts
    ensures InStep(Receive(cfg, st, r), body, truth, ph, a', |sofar| + |r.data|)
  {
    hide Render, Setting, Crossed, AfterFlush;
    a' := a;
    if |r.data| > 0 {
      var b := |sofar| + |r.data|;
      var fed := FedInStep(st, body, truth, ph, a, sofar, r.data);
      a' := FlushKeepsStep(cfg, body, truth, len, ph, fed, a, b);
      assert Receive(cfg, st, r) == AfterFlush(cfg, fed);
    }
  }

  lemma FedInStep(st: State, body: seq<byte>, truth: set<Range>, ph: seq<byte>,
                  a: nat, sofar: seq<byte>, chunk: seq<byte>) returns (fed: State)
    requires InStep(st, body, truth, ph, a, |sofar|) && sofar + chunk <= body
    ensures fed == st.(buf := st.buf + chunk) && InStep(fed, body, truth, ph, a, |sofar| + |chunk|)
  {
    hide Render, Crossed;
    var b := |sofar| + |chunk|;
    fed := st.(buf := body[a..b]);
    assert st.buf + chunk == body[a..b] by {
      assert chunk == (sofar + chunk)[|sofar|..] == body[|sofar|..b];
    }
  }

  /** Streaming refines buffering: however the body is cut into chunks, the stream finishes and has
      written exactly the mask of the whole body with all its matches. */
  lemma StreamingEqualsBuffering(cfg: Config, body: seq<byte>, truth: set<Range>, len: nat, ph: seq<byte>,
                                 chunks: seq<Read>, last: seq<byte>)
    requires Setting(cfg, body, truth, len, ph)
    requires Delivered(chunks) + last == body && Flowing(chunks)
    ensures var st := Run(cfg, chunks + [Read(last, Eof)]);
            st.status == Done && st.dst == Masked(body, truth, ph)
  {
    hide Render, Setting, AfterFlush, AfterFinal, Crossed, Masked, Run, Receive, InStep, Delivered, Flowing;
    var a := StaysInStep(cfg, body, truth, len, ph, chunks);
    var st := Run(cfg, chunks);
    InStepRuns(st, body, truth, ph, a, |Delivered(chunks)|);
    a := ReceiveKeepsStep(cfg, body, truth, len, ph, st, a, Delivered(chunks), Read(last, More));
    var st1 := Receive(cfg, st, Read(last, More));
    InStepRuns(st1, body, truth, ph, a, |body|);
    FinishStep(cfg, body, truth, len, ph, st1, a);
    RunSnoc(cfg, chunks, Read(last, Eof));
    ReceiveThenFinish(cfg, st, last);
  }

  lemma RunSnoc(cfg: Config, script: seq<Read>, r: Read)
    ensures Run(cfg, script + [r]) == Receive(cfg, Run(cfg, script), r)
  {
    hide Receive;
    assert (script + [r])[..|script|] == script;
  }

  /** The last read is a read like any other and then the final flush. */
  lemma ReceiveThenFinish(cfg: Config, st: State, last: seq<byte>)
    requires st.status == Running && Receive(cfg, st, Read(last, More)).status == Running
    ensures var st' := AfterFinal(cfg, Receive(cfg, st, Read(last, More)));
            Receive(cfg, st, Read(last, Eof)) == if st'.status == Failed then st' else st'.(status := Done)
  {
    hide AfterFlush, AfterFinal;
  }

  /** How a read ends does not change what has been written by then: a read that fails leaves what one that goes
      on would have left, and one that brings nothing leaves everything as it was. */
  lemma ReadEndIsLate(cfg: Config, script: seq<Read>, data: seq<byte>, sink: Sink)
    ensures var go, stop := Run(cfg, script + [Read(data, More, sink)]), Run(cfg, script + [Read(data, Error, sink)]);
            stop.dst == go.dst && stop.buf == go.buf && stop.log == go.log && stop.status != Running
    ensures Run(cfg, script + [Read(data, More, sink)]).dst <= Run(cfg, script + [Read(data, Eof, sink)]).dst
    ensures Run(cfg, script + [Read([], More, sink)]) == Run(cfg, script)
  {
    hide Run, AfterFlush, AfterFinal;
    RunSnoc(cfg, script, Read(data, More, sink));
    RunSnoc(cfg, script, Read(data, Error, sink));
    RunSnoc(cfg, script, Read(data, Eof, sink));
    RunSnoc(cfg, script, Read([], More, sink));
    var st := Receive(cfg, Run(cfg, script), Read(data, More, sink));
    FinalExtends(cfg, st, Accepts);
    FlushKeepsStatus(cfg, Run(cfg, script).(buf := Run(cfg, script).buf + data), sink);
  }

  lemma FinalExtends(cfg: Config, st: State, sink: Sink)
    ensures st.dst <= AfterFinal(cfg, st, sink).dst
  {
  }

  lemma FlushKeepsStatus(cfg: Config, st: State, sink: Sink)
    ensures AfterFlush(cfg, st, sink).status in {st.status, Failed}
  {
  }

  lemma DeliveredSnoc(script: seq<Read>, r: Read)
    ensures Delivered(script + [r]) == Delivered(script) + r.data
  {
    assert (script + [r])[..|script|] == script;
  }

  lemma FinishStep(cfg: Config, body: seq<byte>, truth: set<Range>, len: nat, ph: seq<byte>,
                   st: State, a: nat)
    requires Setting(cfg, body, truth, len, ph) && InStep(st, body, truth, ph, a, |body|)
    ensures AfterFinal(cfg, st).status == Running && AfterFinal(cfg, st).dst == Masked(body, truth, ph)
  {
    hide Render, Setting, Crossed, Emit, ValidRanges, Segment;
    if a < |body| {
      assert body[a..|body|] == body[a..];
      var fs := cfg.scan(body[a..]);
      LastScanIsRight(cfg, body, truth, len, ph, a);
      EmissionExtendsMask(cfg, body, truth, ph, fs, st, a, |body|, |body| - a);
    }
  }

  lemma LastScanIsRight(cfg: Config, body: seq<byte>, truth: set<Range>, len: nat, ph: seq<byte>, a: nat)
    requires Setting(cfg, body, truth, len, ph) && a < |body| && !Crossed(truth, a)
    ensures cfg.redactor == MaskWith(ph) && !Crossed(truth, |body|)
    ensures ValidRanges(cfg.scan(body[a..]), |body| - a) == Segment(truth, a, |body|)
  {
    EndUncrossed(truth, |body|);
  }

  // ----- However a run stops, it has written nothing else ---------------------------------------------

  /** End of input is reported only once the whole body has been delivered. */
  ghost predicate EndsWithBody(script: seq<Read>, body: seq<byte>) {
    && Delivered(script) <= body
    && forall i :: 0 <= i < |script| && script[i].end == Eof ==> Delivered(script[..i + 1]) == body
  }

  /** Still in step with the body, or stopped; either way the output is a prefix of the masked body. */
  ghost predicate OnTrack(st: State, body: seq<byte>, truth: set<Range>, ph: seq<byte>, b: nat) {
    && st.dst <= Masked(body, truth, ph)
    && (st.status == Running ==> exists a :: InStep(st, body, truth, ph, a, b))
  }

  lemma InStepOnTrack(st: State, body: seq<byte>, truth: set<Range>, ph: seq<byte>, a: nat, b: nat)
    requires InStep(st, body, truth, ph, a, b)
    ensures OnTrack(st, body, truth, ph, b)
  {
    RenderSplit(body, truth, ph, 0, a, |body|);
  }

  /** A failing destination gets a prefix of what an accepting one would get. */
  lemma FailingSinkGetsPrefix(cfg: Config, st: State, sink: Sink)
    requires st.status == Running
    ensures AfterFlush(cfg, st, sink) == AfterFlush(cfg, st)
            || (AfterFlush(cfg, st, sink).status == Failed && AfterFlush(cfg, st, sink).dst <= AfterFlush(cfg, st).dst)
    ensures AfterFinal(cfg, st, sink) == AfterFinal(cfg, st)
            || (AfterFinal(cfg, st, sink).status == Failed && AfterFinal(cfg, st, sink).dst <= AfterFinal(cfg, st).dst)
  {
    hide ApplyRedactor, CutPoint, EndingBy;
  }

  lemma ReceiveStaysOnTrack(cfg: Config, body: seq<byte>, truth: set<Range>, len: nat, ph: seq<byte>,
                            st: State, sofar: seq<byte>, r: Read)
    requires Setting(cfg, body, truth, len, ph) && sofar + r.data <= body && OnTrack(st, body, truth, ph, |sofar|)
    requires r.end == Eof ==> sofar + r.data == body
    ensures OnTrack(Receive(cfg, st, r), body, truth, ph, |sofar| + |r.data|)
  {
    hide Setting, AfterFlush, AfterFinal, InStep, Masked;
    if st.status == Running {
      var b := |sofar| + |r.data|;
      var a :| InStep(st, body, truth, ph, a, |sofar|);
      var accepted := Read(r.data, More);
      var a' := ReceiveKeepsStep(cfg, body, truth, len, ph, st, a, sofar, accepted);
      var good := Receive(cfg, st, accepted);
      InStepOnTrack(good, body, truth, ph, a', b);
      var fed := st.(buf := st.buf + r.data);
      FailingSinkGetsPrefix(cfg, fed, r.sink);
      InStepRuns(good, body, truth, ph, a', b);
      if r.end == Eof && (|r.data| == 0 || AfterFlush(cfg, fed, r.sink) == AfterFlush(cfg, fed)) {
        FinishStep(cfg, body, truth, len, ph, good, a');
        FailingSinkGetsPrefix(cfg, good, r.lastSink);
      }
    }
  }

  lemma InStepRuns(st: State, body: seq<byte>, truth: set<Range>, ph: seq<byte>, a: nat, b: nat)
    requires InStep(st, body, truth, ph, a, b)
    ensures st.status == Running
  {
  }

  /** Safety over every run, whatever stops it (cancellation, a failed read, a failed write, end of input):
      what has been written is a prefix of the mask of the whole body. */
  lemma {:induction false} EveryRunWritesPrefix(cfg: Config, body: seq<byte>, truth: set<Range>, len: nat,
                                                ph: seq<byte>, script: seq<Read>)
    requires Setting(cfg, body, truth, len, ph) && EndsWithBody(script, body)
    ensures OnTrack(Run(cfg, script), body, truth, ph, |Delivered(script)|)
    ensures Run(cfg, script).dst <= Masked(body, truth, ph)
  {
    hide Setting, Receive, InStep, Masked;
    if script == [] {
      StartUncrossed(cfg, body, truth, len, ph);
      StartOnTrack(body, truth, ph);
    } else {
      var n := |script| - 1;
      var before := script[..n];
      assert script[..n + 1] == script;
      forall i | 0 <= i < n && before[i].end == Eof
        ensures Delivered(before[..i + 1]) == body
      {
        assert before[..i + 1] == script[..i + 1] && script[i].end == Eof;
      }
      EveryRunWritesPrefix(cfg, body, truth, len, ph, before);
      ReceiveStaysOnTrack(cfg, body, truth, len, ph, Run(cfg, before), Delivered(before), script[n]);
    }
  }

  lemma StartUncrossed(cfg: Config, body: seq<byte>, truth: set<Range>, len: nat, ph: seq<byte>)
    requires Setting(cfg, body, truth, len, ph)
    ensures !Crossed(truth, 0)
  {
  }

  lemma StartOnTrack(body: seq<byte>, truth: set<Range>, ph: seq<byte>)
    requires !Crossed(truth, 0)
    ensures OnTrack(INIT, body, truth, ph, 0)
  {
    assert body[0..0] == [];
    InStepOnTrack(INIT, body, truth, ph, 0, 0);
  }

  lemma EndUncrossed(truth: set<Range>, n: nat)
    requires forall r :: r in truth ==> r.end <= n
    ensures !Crossed(truth, n)
  {
  }

  // ----- The same for pairwise disjoint matches ---------------------------------------------------

  ghost predicate Apart(truth: set<Range>) {
    forall q, r :: q in truth && r in truth ==> q == r || !SharesByte(q, r)
  }

  /** The scanner is exact on settled findings and, at the end of the body, on all of them. */
  ghost predicate Exact(cfg: Config, body: seq<byte>, truth: set<Range>) {
    && (forall a, b {:trigger cfg.scan(body[a..b])} :: 0 <= a < b <= |body| && !Crossed(truth, a) ==>
          Settled(cfg.scan(body[a..b]), truth, a, b - a - cfg.window))
    && (forall a {:trigger body[a..]} :: 0 <= a < |body| && !Crossed(truth, a) ==>
          ValidRanges(cfg.scan(body[a..]), |body| - a) == Segment(truth, a, |body|))
  }

  lemma DisjointMatchesSetting(cfg: Config, body: seq<byte>, truth: set<Range>, len: nat, ph: seq<byte>)
    requires cfg.redactor == MaskWith(ph) && cfg.maxBuffer >= cfg.window + len && len > 0
    requires Apart(truth) && forall r :: r in truth ==> 0 <= r.start < r.end <= |body| && r.end - r.start <= len
    requires Exact(cfg, body, truth)
    ensures Setting(cfg, body, truth, len, ph)
  {
    forall p
      ensures CutNear(truth, p, len)
    {
      if r :| r in truth && r.start < p < r.end {
        assert !Crossed(truth, r.start);
      } else {
        assert !Crossed(truth, p);
      }
    }
    forall a, b | 0 <= a < b <= |body| && !Crossed(truth, a)
      ensures NoOrderedCrossing(cfg.scan(body[a..b]), b - a - cfg.window)
    {
      SettledHasNoOrderedCrossing(cfg.scan(body[a..b]), truth, a, b - a - cfg.window);
    }
  }

  lemma SettledHasNoOrderedCrossing(fs: seq<Finding>, truth: set<Range>, a: int, k: int)
    requires Apart(truth) && Settled(fs, truth, a, k)
    ensures NoOrderedCrossing(fs, k)
  {
    forall i, j | 0 <= i < j < |fs| && fs[j].start < k
      ensures !CrossesLater(fs[i], fs[j])
    {
      if CrossesLater(fs[i], fs[j]) {
        assert fs[i] in fs && fs[j] in fs;
        var q, r := Range(fs[i].start + a, fs[i].end + a), Range(fs[j].start + a, fs[j].end + a);
        assert q in truth && r in truth && q != r && SharesByte(q, r);
      }
    }
  }
}
