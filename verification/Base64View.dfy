/** The view of a body in which base64 candidates are replaced by what they decode to. */
module Base64View {
  import opened Findings
  import opened Views
  import opened Base64
  import opened Text

  const MIN_RUN: nat := 16

  /** The end of the run of alphabet bytes that starts at `i`, within `s[..q]`. */
  function RunEnd(s: seq<byte>, i: nat, q: nat): (e: nat)
    requires i <= q <= |s|
    ensures i <= e <= q && (forall j :: i <= j < e ==> IsAlphabet(s[j])) && (e < q ==> !IsAlphabet(s[e]))
    decreases q - i
  {
    if i < q && IsAlphabet(s[i]) then RunEnd(s, i + 1, q) else i
  }

  /** Up to two pad bytes at `r`, within `s[..q]`. */
  function PadsAt(s: seq<byte>, r: nat, q: nat): (k: nat)
    requires r <= q <= |s|
    ensures k <= 2 && r + k <= q
  {
    if r + 1 < q && s[r] == PAD && s[r + 1] == PAD then 2 else if r < q && s[r] == PAD then 1 else 0
  }

  /** The length of the candidate at `p`: at least 16 letters, as many as possible, and up to two pads.
      Zero when there is none. */
  function CandidateLen(s: seq<byte>, p: nat, q: nat): (n: nat)
    requires p <= q <= |s|
    ensures p + n <= q && (n == 0 || n >= MIN_RUN)
  {
    var r := RunEnd(s, p, q);
    if r - p >= MIN_RUN then r + PadsAt(s, r, q) - p else 0
  }

  predicate Printable(c: byte) {
    c == 0x09 || c == 0x0A || c == 0x0D || 0x20 <= c < 0x7F
  }

  function CountPrintable(b: seq<byte>): nat {
    if b == [] then 0 else CountPrintable(b[..|b| - 1]) + if Printable(b[|b| - 1]) then 1 else 0
  }

  predicate MostlyPrintable(b: seq<byte>) {
    |b| > 0 && 10 * CountPrintable(b) >= 7 * |b|
  }

  /** The printable bytes: tab, line feed, carriage return and everything from space to tilde. */
  lemma PrintableIff(c: byte)
    ensures Printable(c) <==> CharIn(c, "\t\n\r") || ' ' as int <= c <= '~' as int
  {
    assert "\t\n\r"[0] as int == 0x09 && "\t\n\r"[1] as int == 0x0A && "\t\n\r"[2] as int == 0x0D;
  }

  /** The positions that hold a printable byte. */
  function PrintableAt(b: seq<byte>): set<int> {
    set i | 0 <= i < |b| && Printable(b[i])
  }

  /** The count is their number. */
  lemma {:induction false} CountIsCardinality(b: seq<byte>)
    ensures CountPrintable(b) == |PrintableAt(b)|
  {
    if b != [] {
      hide PrintableAt;
      CountIsCardinality(b[..|b| - 1]);
      OneMorePosition(b);
    }
  }

  lemma OneMorePosition(b: seq<byte>)
    requires b != []
    ensures |PrintableAt(b)| == |PrintableAt(b[..|b| - 1])| + if Printable(b[|b| - 1]) then 1 else 0
  {
    hide Printable;
    var n := |b| - 1;
    assert PrintableAt(b) == PrintableAt(b[..n]) + if Printable(b[n]) then {n} else {};
  }

  method IsMostlyPrintable(b: seq<byte>) returns (ok: bool)
    ensures ok == MostlyPrintable(b)
    ensures ok <==> b != [] && 10 * |PrintableAt(b)| >= 7 * |b|
  {
    CountIsCardinality(b);
    if |b| == 0 {
      return false;
    }
    var n := 0;
    for i := 0 to |b|
      invariant n == CountPrintable(b[..i])
    {
      assert b[..i + 1][..i] == b[..i];
      if Printable(b[i]) {
        n := n + 1;
      }
    }
    assert b[..|b|] == b;
    return 10 * n >= 7 * |b|;
  }

  /** What a candidate is replaced with, if anything. */
  function Replacement(cand: seq<byte>): Option<seq<byte>> {
    if |cand| % 4 != 0 then None
    else match Decode(cand)
      case None => None
      case Some(d) => if MostlyPrintable(d) then Some(d) else None
  }

  /** Decoded byte `i` stands for the four-letter group it comes from. */
  function GroupOffsets(n: nat): seq<int> { seq(n, i requires 0 <= i => i / 3 * 4) }

  function Identity(n: nat): seq<int> { seq(n, i requires 0 <= i => i) }

  /** The token for a candidate: its replacement, or the candidate itself. */
  function CandidateToken(cand: seq<byte>): Token {
    match Replacement(cand)
    case Some(d) => Token(|cand|, d, GroupOffsets(|d|))
    case None => Token(|cand|, cand, Identity(|cand|))
  }

  function Base64Step(src: seq<byte>, p: int, q: int): Token {
    if !(0 <= p < q <= |src|) then Token(0, [], [])
    else
      var n := CandidateLen(src, p, q);
      if n == 0 then Verbatim(src[p]) else CandidateToken(src[p..p + n])
  }

  /** A candidate is letters, then at most two pads; in whole groups it decodes without error. */
  lemma CandidatesDecode(s: seq<byte>, p: nat, q: nat)
    requires p <= q <= |s| && CandidateLen(s, p, q) > 0 && CandidateLen(s, p, q) % 4 == 0
    ensures var n := CandidateLen(s, p, q);
            Decode(s[p..p + n]).Some? && n / 4 * 3 - 2 <= |Decode(s[p..p + n]).value| <= n / 4 * 3
  {
    var n, r := CandidateLen(s, p, q), RunEnd(s, p, q);
    assert PadsAt(s, r, q) == n - (r - p);
    WholeGroupsDecode(s[p..p + n], r - p);
  }

  /** A candidate's token is a replacement shorter than the candidate, or the candidate itself. */
  lemma CandidateTokenShape(s: seq<byte>, p: nat, q: nat)
    requires p <= q <= |s| && CandidateLen(s, p, q) > 0
    ensures var n := CandidateLen(s, p, q);
            var t := CandidateToken(s[p..p + n]);
            && t.len == n && WellFormed(t, q - p) && t.out != [] && t.offs[0] == 0
            && (Replacement(s[p..p + n]).Some? ==> |t.out| < n)
  {
    hide Decode, MostlyPrintable, RunEnd, PadsAt;
    if CandidateLen(s, p, q) % 4 == 0 {
      CandidatesDecode(s, p, q);
    }
  }

  lemma StepWellFormed(src: seq<byte>, p: nat, q: nat)
    requires p < q <= |src|
    ensures var t := Base64Step(src, p, q);
            && WellFormed(t, q - p)
            && t.out != [] && t.offs[0] == 0
            && (t.len == 1 ==> t == Verbatim(src[p]))
            && (t.len > 1 ==> t.len == CandidateLen(src, p, q))
            && (t.len == 1 ==> CandidateLen(src, p, q) == 0)
  {
    if CandidateLen(src, p, q) > 0 {
      CandidateTokenShape(src, p, q);
    }
  }

  lemma Base64Tokens(src: seq<byte>)
    ensures Tokenizer(Base64Step, src)
  {
    forall p, q | 0 <= p < q <= |src|
      ensures WellFormed(Base64Step(src, p, q), q - p)
    {
      StepWellFormed(src, p, q);
    }
  }

  /** `src` with its candidates decoded. */
  ghost function DecodedView(src: seq<byte>): seq<byte> {
    Base64Tokens(src);
    Out(Base64Step, src, 0, |src|)
  }

  /** Where each byte of that view came from. */
  ghost function GroupIdx(src: seq<byte>): seq<int> {
    Base64Tokens(src);
    Idx(Base64Step, src, 0, |src|)
  }

  lemma Base64StepIsLocal(src: seq<byte>)
    ensures PrefixStable(Base64Step, src)
  {
    hide CandidateToken, WellFormed;
    forall p, q, c | 0 <= p < q <= |src| && p + Base64Step(src, p, q).len <= c <= q
      ensures Base64Step(src, p, c) == Base64Step(src, p, q)
    {
      StepWellFormed(src, p, q);
      CandidateOfPrefix(src, p, q, c);
    }
  }

  lemma CandidateOfPrefix(src: seq<byte>, p: nat, q: nat, c: nat)
    requires p <= c <= q <= |src| && p + CandidateLen(src, p, q) <= c
    ensures CandidateLen(src, p, c) == CandidateLen(src, p, q)
  {
  }

  lemma Base64Slides(sub: seq<byte>, src: seq<byte>, c: nat)
    requires c + |sub| <= |src| && forall i :: 0 <= i < |sub| ==> sub[i] == src[c + i]
    ensures Slides(Base64Step, sub, src, c)
  {
    hide Base64Step;
    forall p, q | 0 <= p < q <= |sub|
      ensures Base64Step(sub, p, q) == Base64Step(src, c + p, c + q)
    {
      TokenSlides(sub, src, c, p, q);
    }
  }

  lemma {:induction false} TokenSlides(sub: seq<byte>, src: seq<byte>, c: nat, p: nat, q: nat)
    requires c + |sub| <= |src| && p < q <= |sub| && forall i :: 0 <= i < |sub| ==> sub[i] == src[c + i]
    ensures Base64Step(sub, p, q) == Base64Step(src, c + p, c + q)
  {
    hide CandidateToken, CandidateLen, RunEnd;
    RunSlides(sub, src, c, p, q);
    var n := CandidateLen(sub, p, q);
    assert sub[p..p + n] == src[c + p..c + p + n];
  }

  lemma {:induction false} RunSlides(sub: seq<byte>, src: seq<byte>, c: nat, p: nat, q: nat)
    requires c + |sub| <= |src| && forall i :: 0 <= i < |sub| ==> sub[i] == src[c + i]
    requires p <= q <= |sub|
    ensures RunEnd(src, c + p, c + q) == c + RunEnd(sub, p, q)
    ensures CandidateLen(src, c + p, c + q) == CandidateLen(sub, p, q)
    decreases q - p
  {
    if p < q && IsAlphabet(sub[p]) {
      RunSlides(sub, src, c, p + 1, q);
    }
  }

  // ----- The program ------------------------------------------------------------------------------

  /** Sixteen alphabet bytes in a row, starting at `i`. */
  predicate RunAt(data: seq<byte>, i: int) {
    0 <= i <= |data| - MIN_RUN && forall j :: i <= j < i + MIN_RUN ==> IsAlphabet(data[j])
  }

  method ContainsCandidate(data: seq<byte>) returns (found: bool)
    ensures found <==> exists i :: RunAt(data, i)
  {
    var run := 0;
    for n := 0 to |data|
      invariant 0 <= run <= n && run < MIN_RUN
      invariant forall j :: n - run <= j < n ==> IsAlphabet(data[j])
      invariant run < n ==> !IsAlphabet(data[n - run - 1])
      invariant forall i :: i + MIN_RUN <= n ==> !RunAt(data, i)
    {
      if IsAlphabet(data[n]) {
        run := run + 1;
        if run >= MIN_RUN {
          assert RunAt(data, n + 1 - MIN_RUN);
          return true;
        }
        assert !RunAt(data, n + 1 - MIN_RUN);
      } else {
        run := 0;
        assert !RunAt(data, n + 1 - MIN_RUN);
      }
    }
    return false;
  }

  lemma LongRunIsRun(src: seq<byte>, i: nat)
    requires i <= |src|
    ensures RunEnd(src, i, |src|) - i >= MIN_RUN ==> RunAt(src, i)
  {
  }

  /** Without such a run there is no candidate, so the pre-check loses nothing. */
  lemma NoRunNoChange(src: seq<byte>)
    requires forall i :: !RunAt(src, i)
    ensures DecodedView(src) == src
  {
    Base64Tokens(src);
    forall i | 0 <= i < |src|
      ensures Base64Step(src, i, |src|) == Verbatim(src[i])
    {
      assert !RunAt(src, i);
      LongRunIsRun(src, i);
    }
    AllVerbatim(Base64Step, src, 0, |src|);
    assert src[0..|src|] == src;
  }

  /** Emits the decoded form of an accepted candidate and the bytes of a rejected one. */
  method EmitCandidate(cand: seq<byte>, start: nat) returns (out: seq<byte>, idx: seq<int>, decoded: bool)
    ensures decoded == Replacement(cand).Some?
    ensures decoded ==> out == Replacement(cand).value && idx == Shift(GroupOffsets(|out|), start)
    ensures !decoded ==> out == cand && idx == Shift(Identity(|cand|), start)
  {
    hide Decode, MostlyPrintable;
    out, idx, decoded := [], [], false;
    if |cand| % 4 == 0 {
      var d := Decode(cand);
      if d.Some? {
        var ok := IsMostlyPrintable(d.value);
        if ok {
          for i := 0 to |d.value|
            invariant out == d.value[..i] && idx == Shift(GroupOffsets(i), start)
          {
            var group := i / 3;
            assert Shift(GroupOffsets(i + 1), start) == Shift(GroupOffsets(i), start) + [start + group * 4];
            idx := idx + [start + group * 4];
            out := out + [d.value[i]];
          }
          return out, idx, true;
        }
      }
    }
    for i := 0 to |cand|
      invariant out == cand[..i] && idx == Shift(Identity(i), start)
    {
      assert Shift(Identity(i + 1), start) == Shift(Identity(i), start) + [start + i];
      idx := idx + [start + i];
      out := out + [cand[i]];
    }
  }

  /** The spans are candidates; a replacement is shorter than what it replaces. */
  ghost predicate SpansAreCandidates(step: Step, src: seq<byte>) {
    forall p {:trigger step(src, p, |src|)} :: 0 <= p < |src| && step(src, p, |src|).len > 1 ==>
      SpanIsCandidate(step(src, p, |src|), src, p)
  }

  ghost predicate SpanIsCandidate(t: Token, src: seq<byte>, p: nat) {
    && p + t.len <= |src|
    && 1 < t.len
    && t == CandidateToken(src[p..p + t.len])
    && (Replacement(src[p..p + t.len]).Some? ==> |t.out| < t.len)
  }

  lemma Base64TokenKinds(src: seq<byte>)
    ensures SinglesVerbatim(Base64Step, src) && SpansAreCandidates(Base64Step, src)
  {
    hide CandidateToken, WellFormed;
    forall p | 0 <= p < |src|
      ensures Base64Step(src, p, |src|).len == 1 ==> Base64Step(src, p, |src|) == Verbatim(src[p])
      ensures Base64Step(src, p, |src|).len > 1 ==> SpanIsCandidate(Base64Step(src, p, |src|), src, p)
    {
      StepWellFormed(src, p, |src|);
      if CandidateLen(src, p, |src|) > 0 {
        CandidateTokenShape(src, p, |src|);
      }
    }
  }

  /** The bytes to emit for the candidate at the reading position. */
  lemma AtCandidate(step: Step, src: seq<byte>, c: Range, out: seq<byte>, idx: seq<int>)
    requires Tokenizer(step, src) && SpansAreCandidates(step, src)
    requires 0 <= c.start < |src| && ReadUpTo(step, src, c.start, out, idx)
    requires Spans(step, src, c.start) != [] && Spans(step, src, c.start)[0] == c
    ensures c.start < c.end <= |src| && Spans(step, src, c.end) == Spans(step, src, c.start)[1..]
    ensures var cand := src[c.start..c.end];
            var t := CandidateToken(cand);
            && ReadUpTo(step, src, c.end, out + t.out, idx + Shift(t.offs, c.start))
            && (Replacement(cand).Some? ==> |t.out| < |cand|)
  {
    hide Out, Idx, Spans, Tokenizer, ReadUpTo, CandidateToken, Replacement;
    SpansHead(step, src, c.start);
    ReadToken(step, src, c.start, out, idx);
    assert SpanIsCandidate(step(src, c.start, |src|), src, c.start);
  }

  /** Copies up to one candidate and emits it. */
  method OneCandidate(ghost step: Step, src: seq<byte>, from: nat, c: Range, out0: seq<byte>, idx0: seq<int>)
    returns (out: seq<byte>, idx: seq<int>, decoded: bool)
    requires Tokenizer(step, src) && SinglesVerbatim(step, src) && SpansAreCandidates(step, src)
    requires from < |src| && ReadUpTo(step, src, from, out0, idx0)
    requires Spans(step, src, from) != [] && Spans(step, src, from)[0] == c
    ensures from < c.end <= |src| && ReadUpTo(step, src, c.end, out, idx)
    ensures Spans(step, src, c.end) == Spans(step, src, from)[1..]
    ensures if decoded then |out| - |out0| < c.end - from else out == out0 + src[from..c.end]
  {
    hide Out, Idx, Spans, Tokenizer, ReadUpTo, SinglesVerbatim, SpansAreCandidates;
    SpansHead(step, src, from);
    var pos;
    out, idx, pos := CopyTo(step, src, from, c.start, out0, idx0);
    AtCandidate(step, src, c, out, idx);
    var cand := src[c.start..c.end];
    var more, at;
    more, at, decoded := EmitCandidate(cand, c.start);
    out, idx := out + more, idx + at;
    assert out0 + src[from..pos] + cand == out0 + src[from..c.end];
  }

  /** The candidate loop. */
  method DecodeCandidates(ghost step: Step, src: seq<byte>, candidates: seq<Range>)
    returns (out: seq<byte>, idx: seq<int>, anyDecoded: bool)
    requires Tokenizer(step, src) && SinglesVerbatim(step, src) && SpansAreCandidates(step, src)
    requires candidates == Spans(step, src, 0)
    ensures out == Out(step, src, 0, |src|) && idx == Idx(step, src, 0, |src|)
    ensures if anyDecoded then |out| < |src| else out == src
  {
    hide Out, Idx, Spans, Tokenizer, ReadUpTo, SinglesVerbatim, SpansAreCandidates;
    out, idx, anyDecoded := [], [], false;
    var pos: nat := 0;
    ReadNothing(step, src);
    for k := 0 to |candidates|
      invariant pos <= |src| && Spans(step, src, pos) == candidates[k..]
      invariant ReadUpTo(step, src, pos, out, idx)
      invariant if anyDecoded then |out| < pos else out == src[..pos]
    {
      var decoded;
      SpansBehind(step, src, pos);
      out, idx, decoded := OneCandidate(step, src, pos, candidates[k], out, idx);
      pos := candidates[k].end;
      anyDecoded := anyDecoded || decoded;
    }
    out, idx, pos := CopyTo(step, src, pos, |src|, out, idx);
    ReadAll(step, src, out, idx);
    idx := idx + [pos];
  }

  /** The view of `src` with its candidates decoded, or `src` itself when none was. */
  method DecodeView(src: seq<byte>) returns (view: View)
    ensures view == if DecodedView(src) == src then View(src, None) else View(DecodedView(src), Some(GroupIdx(src)))
  {
    hide Base64Step;
    Base64Tokens(src);
    Base64TokenKinds(src);
    var candidates := FindSpans(Base64Step, src);
    var out, idx, anyDecoded := DecodeCandidates(Base64Step, src, candidates);
    if !anyDecoded {
      return View(src, None);
    }
    return View(out, Some(idx));
  }

  // ----- Encoded text is recovered, and its offsets map back by group ------------------------------

  /** What follows cannot be taken for more of the encoding. */
  predicate CannotExtend(text: seq<byte>, post: seq<byte>) {
    post == [] || match Pads(|text|)
      case 0 => !IsAlphabet(post[0]) && post[0] != PAD
      case 1 => post[0] != PAD
      case _ => true
  }

  /** The encoding, seen in place, is one candidate. */
  lemma EncodedCandidate(src: seq<byte>, p: nat, enc: seq<byte>, k: nat)
    requires p + |enc| <= |src| && forall i :: 0 <= i < |enc| ==> src[p + i] == enc[i]
    requires k <= 2 && |enc| - k >= MIN_RUN && Alphabet(enc, |enc| - k)
    requires forall i :: |enc| - k <= i < |enc| ==> enc[i] == PAD
    requires p + |enc| < |src| && k == 0 ==> !IsAlphabet(src[p + |enc|]) && src[p + |enc|] != PAD
    requires p + |enc| < |src| && k == 1 ==> src[p + |enc|] != PAD
    ensures CandidateLen(src, p, |src|) == |enc|
  {
    var r := |enc| - k;
    forall j | p <= j < p + r
      ensures IsAlphabet(src[j])
    {
      assert src[p + (j - p)] == enc[j - p];
    }
    forall j | p + r <= j < p + |enc|
      ensures src[j] == PAD
    {
      assert src[p + (j - p)] == enc[j - p];
    }
    assert p + r < |src| ==> !IsAlphabet(src[p + r]);
    assert RunEnd(src, p, |src|) == p + r;
  }

  /** The text, encoded at `p`, is the token there. */
  lemma {:induction false} EncodedIsOneToken(pre: seq<byte>, text: seq<byte>, post: seq<byte>)
    requires |text| >= 12 && MostlyPrintable(text) && CannotExtend(text, post)
    ensures var enc := Encode(text);
            var src := pre + enc + post;
            enc != [] && IsAlphabet(enc[0])
            && Base64Step(src, |pre|, |src|) == Token(|enc|, text, GroupOffsets(|text|))
            && CandidateLen(src, |pre|, |src|) == |enc| && Replacement(enc) == Some(text)
  {
    hide Encode, Decode, MostlyPrintable, CandidateLen, IsAlphabet, Replacement;
    var enc, p := Encode(text), |pre|;
    var src := pre + enc + post;
    EncodeShape(text);
    EncodedCandidate(src, p, enc, Pads(|text|));
    EncodingIsReplaced(text);
    assert src[p..p + |enc|] == enc;
  }

  lemma {:induction false} EncodingIsReplaced(text: seq<byte>)
    requires MostlyPrintable(text)
    ensures Replacement(Encode(text)) == Some(text)
  {
    hide Encode, Decode, MostlyPrintable;
    EncodingInGroups(text);
    DecodeInvertsEncode(text);
  }

  lemma {:induction false} EncodingInGroups(text: seq<byte>)
    ensures |Encode(text)| % 4 == 0
  {
    hide Encode, Alphabet, Pads;
    EncodeShape(text);
  }

  /** A byte outside the alphabet followed by one inside it is a token edge. */
  lemma {:induction false} EdgeBeforeLetter(src: seq<byte>, p: nat, c: nat)
    requires Tokenizer(Base64Step, src) && p <= c < |src|
    requires p < c ==> !IsAlphabet(src[c - 1])
    requires IsAlphabet(src[c])
    ensures Boundary(Base64Step, src, p, |src|, c)
    decreases c - p
  {
    hide Base64Step, IsAlphabet;
    if p < c {
      StepWellFormed(src, p, |src|);
      StepStopsBefore(src, p, c);
      EdgeBeforeLetter(src, p + Base64Step(src, p, |src|).len, c);
    }
  }

  lemma StepStopsBefore(src: seq<byte>, p: nat, c: nat)
    requires p < c < |src| && !IsAlphabet(src[c - 1]) && IsAlphabet(src[c])
    ensures p + Base64Step(src, p, |src|).len <= c
  {
    StepWellFormed(src, p, |src|);
  }

  lemma FirstEntry(src: seq<byte>, p: nat)
    requires Tokenizer(Base64Step, src) && p <= |src|
    ensures |Idx(Base64Step, src, p, |src|)| > 0 && Idx(Base64Step, src, p, |src|)[0] == p
  {
    hide Base64Step;
    if p < |src| {
      StepWellFormed(src, p, |src|);
    }
  }

  /** The encoding of twelve or more mostly printable bytes, between bytes that cannot extend it, is
      replaced in the view by exactly those bytes; each of them maps to its four-letter group, and the
      entry behind them to the end of the encoding. */
  lemma {:induction false} EncodedTextIsRecovered(pre: seq<byte>, text: seq<byte>, post: seq<byte>)
    requires |text| >= 12 && MostlyPrintable(text) && CannotExtend(text, post)
    requires pre == [] || !IsAlphabet(pre[|pre| - 1])
    ensures var enc, left := Encode(text), DecodedView(pre);
            var idx := GroupIdx(pre + enc + post);
            && DecodedView(pre + enc + post) == left + text + DecodedView(post)
            && |idx| > |left| + |text|
            && (forall x :: 0 <= x < |text| ==> idx[|left| + x] == |pre| + x / 3 * 4)
            && idx[|left| + |text|] == |pre| + |enc|
  {
    hide Base64Step, Encode, MostlyPrintable, Out, Idx, Tokenizer, PrefixStable, Boundary, Slides, CannotExtend,
         IsAlphabet, GroupOffsets, Shift, CandidateLen, Replacement;
    var enc := Encode(text);
    var src, n := pre + enc + post, |pre| + |enc|;
    Base64Tokens(src);
    Base64Tokens(pre);
    Base64Tokens(post);
    EncodedIsOneToken(pre, text, post);
    assert src[|pre|] == enc[0] && (|pre| > 0 ==> src[|pre| - 1] == pre[|pre| - 1]);
    EdgeBeforeLetter(src, 0, |pre|);
    Base64StepIsLocal(src);
    Base64Slides(pre, src, 0);
    Base64Slides(post, src, n);
    var t := Token(|enc|, text, GroupOffsets(|text|));
    ViewOfThreeParts(Base64Step, src, pre, post, t);
    FirstEntry(src, n);
    TableOfText(Idx(Base64Step, src, 0, |pre|), |Out(Base64Step, pre, 0, |pre|)|, |text|, |pre|,
                Idx(Base64Step, src, n, |src|));
  }

  lemma TableOfText(left: seq<int>, o: nat, n: nat, c: nat, rest: seq<int>)
    requires o < |left| && |rest| > 0
    ensures var idx := left[..o] + (Shift(GroupOffsets(n), c) + rest);
            && |idx| > o + n
            && (forall x :: 0 <= x < n ==> idx[o + x] == c + x / 3 * 4)
            && idx[o + n] == rest[0]
  {
  }

  // ----- Which groups a finding in the view covers ---------------------------------------------------

  ghost predicate TokenEdge(src: seq<byte>, p: nat) {
    Base64Tokens(src);
    Boundary(Base64Step, src, 0, |src|, p)
  }

  /** How many view bytes stand for `src[..p]`. */
  ghost function DecodedBefore(src: seq<byte>, p: nat): nat
    requires p <= |src|
  {
    Base64Tokens(src);
    |Out(Base64Step, src, 0, p)|
  }

  /** For every body, every accepted candidate at a token edge `p` and every view range that contains byte
      `k` of what the candidate decodes to: the range maps to source bytes that hold the four-letter group
      of that byte exactly when it goes on to the end of the decoded bytes or ends in a later group. */
  lemma GroupCoveredIff(src: seq<byte>, p: nat, d: seq<byte>, k: nat, x: nat, y: nat)
    requires p < |src| && TokenEdge(src, p)
    requires CandidateLen(src, p, |src|) > 0 && Replacement(src[p..p + CandidateLen(src, p, |src|)]) == Some(d)
    requires k < |d| && x <= DecodedBefore(src, p) + k < y <= |DecodedView(src)|
    ensures var o := DecodedBefore(src, p);
            Covers(GroupIdx(src), x, y, p + k / 3 * 4, p + k / 3 * 4 + 4) <==> y >= o + |d| || k / 3 < (y - o) / 3
  {
    hide Base64Step, Out, Idx, Tokenizer, PrefixStable, Boundary, Decode, MostlyPrintable, CandidateLen;
    var n, o := CandidateLen(src, p, |src|), DecodedBefore(src, p);
    Base64Tokens(src);
    CandidatesDecode(src, p, |src|);
    var t := AcceptedToken(src, p, d);
    Base64StepIsLocal(src);
    GroupStandsFor(n, d, k);
    StretchCoveredIff(Base64Step, src, p, t, k, k / 3 * 4 + 4, x, y);
    assert y < o + |d| ==> (t.offs[k] < t.offs[y - o] <==> k / 3 < (y - o) / 3);
  }

  lemma AcceptedToken(src: seq<byte>, p: nat, d: seq<byte>) returns (t: Token)
    requires p < |src| && CandidateLen(src, p, |src|) > 0
    requires Replacement(src[p..p + CandidateLen(src, p, |src|)]) == Some(d)
    ensures t == Token(CandidateLen(src, p, |src|), d, GroupOffsets(|d|)) == Base64Step(src, p, |src|)
  {
    t := Base64Step(src, p, |src|);
  }

  lemma GroupStandsFor(n: nat, d: seq<byte>, k: nat)
    requires k < |d| <= n / 4 * 3
    ensures StandsFor(Token(n, d, GroupOffsets(|d|)), k, k / 3 * 4 + 4)
  {
  }

  /** The same for the encoding of a text and a finding inside the recovered text: its byte `k` stays
      uncovered exactly when the finding ends strictly inside the byte's group, short of the end. */
  lemma {:induction false} EncodedGroupCoveredIff(pre: seq<byte>, text: seq<byte>, post: seq<byte>,
                                                  x: nat, y: nat, k: nat)
    requires |text| >= 12 && MostlyPrintable(text) && CannotExtend(text, post)
    requires pre == [] || !IsAlphabet(pre[|pre| - 1])
    requires x <= k < y <= |text|
    ensures var o := |DecodedView(pre)|;
            Covers(GroupIdx(pre + Encode(text) + post), o + x, o + y, |pre| + k / 3 * 4, |pre| + k / 3 * 4 + 4)
            <==> y == |text| || k / 3 < y / 3
  {
    hide Base64Step, Encode, MostlyPrintable, Out, Idx, Tokenizer, Boundary, Slides, CannotExtend, IsAlphabet,
         CandidateLen, Replacement;
    var enc := Encode(text);
    var src := pre + enc + post;
    Base64Tokens(src);
    Base64Tokens(pre);
    EncodedIsOneToken(pre, text, post);
    assert src[|pre|] == enc[0] && (|pre| > 0 ==> src[|pre| - 1] == pre[|pre| - 1]);
    assert src[|pre|..|pre| + |enc|] == enc;
    EdgeBeforeLetter(src, 0, |pre|);
    Base64Slides(pre, src, 0);
    SliceIsSource(Base64Step, pre, src, 0, 0);
    EncodedTextIsRecovered(pre, text, post);
    GroupCoveredIff(src, |pre|, text, k, |DecodedView(pre)| + x, |DecodedView(pre)| + y);
  }

  // ----- What the view holds: the two lemmas below and `NoRunNoChange` determine it on every source -----

  /** A candidate starts at `p` exactly when sixteen alphabet bytes do; fifteen are left alone. */
  lemma CandidateIffSixteen(src: seq<byte>, p: nat, q: nat)
    requires p <= q <= |src|
    ensures CandidateLen(src, p, q) > 0 <==> p + 16 <= q && forall j :: p <= j < p + 16 ==> IsAlphabet(src[j])
  {
    var r := RunEnd(src, p, q);
    if p + 16 <= q && r < p + 16 {
      assert !IsAlphabet(src[r]);
    }
  }

  /** The candidate is the whole run of alphabet bytes and the pads behind it, at most two. */
  lemma CandidateIsLongest(src: seq<byte>, p: nat, q: nat)
    requires p <= q <= |src| && CandidateLen(src, p, q) > 0
    ensures var e := p + CandidateLen(src, p, q);
            exists r :: p + 16 <= r <= e <= r + 2 && (forall j :: p <= j < r ==> IsAlphabet(src[j]))
                        && (forall j :: r <= j < e ==> src[j] == PAD)
                        && (r < q ==> !IsAlphabet(src[r])) && (e < q && e < r + 2 ==> src[e] != PAD)
  {
    var r, e := RunEnd(src, p, q), p + CandidateLen(src, p, q);
    assert e == r + PadsAt(src, r, q);
    assert forall j :: p <= j < r ==> IsAlphabet(src[j]);
    assert forall j :: r <= j < e ==> src[j] == PAD;
  }

  /** The first candidate is replaced by what it decodes to if its length is divisible by four and the result
      mostly printable, each byte standing for its group; otherwise it stays, each byte standing for itself.
      What precedes it stays, and the rest is decoded on its own. */
  lemma {:induction false} FirstCandidate(src: seq<byte>, p: nat)
    requires p < |src| && CandidateLen(src, p, |src|) > 0
    requires forall i :: 0 <= i < p ==> CandidateLen(src, i, |src|) == 0
    ensures var n := CandidateLen(src, p, |src|);
            var cand, rest, idx := src[p..p + n], DecodedView(src[p + n..]), GroupIdx(src);
            if n % 4 == 0 && Decode(cand).Some? && MostlyPrintable(Decode(cand).value) then
              var d := Decode(cand).value;
              && DecodedView(src) == src[..p] + d + rest
              && |idx| > p + |d| && forall j :: p <= j < p + |d| ==> idx[j] == p + (j - p) / 3 * 4
            else
              && DecodedView(src) == src[..p] + cand + rest
              && |idx| > p + n && forall j :: p <= j < p + n ==> idx[j] == j
  {
    hide Base64Step, CandidateLen, Decode, MostlyPrintable, Out, Idx, Tokenizer, PrefixStable, Slides;
    var n := CandidateLen(src, p, |src|);
    var rest := src[p + n..];
    Base64Tokens(src);
    Base64Tokens(rest);
    Base64StepIsLocal(src);
    Base64Slides(rest, src, p + n);
    CandidateIsToken(src, p);
    forall i | 0 <= i < p
      ensures Base64Step(src, i, |src|) == Verbatim(src[i])
    {
      PlainIsToken(src, i);
    }
    FirstToken(Base64Step, src, p, rest);
  }

  lemma CandidateIsToken(src: seq<byte>, p: nat)
    requires p < |src| && CandidateLen(src, p, |src|) > 0
    ensures var n := CandidateLen(src, p, |src|);
            Base64Step(src, p, |src|) == match Replacement(src[p..p + n])
                                         case Some(d) => Token(n, d, GroupOffsets(|d|))
                                         case None => Token(n, src[p..p + n], Identity(n))
  {
    hide CandidateLen, Replacement;
  }

  lemma PlainIsToken(src: seq<byte>, p: nat)
    requires p < |src| && CandidateLen(src, p, |src|) == 0
    ensures Base64Step(src, p, |src|) == Verbatim(src[p])
  {
  }

  /** Bytes that are no candidate, and those of a rejected one, stay, and every view range with one of them
      maps to source bytes that hold it. */
  lemma {:induction false} VerbatimCovered(src: seq<byte>, p: nat, k: nat, x: nat, y: nat)
    requires p < |src| && TokenEdge(src, p)
    requires var n := CandidateLen(src, p, |src|);
             if n == 0 then k == 0 else Replacement(src[p..p + n]) == None && k < n
    requires x <= DecodedBefore(src, p) + k < y <= |DecodedView(src)|
    ensures p + k < |src| && DecodedView(src)[DecodedBefore(src, p) + k] == src[p + k]
    ensures Covers(GroupIdx(src), x, y, p + k, p + k + 1)
  {
    hide Base64Step, Out, Idx, Tokenizer, PrefixStable, Boundary, Replacement, CandidateLen;
    var n, t, o := CandidateLen(src, p, |src|), Base64Step(src, p, |src|), DecodedBefore(src, p);
    Base64Tokens(src);
    Base64StepIsLocal(src);
    if n == 0 {
      PlainIsToken(src, p);
    } else {
      CandidateIsToken(src, p);
      StandsForItself(src[p..p + n], k);
    }
    assert t.out[k] == src[p + k] && t.offs[k] == k;
    ViewAroundToken(Base64Step, src, p, p + t.len, t);
    StretchCoveredIff(Base64Step, src, p, t, k, k + 1, x, y);
  }

  lemma StandsForItself(cand: seq<byte>, k: nat)
    requires k < |cand|
    ensures StandsFor(Token(|cand|, cand, Identity(|cand|)), k, k + 1)
  {
  }
}
