/** The sliding-window stream redactor. */
module Stream {
  import opened Findings
  import opened Mask
  import opened Cut

  // ----- Configuration ------------------------------------------------------------------------

  const DEFAULT_WINDOW: nat := 4096

  type Scan = seq<byte> -> seq<Finding>

  /** A redactor may be absent, and a present one may fail (`None`). */
  datatype Redactor = NoRedactor | Redactor(run: (seq<byte>, seq<Finding>) -> Option<seq<byte>>)

  datatype Config = Config(scan: Scan, redactor: Redactor, window: nat, maxBuffer: nat)

  /** Option defaulting: a non-positive window becomes 4096, and a ceiling that is not positive or is
      smaller than the window becomes four windows. */
  function NewConfig(scan: Scan, redactor: Redactor, window: int, maxBuffer: int): (c: Config)
    ensures c.window > 0 && c.maxBuffer >= c.window
    ensures c.window == if window > 0 then window else 4096
    ensures maxBuffer >= c.window ==> c.maxBuffer == maxBuffer
    ensures maxBuffer < c.window ==> c.maxBuffer == 4 * c.window
    ensures c.scan == scan && c.redactor == redactor
  {
    var w := if window <= 0 then DEFAULT_WINDOW else window;
    var m := if maxBuffer <= 0 || maxBuffer < w then 4 * w else maxBuffer;
    Config(scan, redactor, w, m)
  }

  /** The mask redactor as a configuration value; it never fails. */
  function MaskWith(ph: seq<byte>): Redactor {
    Redactor((data, fs) => Some(Masked(data, ValidRanges(fs, |data|), ph)))
  }

  // ----- The transition system ------------------------------------------------------------------

  /** How the destination takes a write: all of it, or only so many bytes before it fails. */
  datatype Sink = Accepts | StopsAfter(n: nat)

  datatype ReadEnd = More | Eof | Error

  /** What one call of `Read` delivers: some bytes, possibly none, and how the call ended. With it comes
      how the destination takes the writes that follow, the one of the prefix and the final one. */
  datatype Read = Read(data: seq<byte>, end: ReadEnd, sink: Sink := Accepts, lastSink: Sink := Accepts)

  /** The size of the read buffer, which bounds every delivery. */
  const READ_SIZE: nat := 32 * 1024

  datatype Status = Running | Done | Failed

  /** A prefix of the buffer that was redacted and written: the raw bytes, the findings handed to the
      redactor with them, and what was written. */
  datatype Emission = Emission(raw: seq<byte>, findings: seq<Finding>, out: seq<byte>)

  datatype State = State(buf: seq<byte>, dst: seq<byte>, log: seq<Emission>, status: Status)

  const INIT: State := State([], [], [], Running)

  function ApplyRedactor(cfg: Config, data: seq<byte>, fs: seq<Finding>): Option<seq<byte>> {
    if cfg.redactor.NoRedactor? || |fs| == 0 then Some(data) else cfg.redactor.run(data, fs)
  }

  lemma MaskOfNothing(data: seq<byte>, ph: seq<byte>)
    ensures Masked(data, ValidRanges([], |data|), ph) == data
  {
    RenderVerbatim(data, ValidRanges([], |data|), ph, 0, |data|);
  }

  lemma MaskApplied(cfg: Config, data: seq<byte>, fs: seq<Finding>, ph: seq<byte>)
    requires cfg.redactor == MaskWith(ph)
    ensures ApplyRedactor(cfg, data, fs) == Some(Masked(data, ValidRanges(fs, |data|), ph))
  {
    MaskOfNothing(data, ph);
  }

  /** How many bytes of `data` are flushed now; zero or less means none. */
  function CutPoint(cfg: Config, data: seq<byte>): int {
    if |data| <= cfg.window then 0
    else
      var pulled := PullBack(cfg.scan(data), |data| - cfg.window);
      if pulled <= 0 && |data| >= cfg.maxBuffer then |data| - cfg.window else pulled
  }

  /** The findings that end at or before `c`, in order. */
  function EndingBy(fs: seq<Finding>, c: int): seq<Finding> {
    if fs == [] then []
    else EndingBy(fs[..|fs| - 1], c) + (if fs[|fs| - 1].end <= c then [fs[|fs| - 1]] else [])
  }

  lemma EndingByNone(c: int)
    ensures EndingBy([], c) == []
  {
  }

  lemma EndingByNext(fs: seq<Finding>, i: nat, c: int)
    requires i < |fs|
    ensures EndingBy(fs[..i + 1], c) == EndingBy(fs[..i], c) + if fs[i].end <= c then [fs[i]] else []
  {
    assert fs[..i + 1][..i] == fs[..i];
  }

  /** Redacts and writes the first `c` bytes of the buffer. A write that fails may have left a part. */
  function Emit(cfg: Config, st: State, c: nat, fs: seq<Finding>, sink: Sink := Accepts): State
    requires c <= |st.buf|
  {
    match ApplyRedactor(cfg, st.buf[..c], fs)
    case None => st.(status := Failed)
    case Some(out) =>
      if sink.StopsAfter? then st.(dst := st.dst + Part(out, sink.n), status := Failed)
      else State(st.buf[c..], st.dst + out, st.log + [Emission(st.buf[..c], fs, out)], st.status)
  }

  /** The first `n` bytes, or all of them. */
  function Part(out: seq<byte>, n: nat): seq<byte> {
    if n < |out| then out[..n] else out
  }

  lemma CutPointInBuffer(cfg: Config, data: seq<byte>)
    ensures CutPoint(cfg, data) <= |data|
  {
    if |data| > cfg.window {
      PullBackAtMost(cfg.scan(data), |data| - cfg.window);
    }
  }

  function AfterFlush(cfg: Config, st: State, sink: Sink := Accepts): State {
    var c := CutPoint(cfg, st.buf);
    CutPointInBuffer(cfg, st.buf);
    if c <= 0 then st else Emit(cfg, st, c, EndingBy(cfg.scan(st.buf), c), sink)
  }

  function AfterFinal(cfg: Config, st: State, sink: Sink := Accepts): State {
    if |st.buf| == 0 then st else Emit(cfg, st, |st.buf|, cfg.scan(st.buf), sink)
  }

  /** One iteration of the pipe loop. */
  function Receive(cfg: Config, st: State, r: Read): State {
    if st.status != Running then st
    else
      var st1 := if |r.data| > 0 then AfterFlush(cfg, st.(buf := st.buf + r.data), r.sink) else st;
      if st1.status == Failed then st1
      else match r.end
        case More => st1
        case Eof =>
          var st2 := AfterFinal(cfg, st1, r.lastSink);
          if st2.status == Failed then st2 else st2.(status := Done)
        case Error => st1.(status := Failed)
  }

  /** The state after a script of reads. A script that stops short of `Eof` is a cancelled run. */
  function Run(cfg: Config, script: seq<Read>): State {
    if script == [] then INIT else Receive(cfg, Run(cfg, script[..|script| - 1]), script[|script| - 1])
  }

  /** The bytes taken from the source: reads after the run has stopped do not happen. */
  function Consumed(cfg: Config, script: seq<Read>): seq<byte> {
    if script == [] then []
    else
      var before := script[..|script| - 1];
      Consumed(cfg, before) + (if Run(cfg, before).status == Running then script[|script| - 1].data else [])
  }

  // ----- The imperative program -----------------------------------------------------------------

  class StreamProcessor {
    const cfg: Config
    var buf: seq<byte>
    var dst: seq<byte>
    ghost var log: seq<Emission>

    constructor (scan: Scan, redactor: Redactor, window: int, maxBuffer: int)
      ensures cfg == NewConfig(scan, redactor, window, maxBuffer)
      ensures Now(Running) == INIT
    {
      cfg := NewConfig(scan, redactor, window, maxBuffer);
      buf, dst, log := [], [], [];
    }

    ghost function Now(status: Status): State
      reads this
    {
      State(buf, dst, log, status)
    }

    method Apply(data: seq<byte>, findings: seq<Finding>) returns (out: Option<seq<byte>>)
      ensures out == ApplyRedactor(cfg, data, findings)
      ensures cfg.redactor.NoRedactor? || findings == [] ==> out == Some(data)
      ensures cfg.redactor.Redactor? && findings != [] ==> out == cfg.redactor.run(data, findings)
      ensures forall ph :: cfg.redactor == MaskWith(ph) ==> out == Some(Masked(data, ValidRanges(findings, |data|), ph))
    {
      hide Masked, ValidRanges;
      forall ph | cfg.redactor == MaskWith(ph)
        ensures ApplyRedactor(cfg, data, findings) == Some(Masked(data, ValidRanges(findings, |data|), ph))
      {
        MaskApplied(cfg, data, findings, ph);
      }
      if cfg.redactor.NoRedactor? || |findings| == 0 {
        return Some(data);
      }
      out := cfg.redactor.run(data, findings);
    }

    /** Writes to the destination, as far as it takes the bytes. */
    method Write(out: seq<byte>, sink: Sink) returns (ok: bool)
      modifies this`dst
      ensures ok == sink.Accepts?
      ensures old(dst) <= dst <= old(dst) + out && (ok ==> dst == old(dst) + out)
      ensures dst == old(dst) + if sink.Accepts? then out else Part(out, sink.n)
    {
      match sink
      case Accepts =>
        dst := dst + out;
        ok := true;
      case StopsAfter(n) =>
        dst := dst + Part(out, n);
        ok := false;
    }

    method FlushPrefix(sink: Sink) returns (ok: bool)
      modifies this
      ensures Now(if ok then Running else Failed) == AfterFlush(cfg, old(Now(Running)), sink)
    {
      hide ApplyRedactor, PullBack, EndingBy;
      var data := buf;
      CutPointInBuffer(cfg, data);
      if |data| <= cfg.window {
        return true;
      }
      var flushable: int := |data| - cfg.window;
      var findings := cfg.scan(data);
      assert findings[0..] == findings;
      for i := 0 to |findings|
        invariant Now(Running) == old(Now(Running))
        invariant PullBack(findings, |data| - cfg.window) == PullBack(findings[i..], flushable)
      {
        var f := findings[i];
        PullBackNext(findings, i, flushable);
        if f.start < flushable && f.end > flushable {
          flushable := f.start;
        }
      }
      PullBackEnd(findings, flushable);
      if flushable <= 0 && |data| >= cfg.maxBuffer {
        flushable := |data| - cfg.window;
      }
      if flushable <= 0 {
        return true;
      }
      var emit := [];
      EndingByNone(flushable);
      for i := 0 to |findings|
        invariant Now(Running) == old(Now(Running))
        invariant emit == EndingBy(findings[..i], flushable)
      {
        EndingByNext(findings, i, flushable);
        if findings[i].end <= flushable {
          emit := emit + [findings[i]];
        }
      }
      assert findings[..|findings|] == findings;
      assert CutPoint(cfg, data) == flushable && emit == EndingBy(cfg.scan(data), flushable);
      var out := Apply(data[..flushable], emit);
      if out.None? {
        return false;
      }
      ok := Write(out.value, sink);
      if !ok {
        return false;
      }
      log := log + [Emission(data[..flushable], emit, out.value)];
      buf := data[flushable..];
      return true;
    }

    method FlushFinal(sink: Sink) returns (ok: bool)
      modifies this
      ensures Now(if ok then Running else Failed) == AfterFinal(cfg, old(Now(Running)), sink)
    {
      if |buf| == 0 {
        return true;
      }
      var findings := cfg.scan(buf);
      var out := Apply(buf, findings);
      if out.None? {
        assert buf[..|buf|] == buf;
        return false;
      }
      assert buf[..|buf|] == buf;
      ok := Write(out.value, sink);
      if !ok {
        return false;
      }
      log := log + [Emission(buf, findings, out.value)];
      buf := [];
      return true;
    }

    /** Pipes a script of reads; running out of script stands for cancellation between two reads. */
    method Pipe(script: seq<Read>) returns (status: Status)
      requires Now(Running) == INIT
      modifies this
      ensures Now(status) == Run(cfg, script)
    {
      status := Running;
      for i := 0 to |script|
        invariant Now(status) == Run(cfg, script[..i])
      {
        assert script[..i + 1][..i] == script[..i];
        if status == Running {
          var r := script[i];
          var ok := true;
          if |r.data| > 0 {
            buf := buf + r.data;
            ok := FlushPrefix(r.sink);
          }
          if !ok {
            status := Failed;
          } else if r.end == Eof {
            ok := FlushFinal(r.lastSink);
            status := if ok then Done else Failed;
          } else if r.end == Error {
            status := Failed;
          }
        }
      }
      assert script[..|script|] == script;
    }
  }
}
