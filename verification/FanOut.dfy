/** Running every scanner on a body concurrently and collecting the results in scanner order. */
module FanOut {
  import opened Findings

  /** What one scanner returns: findings, and errors if it failed. */
  datatype ScanOut = ScanOut(findings: seq<Finding>, errs: seq<string>)

  /** A scanner, and whether it wants to see transformed views of the body. */
  datatype Scanner = Scanner(run: seq<byte> -> ScanOut, acceptsTransforms: bool)

  const NOTHING: ScanOut := ScanOut([], [])

  function Join(x: ScanOut, y: ScanOut): ScanOut {
    ScanOut(x.findings + y.findings, x.errs + y.errs)
  }

  /** The results of the first `n` scanners, concatenated in scanner order. */
  function InOrder(scanners: seq<Scanner>, data: seq<byte>, n: nat): ScanOut
    requires n <= |scanners|
  {
    if n == 0 then NOTHING else Join(InOrder(scanners, data, n - 1), scanners[n - 1].run(data))
  }

  function ScanAll(scanners: seq<Scanner>, data: seq<byte>): ScanOut {
    if |data| == 0 || |scanners| == 0 then NOTHING else InOrder(scanners, data, |scanners|)
  }

  // ----- The goroutines as interleaved steps ----------------------------------------------------

  /** Where a goroutine is: about to scan, holding its result, or done. */
  datatype Task = Waiting | Holding(result: ScanOut) | Stored

  datatype State = State(tasks: seq<Task>, slots: seq<Option<ScanOut>>)

  function Start(n: nat): State {
    State(seq(n, _ => Waiting), seq(n, _ => None))
  }

  /** Goroutine `i` takes its next step; a finished one has none. */
  function Step(scanners: seq<Scanner>, data: seq<byte>, st: State, i: nat): State
    requires |st.tasks| == |st.slots| == |scanners|
  {
    if i >= |scanners| then st
    else match st.tasks[i]
      case Waiting => st.(tasks := st.tasks[i := Holding(scanners[i].run(data))])
      case Holding(r) => State(st.tasks[i := Stored], st.slots[i := Some(r)])
      case Stored => st
  }

  /** The state after a schedule, a list of which goroutine moves next. */
  function Play(scanners: seq<Scanner>, data: seq<byte>, schedule: seq<nat>): (st: State)
    ensures |st.tasks| == |st.slots| == |scanners|
  {
    if schedule == [] then Start(|scanners|)
    else Step(scanners, data, Play(scanners, data, schedule[..|schedule| - 1]), schedule[|schedule| - 1])
  }

  /** The wait group has reached zero. */
  predicate AllStored(st: State) {
    forall i :: 0 <= i < |st.tasks| ==> st.tasks[i] == Stored
  }

  function Turns(schedule: seq<nat>, i: nat): nat {
    if schedule == [] then 0
    else Turns(schedule[..|schedule| - 1], i) + if schedule[|schedule| - 1] == i then 1 else 0
  }

  /** Each of the first `n` goroutines gets to take its two steps. */
  ghost predicate Fair(schedule: seq<nat>, n: nat) {
    forall i :: 0 <= i < n ==> Turns(schedule, i) >= 2
  }

  /** A goroutine's progress depends only on how many turns it had, and only its own slot is its to fill. */
  lemma {:induction false} ProgressByTurns(scanners: seq<Scanner>, data: seq<byte>, schedule: seq<nat>, i: nat)
    requires i < |scanners|
    ensures var st, r := Play(scanners, data, schedule), scanners[i].run(data);
            match Turns(schedule, i)
            case 0 => st.tasks[i] == Waiting && st.slots[i] == None
            case 1 => st.tasks[i] == Holding(r) && st.slots[i] == None
            case _ => st.tasks[i] == Stored && st.slots[i] == Some(r)
  {
    if schedule != [] {
      ProgressByTurns(scanners, data, schedule[..|schedule| - 1], i);
    }
  }

  /** The wait ends exactly when every goroutine has had its two turns. */
  lemma WaitEndsIff(scanners: seq<Scanner>, data: seq<byte>, schedule: seq<nat>)
    ensures AllStored(Play(scanners, data, schedule)) <==> Fair(schedule, |scanners|)
  {
    var st := Play(scanners, data, schedule);
    forall i | 0 <= i < |scanners|
      ensures st.tasks[i] == Stored <==> Turns(schedule, i) >= 2
    {
      ProgressByTurns(scanners, data, schedule, i);
    }
    assert |st.tasks| == |scanners|;
    if Fair(schedule, |scanners|) {
    } else {
      var i :| 0 <= i < |scanners| && Turns(schedule, i) < 2;
      assert st.tasks[i] != Stored;
      assert !AllStored(st);
    }
  }

  /** Collects the slots in order, skipping none. */
  function Collect(slots: seq<Option<ScanOut>>): ScanOut
    requires forall i :: 0 <= i < |slots| ==> slots[i].Some?
  {
    if slots == [] then NOTHING else Join(Collect(slots[..|slots| - 1]), slots[|slots| - 1].value)
  }

  lemma {:induction false} CollectIsInOrder(scanners: seq<Scanner>, data: seq<byte>, slots: seq<Option<ScanOut>>)
    requires |slots| <= |scanners| && forall i :: 0 <= i < |slots| ==> slots[i] == Some(scanners[i].run(data))
    ensures Collect(slots) == InOrder(scanners, data, |slots|)
  {
    if slots != [] {
      CollectIsInOrder(scanners, data, slots[..|slots| - 1]);
    }
  }

  /** Under every schedule that lets the wait end, what is collected is the scanner-order result. */
  lemma EverySchedule(scanners: seq<Scanner>, data: seq<byte>, schedule: seq<nat>)
    requires AllStored(Play(scanners, data, schedule))
    ensures var slots := Play(scanners, data, schedule).slots;
            && (forall i :: 0 <= i < |slots| ==> slots[i].Some?)
            && Collect(slots) == InOrder(scanners, data, |scanners|)
  {
    var st := Play(scanners, data, schedule);
    forall i | 0 <= i < |st.slots|
      ensures st.slots[i] == Some(scanners[i].run(data))
    {
      ProgressByTurns(scanners, data, schedule, i);
    }
    CollectIsInOrder(scanners, data, st.slots);
  }

  /** The fan-out: `schedule` is the scheduler's choice, long enough for the wait to end. */
  method ScanWith(scanners: seq<Scanner>, data: seq<byte>, schedule: seq<nat>) returns (out: ScanOut)
    requires Fair(schedule, |scanners|)
    ensures out == ScanAll(scanners, data)
  {
    if |data| == 0 || |scanners| == 0 {
      return NOTHING;
    }
    var st := Start(|scanners|);
    for n := 0 to |schedule|
      invariant st == Play(scanners, data, schedule[..n])
    {
      assert schedule[..n + 1][..n] == schedule[..n];
      st := Step(scanners, data, st, schedule[n]);
    }
    assert schedule[..|schedule|] == schedule;
    WaitEndsIff(scanners, data, schedule);
    EverySchedule(scanners, data, schedule);
    out := NOTHING;
    for i := 0 to |st.slots|
      invariant out == Collect(st.slots[..i])
    {
      assert st.slots[..i + 1][..i] == st.slots[..i];
      out := Join(out, st.slots[i].value);
    }
    assert st.slots[..|st.slots|] == st.slots;
  }

  // ----- What the scanner-order result is ------------------------------------------------------------

  /** One scanner on a body that is not empty: its own findings and errors. */
  lemma OneScanner(s: Scanner, data: seq<byte>)
    ensures data != [] ==> ScanAll([s], data).findings == s.run(data).findings
    ensures data != [] ==> ScanAll([s], data).errs == s.run(data).errs
    ensures data == [] ==> ScanAll([s], data) == ScanOut([], [])
  {
    assert InOrder([s], data, 0) == NOTHING;
    assert InOrder([s], data, 1) == Join(NOTHING, s.run(data));
  }

  /** Two lists of scanners one after the other: the findings of the first, then those of the second, and
      the errors likewise. */
  lemma ScannersInParts(a: seq<Scanner>, b: seq<Scanner>, data: seq<byte>)
    ensures ScanAll(a + b, data).findings == ScanAll(a, data).findings + ScanAll(b, data).findings
    ensures ScanAll(a + b, data).errs == ScanAll(a, data).errs + ScanAll(b, data).errs
  {
    hide InOrder;
    InOrderInParts(a, b, data, 0);
    InOrderInParts(a, b, data, |b|);
    NoScanners(a, data);
    NoScanners(b, data);
    NoScanners(a + b, data);
  }

  lemma NoScanners(scanners: seq<Scanner>, data: seq<byte>)
    ensures InOrder(scanners, data, 0) == NOTHING
  {
  }

  lemma {:induction false} InOrderInParts(a: seq<Scanner>, b: seq<Scanner>, data: seq<byte>, n: nat)
    requires n <= |b|
    ensures var all, left, right := InOrder(a + b, data, |a| + n), InOrder(a, data, |a|), InOrder(b, data, n);
            all.findings == left.findings + right.findings && all.errs == left.errs + right.errs
  {
    if n == 0 {
      InOrderOfFront(a, b, data, |a|);
    } else {
      InOrderInParts(a, b, data, n - 1);
      assert (a + b)[|a| + n - 1] == b[n - 1];
    }
  }

  lemma {:induction false} InOrderOfFront(a: seq<Scanner>, b: seq<Scanner>, data: seq<byte>, n: nat)
    requires n <= |a|
    ensures InOrder(a + b, data, n) == InOrder(a, data, n)
  {
    if n > 0 {
      InOrderOfFront(a, b, data, n - 1);
    }
  }

  /** A finding is in the result exactly when some scanner reports it. */
  lemma {:induction false} FoundIff(scanners: seq<Scanner>, data: seq<byte>, f: Finding)
    ensures data != [] ==>
              (f in ScanAll(scanners, data).findings
               <==> exists i :: 0 <= i < |scanners| && f in scanners[i].run(data).findings)
  {
    if data != [] && scanners != [] {
      FoundUpToIff(scanners, data, f, |scanners|);
    }
  }

  lemma {:induction false} FoundUpToIff(scanners: seq<Scanner>, data: seq<byte>, f: Finding, n: nat)
    requires n <= |scanners|
    ensures f in InOrder(scanners, data, n).findings
            <==> exists i :: 0 <= i < n && f in scanners[i].run(data).findings
  {
    if n > 0 {
      FoundUpToIff(scanners, data, f, n - 1);
    }
  }
}
