/**
  The monotonic uptime clock of src/UptimeClock.cpp: one writer publishes 64-bit uptimes as
  (high, low) pairs in two alternating slots, any number of readers copy the current slot and
  extend it with the wrapping 32-bit millisecond counter.

  `World` holds the shared atomics and the program counters of every thread; each atomic load and
  store is one `Step`, so every interleaving is a sequence of steps. `log` and `answers` are history
  variables: no step's effect on the other fields depends on them.
*/
module UptimeClock {
  import opened Words

  /** A published uptime, stored as two 32-bit words. */
  datatype Snapshot = Snapshot(high: u32, low: u32)

  function Split(v: u64): Snapshot {
    Snapshot(v / TWO_32, v % TWO_32)
  }

  /** Unsigned subtraction wraps at 32 bits, the sum at 64. */
  function ExtendPublished(high: u32, low: u32, now: u32): (r: u64) {
    (high * TWO_32 + low + (now - low) % TWO_32) % TWO_64
  }

  /** Extending a published uptime to the present gives the true uptime exactly when the snapshot
      is less than one counter wrap old (and the true uptime fits 64 bits). */
  lemma ExtendIsExact(published: u64, now: nat)
    requires published <= now
    ensures var s := Split(published);
            ExtendPublished(s.high, s.low, now % TWO_32) == now <==> now - published < TWO_32 && now < TWO_64
  {
    var s := Split(published);
    var gap := (now % TWO_32 - s.low) % TWO_32;
    assert gap == (now - published) % TWO_32 by { DifferenceMod(now, published); }
    assert s.high * TWO_32 + s.low == published;
  }

  lemma DifferenceMod(a: nat, b: nat)
    ensures (a % TWO_32 - b % TWO_32) % TWO_32 == (a - b) % TWO_32
  {
    var k := a / TWO_32 - b / TWO_32;
    assert a - b == (a % TWO_32 - b % TWO_32) + k * TWO_32;
  }

  // ---------------------------------------------------------------- threads and steps

  /** Program counter and locals of the one writer, `Time::serviceMonotonic`. `at` is the true
      uptime when the writer read the clock. */
  datatype Writer =
    | Idle
    | LoadedGeneration(g: u32)
    | LoadedLow(g: u32, low: u32)
    | LoadedBoth(g: u32, low: u32, high: u32)
    | Extended(g: u32, next: u64, at: nat)
    | StoredHigh(g: u32, next: u64, at: nat)
    | StoredBoth(g: u32, next: u64, at: nat)

  /** Program counter and locals of a reader in `Time::getMillisMonotonic`. `index` is the position
      in the log of the publication that was current when the reader loaded the generation. */
  datatype Reader =
    | LoopHead
    | HasGeneration(before: u32, index: nat)
    | HasHigh(before: u32, index: nat, high: u32)
    | HasBoth(before: u32, index: nat, high: u32, low: u32)
    | Accepted(index: nat, high: u32, low: u32)

  /** A completed publish: the value written and the true uptime at the writer's clock read. */
  datatype Publication = Publication(value: u64, at: nat)

  /** A completed `getMillisMonotonic`: who asked, the true uptime at its clock read, the result. */
  datatype Answer = Answer(reader: nat, at: nat, ms: u64)

  type Slots = s: seq<Snapshot> | |s| == 2 witness [Snapshot(0, 0), Snapshot(0, 0)]

  datatype World = World(
    published: Slots,
    generation: u32,
    now: nat,
    writer: Writer,
    readers: seq<Reader>,
    log: seq<Publication>,
    answers: seq<Answer>)

  datatype Step = Tick(elapsed: nat) | Service | Read(reader: nat)

  function Boot(readers: nat): World {
    World([Snapshot(0, 0), Snapshot(0, 0)], 0, 0, Idle, seq(readers, _ => LoopHead), [Publication(0, 0)], [])
  }

  function ServiceStep(w: World): World {
    match w.writer
    case Idle => w.(writer := LoadedGeneration(w.generation))
    case LoadedGeneration(g) => w.(writer := LoadedLow(g, w.published[g % 2].low))
    case LoadedLow(g, low) => w.(writer := LoadedBoth(g, low, w.published[g % 2].high))
    case LoadedBoth(g, low, high) =>
      w.(writer := Extended(g, ExtendPublished(high, low, w.now % TWO_32), w.now))
    case Extended(g, next, at) =>
      var i := (g + 1) % 2;
      w.(published := w.published[i := w.published[i].(high := Split(next).high)], writer := StoredHigh(g, next, at))
    case StoredHigh(g, next, at) =>
      var i := (g + 1) % 2;
      w.(published := w.published[i := w.published[i].(low := Split(next).low)], writer := StoredBoth(g, next, at))
    case StoredBoth(g, next, at) =>
      w.(generation := (g + 1) % TWO_32, writer := Idle, log := w.log + [Publication(next, at)])
  }

  function ReadStep(w: World, r: nat): World
    requires r < |w.readers| && |w.log| > 0
  {
    match w.readers[r]
    case LoopHead => w.(readers := w.readers[r := HasGeneration(w.generation, |w.log| - 1)])
    case HasGeneration(b, i) => w.(readers := w.readers[r := HasHigh(b, i, w.published[b % 2].high)])
    case HasHigh(b, i, high) => w.(readers := w.readers[r := HasBoth(b, i, high, w.published[b % 2].low)])
    case HasBoth(b, i, high, low) =>
      w.(readers := w.readers[r := if w.generation == b then Accepted(i, high, low) else LoopHead])
    case Accepted(_, high, low) =>
      w.(readers := w.readers[r := LoopHead],
         answers := w.answers + [Answer(r, w.now, ExtendPublished(high, low, w.now % TWO_32))])
  }

  function Next(w: World, step: Step): (w': World)
    requires |w.log| > 0
    ensures |w'.log| > 0
  {
    match step
    case Tick(elapsed) => w.(now := w.now + elapsed)
    case Service => ServiceStep(w)
    case Read(r) => if r < |w.readers| then ReadStep(w, r) else w
  }

  function Run(w: World, steps: seq<Step>): (w': World)
    requires |w.log| > 0
    ensures |w'.log| > 0
    decreases |steps|
  {
    if steps == [] then w
    else Next(Run(w, steps[..|steps| - 1]), steps[|steps| - 1])
  }

  // ---------------------------------------------------------------- no torn snapshot

  /** The 32-bit generation does not come full circle while one reader copies a snapshot. */
  ghost predicate NoLap(w: World, step: Step) {
    step.Read? && step.reader < |w.readers| && w.readers[step.reader].HasBoth?
    ==> |w.log| - 1 - w.readers[step.reader].index < TWO_32
  }

  ghost predicate NoLapRun(w: World, steps: seq<Step>)
    requires |w.log| > 0
    decreases |steps|
  {
    steps != [] ==>
      NoLapRun(w, steps[..|steps| - 1]) && NoLap(Run(w, steps[..|steps| - 1]), steps[|steps| - 1])
  }

  ghost predicate WriterOk(w: World)
    requires |w.log| > 0
  {
    var active := w.published[w.generation % 2];
    var inactive := w.published[(w.generation + 1) % 2];
    match w.writer
    case Idle => true
    case LoadedGeneration(g) => g == w.generation
    case LoadedLow(g, low) => g == w.generation && low == active.low
    case LoadedBoth(g, low, high) => g == w.generation && Snapshot(high, low) == active
    case Extended(g, next, at) => g == w.generation
    case StoredHigh(g, next, at) => g == w.generation && inactive.high == Split(next).high
    case StoredBoth(g, next, at) => g == w.generation && inactive == Split(next)
  }

  /** While a reader copies, the words it holds belong to its publication, as long as that
      publication is still the newest; once accepted, they belong to it for good. */
  ghost predicate ReaderOk(w: World, r: nat)
    requires r < |w.readers| && |w.log| > 0
  {
    var newest := |w.log| - 1;
    match w.readers[r]
    case LoopHead => true
    case HasGeneration(b, i) => i <= newest && b == i % TWO_32
    case HasHigh(b, i, high) => i <= newest && b == i % TWO_32 && (i == newest ==> high == Split(w.log[i].value).high)
    case HasBoth(b, i, high, low) =>
      i <= newest && b == i % TWO_32 && (i == newest ==> Snapshot(high, low) == Split(w.log[i].value))
    case Accepted(i, high, low) => i <= newest && Snapshot(high, low) == Split(w.log[i].value)
  }

  /** The current slot always holds the newest publication. */
  ghost predicate Untorn(w: World) {
    && |w.log| > 0
    && w.generation == (|w.log| - 1) % TWO_32
    && w.published[w.generation % 2] == Split(w.log[|w.log| - 1].value)
    && WriterOk(w)
    && forall r :: 0 <= r < |w.readers| ==> ReaderOk(w, r)
  }

  lemma TickKeepsUntorn(w: World, elapsed: nat)
    requires Untorn(w)
    ensures Untorn(Next(w, Tick(elapsed)))
  {
    var w' := Next(w, Tick(elapsed));
    forall r | 0 <= r < |w'.readers| ensures ReaderOk(w', r) {
      assert ReaderOk(w, r);
    }
  }

  lemma ServiceKeepsUntorn(w: World)
    requires Untorn(w)
    ensures Untorn(ServiceStep(w))
  {
    var w' := ServiceStep(w);
    forall r | 0 <= r < |w'.readers| ensures ReaderOk(w', r) {
      assert ReaderOk(w, r);
    }
  }

  lemma ReadKeepsUntorn(w: World, r: nat)
    requires Untorn(w) && r < |w.readers| && NoLap(w, Read(r))
    ensures Untorn(ReadStep(w, r))
  {
    var w' := ReadStep(w, r);
    forall q | 0 <= q < |w'.readers| ensures ReaderOk(w', q) {
      assert ReaderOk(w, q) && ReaderOk(w, r);
      if q == r && w.readers[r].HasBoth? && w'.readers[r].Accepted? {
        SameResidue(w.readers[r].index, |w.log| - 1);
      }
    }
  }

  lemma SameResidue(i: nat, j: nat)
    requires i <= j && j - i < TWO_32 && i % TWO_32 == j % TWO_32
    ensures i == j
  {
  }

  /** Under every interleaving, every pair that `readPublished` hands back is one complete pair that
      the writer published earlier. */
  lemma {:induction false} NoTornSnapshot(readers: nat, steps: seq<Step>)
    requires NoLapRun(Boot(readers), steps)
    ensures var w := Run(Boot(readers), steps);
            Untorn(w) &&
            forall r :: 0 <= r < |w.readers| && w.readers[r].Accepted? ==>
              w.readers[r].index < |w.log| &&
              Snapshot(w.readers[r].high, w.readers[r].low) == Split(w.log[w.readers[r].index].value)
    decreases |steps|
  {
    if steps != [] {
      var before := steps[..|steps| - 1];
      NoTornSnapshot(readers, before);
      var w := Run(Boot(readers), before);
      match steps[|steps| - 1]
      case Tick(elapsed) => TickKeepsUntorn(w, elapsed);
      case Service => ServiceKeepsUntorn(w);
      case Read(r) => if r < |w.readers| { ReadKeepsUntorn(w, r); }
    }
    var w := Run(Boot(readers), steps);
    forall r | 0 <= r < |w.readers| && w.readers[r].Accepted?
      ensures w.readers[r].index < |w.log| &&
              Snapshot(w.readers[r].high, w.readers[r].low) == Split(w.log[w.readers[r].index].value)
    {
      assert ReaderOk(w, r);
    }
  }

  /** A reader only repeats its copy when a publish completed during it: a paused publish never
      makes a reader wait. */
  lemma RetryMeansPublished(w: World, r: nat)
    requires Untorn(w) && r < |w.readers| && w.readers[r].HasBoth?
    requires ReadStep(w, r).readers[r].LoopHead?
    ensures w.readers[r].index < |w.log| - 1
  {
    assert ReaderOk(w, r);
  }

  // ---------------------------------------------------------------- exact, monotonic uptime

  /** Every clock read extends a snapshot less than one wrap (49.7 days) old: the contract that
      `serviceMonotonic` runs at least once per wrap, with the uptime itself inside 64 bits. */
  ghost predicate Fresh(w: World, step: Step)
    requires Untorn(w)
  {
    match step
    case Tick(_) => true
    case Service => w.writer.LoadedBoth? ==> w.now - w.log[|w.log| - 1].at < TWO_32 && w.now < TWO_64
    case Read(r) =>
      r < |w.readers| && w.readers[r].Accepted? ==>
        assert ReaderOk(w, r);
        w.now - w.log[w.readers[r].index].at < TWO_32 && w.now < TWO_64
  }

  ghost predicate FreshRun(readers: nat, steps: seq<Step>)
    requires NoLapRun(Boot(readers), steps)
    decreases |steps|
  {
    steps != [] ==>
      var before := steps[..|steps| - 1];
      NoTornSnapshot(readers, before);
      FreshRun(readers, before) && Fresh(Run(Boot(readers), before), steps[|steps| - 1])
  }

  /** The value being published is the true uptime at its clock read, not before the newest one. */
  ghost predicate PendingExact(w: World)
    requires |w.log| > 0
  {
    w.writer.Extended? || w.writer.StoredHigh? || w.writer.StoredBoth? ==>
      w.writer.next == w.writer.at && w.log[|w.log| - 1].at <= w.writer.at <= w.now
  }

  ghost predicate Exact(w: World) {
    && |w.log| > 0
    && PendingExact(w)
    && (forall i :: 0 <= i < |w.log| ==> w.log[i].value == w.log[i].at && w.log[i].at <= w.now)
    && (forall i, j :: 0 <= i <= j < |w.log| ==> w.log[i].at <= w.log[j].at)
    && (forall i :: 0 <= i < |w.answers| ==> w.answers[i].ms == w.answers[i].at && w.answers[i].at <= w.now)
    && (forall i, j :: 0 <= i <= j < |w.answers| ==> w.answers[i].at <= w.answers[j].at)
  }

  lemma ServiceKeepsExact(w: World)
    requires Untorn(w) && Exact(w) && Fresh(w, Service)
    ensures Exact(ServiceStep(w))
  {
    if w.writer.LoadedBoth? {
      ExtendIsExact(w.log[|w.log| - 1].value, w.now);
    }
  }

  lemma ReadKeepsExact(w: World, r: nat)
    requires Untorn(w) && Exact(w) && r < |w.readers| && Fresh(w, Read(r))
    ensures Exact(ReadStep(w, r))
  {
    if w.readers[r].Accepted? {
      assert ReaderOk(w, r);
      ExtendIsExact(w.log[w.readers[r].index].value, w.now);
    }
  }

  lemma NextKeepsExact(w: World, step: Step)
    requires Untorn(w) && Exact(w) && Fresh(w, step)
    ensures Exact(Next(w, step))
  {
    match step
    case Tick(_) =>
    case Service => ServiceKeepsExact(w);
    case Read(r) => if r < |w.readers| { ReadKeepsExact(w, r); }
  }

  /** Over every interleaving whose clock reads are fresh, across any number of counter wraps: each
      published value is the true uptime at the writer's clock read, each `getMillisMonotonic` is
      the true uptime at the reader's, and later answers are never smaller than earlier ones. */
  lemma {:induction false} MonotonicTimeIsExact(readers: nat, steps: seq<Step>)
    requires NoLapRun(Boot(readers), steps) && FreshRun(readers, steps)
    ensures var w := Run(Boot(readers), steps);
            && Exact(w)
            && (forall i :: 0 <= i < |w.log| ==> w.log[i].value == w.log[i].at)
            && (forall i :: 0 <= i < |w.answers| ==> w.answers[i].ms == w.answers[i].at)
            && (forall i, j :: 0 <= i <= j < |w.answers| ==> w.answers[i].ms <= w.answers[j].ms)
    decreases |steps|
  {
    if steps != [] {
      var before := steps[..|steps| - 1];
      MonotonicTimeIsExact(readers, before);
      NoTornSnapshot(readers, before);
      NextKeepsExact(Run(Boot(readers), before), steps[|steps| - 1]);
    }
  }

  /** `Time::getUptimeSecs` for a given `getMillisMonotonic` result. */
  function UptimeSecs(ms: u64): (secs: u32) {
    ms / 1000 % TWO_32
  }

  /** Whole seconds since boot: an answer is the true second count exactly while that count fits 32
      bits (136 years), and up to then the answers never decrease. */
  lemma UptimeSecsIsExact(readers: nat, steps: seq<Step>)
    requires NoLapRun(Boot(readers), steps) && FreshRun(readers, steps)
    ensures var w := Run(Boot(readers), steps);
            && (forall i :: 0 <= i < |w.answers| ==>
                  (UptimeSecs(w.answers[i].ms) == w.answers[i].at / 1000 <==> w.answers[i].at / 1000 < TWO_32))
            && (forall i, j :: 0 <= i <= j < |w.answers| && w.answers[j].at / 1000 < TWO_32 ==>
                  UptimeSecs(w.answers[i].ms) <= UptimeSecs(w.answers[j].ms))
  {
    MonotonicTimeIsExact(readers, steps);
    SecsOfAnswers(Run(Boot(readers), steps).answers);
  }

  lemma SecsOfAnswers(answers: seq<Answer>)
    requires forall i :: 0 <= i < |answers| ==> answers[i].ms == answers[i].at
    requires forall i, j :: 0 <= i <= j < |answers| ==> answers[i].ms <= answers[j].ms
    ensures forall i :: 0 <= i < |answers| ==>
              (UptimeSecs(answers[i].ms) == answers[i].at / 1000 <==> answers[i].at / 1000 < TWO_32)
    ensures forall i, j :: 0 <= i <= j < |answers| && answers[j].at / 1000 < TWO_32 ==>
              UptimeSecs(answers[i].ms) <= UptimeSecs(answers[j].ms)
  {
  }

  // ---------------------------------------------------------------- the code, uninterrupted

  /** The clock's shared variables as the firmware holds them, with both entry points run without
      interference. `ServiceStepsAreService` ties the writer to the step machine above. */
  class Clock {
    const published: array<Snapshot>
    var generation: u32

    constructor ()
      ensures fresh(published) && published.Length == 2
      ensures published[..] == [Snapshot(0, 0), Snapshot(0, 0)] == Boot(0).published && generation == 0
    {
      published := new Snapshot[2](_ => Snapshot(0, 0));
      generation := 0;
    }

    method ServiceMonotonic(millis: u32)
      requires published.Length == 2
      modifies this, published
      ensures (published[..], generation) == Published(old(published[..]), old(generation), millis)
    {
      var g := generation;
      var active := published[g % 2];
      var low := active.low;
      var high := active.high;
      var next := ExtendPublished(high, low, millis);
      var i := (g + 1) % 2;
      published[i] := published[i].(high := next / TWO_32);
      published[i] := published[i].(low := next % TWO_32);
      generation := (g + 1) % TWO_32;
      assert published[..] == old(published[..])[i := Split(next)];
    }

    method GetMillisMonotonic(millis: u32) returns (ms: u64)
      requires published.Length == 2
      ensures var s := published[generation % 2]; ms == ExtendPublished(s.high, s.low, millis)
    {
      var before := generation;
      var high := published[before % 2].high;
      var low := published[before % 2].low;
      ms := ExtendPublished(high, low, millis);
    }
  }

  /** One publish: the active slot is left alone, the other takes the extended uptime and becomes
      the active one. */
  function Published(published: Slots, generation: u32, millis: u32): (r: (Slots, u32))
    ensures r.0[generation % 2] == published[generation % 2]
    ensures r.1 % 2 != generation % 2
  {
    var active := published[generation % 2];
    var next := ExtendPublished(active.high, active.low, millis);
    (published[(generation + 1) % 2 := Split(next)], (generation + 1) % TWO_32)
  }

  /** Seven uninterrupted writer steps are one publish, and change nothing but the shared variables
      and the log. */
  lemma ServiceStepsAreService(w: World)
    requires Untorn(w) && w.writer.Idle?
    ensures var (published, generation) := Published(w.published, w.generation, w.now % TWO_32);
            var s := w.published[w.generation % 2];
            var computed := ServiceStep(ServiceStep(ServiceStep(ServiceStep(w))));
            ServiceStep(ServiceStep(ServiceStep(computed))) ==
              w.(published := published, generation := generation,
                 log := w.log + [Publication(ExtendPublished(s.high, s.low, w.now % TWO_32), w.now)])
  {
    var active := w.published[w.generation % 2];
    assert ServiceStep(ServiceStep(ServiceStep(w))) ==
           w.(writer := LoadedBoth(w.generation, active.low, active.high));
    var next := ExtendPublished(active.high, active.low, w.now % TWO_32);
    var w4 := w.(writer := Extended(w.generation, next, w.now));
    assert ServiceStep(ServiceStep(w4)).published == w.published[(w.generation + 1) % 2 := Split(next)];
  }

  // ---------------------------------------------------------------- reads end

  /** Five uninterrupted reader steps are one read: they answer the active slot extended to now, and
      change nothing else. */
  lemma ReadStepsAreRead(w: World, r: nat)
    requires |w.log| > 0 && r < |w.readers| && w.readers[r].LoopHead?
    ensures var s := w.published[w.generation % 2];
            var copied := ReadStep(ReadStep(ReadStep(ReadStep(w, r), r), r), r);
            ReadStep(copied, r) == w.(answers := w.answers + [Answer(r, w.now, ExtendPublished(s.high, s.low, w.now % TWO_32))])
  {
    var s, newest := w.published[w.generation % 2], |w.log| - 1;
    var w1 := ReadStep(w, r);
    assert w1 == w.(readers := w.readers[r := HasGeneration(w.generation, newest)]);
    var w2 := ReadStep(w1, r);
    assert w2.readers == w.readers[r := HasHigh(w.generation, newest, s.high)];
    var w3 := ReadStep(w2, r);
    assert w3.readers == w.readers[r := HasBoth(w.generation, newest, s.high, s.low)];
    var w4 := ReadStep(w3, r);
    assert w4.readers == w.readers[r := Accepted(newest, s.high, s.low)];
    assert ReadStep(w4, r).readers == w.readers;
  }

  /** A read straight after boot answers 0. */
  lemma FirstAnswerIsZero(readers: nat, r: nat)
    requires r < readers
    ensures var w := Boot(readers);
            ReadStep(ReadStep(ReadStep(ReadStep(ReadStep(w, r), r), r), r), r).answers == [Answer(r, 0, 0)]
  {
    ReadStepsAreRead(Boot(readers), r);
  }

  /** How many of the steps are reader r's own. */
  function OwnReads(steps: seq<Step>, r: nat): nat {
    if steps == [] then 0
    else OwnReads(steps[..|steps| - 1], r) + if steps[|steps| - 1] == Read(r) then 1 else 0
  }

  /** Where reader r stands after so many steps of its own on an active slot that stays. */
  function StageOf(w: World, own: nat): Reader
    requires |w.log| > 0 && own <= 4
  {
    var s, g, newest := w.published[w.generation % 2], w.generation, |w.log| - 1;
    if own == 0 then LoopHead
    else if own == 1 then HasGeneration(g, newest)
    else if own == 2 then HasHigh(g, newest, s.high)
    else if own == 3 then HasBoth(g, newest, s.high, s.low)
    else Accepted(newest, s.high, s.low)
  }

  /** No publish since w: the active slot is as it was, and the writer is off it. */
  ghost predicate ActiveStays(w: World, t: World)
    requires |w.log| > 0 && |t.log| > 0
  {
    && t.log == w.log && t.generation == w.generation && WriterOk(t)
    && t.published[w.generation % 2] == w.published[w.generation % 2] && |t.readers| == |w.readers|
  }

  lemma LogGrows(w: World, step: Step)
    requires |w.log| > 0
    ensures |Next(w, step).log| >= |w.log|
  {
  }

  lemma {:induction false} RunLogGrows(w: World, steps: seq<Step>)
    requires |w.log| > 0
    ensures |Run(w, steps).log| >= |w.log|
    decreases |steps|
  {
    if steps != [] {
      RunLogGrows(w, steps[..|steps| - 1]);
      LogGrows(Run(w, steps[..|steps| - 1]), steps[|steps| - 1]);
    }
  }

  lemma StepKeepsActive(w: World, t: World, step: Step)
    requires |w.log| > 0 && |t.log| > 0 && ActiveStays(w, t) && |Next(t, step).log| == |t.log|
    ensures ActiveStays(w, Next(t, step))
  {
  }

  lemma OwnStep(w: World, t: World, r: nat, own: nat)
    requires |w.log| > 0 && |t.log| > 0 && ActiveStays(w, t) && r < |t.readers| && own < 4
    requires t.readers[r] == StageOf(w, own)
    ensures ReadStep(t, r).readers[r] == StageOf(w, own + 1)
  {
  }

  lemma OthersStep(t: World, step: Step, r: nat)
    requires |t.log| > 0 && r < |t.readers| && step != Read(r)
    ensures Next(t, step).readers[r] == t.readers[r]
  {
  }

  /** Whatever other threads do meanwhile, as long as no publish completes, reader r's fourth step accepts
      its copy: the active slot of the start. */
  lemma {:induction false} UndisturbedReadIsAccepted(w: World, steps: seq<Step>, r: nat)
    requires |w.log| > 0 && WriterOk(w) && r < |w.readers| && w.readers[r].LoopHead?
    requires OwnReads(steps, r) <= 4 && |Run(w, steps).log| == |w.log|
    ensures ActiveStays(w, Run(w, steps)) && Run(w, steps).readers[r] == StageOf(w, OwnReads(steps, r))
    decreases |steps|
  {
    if steps != [] {
      var before, step := steps[..|steps| - 1], steps[|steps| - 1];
      var t := Run(w, before);
      RunLogGrows(w, before);
      LogGrows(t, step);
      UndisturbedReadIsAccepted(w, before, r);
      hide StageOf, ActiveStays, ServiceStep, ReadStep;
      StepKeepsActive(w, t, step);
      ReadersStay(w, t);
      if step == Read(r) { OwnStep(w, t, r, OwnReads(before, r)); } else { OthersStep(t, step, r); }
    }
  }

  lemma ReadersStay(w: World, t: World)
    requires |w.log| > 0 && |t.log| > 0 && ActiveStays(w, t)
    ensures |t.readers| == |w.readers|
  {
  }

  /** And its fifth answers it, extended to the time of that step. */
  lemma UndisturbedReadAnswers(w: World, steps: seq<Step>, r: nat)
    requires |w.log| > 0 && WriterOk(w) && r < |w.readers| && w.readers[r].LoopHead?
    requires OwnReads(steps, r) == 4 && |Run(w, steps).log| == |w.log|
    ensures var s, t := w.published[w.generation % 2], Run(w, steps);
            Next(t, Read(r)).answers == t.answers + [Answer(r, t.now, ExtendPublished(s.high, s.low, t.now % TWO_32))]
  {
    hide Run;
    UndisturbedReadIsAccepted(w, steps, r);
  }
}
