/**
  The airtime windows of src/airtime.cpp: two modular rings (6 x 10 s of all traffic, 60 x 60 s of
  our own transmissions) and three shift-ordered hourly histories, rotated whenever they are
  accessed. They are proved equal to sums over the full log of events.
*/
module Airtime {
  import opened Modular
  import opened Words

  const CHANNEL_UTILIZATION_PERIODS := 6
  const SECONDS_PER_PERIOD := 3600
  const PERIODS_TO_LOG := 8
  const MINUTES_IN_HOUR := 60
  const MS_IN_HOUR := 3_600_000

  datatype ReportType = TX_LOG | RX_LOG | RX_ALL_LOG

  const ALL_TYPES := {TX_LOG, RX_LOG, RX_ALL_LOG}

  // ---------------------------------------------------------------- the simple form: an event log

  /** One logged airtime: its uptime second, its type and its milliseconds. */
  datatype Event = Event(sec: nat, kind: ReportType, ms: nat)

  /** Milliseconds of the given types logged in one period of `unit` seconds. */
  function LoggedIn(log: seq<Event>, kinds: set<ReportType>, unit: nat, period: int): nat
    requires unit > 0
  {
    LoggedBetween(log, kinds, unit, period - 1, period)
  }

  /** Milliseconds of the given types logged in the periods after `first` up to `last`. */
  function LoggedBetween(log: seq<Event>, kinds: set<ReportType>, unit: nat, first: int, last: int): nat
    requires unit > 0
  {
    if log == [] then 0
    else
      var e := log[|log| - 1];
      LoggedBetween(log[..|log| - 1], kinds, unit, first, last) +
      if e.kind in kinds && first < e.sec / unit <= last then e.ms else 0
  }

  /** The newest period up to `now` whose index is `slot` modulo `n`. */
  function LatestPeriod(now: int, slot: int, n: nat): int
    requires n > 0
  {
    now - (now - slot) % n
  }

  /** What a ring of `n` slots must hold at second `now`. */
  ghost function RingOf(log: seq<Event>, kinds: set<ReportType>, unit: nat, n: nat, now: nat): seq<u32>
    requires unit > 0 && n > 0
  {
    seq(n, s => LoggedIn(log, kinds, unit, LatestPeriod(now / unit, s, n)) % TWO_32)
  }

  /** What a history must hold: slot i is the hour i hours ago. */
  ghost function HistoryOf(log: seq<Event>, kind: ReportType, now: nat): seq<u32> {
    seq(8, i => LoggedIn(log, {kind}, 3600, now / 3600 - i) % TWO_32)
  }

  /** The windows' contents: the clock they are keyed to, the rings and the histories. */
  datatype View = View(
    sec: u32, channel: seq<u32>, tx: seq<u32>,
    periodTX: seq<u32>, periodRX: seq<u32>, periodRXAll: seq<u32>)

  ghost function ViewOf(log: seq<Event>, now: u32): View {
    View(now,
         RingOf(log, ALL_TYPES, 10, 6, now), RingOf(log, {TX_LOG}, 60, 60, now),
         HistoryOf(log, TX_LOG, now), HistoryOf(log, RX_LOG, now), HistoryOf(log, RX_ALL_LOG, now))
  }

  // ---------------------------------------------------------------- the fast form: rotate on access

  datatype State = State(firstTime: bool, rotationsPendingLog: u32, view: View)

  ghost predicate Sized(v: View) {
    && |v.channel| == CHANNEL_UTILIZATION_PERIODS && |v.tx| == MINUTES_IN_HOUR
    && |v.periodTX| == PERIODS_TO_LOG && |v.periodRX| == PERIODS_TO_LOG && |v.periodRXAll| == PERIODS_TO_LOG
  }

  function Zeros(n: nat): seq<u32> { seq(n, _ => 0) }

  function ZeroView(now: u32): View {
    View(now, Zeros(CHANNEL_UTILIZATION_PERIODS), Zeros(MINUTES_IN_HOUR),
         Zeros(PERIODS_TO_LOG), Zeros(PERIODS_TO_LOG), Zeros(PERIODS_TO_LOG))
  }

  const BOOT := State(true, 0, ZeroView(0))

  /** Periods crossed between two seconds, as an unsigned 32-bit difference. */
  function Elapsed(was: u32, now: u32, unit: nat): u32
    requires unit > 0
  {
    (now / unit - was / unit) % TWO_32
  }

  /** How many periods after the one following `q` the ring comes to `slot`. */
  function PeriodsUntil(slot: int, q: int, n: nat): (d: nat)
    requires n > 0
    ensures d < n
  {
    (slot - q - 1) % n
  }

  /** The ring with every crossed slot cleared. */
  function RotateRing(ring: seq<u32>, unit: nat, was: u32, now: u32): seq<u32>
    requires unit > 0 && |ring| > 0
  {
    seq(|ring|, s requires 0 <= s < |ring| =>
      if PeriodsUntil(s, was / unit, |ring|) < Elapsed(was, now, unit) then 0 else ring[s])
  }

  /** The history moved towards the older end. */
  function ShiftHistory(h: seq<u32>, hours: nat): seq<u32> {
    seq(|h|, i requires 0 <= i < |h| => if i < hours then 0 else h[i - hours])
  }

  function Rotate(v: View, now: u32): View
    requires |v.channel| > 0 && |v.tx| > 0
  {
    var hours := Elapsed(v.sec, now, SECONDS_PER_PERIOD);
    View(now, RotateRing(v.channel, 10, v.sec, now), RotateRing(v.tx, 60, v.sec, now),
         ShiftHistory(v.periodTX, hours), ShiftHistory(v.periodRX, hours), ShiftHistory(v.periodRXAll, hours))
  }

  function Synced(st: State, now: u32): State
    requires |st.view.channel| > 0 && |st.view.tx| > 0
  {
    if st.firstTime then State(false, st.rotationsPendingLog, ZeroView(now))
    else
      var hours := Elapsed(st.view.sec, now, SECONDS_PER_PERIOD);
      State(false,
            if hours < PERIODS_TO_LOG then (st.rotationsPendingLog + hours) % TWO_32 else st.rotationsPendingLog,
            Rotate(st.view, now))
  }

  /** A synchronisation counts the hours it crossed, for a later log line, unless the whole history went. */
  lemma SyncCountsRotations(st: State, now: u32)
    requires !st.firstTime && Sized(st.view) && st.view.sec <= now
    ensures var hours := now / 3600 - st.view.sec / 3600;
            Synced(st, now).rotationsPendingLog ==
            if hours < 8 then (st.rotationsPendingLog + hours) % TWO_32 else st.rotationsPendingLog
  {
    ElapsedExact(st.view.sec, now, SECONDS_PER_PERIOD);
  }

  function AddAt(a: seq<u32>, i: nat, ms: u32): seq<u32>
    requires i < |a|
  {
    a[i := (a[i] + ms) % TWO_32]
  }

  /** Charge `ms` to the current buckets of every window the type counts in. */
  function Charge(v: View, kind: ReportType, ms: u32): View
    requires |v.channel| == CHANNEL_UTILIZATION_PERIODS && |v.tx| == MINUTES_IN_HOUR
    requires |v.periodTX| > 0 && |v.periodRX| > 0 && |v.periodRXAll| > 0
  {
    var w := v.(channel := AddAt(v.channel, v.sec / 10 % CHANNEL_UTILIZATION_PERIODS, ms));
    match kind
    case TX_LOG => w.(periodTX := AddAt(v.periodTX, 0, ms), tx := AddAt(v.tx, v.sec / 60 % MINUTES_IN_HOUR, ms))
    case RX_LOG => w.(periodRX := AddAt(v.periodRX, 0, ms))
    case RX_ALL_LOG => w.(periodRXAll := AddAt(v.periodRXAll, 0, ms))
  }

  function Logged(st: State, kind: ReportType, ms: u32, now: u32): State
    requires Sized(st.view)
  {
    var synced := Synced(st, now);
    synced.(view := Charge(synced.view, kind, ms))
  }

  // ---------------------------------------------------------------- the refinement

  /** `LatestPeriod` is the one period in the last `n` with the slot's residue. */
  lemma LatestPeriodMeaning(now: int, slot: int, n: nat, p: int)
    requires 0 <= slot < n
    ensures LatestPeriod(now, slot, n) == p <==> now - n < p <= now && p % n == slot
  {
    var l := LatestPeriod(now, slot, n);
    ModSub(now, now - slot, n);
    assert l % n == slot by { ModOfSum(0, slot, n); }
    if now - n < p <= now && p % n == slot {
      ModUnique(l, p, n);
    }
  }

  lemma {:induction false} NothingLoggedLater(log: seq<Event>, kinds: set<ReportType>, unit: nat, period: int, upTo: nat)
    requires unit > 0 && period > upTo / unit
    requires forall i :: 0 <= i < |log| ==> log[i].sec <= upTo
    ensures LoggedIn(log, kinds, unit, period) == 0
  {
    if log != [] {
      NothingLoggedLater(log[..|log| - 1], kinds, unit, period, upTo);
      DivMonotone(log[|log| - 1].sec, upTo, unit);
    }
  }

  lemma PreviousPeriod(q: nat, s: nat, n: nat)
    requires s < n
    ensures (q + 1 + (s - q - 1) % n - n) % n == s
  {
    var d := (s - q - 1) % n;
    var k := (s - q - 1) / n;
    assert q + 1 + d - n == s + (-k - 1) * n;
    ModAdd(s, -k - 1, n);
    ModOfSum(0, s, n);
  }

  /** The rotation clears slot `s` exactly when its latest period has changed. */
  lemma RotationIsNewPeriod(q: nat, q': nat, s: nat, n: nat)
    requires s < n && q <= q'
    ensures PeriodsUntil(s, q, n) < q' - q ==> LatestPeriod(q', s, n) > q
    ensures PeriodsUntil(s, q, n) >= q' - q ==> LatestPeriod(q', s, n) == LatestPeriod(q, s, n)
  {
    hide LatestPeriod;
    var d := (s - q - 1) % n;
    var p := q + 1 + d - n;
    PreviousPeriod(q, s, n);
    LatestPeriodMeaning(q, s, n, p);
    if q' - q <= d {
      LatestPeriodMeaning(q', s, n, p);
    } else {
      LatestPeriodMeaning(q', s, n, LatestPeriod(q', s, n));
      if LatestPeriod(q', s, n) <= q {
        LatestPeriodMeaning(q, s, n, LatestPeriod(q', s, n));
      }
    }
  }

  lemma RotateRingRefines(log: seq<Event>, kinds: set<ReportType>, unit: nat, n: nat, was: u32, now: u32)
    requires unit > 0 && n > 0 && was <= now
    requires forall i :: 0 <= i < |log| ==> log[i].sec <= was
    ensures RotateRing(RingOf(log, kinds, unit, n, was), unit, was, now) == RingOf(log, kinds, unit, n, now)
  {
    DivMonotone(was, now, unit);
    ElapsedExact(was, now, unit);
    var ring := RingOf(log, kinds, unit, n, was);
    forall s | 0 <= s < n
      ensures RotateRing(ring, unit, was, now)[s] == RingOf(log, kinds, unit, n, now)[s]
    {
      RotationIsNewPeriod(was / unit, now / unit, s, n);
      if PeriodsUntil(s, was / unit, n) < now / unit - was / unit {
        NothingLoggedLater(log, kinds, unit, LatestPeriod(now / unit, s, n), was);
      }
    }
  }

  lemma ElapsedExact(was: u32, now: u32, unit: nat)
    requires unit > 0 && was <= now
    ensures Elapsed(was, now, unit) == now / unit - was / unit
  {
    DivMonotone(was, now, unit);
    DivAtMost(was, unit);
    DivAtMost(now, unit);
  }

  lemma ShiftHistoryRefines(log: seq<Event>, kind: ReportType, was: u32, now: u32)
    requires was <= now
    requires forall i :: 0 <= i < |log| ==> log[i].sec <= was
    ensures ShiftHistory(HistoryOf(log, kind, was), Elapsed(was, now, SECONDS_PER_PERIOD)) == HistoryOf(log, kind, now)
  {
    ElapsedExact(was, now, SECONDS_PER_PERIOD);
    var hours := Elapsed(was, now, SECONDS_PER_PERIOD);
    forall i | 0 <= i < PERIODS_TO_LOG
      ensures ShiftHistory(HistoryOf(log, kind, was), hours)[i] == HistoryOf(log, kind, now)[i]
    {
      if i < hours {
        NothingLoggedLater(log, {kind}, SECONDS_PER_PERIOD, now / SECONDS_PER_PERIOD - i, was);
      }
    }
  }

  lemma RotateRefines(log: seq<Event>, was: u32, now: u32)
    requires was <= now
    requires forall i :: 0 <= i < |log| ==> log[i].sec <= was
    ensures Rotate(ViewOf(log, was), now) == ViewOf(log, now)
  {
    RotateRingRefines(log, ALL_TYPES, 10, CHANNEL_UTILIZATION_PERIODS, was, now);
    RotateRingRefines(log, {TX_LOG}, 60, MINUTES_IN_HOUR, was, now);
    ShiftHistoryRefines(log, TX_LOG, was, now);
    ShiftHistoryRefines(log, RX_LOG, was, now);
    ShiftHistoryRefines(log, RX_ALL_LOG, was, now);
  }

  lemma {:induction false} LoggedSnoc(log: seq<Event>, e: Event, kinds: set<ReportType>, unit: nat, period: int)
    requires unit > 0
    ensures LoggedIn(log + [e], kinds, unit, period) ==
            LoggedIn(log, kinds, unit, period) + if e.kind in kinds && e.sec / unit == period then e.ms else 0
  {
    assert (log + [e])[..|log|] == log;
  }

  lemma WrappingAdd(x: nat, ms: u32)
    ensures (x % TWO_32 + ms) % TWO_32 == (x + ms) % TWO_32
  {
    ModPlus(x, ms, TWO_32);
  }

  lemma AddToSlot(log: seq<Event>, kinds: set<ReportType>, unit: nat, n: nat, e: Event, s: nat)
    requires unit > 0 && s < n && e.ms < TWO_32
    ensures var p := LatestPeriod(e.sec / unit, s, n);
            var before := LoggedIn(log, kinds, unit, p) % TWO_32;
            LoggedIn(log + [e], kinds, unit, p) % TWO_32 ==
            if e.kind in kinds && s == e.sec / unit % n then (before + e.ms) % TWO_32 else before
  {
    hide LatestPeriod, LoggedIn;
    var p := LatestPeriod(e.sec / unit, s, n);
    LatestPeriodMeaning(e.sec / unit, s, n, e.sec / unit);
    LoggedSnoc(log, e, kinds, unit, p);
    WrappingAdd(LoggedIn(log, kinds, unit, p), e.ms);
  }

  lemma AddToRing(log: seq<Event>, kinds: set<ReportType>, unit: nat, n: nat, e: Event)
    requires unit > 0 && n > 0 && e.ms < TWO_32 && 0 <= e.sec / unit % n < n
    ensures RingOf(log + [e], kinds, unit, n, e.sec) ==
            if e.kind in kinds then AddAt(RingOf(log, kinds, unit, n, e.sec), e.sec / unit % n, e.ms)
            else RingOf(log, kinds, unit, n, e.sec)
  {
    hide LatestPeriod, LoggedIn;
    forall s | 0 <= s < n
      ensures RingOf(log + [e], kinds, unit, n, e.sec)[s] ==
              var before := RingOf(log, kinds, unit, n, e.sec)[s];
              if e.kind in kinds && s == e.sec / unit % n then (before + e.ms) % TWO_32 else before
    {
      AddToSlot(log, kinds, unit, n, e, s);
    }
  }

  lemma AddToHistory(log: seq<Event>, kind: ReportType, e: Event)
    requires e.ms < TWO_32
    ensures HistoryOf(log + [e], kind, e.sec) ==
            if e.kind == kind then AddAt(HistoryOf(log, kind, e.sec), 0, e.ms) else HistoryOf(log, kind, e.sec)
  {
    forall i | 0 <= i < PERIODS_TO_LOG
      ensures HistoryOf(log + [e], kind, e.sec)[i] ==
              var before := HistoryOf(log, kind, e.sec)[i];
              if e.kind == kind && i == 0 then (before + e.ms) % TWO_32 else before
    {
      LoggedSnoc(log, e, {kind}, SECONDS_PER_PERIOD, e.sec / SECONDS_PER_PERIOD - i);
      WrappingAdd(LoggedIn(log, {kind}, SECONDS_PER_PERIOD, e.sec / SECONDS_PER_PERIOD - i), e.ms);
    }
  }

  lemma ChargeRefines(log: seq<Event>, kind: ReportType, ms: u32, now: u32)
    ensures Charge(ViewOf(log, now), kind, ms) == ViewOf(log + [Event(now, kind, ms)], now)
  {
    var e := Event(now, kind, ms);
    AddToRing(log, ALL_TYPES, 10, CHANNEL_UTILIZATION_PERIODS, e);
    AddToRing(log, {TX_LOG}, 60, MINUTES_IN_HOUR, e);
    AddToHistory(log, TX_LOG, e);
    AddToHistory(log, RX_LOG, e);
    AddToHistory(log, RX_ALL_LOG, e);
  }

  // ---------------------------------------------------------------- whole runs

  /** A call of the windows' core: a plain synchronisation (every query performs one) or a log. */
  datatype Op = Sync(now: u32) | Log(now: u32, kind: ReportType, ms: u32)

  function Apply(st: State, op: Op): State
    requires Sized(st.view)
  {
    match op
    case Sync(now) => Synced(st, now)
    case Log(now, kind, ms) => Logged(st, kind, ms, now)
  }

  function Run(ops: seq<Op>): (st: State)
    ensures Sized(st.view)
  {
    if ops == [] then BOOT else Apply(Run(ops[..|ops| - 1]), ops[|ops| - 1])
  }

  function EventsOf(ops: seq<Op>): seq<Event> {
    if ops == [] then []
    else
      EventsOf(ops[..|ops| - 1]) + EventOf(ops[|ops| - 1])
  }

  ghost predicate NonDecreasing(ops: seq<Op>) {
    forall i, j :: 0 <= i <= j < |ops| ==> ops[i].now <= ops[j].now
  }

  lemma {:induction false} EventsBefore(ops: seq<Op>, upTo: nat)
    requires forall i :: 0 <= i < |ops| ==> ops[i].now <= upTo
    ensures forall i :: 0 <= i < |EventsOf(ops)| ==> EventsOf(ops)[i].sec <= upTo
  {
    if ops != [] {
      EventsBefore(ops[..|ops| - 1], upTo);
    }
  }

  lemma EmptyHistory(kind: ReportType, now: u32)
    ensures HistoryOf([], kind, now) == Zeros(PERIODS_TO_LOG)
  {
    forall i | 0 <= i < PERIODS_TO_LOG ensures HistoryOf([], kind, now)[i] == 0 {
      assert LoggedIn([], {kind}, SECONDS_PER_PERIOD, now / SECONDS_PER_PERIOD - i) == 0;
    }
  }

  lemma ZeroViewIsEmptyLog(now: u32)
    ensures ZeroView(now) == ViewOf([], now)
  {
    assert RingOf([], ALL_TYPES, 10, CHANNEL_UTILIZATION_PERIODS, now) == Zeros(CHANNEL_UTILIZATION_PERIODS);
    assert RingOf([], {TX_LOG}, 60, MINUTES_IN_HOUR, now) == Zeros(MINUTES_IN_HOUR);
    EmptyHistory(TX_LOG, now);
    EmptyHistory(RX_LOG, now);
    EmptyHistory(RX_ALL_LOG, now);
  }

  function EventOf(op: Op): seq<Event> {
    if op.Log? then [Event(op.now, op.kind, op.ms)] else []
  }

  /** One call keeps the refinement. */
  lemma ApplyRefines(st: State, log: seq<Event>, op: Op)
    requires Sized(st.view)
    requires if st.firstTime then log == [] else st.view == ViewOf(log, st.view.sec) && st.view.sec <= op.now
    requires !st.firstTime ==> forall i :: 0 <= i < |log| ==> log[i].sec <= st.view.sec
    ensures !Apply(st, op).firstTime
    ensures Apply(st, op).view == ViewOf(log + EventOf(op), op.now)
  {
    if st.firstTime {
      ZeroViewIsEmptyLog(op.now);
    } else {
      RotateRefines(log, st.view.sec, op.now);
    }
    assert Synced(st, op.now).view == ViewOf(log, op.now);
    if op.Log? {
      ChargeRefines(log, op.kind, op.ms, op.now);
    } else {
      assert log + EventOf(op) == log;
    }
  }

  /** After any run of logs and synchronisations at non-decreasing times, however sparse, every ring
      slot and every history slot holds exactly the milliseconds (modulo 2^32) the full event log
      has for its period. */
  lemma {:induction false} WindowsRefineLog(ops: seq<Op>)
    requires ops != [] && NonDecreasing(ops)
    ensures !Run(ops).firstTime
    ensures Run(ops).view == ViewOf(EventsOf(ops), ops[|ops| - 1].now)
  {
    var before, op := ops[..|ops| - 1], ops[|ops| - 1];
    if before != [] {
      WindowsRefineLog(before);
      EventsBefore(before, before[|before| - 1].now);
    }
    ApplyRefines(Run(before), EventsOf(before), op);
  }

  function WithoutSyncs(ops: seq<Op>): seq<Op> {
    if ops == [] then []
    else WithoutSyncs(ops[..|ops| - 1]) + if ops[|ops| - 1].Log? then [ops[|ops| - 1]] else []
  }

  lemma {:induction false} EventsSnoc(ops: seq<Op>, op: Op)
    ensures EventsOf(ops + [op]) == EventsOf(ops) + EventOf(op)
  {
    assert (ops + [op])[..|ops|] == ops;
  }

  lemma {:induction false} WithoutSyncsKeepsEvents(ops: seq<Op>, final: u32)
    requires NonDecreasing(ops) && forall i :: 0 <= i < |ops| ==> ops[i].now <= final
    ensures EventsOf(WithoutSyncs(ops)) == EventsOf(ops)
    ensures NonDecreasing(WithoutSyncs(ops))
    ensures forall i :: 0 <= i < |WithoutSyncs(ops)| ==> WithoutSyncs(ops)[i].now <= final
  {
    if ops != [] {
      var before := ops[..|ops| - 1];
      WithoutSyncsKeepsEvents(before, ops[|ops| - 1].now);
      if ops[|ops| - 1].Log? {
        EventsSnoc(WithoutSyncs(before), ops[|ops| - 1]);
      } else {
        assert EventsOf(ops) == EventsOf(before);
        assert WithoutSyncs(ops) == WithoutSyncs(before);
      }
    }
  }

  lemma {:induction false} SparseRun(ops: seq<Op>, final: u32)
    requires NonDecreasing(ops) && forall i :: 0 <= i < |ops| ==> ops[i].now <= final
    ensures var sparse := WithoutSyncs(ops) + [Sync(final)];
            NonDecreasing(sparse) && EventsOf(sparse) == EventsOf(ops)
  {
    WithoutSyncsKeepsEvents(ops, final);
    EventsSnoc(WithoutSyncs(ops), Sync(final));
  }

  /** Scheduler-rate independence: any pattern of intermediate synchronisations leaves the same
      rings and histories as no synchronisation but one at the end. */
  lemma SchedulerRateIndependence(ops: seq<Op>)
    requires ops != [] && NonDecreasing(ops)
    ensures Run(ops).view == Run(WithoutSyncs(ops) + [Sync(ops[|ops| - 1].now)]).view
  {
    var final := ops[|ops| - 1].now;
    SparseRun(ops, final);
    WindowsRefineLog(ops);
    WindowsRefineLog(WithoutSyncs(ops) + [Sync(final)]);
  }

  // ---------------------------------------------------------------- utilisation sums

  function Sum(a: seq<nat>): nat {
    if a == [] then 0 else Sum(a[..|a| - 1]) + a[|a| - 1]
  }

  lemma {:induction false} SumMod(a: seq<nat>, b: seq<nat>)
    requires |a| == |b| && forall i :: 0 <= i < |a| ==> b[i] == a[i] % TWO_32
    ensures Sum(b) % TWO_32 == Sum(a) % TWO_32
  {
    if a != [] {
      var last := |a| - 1;
      SumMod(a[..last], b[..last]);
      ModPlus(Sum(a[..last]), a[last], TWO_32);
      ModPlus(Sum(b[..last]), b[last], TWO_32);
    }
  }

  /** Adding `x` at one index adds `x` to the sum. */
  lemma {:induction false} SumUpdate(a: seq<nat>, b: seq<nat>, k: nat, x: nat)
    requires |a| == |b| && k < |a|
    requires forall i :: 0 <= i < |a| ==> b[i] == a[i] + if i == k then x else 0
    ensures Sum(b) == Sum(a) + x
  {
    if k == |a| - 1 {
      assert a[..k] == b[..k];
    } else {
      SumUpdate(a[..|a| - 1], b[..|b| - 1], k, x);
    }
  }

  ghost function ExactRing(log: seq<Event>, kinds: set<ReportType>, unit: nat, n: nat, now: nat): seq<nat>
    requires unit > 0 && n > 0
  {
    seq(n, s => LoggedIn(log, kinds, unit, LatestPeriod(now / unit, s, n)))
  }

  lemma SumOfZeros(a: seq<nat>)
    requires forall i :: 0 <= i < |a| ==> a[i] == 0
    ensures Sum(a) == 0
  {
  }

  /** The ring's slots are the last `n` periods, each once. */
  lemma {:induction false} ExactRingSum(log: seq<Event>, kinds: set<ReportType>, unit: nat, n: nat, now: nat)
    requires unit > 0 && n > 0
    ensures Sum(ExactRing(log, kinds, unit, n, now)) == LoggedBetween(log, kinds, unit, now / unit - n, now / unit)
  {
    var q := now / unit;
    var b := ExactRing(log, kinds, unit, n, now);
    if log == [] {
      SumOfZeros(b);
    } else {
      var e := log[|log| - 1];
      var shorter := log[..|log| - 1];
      var a := ExactRing(shorter, kinds, unit, n, now);
      ExactRingSum(shorter, kinds, unit, n, now);
      var k := e.sec / unit % n;
      var inside := e.kind in kinds && q - n < e.sec / unit <= q;
      forall s | 0 <= s < n ensures b[s] == a[s] + if s == k && inside then e.ms else 0 {
        LatestPeriodMeaning(q, s, n, e.sec / unit);
      }
      if inside { SumUpdate(a, b, k, e.ms); } else { assert a == b; }
    }
  }

  lemma RingSum(log: seq<Event>, kinds: set<ReportType>, unit: nat, n: nat, now: nat)
    requires unit > 0 && n > 0
    ensures Sum(RingOf(log, kinds, unit, n, now)) % TWO_32 ==
            LoggedBetween(log, kinds, unit, now / unit - n, now / unit) % TWO_32
  {
    SumMod(ExactRing(log, kinds, unit, n, now), RingOf(log, kinds, unit, n, now));
    ExactRingSum(log, kinds, unit, n, now);
  }

  /** Both utilisation sums are the log's sums over the window: the current 10 s period and the 5
      before it, all types; the current minute and the 59 before it, our transmissions. */
  lemma UtilisationSumsTheLog(ops: seq<Op>)
    requires ops != [] && NonDecreasing(ops)
    ensures var v := Run(ops).view;
            && Sum(v.channel) % TWO_32 == LoggedBetween(EventsOf(ops), ALL_TYPES, 10, v.sec / 10 - 6, v.sec / 10) % TWO_32
            && Sum(v.tx) % TWO_32 == LoggedBetween(EventsOf(ops), {TX_LOG}, 60, v.sec / 60 - 60, v.sec / 60) % TWO_32
  {
    WindowsRefineLog(ops);
    var now := ops[|ops| - 1].now;
    RingSum(EventsOf(ops), ALL_TYPES, 10, CHANNEL_UTILIZATION_PERIODS, now);
    RingSum(EventsOf(ops), {TX_LOG}, 60, MINUTES_IN_HOUR, now);
  }

  // ---------------------------------------------------------------- the code

  /** All state and all logic of the windows, rotated in place. */
  class Windows {
    var firstTime: bool
    var secSinceBoot: u32
    var rotationsPendingLog: u32
    const channelUtilization: array<u32>
    const utilizationTX: array<u32>
    const periodTX: array<u32>
    const periodRX: array<u32>
    const periodRXAll: array<u32>

    ghost const Repr: set<object>

    ghost predicate Valid()
      reads this
    {
      && channelUtilization.Length == CHANNEL_UTILIZATION_PERIODS && utilizationTX.Length == MINUTES_IN_HOUR
      && periodTX.Length == PERIODS_TO_LOG && periodRX.Length == PERIODS_TO_LOG && periodRXAll.Length == PERIODS_TO_LOG
      && channelUtilization != utilizationTX
      && periodTX != periodRX && periodTX != periodRXAll && periodRX != periodRXAll
      && {channelUtilization, utilizationTX} !! {periodTX, periodRX, periodRXAll}
      && Repr == {this, channelUtilization, utilizationTX, periodTX, periodRX, periodRXAll}
    }

    ghost function Contents(): (st: State)
      requires Valid()
      reads Repr
      ensures Sized(st.view)
    {
      State(firstTime, rotationsPendingLog,
            View(secSinceBoot, channelUtilization[..], utilizationTX[..], periodTX[..], periodRX[..], periodRXAll[..]))
    }

    constructor ()
      ensures Valid() && fresh(Repr) && Contents() == BOOT && firstTime && rotationsPendingLog == 0
    {
      var channel := new u32[CHANNEL_UTILIZATION_PERIODS](_ => 0);
      var tx := new u32[MINUTES_IN_HOUR](_ => 0);
      var p := new u32[PERIODS_TO_LOG](_ => 0);
      var q := new u32[PERIODS_TO_LOG](_ => 0);
      var r := new u32[PERIODS_TO_LOG](_ => 0);
      firstTime, secSinceBoot, rotationsPendingLog := true, 0, 0;
      channelUtilization, utilizationTX := channel, tx;
      periodTX, periodRX, periodRXAll := p, q, r;
      Repr := {this, channel, tx, p, q, r};
    }

    /** `memset` to zero. */
    method Clear(a: array<u32>)
      modifies a
      ensures a[..] == Zeros(a.Length)
    {
      forall i | 0 <= i < a.Length { a[i] := 0; }
    }

    /** Clear every ring slot crossed between two seconds. */
    method ClearCrossed(ring: array<u32>, unit: nat, was: u32, now: u32)
      requires unit > 0 && 0 < ring.Length < TWO_32
      modifies ring
      ensures ring[..] == old(RotateRing(ring[..], unit, was, now))
    {
      var elapsed := Elapsed(was, now, unit);
      var q, n := was / unit, ring.Length;
      if elapsed >= n {
        Clear(ring);
      } else {
        var i := 1;
        while i <= elapsed
          invariant 1 <= i <= elapsed + 1
          invariant forall s :: 0 <= s < n ==> ring[s] == if PeriodsUntil(s, q, n) < i - 1 then 0 else old(ring[s])
        {
          forall s | 0 <= s < n ensures s == (q + i) % n <==> PeriodsUntil(s, q, n) == i - 1 {
            CrossedSlot(s, q, i, n);
          }
          ring[(q + i) % n] := 0;
          i := i + 1;
        }
      }
    }

    /** `a[i + 1] = a[i]` */
    method Move(a: array<u32>, i: nat)
      requires i + 1 < a.Length
      modifies a
      ensures a[..] == old(a[..][i + 1 := a[i]])
    {
      a[i + 1] := a[i];
    }

    /** Every slot above i + 1 already holds its newer neighbour. */
    ghost predicate ShiftedDownTo(h: seq<u32>, was: seq<u32>, i: int) {
      && |h| == |was| == PERIODS_TO_LOG && i >= -1
      && (forall j :: 0 <= j <= i + 1 && j < PERIODS_TO_LOG ==> h[j] == was[j])
      && (forall j :: i + 1 < j < PERIODS_TO_LOG ==> h[j] == was[j - 1])
    }

    lemma ShiftOne(h: seq<u32>, was: seq<u32>, i: int)
      requires 0 <= i <= PERIODS_TO_LOG - 2 && ShiftedDownTo(h, was, i)
      ensures ShiftedDownTo(h[i + 1 := h[i]], was, i - 1)
    {
    }

    /** Shift the three histories one hour towards the older end. */
    method RotateHour()
      requires Valid()
      modifies periodTX, periodRX, periodRXAll
      ensures periodTX[..] == old(ShiftHistory(periodTX[..], 1))
      ensures periodRX[..] == old(ShiftHistory(periodRX[..], 1))
      ensures periodRXAll[..] == old(ShiftHistory(periodRXAll[..], 1))
    {
      ghost var tx, rx, all := periodTX[..], periodRX[..], periodRXAll[..];
      var i := PERIODS_TO_LOG - 2;
      while i >= 0
        invariant -1 <= i <= PERIODS_TO_LOG - 2
        invariant ShiftedDownTo(periodTX[..], tx, i)
        invariant ShiftedDownTo(periodRX[..], rx, i)
        invariant ShiftedDownTo(periodRXAll[..], all, i)
      {
        ShiftOne(periodTX[..], tx, i);
        ShiftOne(periodRX[..], rx, i);
        ShiftOne(periodRXAll[..], all, i);
        Move(periodTX, i);
        Move(periodRX, i);
        Move(periodRXAll, i);
        i := i - 1;
      }
      periodTX[0] := 0;
      periodRX[0] := 0;
      periodRXAll[0] := 0;
    }

    method RotateHours(hours: u32)
      requires Valid()
      modifies this`rotationsPendingLog, periodTX, periodRX, periodRXAll
      ensures periodTX[..] == old(ShiftHistory(periodTX[..], hours))
      ensures periodRX[..] == old(ShiftHistory(periodRX[..], hours))
      ensures periodRXAll[..] == old(ShiftHistory(periodRXAll[..], hours))
      ensures rotationsPendingLog == old(if hours < PERIODS_TO_LOG then (rotationsPendingLog + hours) % TWO_32
                                         else rotationsPendingLog)
    {
      if hours >= PERIODS_TO_LOG {
        Clear(periodTX);
        Clear(periodRX);
        Clear(periodRXAll);
      } else {
        rotationsPendingLog := (rotationsPendingLog + hours) % TWO_32;
        var h := 0;
        while h < hours
          invariant 0 <= h <= hours
          invariant rotationsPendingLog == (old(rotationsPendingLog) + hours) % TWO_32
          invariant periodTX[..] == old(ShiftHistory(periodTX[..], h))
          invariant periodRX[..] == old(ShiftHistory(periodRX[..], h))
          invariant periodRXAll[..] == old(ShiftHistory(periodRXAll[..], h))
        {
          RotateHour();
          h := h + 1;
        }
      }
    }

    method SyncNow(nowSecs: u32)
      requires Valid()
      modifies Repr
      ensures Contents() == Synced(old(Contents()), nowSecs)
    {
      if firstTime {
        Clear(utilizationTX);
        Clear(channelUtilization);
        Clear(periodTX);
        Clear(periodRX);
        Clear(periodRXAll);
        secSinceBoot := nowSecs;
        firstTime := false;
        return;
      }
      if nowSecs == secSinceBoot {
        NoRotation(Contents().view);
        return;
      }
      var oldSecSinceBoot := secSinceBoot;
      secSinceBoot := nowSecs;
      RotateHours(Elapsed(oldSecSinceBoot, nowSecs, SECONDS_PER_PERIOD));
      ClearCrossed(channelUtilization, 10, oldSecSinceBoot, nowSecs);
      ClearCrossed(utilizationTX, 60, oldSecSinceBoot, nowSecs);
    }

    method LogAirtime(reportType: ReportType, airtimeMs: u32, nowSecs: u32)
      requires Valid()
      modifies Repr
      ensures Contents() == Logged(old(Contents()), reportType, airtimeMs, nowSecs)
    {
      SyncNow(nowSecs);
      if reportType == TX_LOG {
        Add(periodTX, 0, airtimeMs);
        Add(utilizationTX, secSinceBoot / 60 % MINUTES_IN_HOUR, airtimeMs);
      } else if reportType == RX_LOG {
        Add(periodRX, 0, airtimeMs);
      } else if reportType == RX_ALL_LOG {
        Add(periodRXAll, 0, airtimeMs);
      }
      Add(channelUtilization, secSinceBoot / 10 % CHANNEL_UTILIZATION_PERIODS, airtimeMs);
    }

    /** `a[i] += ms` on an unsigned 32-bit bucket. */
    method Add(a: array<u32>, i: nat, ms: u32)
      requires i < a.Length
      modifies a
      ensures a[..] == old(AddAt(a[..], i, ms))
    {
      a[i] := (a[i] + ms) % TWO_32;
    }

    method SumOf(a: array<u32>) returns (sum: u32)
      ensures sum == Sum(a[..]) % TWO_32
    {
      sum := 0;
      var i := 0;
      while i < a.Length
        invariant 0 <= i <= a.Length && sum == Sum(a[..i]) % TWO_32
      {
        assert a[..i + 1][..i] == a[..i];
        ModPlus(Sum(a[..i]), a[i], TWO_32);
        sum := (sum + a[i]) % TWO_32;
        i := i + 1;
      }
      assert a[..a.Length] == a[..];
    }

    method ChannelUtilizationPercent(nowSecs: u32) returns (percent: real)
      requires Valid()
      modifies Repr
      ensures Contents() == Synced(old(Contents()), nowSecs)
      ensures percent == (Sum(Contents().view.channel) % TWO_32) as real / 60_000.0 * 100.0
    {
      SyncNow(nowSecs);
      var sum := SumOf(channelUtilization);
      percent := sum as real / (CHANNEL_UTILIZATION_PERIODS * 10 * 1000) as real * 100.0;
    }

    method UtilizationTXPercent(nowSecs: u32) returns (percent: real)
      requires Valid()
      modifies Repr
      ensures Contents() == Synced(old(Contents()), nowSecs)
      ensures percent == (Sum(Contents().view.tx) % TWO_32) as real / 3_600_000.0 * 100.0
    {
      SyncNow(nowSecs);
      var sum := SumOf(utilizationTX);
      percent := sum as real / MS_IN_HOUR as real * 100.0;
    }

    /** Copies the newest `count` hours of one history, after synchronising. */
    method AirtimeReport(reportType: ReportType, out: array?<u32>, count: nat, nowSecs: u32) returns (ok: bool)
      requires Valid() && (out != null ==> out !in Repr && (count <= PERIODS_TO_LOG ==> count <= out.Length))
      modifies Repr, out
      ensures ok <==> out != null && count <= PERIODS_TO_LOG
      ensures !ok ==> Contents() == old(Contents()) && (out != null ==> out[..] == old(out[..]))
      ensures ok ==> Contents() == Synced(old(Contents()), nowSecs)
      ensures ok ==> var v := Contents().view;
                     var src := match reportType
                                case TX_LOG => v.periodTX
                                case RX_LOG => v.periodRX
                                case RX_ALL_LOG => v.periodRXAll;
                     out[..] == src[..count] + old(out[count..])
    {
      if out == null || count > PERIODS_TO_LOG {
        return false;
      }
      SyncNow(nowSecs);
      var src := match reportType case TX_LOG => periodTX case RX_LOG => periodRX case RX_ALL_LOG => periodRXAll;
      forall i | 0 <= i < count { out[i] := src[i]; }
      return true;
    }
  }

  lemma CrossedSlot(s: int, q: int, i: int, n: nat)
    requires 0 <= s < n && 1 <= i <= n
    ensures s == (q + i) % n <==> PeriodsUntil(s, q, n) == i - 1
  {
    ModSub(s - q - 1, 0, n);
    if s == (q + i) % n {
      Quotient(q + i, n);
      assert s - q - 1 == -((q + i) / n) * n + (i - 1);
      ModOfSum(-((q + i) / n), i - 1, n);
    }
    if (s - q - 1) % n == i - 1 {
      Quotient(s - q - 1, n);
      assert q + i == -((s - q - 1) / n) * n + s;
      ModOfSum(-((s - q - 1) / n), s, n);
    }
  }

  lemma NoRotation(v: View)
    requires Sized(v)
    ensures Rotate(v, v.sec) == v
  {
    var r := Rotate(v, v.sec);
    assert r.channel == v.channel && r.tx == v.tx;
    assert r.periodTX == v.periodTX && r.periodRX == v.periodRX && r.periodRXAll == v.periodRXAll;
  }
}
