/**
  The notified worker of src/concurrency/NotifiedWorkerThread.cpp: a thread that runs once per
  notification, with notifications arriving from the main thread and from interrupts.

  Each main-thread statement is one step; an interrupt's `notifyCommon` happens at once, between any
  two of them. Delivered, overwritten and written notifications are kept in history variables.
*/
module NotifiedWorker {
  import opened Words

  /** Where the main thread is: outside, or before the named statement of a method. */
  datatype Pc =
    | Outside
    | EnableFor(v: u32)     // notifyCommon: test passed, before `enabled = true`
    | WriteOf(v: u32)       // notifyCommon: before `notification = v`
    | ExchangeInRun         // runOnce: `enabled` cleared, before the exchange
    | Exchange              // checkNotification, called on its own

  /** `writes` lists the values ever written; the write numbers in `delivered` and `overwritten` index
      it. */
  datatype State = State(
    enabled: bool, notification: u32, pc: Pc,
    writes: seq<u32>, delivered: seq<nat>, overwritten: set<nat>)

  const BOOT := State(true, 0, Outside, [], [], {})

  function WriteNotification(s: State, v: u32): State {
    s.(notification := v, writes := s.writes + [v],
       overwritten := s.overwritten + if s.notification != 0 && |s.writes| > 0 then {|s.writes| - 1} else {})
  }

  /** `notification.exchange(0)`, and `onNotify` when it was not 0. */
  function TakeNotification(s: State): State {
    s.(notification := 0,
       delivered := s.delivered + if s.notification != 0 && |s.writes| > 0 then [|s.writes| - 1] else [])
  }

  datatype Step =
    | Isr(v: u32, overwrite: bool)
    | CallNotify(v: u32, overwrite: bool)
    | CallCheck
    | CallRunOnce
    | Continue

  function Next(s: State, step: Step): State {
    match step
    case Isr(v, overwrite) =>
      if overwrite || s.notification == 0 then WriteNotification(s.(enabled := true), v) else s
    case CallNotify(v, overwrite) =>
      if s.pc.Outside? && (overwrite || s.notification == 0) then s.(pc := EnableFor(v)) else s
    case CallCheck => if s.pc.Outside? then s.(pc := Exchange) else s
    case CallRunOnce => if s.pc.Outside? then s.(enabled := false, pc := ExchangeInRun) else s
    case Continue =>
      match s.pc
      case Outside => s
      case EnableFor(v) => s.(enabled := true, pc := WriteOf(v))
      case WriteOf(v) => WriteNotification(s, v).(pc := Outside)
      case ExchangeInRun => TakeNotification(s).(pc := Outside)
      case Exchange => TakeNotification(s).(pc := Outside)
  }

  function Run(steps: seq<Step>): State {
    if steps == [] then BOOT else Next(Run(steps[..|steps| - 1]), steps[|steps| - 1])
  }

  /** What became of a write: it may still be pending, or it wrote 0 and means nothing. */
  ghost predicate Accounted(s: State, i: nat)
    requires i < |s.writes|
  {
    s.writes[i] == 0 || i in s.delivered || i in s.overwritten || (i == |s.writes| - 1 && s.notification == s.writes[i])
  }

  ghost predicate Inv(s: State) {
    && (s.notification != 0 && !s.pc.ExchangeInRun? ==> s.enabled)
    && (s.pc.WriteOf? ==> s.enabled)
    && (s.notification != 0 ==> |s.writes| > 0 && s.writes[|s.writes| - 1] == s.notification)
    && (forall k :: 0 <= k < |s.delivered| ==> s.delivered[k] < |s.writes| && s.writes[s.delivered[k]] != 0)
    && (forall j, k :: 0 <= j < k < |s.delivered| ==> s.delivered[j] < s.delivered[k])
    && (forall i :: i in s.overwritten ==> i + 1 < |s.writes| && i !in s.delivered)
    && (s.notification != 0 ==> |s.writes| - 1 !in s.delivered)
    && (forall i :: 0 <= i < |s.writes| ==> Accounted(s, i))
  }

  lemma WriteKeepsInv(s: State, v: u32, pc: Pc)
    requires Inv(s) && s.enabled
    ensures Inv(WriteNotification(s, v).(pc := pc))
  {
    var t := WriteNotification(s, v).(pc := pc);
    forall i | 0 <= i < |t.writes| ensures Accounted(t, i) {
      if i < |s.writes| { assert Accounted(s, i); }
    }
  }

  lemma TakeKeepsInv(s: State)
    requires Inv(s)
    ensures Inv(TakeNotification(s).(pc := Outside))
  {
    var t := TakeNotification(s).(pc := Outside);
    forall i | 0 <= i < |t.writes| ensures Accounted(t, i) {
      assert Accounted(s, i);
      if i == |s.writes| - 1 && s.notification != 0 { assert t.delivered[|s.delivered|] == i; }
      if k :| 0 <= k < |s.delivered| && s.delivered[k] == i { assert t.delivered[k] == i; }
    }
  }

  lemma StaysAccounted(s: State, t: State)
    requires t == s.(enabled := t.enabled, pc := t.pc)
    requires forall i :: 0 <= i < |s.writes| ==> Accounted(s, i)
    ensures forall i :: 0 <= i < |t.writes| ==> Accounted(t, i)
  {
    forall i | 0 <= i < |t.writes| ensures Accounted(t, i) { assert Accounted(s, i); }
  }

  lemma NextKeepsInv(s: State, step: Step)
    requires Inv(s)
    ensures Inv(Next(s, step))
  {
    StaysAccounted(s, s.(enabled := true));
    match step
    case Isr(v, _) => WriteKeepsInv(s.(enabled := true), v, s.pc);
    case CallNotify(v, _) => StaysAccounted(s, s.(pc := EnableFor(v)));
    case CallCheck => StaysAccounted(s, s.(pc := Exchange));
    case CallRunOnce => StaysAccounted(s, s.(enabled := false, pc := ExchangeInRun));
    case Continue =>
      match s.pc
      case Outside =>
      case EnableFor(v) => StaysAccounted(s, s.(enabled := true, pc := WriteOf(v)));
      case WriteOf(v) => WriteKeepsInv(s, v, Outside);
      case ExchangeInRun => TakeKeepsInv(s);
      case Exchange => TakeKeepsInv(s);
  }

  lemma {:induction false} RunInv(steps: seq<Step>)
    ensures Inv(Run(steps))
  {
    if steps != [] {
      RunInv(steps[..|steps| - 1]);
      NextKeepsInv(Run(steps[..|steps| - 1]), steps[|steps| - 1]);
    }
  }

  /** No lost wakeup, wherever interrupts fall between the main thread's statements: whenever the main
      thread is outside these methods, a pending notification leaves the thread enabled. Nothing is
      delivered twice, and every non-zero notification written has been delivered, is pending, or was
      overwritten by the next one. */
  lemma NoLostWakeup(steps: seq<Step>)
    ensures var s := Run(steps);
            && (s.pc.Outside? && s.notification != 0 ==> s.enabled)
            && (forall j, k :: 0 <= j < k < |s.delivered| ==> s.delivered[j] < s.delivered[k])
            && (forall i :: 0 <= i < |s.writes| && s.writes[i] != 0 ==>
                  || i in s.delivered || i in s.overwritten
                  || (i == |s.writes| - 1 && s.notification == s.writes[i]))
            && (forall i :: i in s.overwritten ==> i !in s.delivered)
  {
    RunInv(steps);
    var s := Run(steps);
    forall i | 0 <= i < |s.writes| && s.writes[i] != 0
      ensures i in s.delivered || i in s.overwritten || (i == |s.writes| - 1 && s.notification == s.writes[i])
    {
      assert Accounted(s, i);
    }
  }

  /** The main thread's test and write are not one step: an interrupt's notification that was accepted
      without `overwrite`, between the two, is overwritten by a `notify` that asked not to. */
  lemma AcceptedNotificationLost(v: u32, w: u32)
    requires v != 0
    ensures var s := Run([CallNotify(w, false), Isr(v, false), Continue, Continue]);
            s.writes == [v, w] && 0 in s.overwritten && s.pc.Outside?
  {
    var steps := [CallNotify(w, false), Isr(v, false), Continue, Continue];
    assert steps[..3] == [CallNotify(w, false), Isr(v, false), Continue];
    assert steps[..3][..2] == [CallNotify(w, false), Isr(v, false)];
    assert steps[..3][..2][..1] == [CallNotify(w, false)];
    assert Run([CallNotify(w, false)]) == BOOT.(pc := EnableFor(w));
    assert Run(steps[..3][..2]) == WriteNotification(BOOT.(pc := EnableFor(w)), v);
    assert Run(steps[..3]) == WriteNotification(BOOT.(pc := WriteOf(w)), v);
  }

  /** Nobody asks to overwrite. */
  ghost predicate Polite(steps: seq<Step>) {
    forall k :: 0 <= k < |steps| ==> !((steps[k].Isr? || steps[k].CallNotify?) && steps[k].overwrite)
  }

  /** The main thread is between the test of `notifyCommon` and its write. */
  predicate Notifying(s: State) { s.pc.EnableFor? || s.pc.WriteOf? }

  /** An interrupt's non-zero notification, accepted there. */
  predicate Races(s: State, step: Step) {
    step.Isr? && step.v != 0 && s.notification == 0 && Notifying(s)
  }

  ghost predicate Raced(steps: seq<Step>) {
    exists k :: 0 <= k < |steps| && Races(Run(steps[..k]), steps[k])
  }

  lemma RacedSnoc(steps: seq<Step>, step: Step)
    ensures Raced(steps + [step]) <==> Raced(steps) || Races(Run(steps), step)
  {
    hide Races, Run;
    var longer := steps + [step];
    assert longer[..|steps|] == steps && longer[|steps|] == step;
    if k :| 0 <= k < |steps| && Races(Run(steps[..k]), steps[k]) {
      assert longer[..k] == steps[..k] && longer[k] == steps[k];
    }
    if k :| 0 <= k < |longer| && Races(Run(longer[..k]), longer[k]) {
      if k < |steps| { assert longer[..k] == steps[..k] && longer[k] == steps[k]; }
    }
  }

  /** A notification is lost already, or will be at the main thread's write. */
  predicate LossUnderWay(s: State) {
    s.overwritten != {} || (Notifying(s) && s.notification != 0)
  }

  lemma StepLoses(s: State, step: Step)
    requires Inv(s) && !((step.Isr? || step.CallNotify?) && step.overwrite)
    ensures LossUnderWay(Next(s, step)) <==> LossUnderWay(s) || Races(s, step)
  {
  }

  lemma {:induction false} LossUnderWayIff(steps: seq<Step>)
    requires Polite(steps)
    ensures LossUnderWay(Run(steps)) <==> Raced(steps)
  {
    hide Races, LossUnderWay, Next, Inv;
    if steps == [] {
      NothingLostAtBoot();
    } else {
      var before, step := steps[..|steps| - 1], steps[|steps| - 1];
      assert before + [step] == steps;
      LossUnderWayIff(before);
      RunInv(before);
      StepLoses(Run(before), step);
      RacedSnoc(before, step);
    }
  }

  lemma NothingLostAtBoot()
    ensures !LossUnderWay(Run([]))
  {
  }

  /** Exactly when notifications get lost although nobody asks to overwrite: over any run that ends with
      the main thread outside these methods, one has been overwritten if and only if an interrupt's
      non-zero notification was accepted between a main-thread `notify`'s test and its write. */
  lemma LostIffRaced(steps: seq<Step>)
    requires Polite(steps) && Run(steps).pc.Outside?
    ensures Run(steps).overwritten != {} <==> Raced(steps)
  {
    LossUnderWayIff(steps);
  }

  /** Without such a race every non-zero notification written is delivered, in order, or pending. */
  lemma UnracedLoseNothing(steps: seq<Step>)
    requires Polite(steps) && !Raced(steps)
    ensures var s := Run(steps);
            && (forall i :: 0 <= i < |s.writes| && s.writes[i] != 0 ==>
                  i in s.delivered || (i == |s.writes| - 1 && s.notification == s.writes[i]))
            && (forall j, k :: 0 <= j < k < |s.delivered| ==> s.delivered[j] < s.delivered[k])
  {
    LossUnderWayIff(steps);
    NoLostWakeup(steps);
  }

  lemma RunSnoc(steps: seq<Step>, step: Step)
    ensures Run(steps + [step]) == Next(Run(steps), step)
  {
    assert (steps + [step])[..|steps|] == steps;
  }

  lemma NotifyThenContinue(s: State, v: u32, overwrite: bool)
    requires s.pc.Outside?
    ensures Next(Next(Next(s, CallNotify(v, overwrite)), Continue), Continue) == Next(s, Isr(v, overwrite))
  {
  }

  /** Left alone, a main-thread `notify` does what an interrupt's does at once. */
  lemma NotifyUninterrupted(steps: seq<Step>, v: u32, overwrite: bool)
    requires Run(steps).pc.Outside?
    ensures Run(steps + [CallNotify(v, overwrite)] + [Continue] + [Continue]) == Run(steps + [Isr(v, overwrite)])
  {
    hide Run, Next;
    NotifyThenContinue(Run(steps), v, overwrite);
    RunSnoc(steps, Isr(v, overwrite));
    RunSnoc(steps, CallNotify(v, overwrite));
    RunSnoc(steps + [CallNotify(v, overwrite)], Continue);
    RunSnoc(steps + [CallNotify(v, overwrite)] + [Continue], Continue);
  }

  /** Left alone, `runOnce` delivers what is pending and leaves the thread disabled with nothing
      pending. */
  lemma RunOnceUninterrupted(steps: seq<Step>)
    requires Run(steps).pc.Outside?
    ensures var s, t := Run(steps), Run(steps + [CallRunOnce] + [Continue]);
            && t.pc.Outside? && !t.enabled && t.notification == 0
            && t.delivered == s.delivered + if s.notification == 0 then [] else [|s.writes| - 1]
  {
    hide Run;
    RunInv(steps);
    RunSnoc(steps, CallRunOnce);
    RunSnoc(steps + [CallRunOnce], Continue);
  }

  // ---------------------------------------------------------------- the code, uninterrupted

  class NotifiedWorkerThread {
    var enabled: bool
    var notification: u32

    constructor ()
      ensures enabled && notification == 0
    {
      enabled, notification := true, 0;
    }

    method NotifyCommon(v: u32, overwrite: bool) returns (r: bool)
      modifies this
      ensures r <==> overwrite || old(notification) == 0
      ensures if r then enabled && notification == v else enabled == old(enabled) && notification == old(notification)
    {
      if overwrite || notification == 0 {
        enabled := true;
        notification := v;
        return true;
      }
      return false;
    }

    /** The value handed to `onNotify`, 0 for no call. */
    method CheckNotification() returns (n: u32)
      modifies this`notification
      ensures n == old(notification) && notification == 0
    {
      n := notification;
      notification := 0;
    }

    method RunOnce() returns (n: u32)
      modifies this
      ensures n == old(notification) && notification == 0 && !enabled
    {
      enabled := false;
      n := CheckNotification();
    }
  }
}
