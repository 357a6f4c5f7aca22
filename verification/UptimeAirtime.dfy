/** The airtime windows driven by the uptime clock: the clock's guarantees discharge the windows'
    assumption that time never goes back. */
module UptimeAirtime {
  import opened Words
  import Clock = UptimeClock
  import opened Airtime

  /** Call i of the windows read the clock as answer `asked[i]`, and used it as its second. */
  ghost predicate Timed(answers: seq<Clock.Answer>, asked: seq<nat>, ops: seq<Op>) {
    && |asked| == |ops|
    && (forall i :: 0 <= i < |asked| ==> asked[i] < |answers| && ops[i].now == Clock.UptimeSecs(answers[asked[i]].ms))
    && (forall i, j :: 0 <= i <= j < |asked| ==> asked[i] <= asked[j])
  }

  /** Windows whose every call takes its second from a racing, wrapping clock hold exactly the log
      keyed to true uptime, whatever the interleaving of clock threads and however many wraps. */
  lemma WindowsOnTheClock(readers: nat, steps: seq<Clock.Step>, asked: seq<nat>, ops: seq<Op>)
    requires Clock.NoLapRun(Clock.Boot(readers), steps) && Clock.FreshRun(readers, steps)
    requires Timed(Clock.Run(Clock.Boot(readers), steps).answers, asked, ops) && ops != []
    requires Clock.Run(Clock.Boot(readers), steps).answers[asked[|asked| - 1]].at / 1000 < TWO_32
    ensures var answers := Clock.Run(Clock.Boot(readers), steps).answers;
            && (forall i :: 0 <= i < |ops| ==> ops[i].now == answers[asked[i]].at / 1000)
            && Run(ops).view == ViewOf(EventsOf(ops), answers[asked[|asked| - 1]].at / 1000)
  {
    Clock.MonotonicTimeIsExact(readers, steps);
    Clock.UptimeSecsIsExact(readers, steps);
    var answers := Clock.Run(Clock.Boot(readers), steps).answers;
    var last := asked[|asked| - 1];
    forall i | 0 <= i < |ops| ensures ops[i].now == answers[asked[i]].at / 1000 {
      assert asked[i] <= last;
      assert answers[asked[i]].at <= answers[last].at;
    }
    forall i, j | 0 <= i <= j < |ops| ensures ops[i].now <= ops[j].now {
      assert asked[i] <= asked[j];
      assert answers[asked[i]].at <= answers[asked[j]].at;
    }
    WindowsRefineLog(ops);
  }
}
