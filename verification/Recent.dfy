/** The API's bounded map of machines that reported most recently. */
module Recent {
  datatype StatusReport =
    StatusReport(serial: string, mac: string, state: string, percent: int, message: string, model: string)

  datatype MachineState = MachineState(report: StatusReport, updated: int)

  const MAX_MACHINES: nat := 2048

  /** Go's map order is arbitrary, so among equally old entries any one may go. */
  ghost predicate Oldest(m: map<string, MachineState>, k: string) {
    k in m && forall j :: j in m ==> m[k].updated <= m[j].updated
  }

  /** What one report does to the map. */
  ghost predicate Recorded(m: map<string, MachineState>, r: StatusReport, now: int, m': map<string, MachineState>) {
    if r.serial in m || |m| < MAX_MACHINES then m' == m[r.serial := MachineState(r, now)]
    else exists k :: Oldest(m, k) && m' == (m - {k})[r.serial := MachineState(r, now)]
  }

  class Machines {
    var machines: map<string, MachineState>

    constructor ()
      ensures machines == map[]
    {
      machines := map[];
    }

    /** Adds or updates the reporting machine; at capacity, scans for the entry updated longest ago and drops it. */
    method RecordMachine(r: StatusReport, now: int)
      modifies this
      ensures Recorded(old(machines), r, now, machines)
      ensures old(|machines|) <= MAX_MACHINES ==> |machines| <= MAX_MACHINES
    {
      if r.serial !in machines && |machines| >= MAX_MACHINES {
        var oldestKey, oldest, first := "", 0, true;
        var todo := machines.Keys;
        while todo != {}
          invariant todo <= machines.Keys
          invariant first ==> todo == machines.Keys
          invariant !first ==> oldestKey in machines && machines[oldestKey].updated == oldest
          invariant !first ==> forall j :: j in machines && j !in todo ==> oldest <= machines[j].updated
          decreases todo
        {
          var k :| k in todo;
          todo := todo - {k};
          if first || machines[k].updated < oldest {
            oldest, oldestKey, first := machines[k].updated, k, false;
          }
        }
        assert |machines.Keys| == |machines| && (machines.Keys == {} ==> |machines.Keys| == 0);
        assert Oldest(machines, oldestKey);
        assert (machines - {oldestKey}).Keys == machines.Keys - {oldestKey};
        machines := machines - {oldestKey};
      }
      assert machines[r.serial := MachineState(r, now)].Keys == machines.Keys + {r.serial};
      machines := machines[r.serial := MachineState(r, now)];
    }

    /** The debug view: one entry for each machine held. */
    method Snapshot() returns (out: seq<MachineState>, ghost order: seq<string>)
      ensures |out| == |order| == |machines|
      ensures forall k :: k in machines <==> k in order
      ensures forall i :: 0 <= i < |order| ==> order[i] in machines && out[i] == machines[order[i]]
    {
      out, order := [], [];
      var todo := machines.Keys;
      while todo != {}
        invariant todo <= machines.Keys && |out| == |order| && |order| + |todo| == |machines.Keys|
        invariant forall k :: k in order <==> k in machines && k !in todo
        invariant forall i :: 0 <= i < |order| ==> order[i] in machines && out[i] == machines[order[i]]
        decreases todo
      {
        var k :| k in todo;
        todo := todo - {k};
        out, order := out + [machines[k]], order + [k];
      }
    }
  }

  // ---- which machines are held, said of the history alone ----

  datatype Entry = Entry(report: StatusReport, at: int)

  /** Where a machine last reported; -1 if it never did. */
  function Last(h: seq<Entry>, s: string): (i: int)
    ensures -1 <= i < |h|
    ensures i >= 0 ==> h[i].report.serial == s
  {
    if h == [] then -1
    else if h[|h| - 1].report.serial == s then |h| - 1
    else Last(h[..|h| - 1], s)
  }

  lemma {:induction false} LastIsLast(h: seq<Entry>, s: string, j: int)
    requires 0 <= j < |h| && h[j].report.serial == s
    ensures j <= Last(h, s)
  {
    if j < |h| - 1 {
      LastIsLast(h[..|h| - 1], s, j);
    }
  }

  /** The machines that have reported since s last did. */
  function Later(h: seq<Entry>, s: string): set<string> {
    set i | Last(h, s) < i < |h| :: h[i].report.serial
  }

  /** s has reported, and fewer than 2048 other machines have since. */
  ghost predicate AmongMostRecent(h: seq<Entry>, s: string) {
    Last(h, s) >= 0 && |Later(h, s)| < 2048
  }

  /** s is held exactly if it is among the most recent, and then with its last report. */
  ghost predicate HeldRight(m: map<string, MachineState>, h: seq<Entry>, s: string) {
    && (s in m <==> AmongMostRecent(h, s))
    && (s in m ==> m[s] == MachineState(h[Last(h, s)].report, h[Last(h, s)].at))
  }

  ghost predicate HoldsMostRecent(m: map<string, MachineState>, h: seq<Entry>) {
    && (forall s :: HeldRight(m, h, s))
    && |m| <= 2048
    && (|m| < 2048 ==> forall s :: Last(h, s) >= 0 ==> s in m)
  }

  ghost predicate Increasing(h: seq<Entry>) {
    forall i, j :: 0 <= i < j < |h| ==> h[i].at < h[j].at
  }

  lemma LaterIs(h: seq<Entry>, s: string, t: string)
    ensures t in Later(h, s) <==> Last(h, t) > Last(h, s)
  {
  }

  lemma LaterShrinks(h: seq<Entry>, s: string, t: string)
    requires Last(h, s) < Last(h, t)
    ensures Later(h, t) + {t} <= Later(h, s) && t !in Later(h, t)
    ensures |Later(h, t)| < |Later(h, s)|
  {
    LaterIs(h, s, t);
    LaterIs(h, t, t);
    forall x | x in Later(h, t) ensures x in Later(h, s) {
      LaterIs(h, t, x);
      LaterIs(h, s, x);
    }
    Smaller(Later(h, t), t, Later(h, s));
  }

  lemma Smaller(a: set<string>, x: string, b: set<string>)
    requires a + {x} <= b && x !in a
    ensures |a| + 1 <= |b|
  {
    assert b == (a + {x}) + (b - (a + {x}));
    assert |a + {x}| == |a| + 1;
  }

  /** What one more report does to Last and Later. */
  lemma NextReport(h: seq<Entry>, e: Entry, s: string)
    ensures var h' := h + [e];
            && Last(h', s) == (if s == e.report.serial then |h| else Last(h, s))
            && Later(h', s) == if s == e.report.serial then {} else Later(h, s) + {e.report.serial}
  {
  }

  lemma OldestReportedFirst(m: map<string, MachineState>, h: seq<Entry>, k: string, s: string)
    requires HoldsMostRecent(m, h) && Increasing(h) && Oldest(m, k) && s in m && s != k
    ensures Last(h, k) < Last(h, s)
  {
    assert HeldRight(m, h, k) && HeldRight(m, h, s);
    assert h[Last(h, k)].at <= h[Last(h, s)].at;
  }

  /** At capacity, the entry updated longest ago is the one that drops out of the most recent 2048. */
  lemma OldestIsLast(m: map<string, MachineState>, h: seq<Entry>, k: string)
    requires HoldsMostRecent(m, h) && Increasing(h) && Oldest(m, k)
    ensures Later(h, k) == m.Keys - {k}
  {
    forall x
      ensures x in Later(h, k) <==> x in m.Keys - {k}
    {
      LaterIs(h, k, x);
      if x in m && x != k {
        OldestReportedFirst(m, h, k, x);
      }
      if Last(h, k) < Last(h, x) {
        LaterShrinks(h, k, x);
        assert HeldRight(m, h, k) && HeldRight(m, h, x);
      }
    }
  }

  lemma StaysAmong(m: map<string, MachineState>, h: seq<Entry>, e: Entry, s: string)
    requires HoldsMostRecent(m, h) && s in m && s != e.report.serial
    requires e.report.serial in m || |m| < MAX_MACHINES
    ensures AmongMostRecent(h + [e], s)
  {
    var r := e.report.serial;
    NextReport(h, e, s);
    LaterIs(h, s, r);
    assert HeldRight(m, h, s) && HeldRight(m, h, r);
    if r !in Later(h, s) {
      assert |Later(h, s) + {r}| == |Later(h, s)| + 1;
      if r in m {
        LaterShrinks(h, r, s);
      } else {
        NobodyElse(m, h, s);
      }
    }
  }

  /** While there is room, only held machines have ever reported. */
  lemma NobodyElse(m: map<string, MachineState>, h: seq<Entry>, s: string)
    requires HoldsMostRecent(m, h) && s in m && |m| < MAX_MACHINES
    ensures |Later(h, s)| + 1 <= |m|
  {
    forall x | x in Later(h, s)
      ensures x in m.Keys - {s}
    {
      LaterIs(h, s, x);
    }
    LaterIs(h, s, s);
    Smaller(Later(h, s), s, m.Keys);
  }

  lemma StaysAmongOnEviction(m: map<string, MachineState>, h: seq<Entry>, e: Entry, k: string, s: string)
    requires HoldsMostRecent(m, h) && Increasing(h) && Oldest(m, k)
    requires e.report.serial !in m && |m| == MAX_MACHINES && s in m
    ensures AmongMostRecent(h + [e], s) <==> s != k
  {
    OldestIsLast(m, h, k);
    NextReport(h, e, s);
    assert |m.Keys - {k}| == MAX_MACHINES - 1;
    assert HeldRight(m, h, s);
    if s != k {
      OldestReportedFirst(m, h, k, s);
      LaterShrinks(h, k, s);
    }
  }

  lemma OneHeldRight(m: map<string, MachineState>, h: seq<Entry>, e: Entry, m': map<string, MachineState>, s: string)
    requires HoldsMostRecent(m, h) && Increasing(h) && Recorded(m, e.report, e.at, m')
    ensures HeldRight(m', h + [e], s)
  {
    var r := e.report.serial;
    NextReport(h, e, s);
    assert HeldRight(m, h, s);
    if s != r {
      if s !in m {
        NotSmaller(Later(h, s), Later(h + [e], s));
      } else if r in m || |m| < MAX_MACHINES {
        StaysAmong(m, h, e, s);
      } else {
        var k :| Oldest(m, k) && m' == (m - {k})[r := MachineState(e.report, e.at)];
        StaysAmongOnEviction(m, h, e, k, s);
      }
    }
  }

  /** One report keeps the map at exactly the most recent machines. */
  lemma ReportKeepsMostRecent(m: map<string, MachineState>, h: seq<Entry>, e: Entry, m': map<string, MachineState>)
    requires HoldsMostRecent(m, h) && Increasing(h) && Recorded(m, e.report, e.at, m')
    ensures HoldsMostRecent(m', h + [e])
  {
    forall s
      ensures HeldRight(m', h + [e], s)
    {
      OneHeldRight(m, h, e, m', s);
    }
    SizeAfter(m, e, m');
    if |m'| < MAX_MACHINES {
      forall s | Last(h + [e], s) >= 0
        ensures s in m'
      {
        NextReport(h, e, s);
      }
    }
  }

  lemma NotSmaller(a: set<string>, b: set<string>)
    requires a <= b
    ensures |a| <= |b|
  {
    assert b == a + (b - a);
  }

  lemma SizeAfter(m: map<string, MachineState>, e: Entry, m': map<string, MachineState>)
    requires |m| <= MAX_MACHINES && Recorded(m, e.report, e.at, m')
    ensures |m'| <= MAX_MACHINES
    ensures |m'| < MAX_MACHINES ==> |m| < MAX_MACHINES && m' == m[e.report.serial := MachineState(e.report, e.at)]
  {
  }

  /** The maps that a run of reports goes through. */
  ghost predicate Run(h: seq<Entry>, ms: seq<map<string, MachineState>>) {
    && |ms| == |h| + 1 && ms[0] == map[]
    && forall i :: 0 <= i < |h| ==> Recorded(ms[i], h[i].report, h[i].at, ms[i + 1])
  }

  lemma RunFront(h: seq<Entry>, ms: seq<map<string, MachineState>>)
    requires h != [] && Run(h, ms) && Increasing(h)
    ensures Run(h[..|h| - 1], ms[..|h|]) && Increasing(h[..|h| - 1]) && ms[..|h|][|h| - 1] == ms[|h| - 1]
  {
    var front, n := h[..|h| - 1], |h| - 1;
    forall i | 0 <= i < n
      ensures Recorded(ms[..|h|][i], front[i].report, front[i].at, ms[..|h|][i + 1])
    {
      assert front[i] == h[i];
    }
  }

  /** After any run of reports under a strictly increasing clock, the map holds exactly the 2048 machines that
      reported most recently (all of them if fewer), each with its last report. */
  lemma {:induction false} HoldsExactlyMostRecent(h: seq<Entry>, ms: seq<map<string, MachineState>>)
    requires Increasing(h) && Run(h, ms)
    ensures HoldsMostRecent(ms[|h|], h)
  {
    if h != [] {
      var n := |h| - 1;
      RunFront(h, ms);
      HoldsExactlyMostRecent(h[..n], ms[..n + 1]);
      assert h[..n] + [h[n]] == h;
      ReportKeepsMostRecent(ms[n], h[..n], h[n], ms[n + 1]);
    }
  }
}
