/** The admin's event and audit tables: append-only rows with growing ids, capped by pruning. */
module Events {
  import opened Bytes

  // ---- a table ----

  datatype Row<T> = Row(id: nat, v: T)

  datatype Op<T> = Insert(v: T) | Prune(maxRows: int)

  /** The rows with a greater id. */
  function Newer<T(==)>(rows: seq<Row<T>>, id: nat): set<nat> {
    set i | 0 <= i < |rows| && rows[i].id > id :: rows[i].id
  }

  /** id IN (SELECT id ... ORDER BY id DESC LIMIT n); a negative limit is none. */
  predicate Kept<T(==)>(rows: seq<Row<T>>, n: int, r: Row<T>) {
    n < 0 || |Newer(rows, r.id)| < n
  }

  function Filter<T(==)>(rows: seq<Row<T>>, all: seq<Row<T>>, n: int): seq<Row<T>> {
    if rows == [] then []
    else (if Kept(all, n, rows[0]) then [rows[0]] else []) + Filter(rows[1..], all, n)
  }

  /** DELETE FROM tbl WHERE id NOT IN (...). */
  function Pruned<T(==)>(rows: seq<Row<T>>, n: int): seq<Row<T>> {
    Filter(rows, rows, n)
  }

  /** Everything ever inserted, numbered from 1 as AUTOINCREMENT does. */
  function Numbered<T>(history: seq<T>): seq<Row<T>> {
    seq(|history|, i requires 0 <= i < |history| => Row(i + 1, history[i]))
  }

  ghost predicate IsSuffix<T>(rows: seq<Row<T>>, history: seq<T>) {
    |rows| <= |history| && rows == Numbered(history)[|history| - |rows|..]
  }

  function History<T>(ops: seq<Op<T>>): seq<T> {
    if ops == [] then []
    else History(ops[..|ops| - 1]) + if ops[|ops| - 1].Insert? then [ops[|ops| - 1].v] else []
  }

  function Table<T(==)>(ops: seq<Op<T>>): seq<Row<T>> {
    if ops == [] then []
    else
      var rows := Table(ops[..|ops| - 1]);
      match ops[|ops| - 1]
      case Insert(v) => rows + [Row(|History(ops)|, v)]
      case Prune(n) => Pruned(rows, n)
  }

  lemma {:induction false} NewerCount<T>(rows: seq<Row<T>>, history: seq<T>, i: nat)
    requires IsSuffix(rows, history) && i < |rows|
    ensures |Newer(rows, rows[i].id)| == |rows| - 1 - i
    decreases |rows| - i
  {
    var base := |history| - |rows|;
    assert forall j :: 0 <= j < |rows| ==> rows[j].id == base + j + 1;
    if i == |rows| - 1 {
      assert Newer(rows, rows[i].id) == {};
    } else {
      NewerCount(rows, history, i + 1);
      NewerStep(rows, base, i);
    }
  }

  lemma NewerStep<T>(rows: seq<Row<T>>, base: nat, i: nat)
    requires i + 1 < |rows| && forall j :: 0 <= j < |rows| ==> rows[j].id == base + j + 1
    ensures Newer(rows, rows[i].id) == Newer(rows, rows[i + 1].id) + {rows[i + 1].id}
    ensures rows[i + 1].id !in Newer(rows, rows[i + 1].id)
  {
    var a, b := Newer(rows, rows[i].id), Newer(rows, rows[i + 1].id) + {rows[i + 1].id};
    forall x
      ensures x in a <==> x in b
    {
      if x in a {
        var j :| 0 <= j < |rows| && rows[j].id > rows[i].id && rows[j].id == x;
        assert j == i + 1 || rows[j].id > rows[i + 1].id;
      }
    }
  }

  lemma FilterStep<T>(rows: seq<Row<T>>, all: seq<Row<T>>, n: int, rest: seq<Row<T>>)
    requires rows != [] && Filter(rows[1..], all, n) == rest
    ensures Filter(rows, all, n) == if Kept(all, n, rows[0]) then [rows[0]] + rest else rest
  {
  }

  ghost predicate Ranked<T>(all: seq<Row<T>>) {
    forall j :: 0 <= j < |all| ==> |Newer(all, all[j].id)| == |all| - 1 - j
  }

  lemma {:induction false} FilterIsSuffix<T>(all: seq<Row<T>>, n: int, i: nat)
    requires Ranked(all) && i <= |all|
    ensures Filter(all[i..], all, n) == if n < 0 || |all| - i <= n then all[i..] else all[|all| - n..]
    decreases |all| - i
  {
    if i < |all| {
      FilterIsSuffix(all, n, i + 1);
      var rows := all[i..];
      assert rows[1..] == all[i + 1..] && rows[0] == all[i];
      FilterStep(rows, all, n, Filter(all[i + 1..], all, n));
      assert Kept(all, n, all[i]) <==> n < 0 || |all| - 1 - i < n;
      if Kept(all, n, all[i]) {
        assert [all[i]] + all[i + 1..] == rows;
      } else {
        assert Filter(all[i + 1..], all, n) == all[|all| - n..];
      }
    }
  }

  /** Pruning to n leaves the last n rows. */
  lemma PrunedIsSuffix<T>(rows: seq<Row<T>>, history: seq<T>, n: int)
    requires IsSuffix(rows, history)
    ensures Pruned(rows, n) == if n < 0 || |rows| <= n then rows else rows[|rows| - n..]
    ensures IsSuffix(Pruned(rows, n), history)
  {
    forall i | 0 <= i < |rows|
      ensures |Newer(rows, rows[i].id)| == |rows| - 1 - i
    {
      NewerCount(rows, history, i);
    }
    FilterIsSuffix(rows, n, 0);
    assert rows[0..] == rows;
  }

  /** After any interleaving of inserts and prunes, the table is the tail of everything ever inserted, and a
      prune to n leaves min(n, size) rows. */
  lemma {:induction false} TableIsSuffix<T>(ops: seq<Op<T>>)
    ensures IsSuffix(Table(ops), History(ops))
    ensures ops != [] && ops[|ops| - 1].Prune? && ops[|ops| - 1].maxRows >= 0 ==>
              |Table(ops)| == Min(ops[|ops| - 1].maxRows, |Table(ops[..|ops| - 1])|)
  {
    if ops != [] {
      var front, op := ops[..|ops| - 1], ops[|ops| - 1];
      TableIsSuffix(front);
      var rows, history := Table(front), History(front);
      if op.Prune? {
        PrunedIsSuffix(rows, history, op.maxRows);
        assert History(ops) == history;
      } else {
        var all := Numbered(history + [op.v]);
        assert all[..|history|] == Numbered(history);
        assert all[|history| - |rows|..] == rows + [Row(|history| + 1, op.v)];
      }
    }
  }

  // ---- the deploy_event table and its views ----

  datatype Kind = Status | Log

  datatype Event = Event(ts: string, kind: Kind, serial: string, mac: string, state: string, percent: int,
                         message: string, model: string, level: string)

  predicate Matches(r: Row<Event>, serial: string) {
    serial == "" || r.v.serial == serial
  }

  /** The newest rows first, of one machine if a serial is given, at most limit of them. */
  function DeployEvents(rows: seq<Row<Event>>, serial: string, limit: nat): seq<Row<Event>> {
    if rows == [] || limit == 0 then []
    else
      var last := rows[|rows| - 1];
      if Matches(last, serial) then [last] + DeployEvents(rows[..|rows| - 1], serial, limit - 1)
      else DeployEvents(rows[..|rows| - 1], serial, limit)
  }

  ghost predicate NewestPage(rows: seq<Row<Event>>, page: seq<Row<Event>>, serial: string, limit: nat) {
    && |page| <= limit
    && (forall i :: 0 <= i < |page| ==> page[i] in rows && (serial == "" || page[i].v.serial == serial))
    && (forall i, j :: 0 <= i < j < |page| ==> page[i].id > page[j].id)
    && (forall r :: r in rows && (serial == "" || r.v.serial == serial) && r !in page ==>
          |page| == limit && forall i :: 0 <= i < |page| ==> page[i].id > r.id)
  }

  lemma PageGrows(rows: seq<Row<Event>>, page: seq<Row<Event>>, last: Row<Event>, serial: string, limit: nat)
    requires NewestPage(rows, page, serial, limit) && Matches(last, serial)
    requires forall i :: 0 <= i < |rows| ==> rows[i].id < last.id
    ensures NewestPage(rows + [last], [last] + page, serial, limit + 1)
  {
  }

  /** A page holds matching rows only, newest first, and a matching row is missing only if the page is full of
      newer ones. */
  lemma {:induction false} PageIsNewest(rows: seq<Row<Event>>, serial: string, limit: nat)
    requires Increasing(rows)
    ensures NewestPage(rows, DeployEvents(rows, serial, limit), serial, limit)
  {
    if rows != [] && limit > 0 {
      var front, last := rows[..|rows| - 1], rows[|rows| - 1];
      assert rows == front + [last];
      assert forall i :: 0 <= i < |front| ==> front[i] == rows[i];
      if Matches(last, serial) {
        PageIsNewest(front, serial, limit - 1);
        PageGrows(front, DeployEvents(front, serial, limit - 1), last, serial, limit - 1);
      } else {
        PageIsNewest(front, serial, limit);
      }
    }
  }

  /** A page read from a pruned table is the front of the page the whole history would give; with no serial
      given, and no more rows asked for than were kept, it is that page. */
  lemma {:induction false} PruningKeepsPages(rows: seq<Row<Event>>, all: seq<Row<Event>>, serial: string, limit: nat)
    requires |rows| <= |all| && rows == all[|all| - |rows|..]
    ensures DeployEvents(rows, serial, limit) <= DeployEvents(all, serial, limit)
    ensures serial == "" && limit <= |rows| ==> DeployEvents(rows, serial, limit) == DeployEvents(all, serial, limit)
    decreases |rows|
  {
    if rows != [] && limit > 0 {
      var r, a := rows[..|rows| - 1], all[..|all| - 1];
      assert r == a[|a| - |r|..] && rows[|rows| - 1] == all[|all| - 1];
      if Matches(rows[|rows| - 1], serial) {
        PruningKeepsPages(r, a, serial, limit - 1);
      } else {
        PruningKeepsPages(r, a, serial, limit);
      }
    }
  }

  ghost predicate LexLe(a: string, b: string) {
    a == [] || (b != [] && (a[0] < b[0] || (a[0] == b[0] && LexLe(a[1..], b[1..]))))
  }

  /** WHERE kind='status' AND id IN (SELECT MAX(id) ... GROUP BY serial) */
  ghost predicate LatestStatus(rows: seq<Row<Event>>, r: Row<Event>) {
    && r in rows && r.v.kind.Status?
    && forall x :: x in rows && x.v.kind.Status? && x.v.serial == r.v.serial ==> x.id <= r.id
  }

  /** A result of the fleet query: each qualifying row once, by ts descending. */
  ghost predicate IsFleet(rows: seq<Row<Event>>, out: seq<Row<Event>>) {
    && (forall i, j :: 0 <= i < j < |out| ==> out[i] != out[j] && LexLe(out[j].v.ts, out[i].v.ts))
    && (forall r :: r in out <==> LatestStatus(rows, r))
  }

  /** The fleet by folding over the rows in order, keeping the last status of each serial. */
  function FoldFleet(rows: seq<Row<Event>>): map<string, Row<Event>> {
    if rows == [] then map[]
    else
      var m, last := FoldFleet(rows[..|rows| - 1]), rows[|rows| - 1];
      if last.v.kind.Status? then m[last.v.serial := last] else m
  }

  ghost predicate Increasing(rows: seq<Row<Event>>) {
    forall i, j :: 0 <= i < j < |rows| ==> rows[i].id < rows[j].id
  }

  /** A row with a greater id takes over its serial and leaves the others alone. */
  lemma LatestAfter(front: seq<Row<Event>>, last: Row<Event>, r: Row<Event>)
    requires forall i :: 0 <= i < |front| ==> front[i].id < last.id
    ensures LatestStatus(front + [last], r) <==>
              if last.v.kind.Status? && last.v.serial == r.v.serial then r == last else LatestStatus(front, r)
  {
  }

  lemma {:induction false} FoldIsLatest(rows: seq<Row<Event>>, r: Row<Event>)
    requires Increasing(rows)
    ensures LatestStatus(rows, r) <==> r.v.serial in FoldFleet(rows) && FoldFleet(rows)[r.v.serial] == r
  {
    if rows != [] {
      var front, last := rows[..|rows| - 1], rows[|rows| - 1];
      FoldIsLatest(front, r);
      LatestAfter(front, last, r);
      assert rows == front + [last];
    }
  }

  /** Whatever order the clocks put the rows in, the fleet lists each machine once, with the row a left-to-right
      fold ends up with, and lists every machine the fold knows. */
  lemma FleetIsFold(rows: seq<Row<Event>>, out: seq<Row<Event>>)
    requires Increasing(rows) && IsFleet(rows, out)
    ensures forall i, j :: 0 <= i < j < |out| ==> out[i].v.serial != out[j].v.serial
    ensures forall i :: 0 <= i < |out| ==> out[i].v.serial in FoldFleet(rows) && FoldFleet(rows)[out[i].v.serial] == out[i]
    ensures forall s :: s in FoldFleet(rows) ==> FoldFleet(rows)[s] in out
  {
    forall i | 0 <= i < |out|
      ensures out[i].v.serial in FoldFleet(rows) && FoldFleet(rows)[out[i].v.serial] == out[i]
    {
      assert out[i] in out;
      FoldIsLatest(rows, out[i]);
    }
    forall s | s in FoldFleet(rows)
      ensures FoldFleet(rows)[s] in out
    {
      FoldKeys(rows, s);
      FoldIsLatest(rows, FoldFleet(rows)[s]);
    }
  }

  lemma EachOnce(rows: seq<Row<Event>>, out: seq<Row<Event>>)
    requires Increasing(rows) && IsFleet(rows, out)
    ensures forall i, j :: 0 <= i < j < |out| ==> out[i].v.serial != out[j].v.serial
  {
    FleetIsFold(rows, out);
  }

  lemma {:induction false} FoldKeys(rows: seq<Row<Event>>, s: string)
    requires s in FoldFleet(rows)
    ensures FoldFleet(rows)[s].v.serial == s
  {
    var front, last := rows[..|rows| - 1], rows[|rows| - 1];
    if !(last.v.kind.Status? && last.v.serial == s) {
      FoldKeys(front, s);
    }
  }

  // ---- there always is such an answer ----

  /** Text order: a front comes first, and otherwise the first difference decides. */
  lemma {:induction false} LexLeMeans(a: string, b: string)
    ensures LexLe(a, b) <==> a <= b || exists i :: 0 <= i < |a| && i < |b| && a[..i] == b[..i] && a[i] < b[i]
  {
    if a != [] && b != [] && a[0] == b[0] {
      var (x, y) := (a[1..], b[1..]);
      LexLeMeans(x, y);
      assert a == [a[0]] + x && b == [a[0]] + y;
      if i :| 0 <= i < |x| && i < |y| && x[..i] == y[..i] && x[i] < y[i] {
        assert a[..i + 1] == [a[0]] + x[..i] && b[..i + 1] == [a[0]] + y[..i];
        assert a[i + 1] < b[i + 1];
      }
      if i :| 0 <= i < |a| && i < |b| && a[..i] == b[..i] && a[i] < b[i] {
        assert i > 0;
        assert x[..i - 1] == a[..i][1..] && y[..i - 1] == b[..i][1..];
        assert x[i - 1] < y[i - 1];
      }
    } else if a != [] && b != [] {
      assert a[..0] == b[..0];
    }
  }

  lemma {:induction false} LexTotal(a: string, b: string)
    ensures LexLe(a, b) || LexLe(b, a)
  {
    if a != [] && b != [] && a[0] == b[0] {
      LexTotal(a[1..], b[1..]);
    }
  }

  lemma {:induction false} LexTransitive(a: string, b: string, c: string)
    requires LexLe(a, b) && LexLe(b, c)
    ensures LexLe(a, c)
  {
    if a != [] && a[0] == b[0] == c[0] {
      LexTransitive(a[1..], b[1..], c[1..]);
    }
  }

  /** Distinct rows by ts descending. */
  ghost predicate Listed(out: seq<Row<Event>>) {
    forall i, j :: 0 <= i < j < |out| ==> out[i] != out[j] && LexLe(out[j].v.ts, out[i].v.ts)
  }

  lemma {:induction false} InsertByTs(out: seq<Row<Event>>, r: Row<Event>) returns (more: seq<Row<Event>>)
    requires Listed(out) && r !in out
    ensures Listed(more) && forall x :: x in more <==> x == r || x in out
  {
    if out == [] {
      more := [r];
    } else if LexLe(out[0].v.ts, r.v.ts) {
      more := [r] + out;
      forall j | 0 <= j < |out|
        ensures LexLe(out[j].v.ts, r.v.ts) && out[j] != r
      {
        assert out[j] in out;
        if j > 0 { LexTransitive(out[j].v.ts, out[0].v.ts, r.v.ts); }
      }
    } else {
      var rest := InsertByTs(out[1..], r);
      more := [out[0]] + rest;
      LexTotal(out[0].v.ts, r.v.ts);
      forall j | 0 <= j < |rest|
        ensures LexLe(rest[j].v.ts, out[0].v.ts) && rest[j] != out[0]
      {
        assert rest[j] in rest;
        if rest[j] != r {
          var i :| 0 <= i < |out[1..]| && out[1..][i] == rest[j];
          assert out[i + 1] == rest[j];
        }
      }
    }
  }

  lemma {:induction false} Sorted(rows: set<Row<Event>>) returns (out: seq<Row<Event>>)
    ensures Listed(out) && forall r :: r in out <==> r in rows
    decreases |rows|
  {
    out := [];
    if rows != {} {
      var r :| r in rows;
      var rest := Sorted(rows - {r});
      out := InsertByTs(rest, r);
    }
  }

  /** The fleet query always has an answer. */
  lemma FleetExists(rows: seq<Row<Event>>) returns (out: seq<Row<Event>>)
    ensures IsFleet(rows, out)
  {
    out := Sorted(set r | r in rows && LatestStatus(rows, r));
  }

  /** Pruning only forgets machines, it never brings back an older status: a machine listed from the tail of the
      table is listed with its last status ever, and it is listed exactly if that row was kept. */
  lemma {:induction false} PruningNeverAges(rows: seq<Row<Event>>, all: seq<Row<Event>>, s: string)
    requires |rows| <= |all| && rows == all[|all| - |rows|..] && Increasing(all)
    ensures s in FoldFleet(rows) <==> s in FoldFleet(all) && FoldFleet(all)[s] in rows
    ensures s in FoldFleet(rows) ==> FoldFleet(rows)[s] == FoldFleet(all)[s]
    decreases |rows|
  {
    if rows != [] {
      var r, a, last := rows[..|rows| - 1], all[..|all| - 1], all[|all| - 1];
      assert r == a[|a| - |r|..] && rows[|rows| - 1] == last;
      PruningNeverAges(r, a, s);
      FoldBeforeLast(all, s);
      LastOrBefore(rows, r, last);
      StepNeverAges(r, last, s, FoldFleet(r), FoldFleet(a));
    }
  }

  lemma FoldBeforeLast(all: seq<Row<Event>>, s: string)
    requires all != [] && Increasing(all)
    ensures var a := all[..|all| - 1]; s in FoldFleet(a) ==> FoldFleet(a)[s] in a && FoldFleet(a)[s] != all[|all| - 1]
  {
    var a := all[..|all| - 1];
    if s in FoldFleet(a) {
      FoldMember(a, s);
      var i :| 0 <= i < |a| && a[i] == FoldFleet(a)[s];
      assert all[i] == a[i];
    }
  }

  lemma LastOrBefore(rows: seq<Row<Event>>, r: seq<Row<Event>>, last: Row<Event>)
    requires rows != [] && r == rows[..|rows| - 1] && last == rows[|rows| - 1]
    ensures forall x :: x in rows <==> x in r || x == last
  {
    assert rows == r + [last];
  }

  lemma StepNeverAges(r: seq<Row<Event>>, last: Row<Event>, s: string,
                      kept: map<string, Row<Event>>, ever: map<string, Row<Event>>)
    requires s in kept <==> s in ever && ever[s] in r
    requires s in kept ==> kept[s] == ever[s]
    requires s in ever ==> ever[s] != last
    ensures var kept' := if last.v.kind.Status? then kept[last.v.serial := last] else kept;
            var ever' := if last.v.kind.Status? then ever[last.v.serial := last] else ever;
            && (s in kept' <==> s in ever' && (ever'[s] in r || ever'[s] == last))
            && (s in kept' ==> kept'[s] == ever'[s])
  {
  }

  lemma {:induction false} FoldMember(rows: seq<Row<Event>>, s: string)
    requires s in FoldFleet(rows) && Increasing(rows)
    ensures FoldFleet(rows)[s] in rows
  {
    var front, last := rows[..|rows| - 1], rows[|rows| - 1];
    if !(last.v.kind.Status? && last.v.serial == s) {
      FoldMember(front, s);
    }
  }

  lemma NumberedIncreases(history: seq<Event>)
    ensures Increasing(Numbered(history))
  {
  }

  /** After any run of ingests and prunes: the fleet is the last status ever reported by each machine whose last
      status was kept, and nothing else. */
  lemma FleetAgreesWithHistory(ops: seq<Op<Event>>, out: seq<Row<Event>>)
    requires IsFleet(Table(ops), out)
    ensures forall i, j :: 0 <= i < j < |out| ==> out[i].v.serial != out[j].v.serial
    ensures forall r :: r in out <==>
              r in Table(ops) && r.v.serial in FoldFleet(Numbered(History(ops)))
              && FoldFleet(Numbered(History(ops)))[r.v.serial] == r
  {
    var rows, all := Table(ops), Numbered(History(ops));
    TableIsSuffix(ops);
    NumberedIncreases(History(ops));
    TailIncreases(rows, all);
    EachOnce(rows, out);
    forall r
      ensures r in out <==> r in rows && r.v.serial in FoldFleet(all) && FoldFleet(all)[r.v.serial] == r
    {
      LatestOfHistory(rows, all, r);
    }
  }

  lemma TailIncreases(rows: seq<Row<Event>>, all: seq<Row<Event>>)
    requires |rows| <= |all| && rows == all[|all| - |rows|..] && Increasing(all)
    ensures Increasing(rows)
  {
    assert forall i :: 0 <= i < |rows| ==> rows[i] == all[|all| - |rows| + i];
  }

  lemma LatestOfHistory(rows: seq<Row<Event>>, all: seq<Row<Event>>, r: Row<Event>)
    requires |rows| <= |all| && rows == all[|all| - |rows|..] && Increasing(all)
    ensures LatestStatus(rows, r) <==>
              r in rows && r.v.serial in FoldFleet(all) && FoldFleet(all)[r.v.serial] == r
  {
    TailIncreases(rows, all);
    FoldIsLatest(rows, r);
    PruningNeverAges(rows, all, r.v.serial);
  }

  // ---- the store ----

  datatype AuditRow =
    AuditRow(ts: string, action: string, category: string, path: string, source: string, size: int, status: int)

  /** Both tables, with the numbers SQLite hands out next. An insert the database refuses changes nothing. */
  class Store {
    var events: seq<Row<Event>>
    var audit: seq<Row<AuditRow>>
    var eventSeq: nat
    var auditSeq: nat
    ghost var eventOps: seq<Op<Event>>
    ghost var auditOps: seq<Op<AuditRow>>

    ghost predicate Valid()
      reads this
    {
      && events == Table(eventOps) && eventSeq == |History(eventOps)|
      && audit == Table(auditOps) && auditSeq == |History(auditOps)|
    }

    constructor ()
      ensures Valid() && eventOps == [] && auditOps == []
    {
      events, audit, eventSeq, auditSeq := [], [], 0, 0;
      eventOps, auditOps := [], [];
    }

    method InsertEvent(e: Event, dbOk: bool) returns (ok: bool)
      requires Valid()
      modifies this
      ensures Valid() && ok == dbOk && auditOps == old(auditOps)
      ensures eventOps == if ok then old(eventOps) + [Insert(e)] else old(eventOps)
    {
      ok := dbOk;
      if ok {
        ghost var ops := eventOps + [Insert(e)];
        assert ops[..|ops| - 1] == eventOps;
        eventSeq := eventSeq + 1;
        events := events + [Row(eventSeq, e)];
        eventOps := ops;
      }
    }

    method AddStatus(now: string, serial: string, mac: string, state: string, percent: int, message: string, model: string,
                     dbOk: bool) returns (ok: bool)
      requires Valid()
      modifies this
      ensures Valid() && ok == dbOk && auditOps == old(auditOps)
      ensures eventOps == old(eventOps) +
                if ok then [Insert(Event(now, Status, serial, mac, state, percent, message, model, ""))] else []
    {
      ok := InsertEvent(Event(now, Status, serial, mac, state, percent, message, model, ""), dbOk);
    }

    /** A log line keeps the time its machine gave it, if it gave one. */
    method AddLog(now: string, serial: string, mac: string, level: string, message: string, ts: string, dbOk: bool)
      returns (ok: bool)
      requires Valid()
      modifies this
      ensures Valid() && ok == dbOk && auditOps == old(auditOps)
      ensures eventOps == old(eventOps) +
                if ok then [Insert(Event(if ts == "" then now else ts, Log, serial, mac, "", 0, message, "", level))] else []
    {
      ok := InsertEvent(Event(if ts == "" then now else ts, Log, serial, mac, "", 0, message, "", level), dbOk);
    }

    method AddAudit(now: string, action: string, category: string, path: string, source: string, size: int, status: int,
                    dbOk: bool) returns (ok: bool)
      requires Valid()
      modifies this
      ensures Valid() && ok == dbOk && eventOps == old(eventOps)
      ensures auditOps == old(auditOps) +
              if ok then [Insert(AuditRow(now, action, category, path, source, size, status))] else []
    {
      ok := dbOk;
      if ok {
        var row := AuditRow(now, action, category, path, source, size, status);
        ghost var ops := auditOps + [Insert(row)];
        assert ops[..|ops| - 1] == auditOps;
        auditSeq := auditSeq + 1;
        audit := audit + [Row(auditSeq, row)];
        auditOps := ops;
      }
    }

    /** Both tables in turn, stopping at the first failure. */
    method PruneTables(maxRows: int, eventsOk: bool, auditOk: bool) returns (ok: bool)
      requires Valid()
      modifies this
      ensures Valid() && ok == (eventsOk && auditOk)
      ensures eventOps == old(eventOps) + if eventsOk then [Prune(maxRows)] else []
      ensures auditOps == old(auditOps) + if ok then [Prune(maxRows)] else []
    {
      if !eventsOk {
        return false;
      }
      ghost var ops := eventOps + [Prune(maxRows)];
      assert ops[..|ops| - 1] == eventOps;
      events, eventOps := Pruned(events, maxRows), ops;
      if !auditOk {
        return false;
      }
      ghost var more := auditOps + [Prune(maxRows)];
      assert more[..|more| - 1] == auditOps;
      audit, auditOps := Pruned(audit, maxRows), more;
      ok := true;
    }
  }
}
