/** Runner.Up and Runner.Down against a database where every query and statement may fail. */
module MigrationRunner {
  import opened Common

  /**
   * recorded: the rows of schema_migrations. applied: the versions whose up script is in force.
   * ran: every script that was sent to the database, oldest first.
   */
  datatype Db = Db(recorded: set<string>, applied: set<string>, ran: seq<string>)

  /** An error may come back although the statement took effect. */
  datatype Outcome = Done | Failed | FailedAfterEffect

  /** The database's answers for one migration: to the query, the script and the bookkeeping statement. */
  datatype Answer = Answer(queryFails: bool, script: Outcome, book: Outcome)

  /** The database's answer to CREATE TABLE, the listing of All (None if it fails), and whether a query function is set. */
  datatype Job = Job(table: Outcome, versions: Option<seq<string>>, hasQuery: bool, answers: seq<Answer>)

  predicate Distinct(versions: seq<string>) {
    forall i, j :: 0 <= i < j < |versions| ==> versions[i] != versions[j]
  }

  predicate TakesEffect(o: Outcome) {
    o != Failed
  }

  function Apply(db: Db, version: string, o: Outcome): Db {
    Db(db.recorded, if TakesEffect(o) then db.applied + {version} else db.applied, db.ran + [version])
  }

  function Record(db: Db, version: string, o: Outcome): Db {
    if TakesEffect(o) then db.(recorded := db.recorded + {version}) else db
  }

  function Revert(db: Db, version: string, o: Outcome): Db {
    Db(db.recorded, if TakesEffect(o) then db.applied - {version} else db.applied, db.ran + [version])
  }

  function Unrecord(db: Db, version: string, o: Outcome): Db {
    if TakesEffect(o) then db.(recorded := db.recorded - {version}) else db
  }

  /** One turn of Up's loop; true means: on to the next version. */
  function UpOne(db: Db, version: string, hasQuery: bool, a: Answer): (Db, bool) {
    if hasQuery && a.queryFails then (db, false)
    else if hasQuery && version in db.recorded then (db, true)
    else
      var after := Apply(db, version, a.script);
      if a.script != Done then (after, false) else (Record(after, version, a.book), a.book == Done)
  }

  function DownOne(db: Db, version: string, hasQuery: bool, a: Answer): (Db, bool) {
    if hasQuery && a.queryFails then (db, false)
    else if hasQuery && version !in db.recorded then (db, true)
    else
      var after := Revert(db, version, a.script);
      if a.script != Done then (after, false) else (Unrecord(after, version, a.book), a.book == Done)
  }

  /** Up over the first n versions. */
  function UpTo(db: Db, versions: seq<string>, n: nat, hasQuery: bool, answers: seq<Answer>): (Db, bool)
    requires n <= |versions| <= |answers|
  {
    if n == 0 then (db, true)
    else
      var (before, ok) := UpTo(db, versions, n - 1, hasQuery, answers);
      if !ok then (before, false) else UpOne(before, versions[n - 1], hasQuery, answers[n - 1])
  }

  /** Down over the versions from the last back to index n. */
  function DownTo(db: Db, versions: seq<string>, n: nat, hasQuery: bool, answers: seq<Answer>): (Db, bool)
    requires n <= |versions| <= |answers|
    decreases |versions| - n
  {
    if n == |versions| then (db, true)
    else
      var (before, ok) := DownTo(db, versions, n + 1, hasQuery, answers);
      if !ok then (before, false) else DownOne(before, versions[n], hasQuery, answers[n])
  }

  predicate Answered(job: Job) {
    job.versions.Some? ==> |job.versions.value| <= |job.answers|
  }

  function UpRun(db: Db, job: Job): (Db, bool)
    requires Answered(job)
  {
    if job.table != Done || job.versions.None? then (db, false)
    else UpTo(db, job.versions.value, |job.versions.value|, job.hasQuery, job.answers)
  }

  function DownRun(db: Db, job: Job): (Db, bool)
    requires Answered(job)
  {
    if job.versions.None? then (db, false) else DownTo(db, job.versions.value, 0, job.hasQuery, job.answers)
  }

  /** The database the runner works on, changed one statement at a time. */
  class Runner {
    var recorded: set<string>
    var applied: set<string>
    var ran: seq<string>

    function State(): Db
      reads this
    {
      Db(recorded, applied, ran)
    }

    constructor ()
      ensures State() == Db({}, {}, [])
    {
      recorded, applied, ran := {}, {}, [];
    }

    method Up(job: Job) returns (ok: bool)
      requires Answered(job)
      modifies this
      ensures (State(), ok) == UpRun(old(State()), job)
    {
      if job.table != Done || job.versions.None? {
        return false;
      }
      var versions := job.versions.value;
      for i := 0 to |versions|
        invariant UpTo(old(State()), versions, i, job.hasQuery, job.answers) == (State(), true)
      {
        var version, a := versions[i], job.answers[i];
        ghost var before := State();
        var skip := false;
        if job.hasQuery {
          if a.queryFails {
            Stuck(old(State()), versions, i + 1, |versions|, job.hasQuery, job.answers);
            return false;
          }
          skip := version in recorded;
        }
        if !skip {
          ran := ran + [version];
          if a.script != Failed {
            applied := applied + {version};
          }
          if a.script == Done && a.book != Failed {
            recorded := recorded + {version};
          }
          if a.script != Done || a.book != Done {
            Stuck(old(State()), versions, i + 1, |versions|, job.hasQuery, job.answers);
            return false;
          }
        }
      }
      return true;
    }

    method Down(job: Job) returns (ok: bool)
      requires Answered(job)
      modifies this
      ensures (State(), ok) == DownRun(old(State()), job)
    {
      if job.versions.None? {
        return false;
      }
      var versions := job.versions.value;
      for i := |versions| downto 0
        invariant DownTo(old(State()), versions, i, job.hasQuery, job.answers) == (State(), true)
      {
        var version, a := versions[i], job.answers[i];
        var skip := false;
        if job.hasQuery {
          if a.queryFails {
            StuckDown(old(State()), versions, i, 0, job.hasQuery, job.answers);
            return false;
          }
          skip := version !in recorded;
        }
        if !skip {
          ran := ran + [version];
          if a.script != Failed {
            applied := applied - {version};
          }
          if a.script == Done && a.book != Failed {
            recorded := recorded - {version};
          }
          if a.script != Done || a.book != Done {
            StuckDown(old(State()), versions, i, 0, job.hasQuery, job.answers);
            return false;
          }
        }
      }
      return true;
    }
  }

  lemma {:induction false} Stuck(db: Db, versions: seq<string>, m: nat, n: nat, hasQuery: bool, answers: seq<Answer>)
    requires m <= n <= |versions| <= |answers| && !UpTo(db, versions, m, hasQuery, answers).1
    ensures UpTo(db, versions, n, hasQuery, answers) == UpTo(db, versions, m, hasQuery, answers)
  {
    if m < n {
      Stuck(db, versions, m, n - 1, hasQuery, answers);
    }
  }

  lemma {:induction false} StuckDown(db: Db, versions: seq<string>, m: nat, n: nat, hasQuery: bool, answers: seq<Answer>)
    requires n <= m <= |versions| <= |answers| && !DownTo(db, versions, m, hasQuery, answers).1
    ensures DownTo(db, versions, n, hasQuery, answers) == DownTo(db, versions, m, hasQuery, answers)
    decreases m - n
  {
    if n < m {
      StuckDown(db, versions, m, n + 1, hasQuery, answers);
    }
  }

  // ----- Runs -----

  datatype Call = CallUp(job: Job) | CallDown(job: Job)

  predicate WellFormed(versions: seq<string>, calls: seq<Call>) {
    forall i :: 0 <= i < |calls| ==>
      Answered(calls[i].job) && (calls[i].job.versions.Some? ==> calls[i].job.versions.value == versions)
  }

  function RunCalls(versions: seq<string>, calls: seq<Call>): Db
    requires WellFormed(versions, calls)
  {
    if calls == [] then Db({}, {}, [])
    else
      var db := RunCalls(versions, calls[..|calls| - 1]);
      match calls[|calls| - 1]
      case CallUp(job) => UpRun(db, job).0
      case CallDown(job) => DownRun(db, job).0
  }

  function First(versions: seq<string>, k: nat): (r: set<string>)
    requires k <= |versions|
  {
    set x | x in versions[..k]
  }

  ghost predicate IsPrefix(versions: seq<string>, s: set<string>) {
    exists k: nat :: k <= |versions| && s == First(versions, k)
  }

  lemma FirstNext(versions: seq<string>, k: nat)
    requires k < |versions|
    ensures First(versions, k + 1) == First(versions, k) + {versions[k]}
  {
    assert versions[..k + 1] == versions[..k] + [versions[k]];
  }

  lemma InFirst(versions: seq<string>, k: nat, i: nat)
    requires Distinct(versions) && k <= |versions| && i < |versions|
    ensures versions[i] in First(versions, k) <==> i < k
  {
    if i < k {
      assert versions[..k][i] == versions[i];
    }
  }

  lemma AddNext(versions: seq<string>, k: nat, i: nat)
    requires Distinct(versions) && i <= k <= |versions| && i < |versions|
    ensures First(versions, k) + {versions[i]} == First(versions, Max(k, i + 1))
  {
    InFirst(versions, k, i);
    if i == k {
      FirstNext(versions, k);
    }
  }

  lemma RemoveLast(versions: seq<string>, k: nat, i: nat)
    requires Distinct(versions) && k <= i + 1 <= |versions|
    ensures First(versions, k) - {versions[i]} == First(versions, Min(k, i))
  {
    InFirst(versions, k, i);
    if k == i + 1 {
      FirstNext(versions, i);
      InFirst(versions, i, i);
    }
  }

  lemma {:induction false} UpToPrefix(db: Db, versions: seq<string>, n: nat, hasQuery: bool, answers: seq<Answer>, k: nat)
    returns (m: nat)
    requires Distinct(versions) && n <= |versions| <= |answers|
    requires k <= |versions| && db.recorded == First(versions, k)
    ensures m <= |versions| && UpTo(db, versions, n, hasQuery, answers).0.recorded == First(versions, m)
    ensures UpTo(db, versions, n, hasQuery, answers).1 ==> n <= m
  {
    if n == 0 {
      m := k;
    } else {
      m := UpToPrefix(db, versions, n - 1, hasQuery, answers, k);
      var (before, ok) := UpTo(db, versions, n - 1, hasQuery, answers);
      if ok {
        InFirst(versions, m, n - 1);
        AddNext(versions, m, n - 1);
        var after := UpOne(before, versions[n - 1], hasQuery, answers[n - 1]).0;
        m := if after.recorded == before.recorded then m else Max(m, n);
        if after.recorded == before.recorded && UpTo(db, versions, n, hasQuery, answers).1 {
          InFirst(versions, m, n - 1);
        }
      }
    }
  }

  lemma {:induction false} DownToPrefix(db: Db, versions: seq<string>, n: nat, hasQuery: bool, answers: seq<Answer>, k: nat)
    returns (m: nat)
    requires Distinct(versions) && n <= |versions| <= |answers|
    requires k <= |versions| && db.recorded == First(versions, k)
    ensures m <= |versions| && DownTo(db, versions, n, hasQuery, answers).0.recorded == First(versions, m)
    ensures DownTo(db, versions, n, hasQuery, answers).1 ==> m <= n
    decreases |versions| - n
  {
    if n == |versions| {
      m := k;
    } else {
      m := DownToPrefix(db, versions, n + 1, hasQuery, answers, k);
      var (before, ok) := DownTo(db, versions, n + 1, hasQuery, answers);
      if ok {
        InFirst(versions, m, n);
        RemoveLast(versions, m, n);
        var after := DownOne(before, versions[n], hasQuery, answers[n]).0;
        m := if after.recorded == before.recorded then m else Min(m, n);
        if after.recorded == before.recorded && DownTo(db, versions, n, hasQuery, answers).1 {
          InFirst(versions, m, n);
        }
      }
    }
  }

  /** After any sequence of Up and Down, failing anywhere, with or without a query function. */
  lemma {:induction false} RecordedIsAPrefix(versions: seq<string>, calls: seq<Call>)
    requires Distinct(versions) && WellFormed(versions, calls)
    ensures IsPrefix(versions, RunCalls(versions, calls).recorded)
  {
    if calls == [] {
      assert First(versions, 0) == {};
    } else {
      RecordedIsAPrefix(versions, calls[..|calls| - 1]);
      var db := RunCalls(versions, calls[..|calls| - 1]);
      var k: nat :| k <= |versions| && db.recorded == First(versions, k);
      var call := calls[|calls| - 1];
      var job := call.job;
      if job.versions.Some? {
        if call.CallDown? {
          var m := DownToPrefix(db, versions, 0, job.hasQuery, job.answers, k);
        } else if job.table == Done {
          var m := UpToPrefix(db, versions, |versions|, job.hasQuery, job.answers, k);
        }
      }
    }
  }

  // ----- Up alone recovers from every crash -----

  /** Recorded is the first r versions, in force the first e, and at most the next one is in force unrecorded. */
  predicate UpState(versions: seq<string>, db: Db, r: nat, e: nat) {
    r <= e <= r + 1 && e <= |versions| && db.recorded == First(versions, r) && db.applied == First(versions, e)
  }

  lemma {:induction false} UpToState(db: Db, versions: seq<string>, n: nat, hasQuery: bool, answers: seq<Answer>, r: nat, e: nat)
    returns (r': nat, e': nat)
    requires Distinct(versions) && n <= |versions| <= |answers| && UpState(versions, db, r, e)
    ensures UpState(versions, UpTo(db, versions, n, hasQuery, answers).0, r', e')
    ensures UpTo(db, versions, n, hasQuery, answers).1 ==> n <= r'
  {
    if n == 0 {
      return r, e;
    }
    r', e' := UpToState(db, versions, n - 1, hasQuery, answers, r, e);
    var (before, ok) := UpTo(db, versions, n - 1, hasQuery, answers);
    if ok {
      var a := answers[n - 1];
      InFirst(versions, r', n - 1);
      if !(hasQuery && (a.queryFails || versions[n - 1] in before.recorded)) {
        AddNext(versions, e', n - 1);
        AddNext(versions, r', n - 1);
        if TakesEffect(a.script) {
          e' := Max(e', n);
          if a.script == Done && TakesEffect(a.book) {
            r' := Max(r', n);
          }
        }
      }
    }
  }

  /** Over any Up-only history: in force is the recorded prefix, or that and its next version. */
  lemma {:induction false} UpOnlyHistory(versions: seq<string>, calls: seq<Call>) returns (r: nat, e: nat)
    requires Distinct(versions) && WellFormed(versions, calls)
    requires forall i :: 0 <= i < |calls| ==> calls[i].CallUp?
    ensures UpState(versions, RunCalls(versions, calls), r, e)
  {
    if calls == [] {
      assert First(versions, 0) == {};
      return 0, 0;
    }
    r, e := UpOnlyHistory(versions, calls[..|calls| - 1]);
    var db, job := RunCalls(versions, calls[..|calls| - 1]), calls[|calls| - 1].job;
    if job.table == Done && job.versions.Some? {
      r, e := UpToState(db, versions, |versions|, job.hasQuery, job.answers, r, e);
    }
  }

  /** One Up without an error finishes the work of all the failed ones before it. */
  lemma UpRecovers(versions: seq<string>, calls: seq<Call>, job: Job)
    requires Distinct(versions) && WellFormed(versions, calls)
    requires forall i :: 0 <= i < |calls| ==> calls[i].CallUp?
    requires Answered(job) && job.versions == Some(versions) && UpRun(RunCalls(versions, calls), job).1
    ensures var db := UpRun(RunCalls(versions, calls), job).0;
      db.recorded == First(versions, |versions|) && db.applied == First(versions, |versions|)
  {
    var r, e := UpOnlyHistory(versions, calls);
    r, e := UpToState(RunCalls(versions, calls), versions, |versions|, job.hasQuery, job.answers, r, e);
  }

  /** With a query function, an Up on a fully recorded database changes nothing and sends no script, whatever the answers. */
  lemma FurtherUpRunsNothing(db: Db, versions: seq<string>, job: Job)
    requires Answered(job) && job.versions == Some(versions) && job.hasQuery
    requires First(versions, |versions|) <= db.recorded
    ensures UpRun(db, job).0 == db
  {
    NothingLeftToRun(db, versions, |versions|, job.answers);
  }

  lemma {:induction false} NothingLeftToRun(db: Db, versions: seq<string>, n: nat, answers: seq<Answer>)
    requires n <= |versions| <= |answers| && First(versions, |versions|) <= db.recorded
    ensures UpTo(db, versions, n, true, answers).0 == db
  {
    if n > 0 {
      NothingLeftToRun(db, versions, n - 1, answers);
      assert versions[..|versions|] == versions && versions[n - 1] in First(versions, |versions|);
    }
  }

  /** A Down that reports success, after any history, leaves nothing recorded. */
  lemma DownOkEmpties(versions: seq<string>, calls: seq<Call>, job: Job)
    requires Distinct(versions) && WellFormed(versions, calls)
    requires Answered(job) && job.versions == Some(versions) && DownRun(RunCalls(versions, calls), job).1
    ensures DownRun(RunCalls(versions, calls), job).0.recorded == {}
  {
    RecordedIsAPrefix(versions, calls);
    var k: nat :| k <= |versions| && RunCalls(versions, calls).recorded == First(versions, k);
    var m := DownToPrefix(RunCalls(versions, calls), versions, 0, job.hasQuery, job.answers, k);
    assert First(versions, 0) == {};
  }

  // ----- Down is where a migration can be lost -----

  lemma {:induction false} UpOkEffect(db: Db, versions: seq<string>, n: nat, hasQuery: bool, answers: seq<Answer>)
    requires Distinct(versions) && n <= |versions| <= |answers| && UpTo(db, versions, n, hasQuery, answers).1
    ensures UpTo(db, versions, n, hasQuery, answers).0.applied
         == db.applied + if hasQuery then First(versions, n) - db.recorded else First(versions, n)
    ensures UpTo(db, versions, n, hasQuery, answers).0.recorded == db.recorded + First(versions, n)
  {
    if n > 0 {
      UpOkEffect(db, versions, n - 1, hasQuery, answers);
      FirstNext(versions, n - 1);
      InFirst(versions, n - 1, n - 1);
    } else {
      assert First(versions, 0) == {};
    }
  }

  /**
   * An Up that reports success with a query function leaves everything in force exactly if nothing
   * was recorded that was no longer in force when it began; without a query function it always does.
   */
  lemma UpOkCompleteExactly(db: Db, versions: seq<string>, job: Job)
    requires Distinct(versions) && job.versions == Some(versions) && Answered(job) && UpRun(db, job).1
    ensures First(versions, |versions|) <= UpRun(db, job).0.recorded
    ensures First(versions, |versions|) <= UpRun(db, job).0.applied
       <==> !job.hasQuery || forall v :: v in versions && v in db.recorded ==> v in db.applied
  {
    UpOkEffect(db, versions, |versions|, job.hasQuery, job.answers);
    assert versions[..|versions|] == versions;
    assert forall v :: v in First(versions, |versions|) <==> v in versions;
  }

  predicate RecordsTrue(db: Db) {
    db.recorded <= db.applied
  }

  /** A Down step on a recorded version whose script takes effect and whose row stays. */
  predicate LeavesRow(db: Db, version: string, hasQuery: bool, a: Answer) {
    && version in db.recorded && !(hasQuery && a.queryFails)
    && TakesEffect(a.script) && !(a.script == Done && TakesEffect(a.book))
  }

  /** Some step that the Down reaches leaves its row behind. */
  predicate DownLosesARow(db: Db, versions: seq<string>, n: nat, hasQuery: bool, answers: seq<Answer>)
    requires n <= |versions| <= |answers|
  {
    exists k :: n <= k < |versions| && DownTo(db, versions, k + 1, hasQuery, answers).1 &&
      LeavesRow(DownTo(db, versions, k + 1, hasQuery, answers).0, versions[k], hasQuery, answers[k])
  }

  lemma {:induction false} UpKeepsRecordsTrue(db: Db, versions: seq<string>, n: nat, hasQuery: bool, answers: seq<Answer>)
    requires n <= |versions| <= |answers| && RecordsTrue(db)
    ensures RecordsTrue(UpTo(db, versions, n, hasQuery, answers).0)
  {
    if n > 0 {
      UpKeepsRecordsTrue(db, versions, n - 1, hasQuery, answers);
    }
  }

  /** A step that leaves its row makes the records false, and stops the Down. */
  lemma DownOneKeepsRecordsTrueExactly(db: Db, version: string, hasQuery: bool, a: Answer)
    requires RecordsTrue(db)
    ensures RecordsTrue(DownOne(db, version, hasQuery, a).0) <==> !LeavesRow(db, version, hasQuery, a)
    ensures LeavesRow(db, version, hasQuery, a) ==> !DownOne(db, version, hasQuery, a).1
  {
    if LeavesRow(db, version, hasQuery, a) {
      var after := DownOne(db, version, hasQuery, a).0;
      assert version in after.recorded && version !in after.applied;
    }
  }

  lemma DownLosesNext(db: Db, versions: seq<string>, n: nat, hasQuery: bool, answers: seq<Answer>)
    requires n < |versions| <= |answers|
    ensures var (before, ok) := DownTo(db, versions, n + 1, hasQuery, answers);
      DownLosesARow(db, versions, n, hasQuery, answers)
      <==> DownLosesARow(db, versions, n + 1, hasQuery, answers) || (ok && LeavesRow(before, versions[n], hasQuery, answers[n]))
  {
  }

  lemma {:induction false} DownKeepsRecordsTrueExactly(
    db: Db, versions: seq<string>, n: nat, hasQuery: bool, answers: seq<Answer>)
    requires n <= |versions| <= |answers| && RecordsTrue(db)
    ensures RecordsTrue(DownTo(db, versions, n, hasQuery, answers).0) <==> !DownLosesARow(db, versions, n, hasQuery, answers)
    ensures DownLosesARow(db, versions, n, hasQuery, answers) ==> !DownTo(db, versions, n, hasQuery, answers).1
    decreases |versions| - n
  {
    if n < |versions| {
      DownKeepsRecordsTrueExactly(db, versions, n + 1, hasQuery, answers);
      DownLosesNext(db, versions, n, hasQuery, answers);
      var (before, ok) := DownTo(db, versions, n + 1, hasQuery, answers);
      if ok {
        DownOneKeepsRecordsTrueExactly(before, versions[n], hasQuery, answers[n]);
      }
    }
  }

  /** The call is a Down in which a script takes effect and its row stays. */
  predicate LosesARow(db: Db, call: Call)
    requires Answered(call.job)
  {
    call.CallDown? && call.job.versions.Some? &&
    DownLosesARow(db, call.job.versions.value, 0, call.job.hasQuery, call.job.answers)
  }

  /** No call so far has lost a row. */
  predicate NoRowLost(versions: seq<string>, calls: seq<Call>)
    requires WellFormed(versions, calls)
  {
    calls == [] ||
    (NoRowLost(versions, calls[..|calls| - 1]) && !LosesARow(RunCalls(versions, calls[..|calls| - 1]), calls[|calls| - 1]))
  }

  /** What is recorded is in force, after every call so far. */
  predicate RecordsTrueThroughout(versions: seq<string>, calls: seq<Call>)
    requires WellFormed(versions, calls)
  {
    RecordsTrue(RunCalls(versions, calls)) && (calls == [] || RecordsTrueThroughout(versions, calls[..|calls| - 1]))
  }

  /** Over any history, what is recorded stays in force exactly as long as no call loses a row. */
  lemma {:induction false} RecordsStayTrueExactly(versions: seq<string>, calls: seq<Call>)
    requires WellFormed(versions, calls)
    ensures RecordsTrueThroughout(versions, calls) <==> NoRowLost(versions, calls)
  {
    if calls != [] {
      var front, call := calls[..|calls| - 1], calls[|calls| - 1];
      RecordsStayTrueExactly(versions, front);
      var db, job := RunCalls(versions, front), call.job;
      if job.versions.Some? && RecordsTrue(db) {
        if call.CallDown? {
          DownKeepsRecordsTrueExactly(db, versions, 0, job.hasQuery, job.answers);
        } else {
          UpKeepsRecordsTrue(db, versions, |versions|, job.hasQuery, job.answers);
        }
      }
    }
  }

  // ----- What that means for the next Up -----

  /** Every Up with a query function that reports success would leave everything in force. */
  ghost predicate NextUpCompletes(db: Db, versions: seq<string>) {
    forall job: Job | job.versions == Some(versions) && job.hasQuery && Answered(job) && UpRun(db, job).1 ::
      First(versions, |versions|) <= UpRun(db, job).0.applied
  }

  /** An Up in which the database answers everything without an error. */
  function SmoothUp(versions: seq<string>): Job {
    Job(Done, Some(versions), true, seq(|versions|, _ => Answer(false, Done, Done)))
  }

  lemma {:induction false} SmoothUpSucceeds(db: Db, versions: seq<string>, n: nat)
    requires n <= |versions|
    ensures UpTo(db, versions, n, true, SmoothUp(versions).answers).1
  {
    if n > 0 {
      SmoothUpSucceeds(db, versions, n - 1);
    }
  }

  lemma NextUpCompletesExactly(db: Db, versions: seq<string>)
    requires Distinct(versions) && db.recorded <= First(versions, |versions|)
    ensures NextUpCompletes(db, versions) <==> RecordsTrue(db)
  {
    assert versions[..|versions|] == versions;
    SmoothUpSucceeds(db, versions, |versions|);
    UpOkCompleteExactly(db, versions, SmoothUp(versions));
    if RecordsTrue(db) {
      forall job: Job | job.versions == Some(versions) && job.hasQuery && Answered(job) && UpRun(db, job).1
        ensures First(versions, |versions|) <= UpRun(db, job).0.applied
      {
        UpOkCompleteExactly(db, versions, job);
      }
    }
  }

  /** After every call so far, an Up that reports success would leave everything in force. */
  ghost predicate UpsCompleteThroughout(versions: seq<string>, calls: seq<Call>)
    requires WellFormed(versions, calls)
  {
    NextUpCompletes(RunCalls(versions, calls), versions) &&
    (calls == [] || UpsCompleteThroughout(versions, calls[..|calls| - 1]))
  }

  lemma {:induction false} UpsCompleteExactly(versions: seq<string>, calls: seq<Call>)
    requires Distinct(versions) && WellFormed(versions, calls)
    ensures UpsCompleteThroughout(versions, calls) <==> RecordsTrueThroughout(versions, calls)
  {
    RecordedIsAPrefix(versions, calls);
    var k: nat :| k <= |versions| && RunCalls(versions, calls).recorded == First(versions, k);
    assert versions[..|versions|] == versions;
    NextUpCompletesExactly(RunCalls(versions, calls), versions);
    if calls != [] {
      UpsCompleteExactly(versions, calls[..|calls| - 1]);
    }
  }

  /**
   * The success an Up with a query function reports can be believed, at every moment of a history,
   * exactly if no Down in it has lost a row: if none ran a down script and then kept its row.
   */
  lemma SuccessIsBelievableExactly(versions: seq<string>, calls: seq<Call>)
    requires Distinct(versions) && WellFormed(versions, calls)
    ensures UpsCompleteThroughout(versions, calls) <==> NoRowLost(versions, calls)
  {
    UpsCompleteExactly(versions, calls);
    RecordsStayTrueExactly(versions, calls);
  }

  /** Up, then a Down whose DELETE fails, then Up: both Ups succeed and the migration is gone. */
  lemma InterruptedDownLosesAMigration(version: string)
    ensures var versions, good := [version], Job(Done, Some([version]), true, [Answer(false, Done, Done)]);
      var cut := good.(answers := [Answer(false, Done, Failed)]);
      var first := UpRun(Db({}, {}, []), good);
      var second := DownRun(first.0, cut);
      var third := UpRun(second.0, good);
      first.1 && !second.1 && third.1 && third.0.recorded == {version} && third.0.applied == {}
  {
    var versions, fine, cut := [version], [Answer(false, Done, Done)], [Answer(false, Done, Failed)];
    var empty, both, lost := Db({}, {}, []), Db({version}, {version}, [version]), Db({version}, {}, [version, version]);
    assert [] + [version] == [version] && [version] + [version] == [version, version];
    assert {version} - {version} == {} && {} + {version} == {version};
    assert UpTo(empty, versions, 0, true, fine) == (empty, true);
    assert UpOne(empty, version, true, fine[0]) == (both, true);
    assert UpTo(empty, versions, 1, true, fine) == (both, true);
    assert DownTo(both, versions, 1, true, cut) == (both, true);
    assert DownOne(both, version, true, cut[0]) == (lost, false);
    assert DownTo(both, versions, 0, true, cut) == (lost, false);
    assert UpTo(lost, versions, 0, true, fine) == (lost, true);
    assert UpTo(lost, versions, 1, true, fine) == (lost, true);
  }
}
