/** What one Up or one Down does, told from the database it starts on and the answers it gets. */
module MigrationOutcome {
  import opened Common
  import opened MigrationRunner

  // ----- Up -----

  /** An Up passes a version over only if the query function finds it recorded. */
  predicate UpFails(db: Db, version: string, hasQuery: bool, a: Answer) {
    || (hasQuery && a.queryFails)
    || (!(hasQuery && version in db.recorded) && !(a.script == Done && a.book == Done))
  }

  /** The Up gets as far as version k: nothing before it failed. */
  predicate UpReaches(db: Db, versions: seq<string>, hasQuery: bool, answers: seq<Answer>, k: nat)
    requires k <= |versions| <= |answers|
  {
    forall j :: 0 <= j < k ==> !UpFails(db, versions[j], hasQuery, answers[j])
  }

  /** The Up sends the script of version k. */
  predicate UpSends(db: Db, versions: seq<string>, hasQuery: bool, answers: seq<Answer>, k: nat)
    requires k < |versions| <= |answers|
  {
    && UpReaches(db, versions, hasQuery, answers, k)
    && !(hasQuery && (answers[k].queryFails || versions[k] in db.recorded))
  }

  /** The scripts an Up sends for the first n versions, in ascending order. */
  function UpSent(db: Db, versions: seq<string>, hasQuery: bool, answers: seq<Answer>, n: nat): seq<string>
    requires n <= |versions| <= |answers|
  {
    if n == 0 then []
    else
      UpSent(db, versions, hasQuery, answers, n - 1)
      + if UpSends(db, versions, hasQuery, answers, n - 1) then [versions[n - 1]] else []
  }

  /** Whether version k is recorded and in force after an Up that was given the first n versions. */
  predicate UpDoes(db: Db, after: Db, versions: seq<string>, hasQuery: bool, answers: seq<Answer>, n: nat, k: nat)
    requires n <= |versions| <= |answers| && k < |versions|
  {
    var sent := k < n && UpSends(db, versions, hasQuery, answers, k);
    && (versions[k] in after.recorded <==>
        versions[k] in db.recorded || (sent && answers[k].script == Done && answers[k].book != Failed))
    && (versions[k] in after.applied <==> versions[k] in db.applied || (sent && answers[k].script != Failed))
  }

  ghost predicate OthersStay(db: Db, after: Db, versions: seq<string>) {
    && (forall v :: v !in versions ==> (v in after.recorded <==> v in db.recorded))
    && (forall v :: v !in versions ==> (v in after.applied <==> v in db.applied))
  }

  lemma UpOneDoes(before: Db, version: string, hasQuery: bool, a: Answer)
    ensures var (after, ok) := UpOne(before, version, hasQuery, a);
      var sent := !(hasQuery && (a.queryFails || version in before.recorded));
      && (ok <==> !UpFails(before, version, hasQuery, a))
      && after.recorded == before.recorded + (if sent && a.script == Done && a.book != Failed then {version} else {})
      && after.applied == before.applied + (if sent && a.script != Failed then {version} else {})
      && after.ran == before.ran + if sent then [version] else []
  {
    assert before.ran + [] == before.ran && before.recorded + {} == before.recorded && before.applied + {} == before.applied;
  }

  lemma {:induction false} UpToExactly(db: Db, versions: seq<string>, hasQuery: bool, answers: seq<Answer>, n: nat)
    requires Distinct(versions) && n <= |versions| <= |answers|
    ensures var (after, ok) := UpTo(db, versions, n, hasQuery, answers);
      && (ok <==> UpReaches(db, versions, hasQuery, answers, n))
      && after.ran == db.ran + UpSent(db, versions, hasQuery, answers, n)
      && OthersStay(db, after, versions)
      && forall k :: 0 <= k < |versions| ==> UpDoes(db, after, versions, hasQuery, answers, n, k)
  {
    if n == 0 {
      assert db.ran + [] == db.ran;
    } else {
      UpToExactly(db, versions, hasQuery, answers, n - 1);
      var (before, ok) := UpTo(db, versions, n - 1, hasQuery, answers);
      assert UpDoes(db, before, versions, hasQuery, answers, n - 1, n - 1);
      if ok {
        UpOneDoes(before, versions[n - 1], hasQuery, answers[n - 1]);
      }
      forall k | 0 <= k < |versions|
        ensures UpDoes(db, UpTo(db, versions, n, hasQuery, answers).0, versions, hasQuery, answers, n, k)
      {
        assert UpDoes(db, before, versions, hasQuery, answers, n - 1, k);
        assert k != n - 1 ==> versions[k] != versions[n - 1];
      }
    }
  }

  /**
   * An Up succeeds exactly if its table statement, its listing, and every version not passed over get
   * Done throughout; for each version it records and applies exactly what was answered; and it sends
   * the scripts of the versions it reaches and does not pass over, in ascending order.
   */
  lemma UpExactly(db: Db, versions: seq<string>, job: Job)
    requires Distinct(versions) && job.versions == Some(versions) && Answered(job) && job.table == Done
    ensures var (after, ok) := UpRun(db, job);
      && (ok <==> forall k :: 0 <= k < |versions| ==> !UpFails(db, versions[k], job.hasQuery, job.answers[k]))
      && after.ran == db.ran + UpSent(db, versions, job.hasQuery, job.answers, |versions|)
      && OthersStay(db, after, versions)
      && forall k :: 0 <= k < |versions| ==> UpDoes(db, after, versions, job.hasQuery, job.answers, |versions|, k)
  {
    UpToExactly(db, versions, job.hasQuery, job.answers, |versions|);
  }

  /** Without its table or its listing an Up does nothing and fails; a Down needs only the listing. */
  lemma NothingWithoutListing(db: Db, job: Job)
    requires Answered(job)
    ensures job.table != Done || job.versions == None ==> UpRun(db, job) == (db, false)
    ensures job.versions == None ==> DownRun(db, job) == (db, false)
    ensures forall table :: DownRun(db, job) == DownRun(db, job.(table := table))
  {
  }

  // ----- Down -----

  /** A Down passes a version over only if the query function finds it not recorded. */
  predicate DownFails(db: Db, version: string, hasQuery: bool, a: Answer) {
    || (hasQuery && a.queryFails)
    || (!(hasQuery && version !in db.recorded) && !(a.script == Done && a.book == Done))
  }

  /** The Down, coming from the last version, gets past all those from k on. */
  predicate DownPasses(db: Db, versions: seq<string>, hasQuery: bool, answers: seq<Answer>, k: nat)
    requires k <= |versions| <= |answers|
  {
    forall j :: k <= j < |versions| ==> !DownFails(db, versions[j], hasQuery, answers[j])
  }

  predicate DownSends(db: Db, versions: seq<string>, hasQuery: bool, answers: seq<Answer>, k: nat)
    requires k < |versions| <= |answers|
  {
    && DownPasses(db, versions, hasQuery, answers, k + 1)
    && !(hasQuery && (answers[k].queryFails || versions[k] !in db.recorded))
  }

  /** The scripts a Down sends on its way to version n, in descending order. */
  function DownSent(db: Db, versions: seq<string>, hasQuery: bool, answers: seq<Answer>, n: nat): seq<string>
    requires n <= |versions| <= |answers|
    decreases |versions| - n
  {
    if n == |versions| then []
    else
      DownSent(db, versions, hasQuery, answers, n + 1)
      + if DownSends(db, versions, hasQuery, answers, n) then [versions[n]] else []
  }

  predicate DownDoes(db: Db, after: Db, versions: seq<string>, hasQuery: bool, answers: seq<Answer>, n: nat, k: nat)
    requires n <= |versions| <= |answers| && k < |versions|
  {
    var sent := n <= k && DownSends(db, versions, hasQuery, answers, k);
    && (versions[k] in after.recorded <==>
        versions[k] in db.recorded && !(sent && answers[k].script == Done && answers[k].book != Failed))
    && (versions[k] in after.applied <==> versions[k] in db.applied && !(sent && answers[k].script != Failed))
  }

  lemma DownOneDoes(before: Db, version: string, hasQuery: bool, a: Answer)
    ensures var (after, ok) := DownOne(before, version, hasQuery, a);
      var sent := !(hasQuery && (a.queryFails || version !in before.recorded));
      && (ok <==> !DownFails(before, version, hasQuery, a))
      && after.recorded == before.recorded - (if sent && a.script == Done && a.book != Failed then {version} else {})
      && after.applied == before.applied - (if sent && a.script != Failed then {version} else {})
      && after.ran == before.ran + if sent then [version] else []
  {
    assert before.ran + [] == before.ran && before.recorded - {} == before.recorded && before.applied - {} == before.applied;
  }

  lemma {:induction false} DownToExactly(db: Db, versions: seq<string>, hasQuery: bool, answers: seq<Answer>, n: nat)
    requires Distinct(versions) && n <= |versions| <= |answers|
    ensures var (after, ok) := DownTo(db, versions, n, hasQuery, answers);
      && (ok <==> DownPasses(db, versions, hasQuery, answers, n))
      && after.ran == db.ran + DownSent(db, versions, hasQuery, answers, n)
      && OthersStay(db, after, versions)
      && forall k :: 0 <= k < |versions| ==> DownDoes(db, after, versions, hasQuery, answers, n, k)
    decreases |versions| - n
  {
    if n == |versions| {
      assert db.ran + [] == db.ran;
    } else {
      DownToExactly(db, versions, hasQuery, answers, n + 1);
      var (before, ok) := DownTo(db, versions, n + 1, hasQuery, answers);
      assert DownDoes(db, before, versions, hasQuery, answers, n + 1, n);
      if ok {
        DownOneDoes(before, versions[n], hasQuery, answers[n]);
      }
      forall k | 0 <= k < |versions|
        ensures DownDoes(db, DownTo(db, versions, n, hasQuery, answers).0, versions, hasQuery, answers, n, k)
      {
        assert DownDoes(db, before, versions, hasQuery, answers, n + 1, k);
        assert k != n ==> versions[k] != versions[n];
      }
    }
  }

  /**
   * A Down succeeds exactly if every version not passed over gets Done from its script and its DELETE;
   * a version loses its row only after its script answered Done, and is reverted exactly if its script
   * was sent and took effect; and the scripts are sent in descending order.
   */
  lemma DownExactly(db: Db, versions: seq<string>, job: Job)
    requires Distinct(versions) && job.versions == Some(versions) && Answered(job)
    ensures var (after, ok) := DownRun(db, job);
      && (ok <==> forall k :: 0 <= k < |versions| ==> !DownFails(db, versions[k], job.hasQuery, job.answers[k]))
      && after.ran == db.ran + DownSent(db, versions, job.hasQuery, job.answers, 0)
      && OthersStay(db, after, versions)
      && forall k :: 0 <= k < |versions| ==> DownDoes(db, after, versions, job.hasQuery, job.answers, 0, k)
  {
    DownToExactly(db, versions, job.hasQuery, job.answers, 0);
  }

  /** From true records, a Down that reports success leaves no listed version recorded or in force. */
  lemma DownOkRevertsAll(db: Db, versions: seq<string>, job: Job)
    requires Distinct(versions) && job.versions == Some(versions) && Answered(job)
    requires db.recorded == db.applied && DownRun(db, job).1
    ensures forall v :: v in versions ==> v !in DownRun(db, job).0.recorded && v !in DownRun(db, job).0.applied
  {
    DownExactly(db, versions, job);
    forall k | 0 <= k < |versions|
      ensures versions[k] !in DownRun(db, job).0.recorded && versions[k] !in DownRun(db, job).0.applied
    {
      assert DownDoes(db, DownRun(db, job).0, versions, job.hasQuery, job.answers, 0, k);
      assert !DownFails(db, versions[k], job.hasQuery, job.answers[k]);
      assert DownPasses(db, versions, job.hasQuery, job.answers, k + 1);
    }
  }

  /** After a script that was sent and did not answer Done, that version and all earlier ones keep their rows, and the Down fails. */
  lemma FailedScriptKeepsRows(db: Db, versions: seq<string>, job: Job, k: nat)
    requires Distinct(versions) && job.versions == Some(versions) && Answered(job) && k < |versions|
    requires DownSends(db, versions, job.hasQuery, job.answers, k) && job.answers[k].script != Done
    ensures !DownRun(db, job).1
    ensures forall j :: 0 <= j <= k && versions[j] in db.recorded ==> versions[j] in DownRun(db, job).0.recorded
    ensures forall j :: 0 <= j < k && versions[j] in db.applied ==> versions[j] in DownRun(db, job).0.applied
  {
    DownExactly(db, versions, job);
    var after := DownRun(db, job).0;
    assert DownFails(db, versions[k], job.hasQuery, job.answers[k]);
    forall j | 0 <= j <= k
      ensures versions[j] in db.recorded ==> versions[j] in after.recorded
      ensures j < k && versions[j] in db.applied ==> versions[j] in after.applied
    {
      assert DownDoes(db, after, versions, job.hasQuery, job.answers, 0, j);
      assert j < k ==> !DownPasses(db, versions, job.hasQuery, job.answers, j + 1);
    }
  }
}
