/** Acceptance runs of a release candidate, their latest results, and the decision (installer/candidate_log.py). */
module CandidateLog {
  import opened Common

  datatype Status = Passed | FailedCheck | NotRun | Blocked | ManualObservation

  datatype Result = Result(status: Status, deviceEffect: bool, evidence: string)

  /** A recorded run; an `observedAt` that is no explicit past UTC time is None. */
  datatype Run = Run(schema: int, candidate: string, observedAt: Option<int>, checks: map<string, Result>)

  /** The candidate's checks, those that need an observed device effect, and the file name a run is stored under. */
  datatype Candidate = Candidate(id: string, required: set<string>, needsEffect: set<string>, fileName: Run -> string)

  predicate Good(r: Result) { r.status == Passed || r.status == ManualObservation }

  predicate ChecksValid(c: Candidate, checks: map<string, Result>) {
    && checks != map[] && checks.Keys <= c.required
    && forall k <- checks :: k in c.needsEffect && Good(checks[k]) ==> checks[k].deviceEffect
  }

  predicate RunValid(c: Candidate, r: Run) {
    r.observedAt.Some? && r.schema == 1 && r.candidate == c.id && ChecksValid(c, r.checks)
  }

  predicate Agree(a: Run, b: Run) {
    a.observedAt == b.observedAt ==> forall k | k in a.checks && k in b.checks :: a.checks[k] == b.checks[k]
  }

  /** All runs belong here, and no check has two results at one time. */
  ghost predicate Consistent(c: Candidate, runs: set<Run>) {
    && (forall r <- runs :: RunValid(c, r))
    && (forall a, b | a in runs && b in runs :: Agree(a, b))
  }

  /**
   * A log is in order exactly if each of its runs is dated, of this schema and candidate, has at least one check and
   * only required ones, and shows the device effect wherever a check that needs one went well, and no check has two
   * results at one time.
   */
  lemma ConsistentExactly(c: Candidate, runs: set<Run>)
    ensures Consistent(c, runs) <==>
              && (forall r <- runs ::
                    r.observedAt != None && r.schema == 1 && r.candidate == c.id && r.checks != map[]
                    && forall k <- r.checks ::
                         k in c.required
                         && (k in c.needsEffect && r.checks[k].status in {Passed, ManualObservation} ==>
                               r.checks[k].deviceEffect))
              && (forall a, b, k |
                    a in runs && b in runs && k in a.checks && k in b.checks && a.observedAt == b.observedAt ::
                    a.checks[k] == b.checks[k])
  {
    forall r <- runs ensures r.checks.Keys <= c.required <==> forall k <- r.checks :: k in c.required {
      assert forall k :: k in r.checks.Keys <==> k in r.checks;
    }
  }

  /** A run that has this check, and no other one has it later. */
  ghost predicate Newest(runs: set<Run>, r: Run, k: string) {
    && r in runs && r.observedAt.Some? && k in r.checks
    && forall s <- runs :: k in s.checks && s.observedAt.Some? ==> s.observedAt.value <= r.observedAt.value
  }

  /** Each check that was ever run, with its newest result; nothing is said of any order of recording. */
  ghost predicate IsLatest(runs: set<Run>, latest: map<string, Result>) {
    && (forall k :: k in latest <==> exists r <- runs :: k in r.checks)
    && (forall k <- latest :: HasNewest(runs, k, latest[k]))
  }

  ghost predicate HasNewest(runs: set<Run>, k: string, result: Result) {
    exists r :: Newest(runs, r, k) && r.checks[k] == result
  }

  lemma NewestAgree(c: Candidate, runs: set<Run>, k: string, x: Result, y: Result)
    requires Consistent(c, runs) && HasNewest(runs, k, x) && HasNewest(runs, k, y)
    ensures x == y
  {
    hide RunValid;
    var r :| Newest(runs, r, k) && r.checks[k] == x;
    var s :| Newest(runs, s, k) && s.checks[k] == y;
    assert Agree(r, s);
  }

  /** There is only one such map. */
  lemma LatestUnique(c: Candidate, runs: set<Run>, a: map<string, Result>, b: map<string, Result>)
    requires Consistent(c, runs) && IsLatest(runs, a) && IsLatest(runs, b)
    ensures a == b
  {
    hide Consistent, HasNewest;
    assert a.Keys == b.Keys;
    forall k <- a ensures a[k] == b[k] {
      assert k in b.Keys;
      NewestAgree(c, runs, k, a[k], b[k]);
    }
  }

  function Time(r: Run): int { if r.observedAt.Some? then r.observedAt.value else 0 }

  ghost predicate Ordered(runs: seq<Run>) {
    forall i, j | 0 <= i < j < |runs| :: Time(runs[i]) <= Time(runs[j])
  }

  method Insert(sorted: seq<Run>, run: Run) returns (longer: seq<Run>)
    requires Ordered(sorted)
    ensures Ordered(longer) && Members(longer) == Members(sorted) + {run}
  {
    var k: nat := |sorted|;
    while k > 0 && Time(run) < Time(sorted[k - 1])
      invariant 0 <= k <= |sorted| && forall j | k <= j < |sorted| :: Time(run) < Time(sorted[j])
    {
      k := k - 1;
    }
    longer := sorted[..k] + [run] + sorted[k..];
    InsertKeepsOrder(sorted, k, run);
    InsertAddsMember(sorted, k, run);
  }

  lemma InsertKeepsOrder(sorted: seq<Run>, k: nat, run: Run)
    requires k <= |sorted| && Ordered(sorted)
    requires (k > 0 ==> Time(sorted[k - 1]) <= Time(run)) && forall j | k <= j < |sorted| :: Time(run) < Time(sorted[j])
    ensures Ordered(sorted[..k] + [run] + sorted[k..])
  {
    hide Time;
    var longer := sorted[..k] + [run] + sorted[k..];
    forall i, j | 0 <= i < j < |longer| ensures Time(longer[i]) <= Time(longer[j]) {
      assert longer[i] == if i < k then sorted[i] else if i == k then run else sorted[i - 1];
      assert longer[j] == if j < k then sorted[j] else if j == k then run else sorted[j - 1];
      assert i < k ==> Time(sorted[i]) <= Time(sorted[k - 1]);
    }
  }

  lemma InsertAddsMember(sorted: seq<Run>, k: nat, run: Run)
    requires k <= |sorted|
    ensures Members(sorted[..k] + [run] + sorted[k..]) == Members(sorted) + {run}
  {
    assert sorted == sorted[..k] + sorted[k..];
    MembersJoin(sorted[..k], sorted[k..]);
    MembersJoin(sorted[..k], [run]);
    MembersJoin(sorted[..k] + [run], sorted[k..]);
  }

  /** Runs in order of observation; runs of the same time in any order. */
  method SortedByTime(runs: seq<Run>) returns (sorted: seq<Run>)
    ensures Ordered(sorted) && Members(sorted) == Members(runs)
  {
    hide Ordered;
    sorted := OrderedNothing();
    for n := 0 to |runs|
      invariant Ordered(sorted) && Members(sorted) == Members(runs[..n])
    {
      assert runs[..n + 1] == runs[..n] + [runs[n]];
      MembersJoin(runs[..n], [runs[n]]);
      sorted := Insert(sorted, runs[n]);
    }
    assert runs[..|runs|] == runs;
  }

  method OrderedNothing() returns (none: seq<Run>)
    ensures Ordered(none) && none == []
  {
    none := [];
  }

  type Observations = map<(int, string), Result>

  /** Every result that was seen, under its time and check. */
  ghost predicate Observed(runs: set<Run>, o: Observations) {
    && (forall r <- runs, k <- r.checks :: (Time(r), k) in o && o[(Time(r), k)] == r.checks[k])
    && (forall x <- o :: exists r <- runs :: Time(r) == x.0 && x.1 in r.checks)
  }

  /** One run's results over the ones so far, unless one contradicts what was seen at the same time. */
  method AddRun(latest: map<string, Result>, o: Observations, run: Run)
    returns (added: Option<(map<string, Result>, Observations)>)
    ensures added.None? <==> exists k <- run.checks :: (Time(run), k) in o && o[(Time(run), k)] != run.checks[k]
    ensures added.Some? ==> added.value.0 == latest + run.checks
    ensures added.Some? ==> forall x :: x in added.value.1 <==> x in o || (x.0 == Time(run) && x.1 in run.checks)
    ensures added.Some? ==> forall x <- added.value.1 ::
              added.value.1[x] == if x.0 == Time(run) && x.1 in run.checks then run.checks[x.1] else o[x]
  {
    hide Merged, Noted, Time;
    var newLatest, newO := latest, o;
    var rest := run.checks.Keys;
    MergedNone(latest, run.checks);
    NotedNone(o, run);
    while rest != {}
      invariant rest <= run.checks.Keys && newLatest == Merged(latest, run.checks, rest)
      invariant Noted(o, newO, run, rest)
      decreases |rest|
    {
      var k :| k in rest;
      var key := (Time(run), k);
      if key in newO && newO[key] != run.checks[k] {
        NotedOld(o, newO, run, rest, k);
        return None;
      }
      MergedOne(latest, run.checks, rest, k);
      NotedOne(o, newO, run, rest, k);
      newO, newLatest := newO[key := run.checks[k]], newLatest[k := run.checks[k]];
      rest := rest - {k};
    }
    NotedAll(o, newO, run);
    return Some((newLatest, newO));
  }

  /** All of the run's checks outside `rest` are noted, and none of them contradicted anything. */
  ghost predicate Noted(o: Observations, newO: Observations, run: Run, rest: set<string>) {
    && (forall x :: x in newO <==> x in o || (x.0 == Time(run) && x.1 in run.checks && x.1 !in rest))
    && (forall x <- newO :: newO[x] == if x.0 == Time(run) && x.1 in run.checks && x.1 !in rest then run.checks[x.1] else o[x])
    && (forall k <- run.checks | k !in rest :: (Time(run), k) in o ==> o[(Time(run), k)] == run.checks[k])
  }

  lemma NotedNone(o: Observations, run: Run)
    ensures Noted(o, o, run, run.checks.Keys)
  {
  }

  lemma NotedOld(o: Observations, newO: Observations, run: Run, rest: set<string>, k: string)
    requires Noted(o, newO, run, rest) && k in rest
    ensures (Time(run), k) in newO ==> (Time(run), k) in o && o[(Time(run), k)] == newO[(Time(run), k)]
  {
  }

  lemma NotedOne(o: Observations, newO: Observations, run: Run, rest: set<string>, k: string)
    requires Noted(o, newO, run, rest) && k in rest && k in run.checks
    requires (Time(run), k) in newO ==> newO[(Time(run), k)] == run.checks[k]
    ensures Noted(o, newO[(Time(run), k) := run.checks[k]], run, rest - {k})
  {
    hide Time;
  }

  lemma NotedAll(o: Observations, newO: Observations, run: Run)
    requires Noted(o, newO, run, {})
    ensures forall x :: x in newO <==> x in o || (x.0 == Time(run) && x.1 in run.checks)
    ensures forall x <- newO :: newO[x] == if x.0 == Time(run) && x.1 in run.checks then run.checks[x.1] else o[x]
    ensures !exists k <- run.checks :: (Time(run), k) in o && o[(Time(run), k)] != run.checks[k]
  {
  }

  ghost function Merged(latest: map<string, Result>, checks: map<string, Result>, rest: set<string>): map<string,
                        Result> {
    latest + (checks - rest)
  }

  lemma MergedNone(latest: map<string, Result>, checks: map<string, Result>)
    ensures Merged(latest, checks, checks.Keys) == latest && Merged(latest, checks, {}) == latest + checks
  {
    assert checks - {} == checks;
  }

  lemma MergedOne(latest: map<string, Result>, checks: map<string, Result>, rest: set<string>, k: string)
    requires k in rest && rest <= checks.Keys
    ensures Merged(latest, checks, rest)[k := checks[k]] == Merged(latest, checks, rest - {k})
  {
  }

  lemma LatestStep(runs: set<Run>, latest: map<string, Result>, run: Run)
    requires IsLatest(runs, latest) && run.observedAt.Some? && forall r <- runs :: Time(r) <= Time(run)
    ensures IsLatest(runs + {run}, latest + run.checks)
  {
    var all, next := runs + {run}, latest + run.checks;
    forall k <- next ensures HasNewest(all, k, next[k]) {
      if k in run.checks {
        assert Newest(all, run, k);
      } else {
        var r :| Newest(runs, r, k) && r.checks[k] == latest[k];
        assert Newest(all, r, k);
      }
    }
  }

  /** A result differing from the one seen at its time is exactly what makes the runs inconsistent. */
  lemma ConsistentStep(c: Candidate, runs: set<Run>, o: Observations, run: Run)
    requires Consistent(c, runs) && Observed(runs, o) && RunValid(c, run)
    ensures Consistent(c, runs + {run}) <==>
              !exists k <- run.checks :: (Time(run), k) in o && o[(Time(run), k)] != run.checks[k]
  {
    hide ChecksValid, RunValid, Consistent, Observed;
    if k :| k in run.checks && (Time(run), k) in o && o[(Time(run), k)] != run.checks[k] {
      Contradicted(c, runs, o, run, k);
    } else {
      Uncontradicted(c, runs, o, run);
    }
  }

  lemma Contradicted(c: Candidate, runs: set<Run>, o: Observations, run: Run, k: string)
    requires Consistent(c, runs) && Observed(runs, o) && RunValid(c, run)
    requires k in run.checks && (Time(run), k) in o && o[(Time(run), k)] != run.checks[k]
    ensures !Consistent(c, runs + {run})
  {
    hide ChecksValid, Time;
    var r :| r in runs && Time(r) == Time(run) && k in r.checks;
    assert RunValid(c, r);
    Disagree(r, run, k);
  }

  lemma Uncontradicted(c: Candidate, runs: set<Run>, o: Observations, run: Run)
    requires Consistent(c, runs) && Observed(runs, o) && RunValid(c, run)
    requires !exists k <- run.checks :: (Time(run), k) in o && o[(Time(run), k)] != run.checks[k]
    ensures Consistent(c, runs + {run})
  {
    hide RunValid, Observed;
    forall r <- runs ensures Agree(r, run) && Agree(run, r) {
      AgreesWithEarlier(c, runs, o, run, r);
    }
    assert Agree(run, run);
    hide Agree;
  }

  lemma AgreesWithEarlier(c: Candidate, runs: set<Run>, o: Observations, run: Run, r: Run)
    requires Consistent(c, runs) && Observed(runs, o) && RunValid(c, run) && r in runs
    requires !exists k <- run.checks :: (Time(run), k) in o && o[(Time(run), k)] != run.checks[k]
    ensures Agree(r, run) && Agree(run, r)
  {
    assert RunValid(c, r);
    hide ChecksValid, Consistent;
    if r.observedAt == run.observedAt {
      forall k | k in r.checks && k in run.checks ensures r.checks[k] == run.checks[k] {
        assert (Time(r), k) in o && o[(Time(r), k)] == r.checks[k];
      }
    }
  }

  lemma Disagree(a: Run, b: Run, k: string)
    requires a.observedAt.Some? && b.observedAt.Some? && Time(a) == Time(b)
    requires k in a.checks && k in b.checks && a.checks[k] != b.checks[k]
    ensures !Agree(a, b)
  {
    assert a.observedAt == b.observedAt;
  }

  lemma ObservedStep(runs: set<Run>, o: Observations, run: Run, next: Observations)
    requires Observed(runs, o)
    requires !exists k <- run.checks :: (Time(run), k) in o && o[(Time(run), k)] != run.checks[k]
    requires forall x :: x in next <==> x in o || (x.0 == Time(run) && x.1 in run.checks)
    requires forall x <- next :: next[x] == if x.0 == Time(run) && x.1 in run.checks then run.checks[x.1] else o[x]
    ensures Observed(runs + {run}, next)
  {
  }

  lemma PartConsistent(c: Candidate, part: set<Run>, whole: set<Run>)
    requires part <= whole && Consistent(c, whole)
    ensures Consistent(c, part)
  {
  }

  /** The newest results of consistent runs; nothing for others. Only which runs there are matters. */
  method LatestChecks(c: Candidate, runs: seq<Run>) returns (latest: Option<map<string, Result>>)
    ensures latest.Some? <==> Consistent(c, Members(runs))
    ensures latest.Some? ==> IsLatest(Members(runs), latest.value)
  {
    hide Consistent, IsLatest, Observed, RunValid, Ordered;
    var sorted := SortedByTime(runs);
    var results: map<string, Result> := map[];
    var o: Observations := map[];
    NothingLatest(c, o);
    assert Members(sorted[..0]) == {};
    for n := 0 to |sorted|
      invariant Consistent(c, Members(sorted[..n])) && IsLatest(Members(sorted[..n]), results)
      invariant Observed(Members(sorted[..n]), o)
    {
      var run := sorted[n];
      MembersAdd(sorted, n);
      BeforeAll(c, sorted, n);
      if !RunValid(c, run) {
        return None;
      }
      ConsistentStep(c, Members(sorted[..n]), o, run);
      var added := AddRun(results, o, run);
      if added.None? {
        return None;
      }
      LatestStep(Members(sorted[..n]), results, run);
      ObservedStep(Members(sorted[..n]), o, run, added.value.1);
      results, o := added.value.0, added.value.1;
    }
    assert sorted[..|sorted|] == sorted;
    return Some(results);
  }

  lemma NothingLatest(c: Candidate, o: Observations)
    requires o == map[]
    ensures Consistent(c, {}) && IsLatest({}, map[]) && Observed({}, o)
  {
  }

  lemma BeforeAll(c: Candidate, sorted: seq<Run>, n: nat)
    requires Ordered(sorted) && n < |sorted|
    ensures forall r <- Members(sorted[..n]) :: Time(r) <= Time(sorted[n])
    ensures !RunValid(c, sorted[n]) ==> !Consistent(c, Members(sorted))
    ensures RunValid(c, sorted[n]) ==> sorted[n].observedAt.Some?
    ensures !Consistent(c, Members(sorted[..n]) + {sorted[n]}) ==> !Consistent(c, Members(sorted))
  {
    hide ChecksValid, Time;
    assert sorted[n] in Members(sorted);
    if Consistent(c, Members(sorted)) {
      PartConsistent(c, Members(sorted[..n]) + {sorted[n]}, Members(sorted));
    }
  }

  /** Every required check has a newest result, and it is a good one. */
  ghost predicate Complete(c: Candidate, runs: set<Run>) {
    forall k <- c.required :: exists r :: Newest(runs, r, k) && Good(r.checks[k])
  }

  /** In other words: passed or observed by hand in the newest run that has it, with its device effect if it needs one. */
  lemma CompleteExactly(c: Candidate, runs: set<Run>)
    requires Consistent(c, runs)
    ensures Complete(c, runs) <==>
              forall k <- c.required :: exists r <- runs ::
                && k in r.checks && r.checks[k].status in {Passed, ManualObservation}
                && (k in c.needsEffect ==> r.checks[k].deviceEffect)
                && forall s <- runs :: k in s.checks ==> s.observedAt.value <= r.observedAt.value
  {
    ConsistentExactly(c, runs);
    hide Consistent;
    forall k <- c.required, r <- runs | k in r.checks
      ensures Newest(runs, r, k) <==> forall s <- runs :: k in s.checks ==> s.observedAt.value <= r.observedAt.value
    {
      NewestExactly(runs, r, k);
    }
    hide Newest;
  }

  lemma NewestExactly(runs: set<Run>, r: Run, k: string)
    requires (forall s <- runs :: s.observedAt.Some?) && r in runs && k in r.checks
    ensures Newest(runs, r, k) <==> forall s <- runs :: k in s.checks ==> s.observedAt.value <= r.observedAt.value
  {
  }

  function Bad(latest: map<string, Result>): set<string> {
    set k <- latest | latest[k].status in {FailedCheck, NotRun, Blocked}
  }

  datatype Report = Report(latest: map<string, Result>, missing: set<string>, failing: set<string>, complete: bool)

  /** Complete as the report computes it: nothing missing and nothing failing among the latest results. */
  lemma CompleteReport(c: Candidate, runs: set<Run>, latest: map<string, Result>)
    requires Consistent(c, runs) && IsLatest(runs, latest)
    ensures Complete(c, runs) <==> (forall k <- c.required :: k in latest) && (forall k <- latest :: Good(latest[k]))
  {
    hide Good, Consistent;
    OnlyRequired(c, runs, latest);
    forall k <- latest ensures Good(latest[k]) <==> exists r :: Newest(runs, r, k) && Good(r.checks[k]) {
      assert HasNewest(runs, k, latest[k]);
      forall r | Newest(runs, r, k) ensures r.checks[k] == latest[k] {
        NewestAgree(c, runs, k, r.checks[k], latest[k]);
      }
    }
    forall k <- c.required | k !in latest ensures !exists r :: Newest(runs, r, k) {
    }
  }

  lemma OnlyRequired(c: Candidate, runs: set<Run>, latest: map<string, Result>)
    requires Consistent(c, runs) && IsLatest(runs, latest)
    ensures forall k <- latest :: k in c.required
  {
    forall k <- latest ensures k in c.required {
      var r :| r in runs && k in r.checks;
      assert RunValid(c, r);
    }
  }

  datatype Recorded = Rejected | Created | Existing

  class Store {
    const c: Candidate
    var runs: map<string, Run>
    var decision: Option<(bool, string)>

    constructor (c: Candidate)
      ensures this.c == c && runs == map[] && decision == None
    {
      this.c, runs, decision := c, map[], None;
    }

    /** A run is stored only beside runs it is consistent with, and never over another one. */
    method Record(run: Run) returns (recorded: Recorded)
      modifies this`runs
      ensures recorded == Rejected <==>
                !Consistent(c, old(runs).Values + {run})
                || (c.fileName(run) in old(runs) && old(runs)[c.fileName(run)] != run)
      ensures recorded == Rejected ==> runs == old(runs)
      ensures recorded != Rejected ==> runs.Values == old(runs).Values + {run} && Consistent(c, runs.Values)
      ensures recorded == Existing <==> runs == old(runs) && recorded != Rejected
      ensures recorded != Rejected ==> runs == old(runs)[c.fileName(run) := run]
    {
      hide Consistent, IsLatest;
      var previous := Listed(runs.Values);
      var latest := LatestChecks(c, previous + [run]);
      MembersJoin(previous, [run]);
      assert Members([run]) == {run};
      if latest.None? {
        return Rejected;
      }
      var destination := c.fileName(run);
      if destination in runs {
        if runs[destination] != run {
          return Rejected;
        }
        assert runs.Values + {run} == runs.Values;
        return Existing;
      }
      ValuesAdd(runs, destination, run);
      runs := runs[destination := run];
      recorded := Created;
    }

    /**
     * A sequence of runs, until one is rejected. Whether all of them are stored depends on which runs they are and
     * not on their order: they must be consistent with one another and the log, and no two may share a file name.
     */
    method RecordAll(documents: seq<Run>) returns (stored: nat)
      modifies this`runs
      ensures stored <= |documents| && runs.Values == old(runs).Values + Members(documents[..stored])
      ensures stored > 0 ==> Consistent(c, runs.Values)
      ensures stored == |documents| <==>
                documents == []
                || (Consistent(c, old(runs).Values + Members(documents)) && NamesApart(c, old(runs), Members(documents)))
      ensures stored < |documents| ==> Refused(c, runs, documents[stored])
    {
      hide Consistent, NamesApart, Filed;
      stored := 0;
      NothingFiled(c, runs, documents);
      while stored < |documents|
        invariant stored <= |documents| && runs.Values == old(runs).Values + Members(documents[..stored])
        invariant stored > 0 ==> Consistent(c, runs.Values)
        invariant Filed(c, old(runs), Members(documents[..stored]), runs)
        invariant NamesApart(c, old(runs), Members(documents[..stored]))
      {
        ghost var before := runs;
        MembersAdd(documents, stored);
        var recorded := Record(documents[stored]);
        FiledStep(c, old(runs), Members(documents[..stored]), before, documents[stored]);
        if recorded == Rejected {
          RefusedStays(c, old(runs), documents, stored, before);
          return;
        }
        stored := stored + 1;
      }
      assert documents[..|documents|] == documents;
    }

    method Status() returns (report: Option<Report>)
      ensures report.Some? <==> Consistent(c, runs.Values)
      ensures report.Some? ==> IsLatest(runs.Values, report.value.latest)
      ensures report.Some? ==> report.value.missing == c.required - report.value.latest.Keys
      ensures report.Some? ==> report.value.failing == Bad(report.value.latest)
      ensures report.Some? ==> (report.value.complete <==> Complete(c, runs.Values))
    {
      hide Consistent, IsLatest, Complete, Good;
      var listed := Listed(runs.Values);
      var latest := LatestChecks(c, listed);
      if latest.None? {
        return None;
      }
      CompleteReport(c, runs.Values, latest.value);
      var missing := c.required - latest.value.Keys;
      var failing := Bad(latest.value);
      FailingIs(latest.value);
      NothingOpen(c.required, latest.value);
      return Some(Report(latest.value, missing, failing, missing == {} && failing == {}));
    }

    /** A candidate is accepted only when it is complete; a decision takes a reason, and is not changed later. */
    method Decide(accept: bool, reason: string) returns (decided: bool)
      modifies this`decision
      ensures decided <==> reason != "" && Consistent(c, runs.Values) && (accept ==> Complete(c, runs.Values))
                           && old(decision) in {None, Some((accept, reason))}
      ensures decision == if decided then Some((accept, reason)) else old(decision)
    {
      hide Consistent, Complete;
      if reason == "" {
        return false;
      }
      var report := Status();
      decided := report.Some? && (accept ==> report.value.complete) && decision in {None, Some((accept, reason))};
      if decided {
        decision := Some((accept, reason));
      }
    }
  }

  /** A run that does not fit the log: it contradicts a stored one, or another run has its file name. */
  ghost predicate Refused(c: Candidate, runs: map<string, Run>, run: Run) {
    !Consistent(c, runs.Values + {run}) || (c.fileName(run) in runs && runs[c.fileName(run)] != run)
  }

  /** No two of these runs, and none of them and a stored one, share a file name. */
  ghost predicate NamesApart(c: Candidate, stored: map<string, Run>, runs: set<Run>) {
    && (forall r <- runs :: c.fileName(r) in stored ==> stored[c.fileName(r)] == r)
    && (forall r, s | r in runs && s in runs && c.fileName(r) == c.fileName(s) :: r == s)
  }

  /** The log after these runs have been added to it. */
  ghost predicate Filed(c: Candidate, before: map<string, Run>, added: set<Run>, runs: map<string, Run>) {
    && (forall n :: n in runs <==> n in before || exists r <- added :: c.fileName(r) == n)
    && (forall n <- before :: runs[n] == before[n]) && (forall r <- added :: runs[c.fileName(r)] == r)
  }

  lemma NothingFiled(c: Candidate, runs: map<string, Run>, documents: seq<Run>)
    ensures Members(documents[..0]) == {} && Filed(c, runs, {}, runs) && NamesApart(c, runs, {})
  {
  }

  lemma FiledStep(c: Candidate, before: map<string, Run>, added: set<Run>, runs: map<string, Run>, run: Run)
    requires Filed(c, before, added, runs) && NamesApart(c, before, added)
    ensures NamesApart(c, before, added + {run}) <==> (c.fileName(run) in runs ==> runs[c.fileName(run)] == run)
    ensures NamesApart(c, before, added + {run}) ==> Filed(c, before, added + {run}, runs[c.fileName(run) := run])
  {
    hide Filed, NamesApart;
    NamesStep(c, before, added, runs, run);
    if NamesApart(c, before, added + {run}) {
      FiledOneMore(c, before, added, runs, run);
    }
  }

  lemma NamesStep(c: Candidate, before: map<string, Run>, added: set<Run>, runs: map<string, Run>, run: Run)
    requires Filed(c, before, added, runs) && NamesApart(c, before, added)
    ensures NamesApart(c, before, added + {run}) <==> (c.fileName(run) in runs ==> runs[c.fileName(run)] == run)
  {
    var name, all := c.fileName(run), added + {run};
    assert run in all && forall r <- added :: r in all;
    if r :| r in added && c.fileName(r) == name {
      assert runs[c.fileName(r)] == r;
    }
  }

  lemma FiledOneMore(c: Candidate, before: map<string, Run>, added: set<Run>, runs: map<string, Run>, run: Run)
    requires Filed(c, before, added, runs) && (c.fileName(run) in runs ==> runs[c.fileName(run)] == run)
    ensures Filed(c, before, added + {run}, runs[c.fileName(run) := run])
  {
    assert run in added + {run} && forall r <- added :: r in added + {run};
  }

  /** What refuses one run refuses every set that holds it and the runs before it. */
  lemma RefusedStays(c: Candidate, before: map<string, Run>, documents: seq<Run>, n: nat, runs: map<string, Run>)
    requires n < |documents| && Filed(c, before, Members(documents[..n]), runs)
    requires runs.Values == before.Values + Members(documents[..n]) && NamesApart(c, before, Members(documents[..n]))
    requires Refused(c, runs, documents[n])
    ensures !(Consistent(c, before.Values + Members(documents)) && NamesApart(c, before, Members(documents)))
  {
    var run, all := documents[n], Members(documents);
    MembersAdd(documents, n);
    assert Members(documents[..n + 1]) <= all;
    if c.fileName(run) in runs && runs[c.fileName(run)] != run {
      FiledStep(c, before, Members(documents[..n]), runs, run);
      hide Filed, Consistent;
      assert !NamesApart(c, before, Members(documents[..n + 1]));
    } else {
      hide Filed, Consistent, NamesApart;
      if Consistent(c, before.Values + all) {
        PartConsistent(c, runs.Values + {run}, before.Values + all);
      }
    }
  }

  lemma ValuesAdd(runs: map<string, Run>, name: string, run: Run)
    requires name !in runs
    ensures runs[name := run].Values == runs.Values + {run}
  {
    var next := runs[name := run];
    forall r | r in runs.Values + {run} ensures r in next.Values {
      if r in runs.Values {
        var n :| n in runs && runs[n] == r;
        assert next[n] == r;
      } else {
        assert next[name] == r;
      }
    }
  }

  lemma FailingIs(latest: map<string, Result>)
    ensures Bad(latest) == set k <- latest | !Good(latest[k])
  {
    forall k <- latest ensures latest[k].status in {FailedCheck, NotRun, Blocked} <==> !Good(latest[k]) {
      var s := latest[k].status;
      assert s == Passed || s == FailedCheck || s == NotRun || s == Blocked || s == ManualObservation;
    }
  }

  lemma NothingOpen(required: set<string>, latest: map<string, Result>)
    ensures required - latest.Keys == {} <==> forall k <- required :: k in latest
    ensures (set k <- latest | !Good(latest[k])) == {} <==> forall k <- latest :: Good(latest[k])
  {
    hide Good;
    var failing := set k <- latest | !Good(latest[k]);
    assert forall k <- latest :: !Good(latest[k]) ==> k in failing;
    assert forall k <- required :: k !in latest ==> k in required - latest.Keys;
  }
}
