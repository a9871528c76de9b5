/** What a migration tells the operator: progress reports, the counters of a class, and its account. */
module MigrationReports {
  import opened Prelude
  import opened StorageKeys
  import opened Photos
  import opened PhotoPorts
  import opened MigrationOutcome
  import opened MigrationProgress

  // ---- Reports ----

  datatype Progress =
    Progress(c: PhotoClass, done: nat, total: nat, outcome: Outcome, ref: Ref, deletedLocal: bool, deleteFailed: bool)

  /** Why one row was not migrated. */
  datatype Failure = Mismatch | Integrity | Other

  function OutcomeOf(f: Failure): Outcome {
    match f
    case Mismatch => HashMismatch
    case Integrity => TargetIntegrityFailed
    case Other => Error
  }

  /** The extra report of a file that could not be deleted after its row's flip. */
  function FailedDelete(c: PhotoClass, done: nat, total: nat, ref: Ref): Progress {
    Progress(c, done, total, Error, ref, false, true)
  }

  /** How many reports carry the outcome. */
  function Count(reports: seq<Progress>, o: Outcome): nat {
    if reports == [] then 0
    else Count(reports[..|reports| - 1], o) + if reports[|reports| - 1].outcome == o then 1 else 0
  }

  /** The reports that end a row: all but the extra report of a failed deletion. */
  function PerRow(reports: seq<Progress>): seq<Progress> {
    if reports == [] then []
    else PerRow(reports[..|reports| - 1]) + if reports[|reports| - 1].deleteFailed then [] else [reports[|reports| - 1]]
  }

  function FailedDeletes(reports: seq<Progress>): nat {
    if reports == [] then 0
    else FailedDeletes(reports[..|reports| - 1]) + if reports[|reports| - 1].deleteFailed then 1 else 0
  }

  predicate IsTrouble(o: Outcome) {
    !o.Migrated? && !o.AlreadyMigrated?
  }

  /** A deletion failed, or some row was not migrated. */
  ghost predicate Troubled(reports: seq<Progress>) {
    || FailedDeletes(reports) > 0
    || exists i :: 0 <= i < |PerRow(reports)| && IsTrouble(PerRow(reports)[i].outcome)
  }

  lemma ReportSnoc(reports: seq<Progress>, p: Progress)
    ensures forall o :: Count(reports + [p], o) == Count(reports, o) + if p.outcome == o then 1 else 0
    ensures PerRow(reports + [p]) == PerRow(reports) + if p.deleteFailed then [] else [p]
    ensures FailedDeletes(reports + [p]) == FailedDeletes(reports) + if p.deleteFailed then 1 else 0
    ensures Troubled(reports + [p]) <==> Troubled(reports) || p.deleteFailed || IsTrouble(p.outcome)
  {
    assert (reports + [p])[..|reports|] == reports;
    var before, now := PerRow(reports), PerRow(reports + [p]);
    assert forall i | 0 <= i < |before| :: now[i] == before[i];
    if !p.deleteFailed { assert now[|before|] == p; }
    TroubledSplit(before, now, p);
  }

  lemma TroubledSplit(before: seq<Progress>, now: seq<Progress>, p: Progress)
    requires now == before + if p.deleteFailed then [] else [p]
    ensures (exists i :: 0 <= i < |now| && IsTrouble(now[i].outcome)) <==>
              || (exists i :: 0 <= i < |before| && IsTrouble(before[i].outcome))
              || (!p.deleteFailed && IsTrouble(p.outcome))
  {
    if i :| 0 <= i < |before| && IsTrouble(before[i].outcome) { assert now[i] == before[i]; }
    if !p.deleteFailed { assert now[|before|] == p; }
  }

  /** Every report has one of the five outcomes, and either ends a row or tells of a failed deletion. */
  lemma {:induction false} ReportsPartition(reports: seq<Progress>)
    ensures Count(reports, Migrated) + Count(reports, AlreadyMigrated) + Count(reports, HashMismatch)
          + Count(reports, TargetIntegrityFailed) + Count(reports, Error) == |reports|
    ensures |PerRow(reports)| + FailedDeletes(reports) == |reports|
  {
    if reports != [] { ReportsPartition(reports[..|reports| - 1]); }
  }

  /** The rows of one class are reported in order, as done out of total. */
  ghost predicate Numbered(perRow: seq<Progress>, c: PhotoClass, total: nat) {
    forall i | 0 <= i < |perRow| :: perRow[i].c == c && perRow[i].done == i + 1 && perRow[i].total == total
  }

  /** The i-th report is what a fault-free pass from w0 says of the i-th row visited. */
  ghost predicate Judged(cfg: Config, w0: World, c: PhotoClass, perRow: seq<Progress>, visited: seq<nat>) {
    && |perRow| == |visited|
    && forall i | 0 <= i < |visited| ::
         visited[i] in w0.Rows(c) && perRow[i].outcome == VerdictOf(cfg, w0, c, visited[i])
  }

  lemma JudgedNext(cfg: Config, w0: World, c: PhotoClass, perRow: seq<Progress>, visited: seq<nat>, p: Progress,
                   id: nat)
    requires Judged(cfg, w0, c, perRow, visited) && id in w0.Rows(c) && p.outcome == VerdictOf(cfg, w0, c, id)
    ensures Judged(cfg, w0, c, perRow + [p], visited + [id])
  {
    hide VerdictOf;
  }

  // ---- The result of one class ----

  class ClassResult {
    const c: PhotoClass
    var migrated: nat
    var alreadyDone: nat
    var hashMismatches: nat
    var targetIntegrityFailures: nat
    var errors: nat
    var deletedLocal: nat
    var reports: seq<Progress>  // what the progress callback received for this class

    constructor (c: PhotoClass)
      ensures this.c == c && reports == [] && deletedLocal == 0 && Accounted()
    {
      this.c, reports := c, [];
      migrated, alreadyDone, hashMismatches, targetIntegrityFailures, errors, deletedLocal := 0, 0, 0, 0, 0, 0;
    }

    predicate HasFindings()
      reads this
    {
      hashMismatches > 0 || targetIntegrityFailures > 0 || errors > 0
    }

    function Counter(o: Outcome): nat
      reads this
    {
      match o
      case Migrated => migrated
      case AlreadyMigrated => alreadyDone
      case HashMismatch => hashMismatches
      case TargetIntegrityFailed => targetIntegrityFailures
      case Error => errors
    }

    /** Every counter is the number of reports with its outcome; there are findings iff a report has trouble. */
    ghost predicate Accounted()
      reads this
    {
      (forall o :: Counter(o) == Count(reports, o)) && (HasFindings() <==> Troubled(reports))
    }

    /** The final account of a class: the rows visited are reported once each, in order, as done out of their
        total; every counter is the number of its reports, plus the sweep's for integrity failures; there are
        findings exactly when a deletion failed, a row was not migrated or the sweep found a bad object. */
    ghost predicate Tells(c: PhotoClass, visited: seq<nat>, failures: nat)
      reads this
    {
      && this.c == c && Numbered(PerRow(reports), c, |visited|) && |PerRow(reports)| == |visited|
      && migrated == Count(reports, Migrated) && alreadyDone == Count(reports, AlreadyMigrated)
      && hashMismatches == Count(reports, HashMismatch) && errors == Count(reports, Error)
      && targetIntegrityFailures == Count(reports, TargetIntegrityFailed) + failures
      && (HasFindings() <==> Troubled(reports) || failures > 0)
    }

    lemma AccountTells(visited: seq<nat>)
      requires Accounted() && Numbered(PerRow(reports), c, |visited|) && |PerRow(reports)| == |visited|
      ensures Tells(c, visited, 0)
    {
      assert Counter(Migrated) == Count(reports, Migrated) &&
        Counter(AlreadyMigrated) == Count(reports, AlreadyMigrated);
      assert Counter(HashMismatch) == Count(reports, HashMismatch) && Counter(Error) == Count(reports, Error);
      assert Counter(TargetIntegrityFailed) == Count(reports, TargetIntegrityFailed);
    }

    /** The five counters add up to the rows visited, the failed deletions and the sweep's integrity failures. */
    lemma CountersAddUp(visited: seq<nat>, failures: nat)
      requires Tells(c, visited, failures)
      ensures migrated + alreadyDone + hashMismatches + targetIntegrityFailures + errors
           == |visited| + FailedDeletes(reports) + failures
    {
      ReportsPartition(reports);
    }

    /** Counts one outcome and reports it. */
    method Tell(p: Progress)
      requires Accounted() && (p.deleteFailed ==> IsTrouble(p.outcome))
      modifies this
      ensures Accounted() && deletedLocal == old(deletedLocal) && reports == old(reports) + [p]
    {
      ghost var before := reports;
      ReportSnoc(before, p);
      hide Count, PerRow, Troubled, FailedDeletes;
      match p.outcome {
        case Migrated => migrated := migrated + 1;
        case AlreadyMigrated => alreadyDone := alreadyDone + 1;
        case HashMismatch => hashMismatches := hashMismatches + 1;
        case TargetIntegrityFailed => targetIntegrityFailures := targetIntegrityFailures + 1;
        case Error => errors := errors + 1;
      }
      assert forall o :: Counter(o) == Count(before, o) + if p.outcome == o then 1 else 0;
      reports := reports + [p];
    }
  }

  // ---- The main loop, as it tells ----

  /** What one row's pass did and told: the report that ends the row, whether its file's deletion failed, and the
      reports, deletions and stores before and after. */
  ghost predicate TellsOfRow(cfg: Config, faulty: bool, deleteLocal: bool, w: World, w': World, c: PhotoClass, id: nat,
                             row: Row, done: nat, total: nat, p: Progress, failed: bool,
                             reports: seq<Progress>, reports': seq<Progress>, deleted: nat, deleted': nat)
  {
    && id in w.Rows(c) && id in w'.Rows(c)
    && reports' == reports + (if failed then [FailedDelete(c, done, total, row.ref)] else []) + [p]
    && p.c == c && p.done == done && p.total == total && !p.deleteFailed && !p.outcome.AlreadyMigrated?
    && (p.outcome.Migrated? ==> w'.Rows(c)[id].backend.S3?)
    && p.ref == (if p.outcome.Migrated? then w'.Rows(c)[id].ref else row.ref)
    && w'.local == (if p.deletedLocal then w.local - {row.ref} else w.local)
    && deleted' + |w'.local| == deleted + |w.local|
    && (!deleteLocal ==> !p.deletedLocal && !failed)
    && (deleteLocal && p.outcome.Migrated? && !failed ==> (p.deletedLocal <==> !Needed(w', row.ref)))
    && (failed ==> faulty && p.outcome.Migrated? && !p.deletedLocal)
    && (!faulty ==> p.outcome == VerdictOf(cfg, w, c, id))
  }

  /** What the main loop over a class has told when it reached the cursor. */
  ghost predicate Told(cfg: Config, faulty: bool, deleteLocal: bool, w0: World, w: World, c: PhotoClass, after: nat,
                       total: nat, reports: seq<Progress>, deleted: nat, visited: seq<nat>)
  {
    && Numbered(PerRow(reports), c, total) && |PerRow(reports)| == |visited|
    && deleted + |w.local| == |w0.local|
    && (!deleteLocal ==> w.local == w0.local && FailedDeletes(reports) == 0)
    && (!Troubled(reports) ==> NoLocalUpTo(w.Rows(c), after))
    && (deleteLocal && !Troubled(reports) ==> ReclaimsUpTo(w0, w, c, after))
    && (!faulty ==> FailedDeletes(reports) == 0 && Judged(cfg, w0, c, PerRow(reports), visited))
  }

  /** The reports of one pass, in terms of the four things read off them. */
  lemma PassReports(reports: seq<Progress>, failed: bool, extra: Progress, p: Progress)
    requires extra.deleteFailed && !p.deleteFailed
    ensures var more := reports + (if failed then [extra] else []) + [p];
            && PerRow(more) == PerRow(reports) + [p]
            && FailedDeletes(more) == FailedDeletes(reports) + (if failed then 1 else 0)
            && (Troubled(more) <==> Troubled(reports) || failed || IsTrouble(p.outcome))
  {
    hide PerRow, FailedDeletes, Troubled, IsTrouble;
    assert reports + [] == reports;
    ReportSnoc(reports, extra);
    ReportSnoc(reports + if failed then [extra] else [], p);
  }

  lemma ToldNext(cfg: Config, faulty: bool, deleteLocal: bool, w0: World, w: World, w': World, c: PhotoClass,
                 after: nat, id: nat, total: nat, p: Progress, failed: bool, reports: seq<Progress>,
                 reports': seq<Progress>, deleted: nat, deleted': nat, visited: seq<nat>)
    requires Told(cfg, faulty, deleteLocal, w0, w, c, after, total, reports, deleted, visited)
    requires ClassFrame(w0, w, c, after) && IsNext(w0.Rows(c), Local, after, id) && OnlyRow(w, w', c, id)
    requires TellsOfRow(cfg, faulty, deleteLocal, w, w', c, id, w0.Rows(c)[id], |visited| + 1, total, p, failed,
                        reports, reports', deleted, deleted')
    requires !faulty ==> VerdictOf(cfg, w, c, id) == VerdictOf(cfg, w0, c, id)
    ensures Told(cfg, faulty, deleteLocal, w0, w', c, id, total, reports', deleted', visited + [id])
  {
    PassReports(reports, failed, FailedDelete(c, |visited| + 1, total, w0.Rows(c)[id].ref), p);
    hide PerRow, FailedDeletes, Troubled, VerdictOf, ClassFrame, OnlyRow, Judged, NoLocalUpTo, ReclaimsUpTo;
    if !faulty { JudgedNext(cfg, w0, c, PerRow(reports), visited, p, id); }
    if !Troubled(reports') {
      NoLocalNext(w0, w, w', c, after, id);
      if deleteLocal { ReclaimsNext(w0, w, w', c, after, id); }
    }
  }

  // ---- The account of one class ----

  /** What happened to a class: the state its pass began in, the state between its main loop and its sweep, the
      state it ended in, the rows the main loop visited, in order, how many of their files could not be deleted,
      and the rows whose object the sweep could not trust. */
  datatype Account =
    Account(before: World, loop: World, after: World, visited: seq<nat>, failedDeletes: nat, bad: set<PhotoId>)

  ghost predicate IsAccountOf(cfg: Config, faulty: bool, deleteLocal: bool, result: ClassResult, a: Account)
    reads result
  {
    && EveryId(a.before.Rows(result.c), Local, a.visited) && ClassChange(a.before, a.loop, result.c)
    && OnlyIntactGone(cfg, a.loop, a.after)
    && result.Tells(result.c, a.visited, |a.bad|) && FailedDeletes(result.reports) == a.failedDeletes
    && result.deletedLocal + |a.after.local| == |a.before.local|
    && a.bad <= Suspects(cfg, a.loop, result.c)
    && (!deleteLocal ==> a.failedDeletes == 0 && a.bad == {} && a.after.local == a.before.local)
    && (!Troubled(result.reports) ==> NoLocal(a.loop.Rows(result.c)))
    && (deleteLocal && !Troubled(result.reports) ==> Reclaims(a.before, a.loop, result.c))
    && (!faulty ==>
          && a.failedDeletes == 0 && Judged(cfg, a.before, result.c, PerRow(result.reports), a.visited)
          && a.bad == if deleteLocal then BadTargets(cfg, a.loop, result.c) else {})
  }

  /** The account of a class before its sweep. */
  ghost predicate IsMainAccountOf(cfg: Config, faulty: bool, deleteLocal: bool, result: ClassResult, a: Account)
    reads result
  {
    && EveryId(a.before.Rows(result.c), Local, a.visited) && ClassChange(a.before, a.loop, result.c)
    && result.Tells(result.c, a.visited, 0) && FailedDeletes(result.reports) == a.failedDeletes
    && result.deletedLocal + |a.loop.local| == |a.before.local|
    && (!deleteLocal ==> a.failedDeletes == 0 && a.loop.local == a.before.local)
    && (!Troubled(result.reports) ==> NoLocal(a.loop.Rows(result.c)))
    && (deleteLocal && !Troubled(result.reports) ==> Reclaims(a.before, a.loop, result.c))
    && (!faulty ==> a.failedDeletes == 0 && Judged(cfg, a.before, result.c, PerRow(result.reports), a.visited))
  }

  /** When the main loop ends, what it told is the account of the class before the sweep. */
  lemma LoopIsTold(cfg: Config, faulty: bool, deleteLocal: bool, result: ClassResult, a: Account, last: nat, total: nat)
    requires ClassFrame(a.before, a.loop, result.c, last)
    requires VisitedUpTo(a.before.Rows(result.c), Local, last, a.visited)
    requires Above(a.before.Rows(result.c), Local, last) == {} && result.Accounted()
    requires Told(cfg, faulty, deleteLocal, a.before, a.loop, result.c, last, total, result.reports,
                  result.deletedLocal, a.visited)
    requires total == |Above(a.before.Rows(result.c), Local, 0)| && a.failedDeletes == FailedDeletes(result.reports)
    ensures IsMainAccountOf(cfg, faulty, deleteLocal, result, a)
  {
    LoopEnds(a.before, a.loop, result.c, last, a.visited);
    result.AccountTells(a.visited);
    hide ClassFrame, VisitedUpTo, EveryId, ClassChange, NoLocalUpTo, NoLocal, Troubled, PerRow, FailedDeletes, Judged;
    if deleteLocal && !Troubled(result.reports) { ReclaimsEverywhere(a.before, a.loop, result.c, last); }
    hide ClassResult.Tells, ClassResult.Accounted, Reclaims, ReclaimsUpTo;
  }

  /** Without deletion there is no sweep. */
  lemma MainIsWhole(cfg: Config, faulty: bool, result: ClassResult, a: Account)
    requires IsMainAccountOf(cfg, faulty, false, result, a) && a.after == a.loop && a.bad == {}
    ensures IsAccountOf(cfg, faulty, false, result, a)
  {
    hide EveryId, ClassChange, ClassResult.Tells, Troubled, NoLocal, Reclaims, Judged, PerRow, FailedDeletes;
  }

  /** A class without findings has no local row left, and with deletion no file that no local row needs. */
  lemma AccountGives(cfg: Config, faulty: bool, deleteLocal: bool, result: ClassResult, a: Account)
    requires IsAccountOf(cfg, faulty, deleteLocal, result, a)
    ensures ClassChange(a.before, a.after, result.c)
    ensures !result.HasFindings() ==> NoLocal(a.after.Rows(result.c))
    ensures !result.HasFindings() && deleteLocal ==> Reclaims(a.before, a.after, result.c)
  {
    SweepIsClassChange(a.before, a.loop, a.after, result.c);
    if deleteLocal && !result.HasFindings() { SweepStillReclaims(a.before, a.loop, a.after, result.c); }
    hide EveryId, ClassChange, Troubled, NoLocal, Reclaims, Judged, PerRow, FailedDeletes, Suspects, BadTargets;
  }

  /** Some initially local row does not migrate, or the sweep meets an object it cannot trust. */
  ghost predicate HasTrouble(cfg: Config, c: PhotoClass, a: Account) {
    || (exists id :: id in Above(a.before.Rows(c), Local, 0) && VerdictOf(cfg, a.before, c, id) != Migrated)
    || a.bad != {}
  }

  /** Without faults, a class has findings exactly when its account has trouble. */
  lemma FindingsAreReal(cfg: Config, deleteLocal: bool, result: ClassResult, a: Account)
    requires IsAccountOf(cfg, false, deleteLocal, result, a)
    ensures result.HasFindings() <==> HasTrouble(cfg, result.c, a)
  {
    hide VerdictOf, ClassChange, Reclaims, NoLocal, Suspects, BadTargets, ClassResult.HasFindings, PerRow, Count;
    var perRow := PerRow(result.reports);
    assert result.HasFindings() <==> Troubled(result.reports) || |a.bad| > 0;
    assert |a.bad| > 0 <==> a.bad != {};
    forall id
      ensures id in a.visited <==> id in Above(a.before.Rows(result.c), Local, 0)
    {
    }
    if i :| 0 <= i < |perRow| && IsTrouble(perRow[i].outcome) {
      assert a.visited[i] in a.visited;
    }
    if id :| id in Above(a.before.Rows(result.c), Local, 0) && VerdictOf(cfg, a.before, result.c, id) != Migrated {
      assert id in a.visited;
      var i :| 0 <= i < |a.visited| && a.visited[i] == id;
      VerdictIsNotAlready(cfg, a.before, result.c, id);
      assert IsTrouble(perRow[i].outcome);
    }
  }

  lemma VerdictIsNotAlready(cfg: Config, w: World, c: PhotoClass, id: nat)
    requires id in w.Rows(c)
    ensures !VerdictOf(cfg, w, c, id).AlreadyMigrated?
  {
  }

  // ---- Several classes ----

  /** Whether any class has something for the operator to look at: the nonzero exit of `storage migrate`. */
  predicate HasFindings(results: seq<ClassResult>)
    reads results
  {
    exists x :: x in results && x.HasFindings()
  }

  lemma NothingToldYet(cfg: Config, faulty: bool, deleteLocal: bool, w0: World)
    ensures !HasFindings([]) && AreAccounts(cfg, faulty, deleteLocal, [], []) && Chained([], w0)
  {
  }

  lemma FindingsNext(results: seq<ClassResult>, one: ClassResult)
    ensures HasFindings(results + [one]) <==> HasFindings(results) || one.HasFindings()
  {
    assert one in results + [one] && forall x | x in results :: x in results + [one];
  }

  /** The state after the first i accounts. */
  function Reached(accounts: seq<Account>, before: World, i: nat): World
    requires i <= |accounts|
  {
    if i == 0 then before else accounts[i - 1].after
  }

  /** Each account begins where the one before it ended. */
  ghost predicate Chained(accounts: seq<Account>, before: World) {
    forall i | 0 <= i < |accounts| :: accounts[i].before == Reached(accounts, before, i)
  }

  lemma ChainedNext(accounts: seq<Account>, before: World, a: Account)
    requires Chained(accounts, before) && a.before == Reached(accounts, before, |accounts|)
    ensures Chained(accounts + [a], before) && Reached(accounts + [a], before, |accounts| + 1) == a.after
  {
    var most := accounts + [a];
    forall i | 0 <= i < |most|
      ensures most[i].before == Reached(most, before, i)
    {
      assert Reached(most, before, i) == Reached(accounts, before, i);
      assert most[i] == if i < |accounts| then accounts[i] else a;
    }
  }

  /** One account per result. */
  ghost predicate AreAccounts(cfg: Config, faulty: bool, deleteLocal: bool, results: seq<ClassResult>,
                              accounts: seq<Account>)
    reads results
  {
    && |results| == |accounts|
    && forall i | 0 <= i < |results| :: IsAccountOf(cfg, faulty, deleteLocal, results[i], accounts[i])
  }

  lemma AccountsNext(cfg: Config, faulty: bool, deleteLocal: bool, results: seq<ClassResult>, accounts: seq<Account>,
                     one: ClassResult, a: Account)
    requires AreAccounts(cfg, faulty, deleteLocal, results, accounts) && IsAccountOf(cfg, faulty, deleteLocal, one, a)
    ensures AreAccounts(cfg, faulty, deleteLocal, results + [one], accounts + [a])
  {
    hide IsAccountOf;
  }

  /** Without faults, the exit code is nonzero exactly when some class has trouble. */
  lemma ExitCodeIsExact(cfg: Config, deleteLocal: bool, results: seq<ClassResult>, accounts: seq<Account>)
    requires AreAccounts(cfg, false, deleteLocal, results, accounts)
    ensures HasFindings(results) <==> exists i :: 0 <= i < |results| && HasTrouble(cfg, results[i].c, accounts[i])
  {
    hide IsAccountOf, HasTrouble, ClassResult.HasFindings;
    forall i | 0 <= i < |results|
      ensures results[i] in results && (results[i].HasFindings() <==> HasTrouble(cfg, results[i].c, accounts[i]))
    {
      FindingsAreReal(cfg, deleteLocal, results[i], accounts[i]);
    }
  }
}
