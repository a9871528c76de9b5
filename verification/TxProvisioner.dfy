/** ProvisionHousehold and ProvisionMember as they run: one statement after another on a transaction, while the
    other sessions of the database do as they please between any two of them. */
module Provisioner {
  import opened Prelude
  import opened ProvisioningProtocol
  import opened ProvisioningSafety

  datatype Error =
    | HouseholdMismatch | PasswordRequired | HouseholdExists | HouseholdNotFound | DuplicateMember | EmailInUse
    | StatementFailed | CommitFailed

  datatype Status = Done | Failed(error: Error) {
    predicate IsFailure() { Failed? }
    function PropagateFailure(): Status { this }
  }

  // ---- Why a statement fails ----

  /** The transaction has come to this statement. */
  predicate Due(t: Transaction, act: Statement) {
    var q := t.request;
    match act
    case AcquireLock => q.NewHousehold? && t.phase.Begun?
    case CheckEmpty => t.phase.Locked?
    case CreateHousehold => t.phase.Checked?
    case LockHousehold => if q.NewHousehold? then t.phase.HouseholdCreated? else t.phase.Begun?
    case InsertMember => t.phase.MemberLocked?
    case InsertProfile => t.phase.MemberInserted?
    case SetPassword => t.phase.MemberAdded? && (q.NewHousehold? || (q.email != "" && q.passwordHash != ""))
    case CreateReward(_) => t.phase.Seeding? && t.phase.done < |SEEDS|
    case Commit => t.phase.Ready?
    case Abort => t.Live()
  }

  /** The error of a statement that the database refuses. A member's primary key is checked before its name and
      its foreign key last; a statement that waits for another transaction fails without a reason of its own. */
  function Refusal(s: System, i: nat, act: Statement): Error
    requires i < |s.txs|
  {
    var q, view := s.txs[i].request, s.View(i);
    match act
    case CheckEmpty => if view.households != map[] then HouseholdExists else StatementFailed
    case InsertMember =>
      if MemberIdOf(q) in view.members then StatementFailed
      else if !NameFree(s.db, view.members, q) then DuplicateMember
      else if q.household !in view.households then HouseholdNotFound
      else StatementFailed
    case SetPassword => if !EmailFree(s.db, view.members, q) then EmailInUse else StatementFailed
    case _ => StatementFailed
  }

  /** Another member has the email, in whatever case. */
  ghost predicate IsEmailTaken(db: Database, members: map<Id, Member>, q: Request) {
    exists m ::
      && m in members && m != (if q.NewHousehold? then q.owner else q.member)
      && members[m].credentials.Some? && db.lower(members[m].credentials.value.email) == db.lower(q.email)
  }

  /** Another member of the household has the name, in whatever case. */
  ghost predicate IsNameTaken(db: Database, members: map<Id, Member>, q: Request) {
    exists m ::
      && m in members && m != (if q.NewHousehold? then q.owner else q.member)
      && members[m].household == q.household
      && db.lower(members[m].displayName) == db.lower(if q.NewHousehold? then q.ownerName else q.displayName)
  }

  lemma TakenIsNotFree(db: Database, members: map<Id, Member>, q: Request)
    ensures IsEmailTaken(db, members, q) <==> !EmailFree(db, members, q)
    ensures IsNameTaken(db, members, q) <==> !NameFree(db, members, q)
  {
  }

  /** What an error tells of the committed rows, in the state the call ended in or the one it began in. */
  ghost predicate IsReason(e: Error, before: System, after: System, q: Request) {
    match e
    case HouseholdExists => q.NewHousehold? && after.committed.households != map[]
    case HouseholdNotFound => q.NewMember? && q.household !in before.committed.households
    case DuplicateMember => IsNameTaken(after.db, after.committed.members, q)
    case EmailInUse => IsEmailTaken(after.db, after.committed.members, q)
    case PasswordRequired => q.passwordHash == ""
    case _ => true
  }

  /** An error of the statements up to the commit, and its reason. */
  ghost predicate IsExplained(e: Error, s: System, q: Request) {
    IsReason(e, s, s, q) && e != CommitFailed && e != HouseholdMismatch && (e == PasswordRequired ==> q.NewMember?)
  }

  lemma AreSeedsOnOffer(t: Transaction)
    requires SeededUpTo(t, |SEEDS|)
    ensures forall j | 0 <= j < |SEEDS| ::
              && t.rewardIds[j] in t.own.rewards
              && IsSeed(t.own.rewards[t.rewardIds[j]], t.request.household, j)
  {
  }

  /** A failing connection needs no reason. */
  lemma AnyStatementMayFail(s: System, q: Request)
    ensures IsExplained(StatementFailed, s, q)
  {
  }

  lemma ReadyIsEnabled(s: System, i: nat)
    requires i < |s.txs| && Due(s.txs[i], Commit)
    ensures Enabled(s, i, Commit)
  {
  }

  lemma WroteHousehold(t: Transaction)
    requires WroteAll(t) && t.request.NewHousehold?
    ensures t.request.household in t.own.households
  {
  }

  lemma ReasonStays(e: Error, before: System, after: System, q: Request, run: seq<System>, m: nat, n: nat, k: nat)
    requires IsRun(run) && Initial(run[0]) && m <= n <= k < |run|
    requires IsExplained(e, run[n], q)
    requires before == run[m] && after == run[k]
    ensures IsReason(e, before, after, q)
  {
    CommittedRowsStay(run, m, n);
    CommittedRowsStay(run, n, k);
    hide IsRun, Initial;
  }

  lemma OwnMembers(t: Transaction)
    requires WritesMatch(t) && t.Live()
    ensures t.own.members.Keys <= {MemberIdOf(t.request)}
    ensures t.phase.MemberLocked? ==> t.own.households == HouseholdOf(t.request)
  {
    hide AreSeeds;
  }

  /** A transaction's own rows never collide with its request. */
  lemma CollisionsAreCommitted(s: System, i: nat)
    requires i < |s.txs| && WritesMatch(s.txs[i]) && s.txs[i].Live()
    ensures NameFree(s.db, s.View(i).members, s.txs[i].request) <==>
              NameFree(s.db, s.committed.members, s.txs[i].request)
    ensures EmailFree(s.db, s.View(i).members, s.txs[i].request) <==>
              EmailFree(s.db, s.committed.members, s.txs[i].request)
  {
    OwnMembers(s.txs[i]);
    hide WritesMatch, HasName, HasEmail;
    assert forall m | m != MemberIdOf(s.txs[i].request) :: m in s.View(i).members <==> m in s.committed.members;
    assert forall m | m in s.committed.members && m != MemberIdOf(s.txs[i].request) ::
        s.committed.members[m] == s.View(i).members[m];
  }

  /** A refusal has its reason in the committed rows. */
  lemma RefusalHasReason(s: System, i: nat, act: Statement)
    requires i < |s.txs| && WritesMatch(s.txs[i]) && Due(s.txs[i], act) && s.txs[i].Live()
    ensures IsExplained(Refusal(s, i, act), s, s.txs[i].request)
  {
    hide WritesMatch, NameFree, EmailFree, IsEmailTaken, IsNameTaken;
    CollisionsAreCommitted(s, i);
    TakenIsNotFree(s.db, s.committed.members, s.txs[i].request);
    OwnMembers(s.txs[i]);
    if act.CheckEmpty? { LockedHasNothing(s.txs[i]); }
  }

  lemma LockedHasNothing(t: Transaction)
    requires WritesMatch(t) && t.phase.Locked?
    ensures t.request.NewHousehold? && t.own.households == map[]
  {
  }

  // ---- A transaction alone ----

  /** Since `s0`, where all transactions had just begun, only transaction i has done anything. */
  ghost predicate OnlyMine(s0: System, s: System, i: nat) {
    && Initial(s0) && i < |s.txs| == |s0.txs| && s.db == s0.db && s.committed == s0.committed
    && (forall j | 0 <= j < |s.txs| && j != i :: s.txs[j] == s0.txs[j])
    && (forall key | key in s.locks :: s.locks[key] == i)
    && s.txs[i].request == s0.txs[i].request && s.txs[i].Live() && WritesMatch(s.txs[i])
  }

  /** How a statement of a transaction that is alone ends, by the rows that were there before. */
  function Answer(s0: System, t: Transaction, act: Statement): Status {
    var q, st := t.request, s0.committed;
    match act
    case CheckEmpty => if st.households == map[] then Done else Failed(HouseholdExists)
    case CreateHousehold => if q.household in st.households then Failed(StatementFailed) else Done
    case InsertMember =>
      if MemberIdOf(q) in st.members then Failed(StatementFailed)
      else if !NameFree(s0.db, st.members, q) then Failed(DuplicateMember)
      else if q.NewMember? && q.household !in st.households then Failed(HouseholdNotFound)
      else Done
    case InsertProfile =>
      if MemberIdOf(q) in st.profiles || q.color !in PALETTE then Failed(StatementFailed) else Done
    case SetPassword => if EmailFree(s0.db, st.members, q) then Done else Failed(EmailInUse)
    case CreateReward(id) => if id in st.rewards || id in t.rewardIds then Failed(StatementFailed) else Done
    case _ => Done
  }

  lemma OthersWroteNothing(s0: System, s: System, i: nat)
    requires OnlyMine(s0, s, i)
    ensures forall j | 0 <= j < |s.txs| && j != i :: s.txs[j].own == EMPTY
  {
    forall j | 0 <= j < |s.txs| && j != i
      ensures s.txs[j].own == EMPTY
    {
      assert s.txs[j] == s0.txs[j];
    }
  }

  /** Alone, a request collides with committed rows or with nothing. */
  lemma AloneCollisions(s0: System, s: System, i: nat)
    requires OnlyMine(s0, s, i)
    ensures NameFreeEverywhere(s, s.txs[i].request) <==> NameFree(s.db, s.committed.members, s.txs[i].request)
    ensures EmailFreeEverywhere(s, s.txs[i].request) <==> EmailFree(s.db, s.committed.members, s.txs[i].request)
    ensures NameFree(s.db, s.View(i).members, s.txs[i].request) <==>
              NameFree(s.db, s.committed.members, s.txs[i].request)
    ensures EmailFree(s.db, s.View(i).members, s.txs[i].request) <==>
              EmailFree(s.db, s.committed.members, s.txs[i].request)
  {
    OthersWroteNothing(s0, s, i);
    OwnMembers(s.txs[i]);
    CollisionsAreCommitted(s, i);
    hide OnlyMine, HasName, HasEmail;
  }

  ghost predicate IsAnswered(s0: System, s: System, i: nat, act: Statement)
    requires i < |s.txs|
  {
    && (Enabled(s, i, act) <==> Answer(s0, s.txs[i], act).Done?)
    && (Answer(s0, s.txs[i], act).Failed? ==> Answer(s0, s.txs[i], act).error == Refusal(s, i, act))
  }

  lemma AloneInsertMember(s0: System, s: System, i: nat)
    requires OnlyMine(s0, s, i) && Due(s.txs[i], InsertMember)
    ensures IsAnswered(s0, s, i, InsertMember)
  {
    OthersWroteNothing(s0, s, i);
    AloneCollisions(s0, s, i);
    hide Initial, NameFree, EmailFree, NameFreeEverywhere, EmailFreeEverywhere, AreSeeds;
    assert s.txs[i].own == EMPTY.(households := HouseholdOf(s.txs[i].request));
    hide WritesMatch;
  }

  lemma AloneSetPassword(s0: System, s: System, i: nat)
    requires OnlyMine(s0, s, i) && Due(s.txs[i], SetPassword)
    ensures IsAnswered(s0, s, i, SetPassword)
  {
    AloneCollisions(s0, s, i);
    hide Initial, NameFree, EmailFree, NameFreeEverywhere, EmailFreeEverywhere, WritesMatch;
  }

  lemma AloneReward(s0: System, s: System, i: nat, id: Id)
    requires OnlyMine(s0, s, i) && Due(s.txs[i], CreateReward(id))
    ensures IsAnswered(s0, s, i, CreateReward(id))
  {
    OthersWroteNothing(s0, s, i);
    assert id in s.txs[i].own.rewards <==> id in s.txs[i].rewardIds;
    hide Initial, WritesMatch;
  }

  lemma AloneEnabled(s0: System, s: System, i: nat, act: Statement)
    requires OnlyMine(s0, s, i) && Due(s.txs[i], act)
    ensures IsAnswered(s0, s, i, act)
  {
    match act
    case InsertMember => AloneInsertMember(s0, s, i);
    case SetPassword => AloneSetPassword(s0, s, i);
    case CreateReward(id) => AloneReward(s0, s, i, id);
    case _ =>
      OthersWroteNothing(s0, s, i);
      hide Initial, NameFree, EmailFree, NameFreeEverywhere, EmailFreeEverywhere, AreSeeds;
  }

  lemma AloneNext(s0: System, s: System, i: nat, act: Statement)
    requires OnlyMine(s0, s, i) && Enabled(s, i, act) && !act.Commit? && !act.Abort?
    ensures OnlyMine(s0, Next(s, i, act), i)
  {
    ExecutedMatches(s, i, act);
    hide Initial, WritesMatch, HouseholdIdFree, MemberIdFree, ProfileFree, RewardIdFree;
    hide NameFreeEverywhere, EmailFreeEverywhere;
  }

  predicate IdsUsable(st: Store, ids: seq<Id>) {
    && (forall j | 0 <= j < |ids| :: ids[j] !in st.rewards)
    && (forall j, k | 0 <= j < k < |ids| :: ids[j] != ids[k])
  }

  /** Whether the request's member can be added, and if not why, decided on the committed rows. */
  ghost function AddVerdict(s: System, q: Request): Status {
    var st, id := s.committed, if q.NewHousehold? then q.owner else q.member;
    if id in st.members then Failed(StatementFailed)
    else if IsNameTaken(s.db, st.members, q) then Failed(DuplicateMember)
    else if q.NewMember? && q.household !in st.households then Failed(HouseholdNotFound)
    else if id in st.profiles || q.color !in {"sage", "clay", "ochre", "blue", "plum"} then Failed(StatementFailed)
    else Done
  }

  /** What a household's transaction answers when it runs by itself and no statement fails without a reason. */
  ghost function HouseholdVerdict(s: System, q: Request, ids: seq<Id>): Status {
    if s.committed.households != map[] then Failed(HouseholdExists)
    else if AddVerdict(s, q).Failed? then AddVerdict(s, q)
    else if IsEmailTaken(s.db, s.committed.members, q) then Failed(EmailInUse)
    else if !IdsUsable(s.committed, ids) then Failed(StatementFailed)
    else Done
  }

  /** What a member's transaction answers then. */
  ghost function MemberVerdict(s: System, q: Request): Status {
    if AddVerdict(s, q).Failed? then AddVerdict(s, q)
    else if q.email == "" then Done
    else if q.passwordHash == "" then Failed(PasswordRequired)
    else if IsEmailTaken(s.db, s.committed.members, q) then Failed(EmailInUse)
    else Done
  }

  lemma AddingPhases(t: Transaction)
    requires Due(t, LockHousehold)
    ensures var locked := Executed(t, LockHousehold);
            var inserted := Executed(locked, InsertMember);
            var added := Executed(inserted, InsertProfile);
            && Due(locked, InsertMember) && Due(inserted, InsertProfile)
            && t.Live() && locked.Live() && inserted.Live() && added.Live()
            && locked.request == inserted.request == added.request == t.request
            && locked.rewardIds == inserted.rewardIds == added.rewardIds == t.rewardIds
            && added.phase == if t.request.NewMember? && t.request.email == "" then Ready else MemberAdded
  {
    hide MemberOf;
  }

  // ---- The session ----

  /** A database and one session of it, whose transaction is number `me`. */
  class Session {
    const me: nat
    const faulty: bool  // whether statements may fail though the database could execute them
    const alone: bool   // whether no other session does anything
    var sys: System
    ghost var run: seq<System>  // every state of the database since the transactions began

    ghost predicate Valid()
      reads this
    {
      me < |sys.txs| && |run| > 0 && run[|run| - 1] == sys && IsRun(run) && Initial(run[0])
    }

    constructor (sys: System, me: nat, faulty: bool, alone: bool)
      requires me < |sys.txs| && Initial(sys)
      ensures Valid() && this.sys == sys && this.me == me && run == [sys]
      ensures this.faulty == faulty && this.alone == alone
    {
      this.sys, this.me, this.faulty, this.alone, run := sys, me, faulty, alone, [sys];
    }

    /** Nothing interferes, and since `s0` only this transaction has done anything. */
    ghost predicate Quiet(s0: System)
      reads this
    {
      !faulty && alone && OnlyMine(s0, sys, me)
    }

    /** Executes a statement for transaction i, which is able to. */
    method Execute(i: nat, act: Statement)
      requires Valid() && Enabled(sys, i, act)
      modifies this
      ensures Valid() && sys == Next(old(sys), i, act) && run == old(run) + [sys]
    {
      ghost var longer := run + [Next(sys, i, act)];
      assert Step(sys, Next(sys, i, act));
      forall n | 0 <= n < |longer| - 1
        ensures StepAt(longer, n)
      {
        assert n < |run| - 1 ==> StepAt(run, n);
      }
      sys := Next(sys, i, act);
      run := longer;
    }

    /** Any number of statements of other sessions. */
    method Others()
      requires Valid()
      modifies this
      ensures Valid() && sys.txs[me] == old(sys.txs[me]) && old(run) <= run && |sys.txs| == |old(sys.txs)|
      ensures alone ==> sys == old(sys)
    {
      hide Initial, IsRun;
      if alone { return; }
      var count: int :| count >= 0;
      for k := 0 to count
        invariant Valid() && sys.txs[me] == old(sys.txs[me]) && old(run) <= run && |sys.txs| == |old(sys.txs)|
      {
        var i: int, act: Statement := *, *;
        if 0 <= i && i != me && Enabled(sys, i, act) { Execute(i, act); }
      }
    }

    lemma RefusedForReason(act: Statement)
      requires Valid() && sys.txs[me].Live() && Due(sys.txs[me], act)
      ensures IsExplained(Refusal(sys, me, act), sys, sys.txs[me].request)
      ensures act.CreateReward? ==> Refusal(sys, me, act) == StatementFailed
    {
      hide Initial, IsRun, Due, WritesMatch, IsExplained;
      RunKeepsInv(run, |run| - 1);
      RefusalHasReason(sys, me, act);
    }

    /** Sends the statement the transaction has come to: it may fail, and it does when the database cannot execute
        it. */
    method Send(act: Statement, ghost s0: System) returns (r: Status)
      requires Valid() && sys.txs[me].Live() && Due(sys.txs[me], act) && !act.Abort?
      modifies this
      ensures Valid() && old(run) <= run && |sys.txs| == |old(sys.txs)|
      ensures sys.txs[me] == if r.Done? then Executed(old(sys.txs[me]), act) else old(sys.txs[me])
      ensures r.Failed? ==> IsExplained(r.error, sys, sys.txs[me].request)
      ensures old(Quiet(s0)) ==> r == Answer(s0, old(sys.txs[me]), act) && (r.Done? && !act.Commit? ==> Quiet(s0))
      ensures !faulty && act.Commit? ==> r.Done?
      ensures act.CreateReward? && r.Failed? ==> r.error == StatementFailed
    {
      hide Initial, IsRun, Enabled, Executed, OnlyMine, Due, Answer, Refusal, IsExplained, Inv;
      Others();
      if Quiet(s0) { AloneEnabled(s0, sys, me, act); }
      var fails: bool := *;
      if faulty && fails {
        AnyStatementMayFail(sys, sys.txs[me].request);
        return Failed(StatementFailed);
      }
      if act.Commit? { ReadyIsEnabled(sys, me); }
      if !Enabled(sys, me, act) {
        RefusedForReason(act);
        return Failed(Refusal(sys, me, act));
      }
      if Quiet(s0) && !act.Commit? { AloneNext(s0, sys, me, act); }
      Execute(me, act);
      return Done;
    }

    method Rollback()
      requires Valid() && sys.txs[me].Live()
      modifies this
      ensures Valid() && old(run) <= run && sys.txs[me].phase.Aborted? && |sys.txs| == |old(sys.txs)|
      ensures sys.txs[me].request == old(sys.txs[me].request)
    {
      hide Initial, IsRun;
      Others();
      Execute(me, Abort);
    }

    /** Commits; the answer may get lost after the commit. */
    method CommitTx() returns (ok: bool)
      requires Valid() && sys.txs[me].phase.Ready?
      modifies this
      ensures Valid() && old(run) <= run && |sys.txs| == |old(sys.txs)|
      ensures ok ==> sys.txs[me] == old(sys.txs[me]).(phase := Committed)
      ensures !faulty ==> ok
      ensures !sys.txs[me].Live() && sys.txs[me].request == old(sys.txs[me].request)
    {
      hide Initial, IsRun, OnlyMine, IsExplained;
      var r := Send(Commit, sys);
      if r.Done? {
        var lost: bool := *;
        ok := !(faulty && lost);
      } else {
        ok := false;
        Rollback();
      }
    }

    /** Adds the member in a savepoint: its household is locked, then the member is inserted, then its profile. */
    method AddMember(ghost s0: System) returns (r: Status)
      requires Valid() && Due(sys.txs[me], LockHousehold)
      modifies this
      ensures Valid() && old(run) <= run && |sys.txs| == |old(sys.txs)|
      ensures sys.txs[me].Live() && sys.txs[me].request == old(sys.txs[me].request)
      ensures sys.txs[me].rewardIds == old(sys.txs[me].rewardIds)
      ensures var q := sys.txs[me].request;
              r.Done? ==> sys.txs[me].phase == if q.NewMember? && q.email == "" then Ready else MemberAdded
      ensures r.Failed? ==> IsExplained(r.error, sys, sys.txs[me].request)
      ensures old(Quiet(s0)) ==> r == AddVerdict(s0, sys.txs[me].request) && (r.Done? ==> Quiet(s0))
    {
      hide Initial, IsRun, IsExplained, WritesMatch, NameFree, EmailFree, IsNameTaken, OnlyMine, Executed, Due;
      AddingPhases(sys.txs[me]);
      TakenIsNotFree(s0.db, s0.committed.members, sys.txs[me].request);
      :- Send(LockHousehold, s0);
      :- Send(InsertMember, s0);
      r := Send(InsertProfile, s0);
    }

    /** Creates the seed rewards in order, under the given fresh ids. */
    method SeedHouseholdRewards(ids: seq<Id>, ghost s0: System) returns (r: Status)
      requires Valid() && sys.txs[me].phase == Seeding(0) && sys.txs[me].rewardIds == [] && |ids| == |SEEDS|
      requires sys.txs[me].request.NewHousehold?
      modifies this
      ensures Valid() && old(run) <= run && |sys.txs| == |old(sys.txs)|
      ensures sys.txs[me].Live() && sys.txs[me].request == old(sys.txs[me].request)
      ensures r.Done? ==> sys.txs[me].phase.Ready? && sys.txs[me].rewardIds == ids && SeededUpTo(sys.txs[me], |SEEDS|)
      ensures r.Done? ==>
                forall j | 0 <= j < |SEEDS| ::
                  && ids[j] in sys.txs[me].own.rewards
                  && IsSeed(sys.txs[me].own.rewards[ids[j]], sys.txs[me].request.household, j)
      ensures r.Failed? ==> sys.txs[me].rewardIds < ids && SeededUpTo(sys.txs[me], |sys.txs[me].rewardIds|)
      ensures r.Failed? ==> r.error == StatementFailed
      ensures old(Quiet(s0)) ==> r == if IdsUsable(s0.committed, ids) then Done else Failed(StatementFailed)
    {
      hide Initial, IsRun, IsExplained, AreSeeds;
      for k := 0 to |SEEDS|
        invariant Valid() && old(run) <= run && |sys.txs| == |old(sys.txs)|
        invariant sys.txs[me].request == old(sys.txs[me].request) && sys.txs[me].rewardIds == ids[..k]
        invariant sys.txs[me].phase == if k < |SEEDS| then Seeding(k) else Ready
        invariant old(Quiet(s0)) ==> Quiet(s0) && IdsUsable(s0.committed, ids[..k])
      {
        r := Send(CreateReward(ids[k]), s0);
        if r.Failed? {
          SeededSoFar();
          return;
        }
        assert ids[..k + 1] == ids[..k] + [ids[k]];
      }
      SeededSoFar();
      assert ids[..|SEEDS|] == ids;
      AreSeedsOnOffer(sys.txs[me]);
      r := Done;
    }

    lemma SeededSoFar()
      requires Valid() && sys.txs[me].request.NewHousehold? && (sys.txs[me].phase.Seeding? || sys.txs[me].phase.Ready?)
      ensures SeededUpTo(sys.txs[me], if sys.txs[me].phase.Ready? then |SEEDS| else sys.txs[me].phase.done)
    {
      hide Initial, IsRun, AreSeeds;
      RunKeepsInv(run, |run| - 1);
      assert WritesMatch(sys.txs[me]);
    }

    /** Takes the onboarding lock, makes sure that there is no household yet, and creates it. */
    method ClaimHousehold(ghost s0: System) returns (r: Status)
      requires Valid() && sys.txs[me].phase.Begun? && sys.txs[me].request.NewHousehold?
      modifies this
      ensures Valid() && old(run) <= run && |sys.txs| == |old(sys.txs)|
      ensures sys.txs[me].Live() && sys.txs[me].request == old(sys.txs[me].request)
      ensures r.Done? ==> sys.txs[me].phase.HouseholdCreated? && sys.txs[me].rewardIds == old(sys.txs[me].rewardIds)
      ensures r.Failed? ==> IsExplained(r.error, sys, sys.txs[me].request)
      ensures old(Quiet(s0)) ==> r == if s0.committed.households == map[] then Done else Failed(HouseholdExists)
      ensures old(Quiet(s0)) && r.Done? ==> Quiet(s0)
    {
      hide Initial, IsRun, IsExplained, WritesMatch;
      :- Send(AcquireLock, s0);
      :- Send(CheckEmpty, s0);
      r := Send(CreateHousehold, s0);
    }

    lemma BegunHasNothing()
      requires Valid() && sys.txs[me].phase.Begun?
      ensures sys.txs[me].rewardIds == []
    {
      hide Initial, IsRun;
      RunKeepsInv(run, |run| - 1);
      assert WritesMatch(sys.txs[me]);
    }

    /** The statements of a household's transaction, up to the commit. */
    method WriteHousehold(ids: seq<Id>, ghost s0: System) returns (r: Status)
      requires Valid() && sys.txs[me].phase.Begun? && sys.txs[me].request.NewHousehold? && |ids| == |SEEDS|
      modifies this
      ensures Valid() && old(run) <= run && |sys.txs| == |old(sys.txs)|
      ensures sys.txs[me].Live() && sys.txs[me].request == old(sys.txs[me].request)
      ensures r.Done? ==> sys.txs[me].phase.Ready? && sys.txs[me].rewardIds == ids
      ensures r.Failed? ==> IsExplained(r.error, sys, sys.txs[me].request)
      ensures old(Quiet(s0)) ==> r == HouseholdVerdict(s0, sys.txs[me].request, ids)
    {
      hide Initial, IsRun, IsExplained, WritesMatch, AddVerdict, EmailFree, IsEmailTaken, IdsUsable, OnlyMine;
      hide AreSeeds, MemberOf;
      BegunHasNothing();
      TakenIsNotFree(s0.db, s0.committed.members, sys.txs[me].request);
      :- ClaimHousehold(s0);
      :- AddMember(s0);
      :- Send(SetPassword, s0);
      r := SeedHouseholdRewards(ids, s0);
      AnyStatementMayFail(sys, sys.txs[me].request);
    }

    /** The statements of a member's transaction, up to the commit. */
    method WriteMember(ghost s0: System) returns (r: Status)
      requires Valid() && sys.txs[me].phase.Begun? && sys.txs[me].request.NewMember?
      modifies this
      ensures Valid() && old(run) <= run && |sys.txs| == |old(sys.txs)|
      ensures sys.txs[me].Live() && sys.txs[me].request == old(sys.txs[me].request)
      ensures r.Done? ==> sys.txs[me].phase.Ready?
      ensures r.Failed? ==> IsExplained(r.error, sys, sys.txs[me].request)
      ensures old(Quiet(s0)) ==> r == MemberVerdict(s0, sys.txs[me].request)
    {
      hide Initial, IsRun, WritesMatch, AddVerdict, EmailFree, IsEmailTaken;
      var q := sys.txs[me].request;
      TakenIsNotFree(s0.db, s0.committed.members, q);
      :- AddMember(s0);
      if q.email == "" { return Done; }
      if q.passwordHash == "" { return Failed(PasswordRequired); }
      r := Send(SetPassword, s0);
    }

    /** Ends the transaction: commits what was written, or rolls everything back. */
    method Finish(written: Status) returns (r: Status)
      requires Valid() && sys.txs[me].Live() && (written.Done? ==> sys.txs[me].phase.Ready?)
      modifies this
      ensures Valid() && old(run) <= run && |sys.txs| == |old(sys.txs)|
      ensures !sys.txs[me].Live() && sys.txs[me].request == old(sys.txs[me].request)
      ensures r.Done? ==> sys.txs[me].phase.Committed? && sys.txs[me].rewardIds == old(sys.txs[me].rewardIds)
      ensures written.Done? ==> r == Done || (faulty && r == Failed(CommitFailed))
      ensures written.Failed? ==> r == written && sys.txs[me].phase.Aborted?
    {
      if written.Failed? {
        Rollback();
        return written;
      }
      var ok := CommitTx();
      r := if ok then Done else Failed(CommitFailed);
    }

    /** Onboards the household of this session's request, whose owner says to belong to `ownerHousehold`; the seed
        rewards get the given ids. */
    method ProvisionHousehold(ownerHousehold: Id, ids: seq<Id>) returns (r: Status)
      requires Valid() && sys.txs[me].phase.Begun? && sys.txs[me].request.NewHousehold? && |ids| == |SEEDS|
      modifies this
      ensures Valid() && old(run) <= run && sys.txs[me].request == old(sys.txs[me].request)
      ensures var q := sys.txs[me].request;
              if ownerHousehold != q.household then r == Failed(HouseholdMismatch) && sys == old(sys)
              else if q.passwordHash == "" then r == Failed(PasswordRequired) && sys == old(sys)
              else !sys.txs[me].Live() && r != Failed(HouseholdMismatch) && r != Failed(PasswordRequired)
      ensures r.Done? ==> IsWhole(sys.committed, sys.txs[me].request, ids)
      ensures r.Failed? && r.error != CommitFailed ==> !sys.txs[me].phase.Committed?
      ensures r.Failed? ==> IsReason(r.error, old(sys), sys, sys.txs[me].request)
      ensures r == Failed(CommitFailed) ==> faulty
      ensures var q := sys.txs[me].request;
              !faulty && alone && Initial(old(sys)) && ownerHousehold == q.household && q.passwordHash != ""
              ==> r == HouseholdVerdict(old(sys), q, ids)
    {
      hide Inv, IsWhole, Initial, IsRun, HouseholdVerdict, WroteAll;
      var q := sys.txs[me].request;
      if ownerHousehold != q.household { return Failed(HouseholdMismatch); }
      if q.passwordHash == "" { return Failed(PasswordRequired); }
      ghost var s0, n0 := sys, |run| - 1;
      if !faulty && alone && Initial(sys) { StartsQuiet(); }
      var written := WriteHousehold(ids, s0);
      ghost var n1 := |run| - 1;
      r := Finish(written);
      if written.Failed? {
        ReasonStays(r.error, s0, sys, q, run, n0, n1, |run| - 1);
      } else if r.Done? {
        RunKeepsInv(run, |run| - 1);
        CommittedWroteAll(run[0].committed, sys, me);
        WroteHousehold(sys.txs[me]);
        WroteAllIsWhole(sys.committed, sys.txs[me]);
      }
    }

    lemma StartsQuiet()
      requires Valid() && !faulty && alone && Initial(sys)
      ensures Quiet(sys)
    {
    }

    /** Adds the member of this session's request, with credentials when an email is given. */
    method ProvisionMember() returns (r: Status)
      requires Valid() && sys.txs[me].phase.Begun? && sys.txs[me].request.NewMember?
      modifies this
      ensures Valid() && old(run) <= run && !sys.txs[me].Live() && sys.txs[me].request == old(sys.txs[me].request)
      ensures r.Done? ==> IsMemberOf(sys.committed, sys.txs[me].request.member, sys.txs[me].request)
      ensures var q := sys.txs[me].request; r.Done? ==> q.email == "" || q.passwordHash != ""
      ensures r.Failed? && r.error != CommitFailed ==> sys.txs[me].phase.Aborted?
      ensures r.Failed? ==> IsReason(r.error, old(sys), sys, sys.txs[me].request)
      ensures r == Failed(CommitFailed) ==> faulty
      ensures !faulty && alone && Initial(old(sys)) ==> r == MemberVerdict(old(sys), sys.txs[me].request)
    {
      hide Inv, Initial, IsRun, MemberVerdict;
      var q := sys.txs[me].request;
      ghost var s0, n0 := sys, |run| - 1;
      if !faulty && alone && Initial(sys) { StartsQuiet(); }
      var written := WriteMember(s0);
      ghost var n1 := |run| - 1;
      r := Finish(written);
      if written.Failed? {
        ReasonStays(r.error, s0, sys, q, run, n0, n1, |run| - 1);
      } else if r.Done? {
        RunKeepsInv(run, |run| - 1);
        CommittedWroteAll(run[0].committed, sys, me);
        WroteAllHasMember(sys.committed, sys.txs[me]);
      }
    }
  }
}
