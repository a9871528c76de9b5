/** What onboarding guarantees in every state of every interleaving. */
module ProvisioningSafety {
  import opened Prelude
  import opened ProvisioningProtocol

  // ---- What one transaction has written ----

  /** These are the first seed rewards of the household, under these ids in order, and no others. */
  ghost predicate AreSeeds(rewards: map<Id, Reward>, ids: seq<Id>, household: Id, done: nat) {
    && done <= |SEEDS| && |ids| == done
    && (forall j | 0 <= j < done :: ids[j] in rewards && rewards[ids[j]] == RewardOf(household, SEEDS[j]))
    && (forall j, k | 0 <= j < k < done :: ids[j] != ids[k])
    && (forall id | id in rewards :: id in ids)
  }

  ghost predicate SeededUpTo(t: Transaction, done: nat) {
    AreSeeds(t.own.rewards, t.rewardIds, t.request.household, done)
  }

  function CredentialsOf(q: Request): Option<Credentials> {
    if q.NewMember? && q.email == "" then None else Some(Credentials(q.email, q.passwordHash))
  }

  function HouseholdOf(q: Request): map<Id, string> {
    if q.NewHousehold? then map[q.household := q.name] else map[]
  }

  function ProfileOf(q: Request): map<Id, string> {
    map[MemberIdOf(q) := q.color]
  }

  /** Everything a request asks for, written exactly. */
  ghost predicate WroteAll(t: Transaction) {
    && t.own.households == HouseholdOf(t.request)
    && t.own.members == map[MemberIdOf(t.request) := MemberOf(t.request, CredentialsOf(t.request))]
    && t.own.profiles == ProfileOf(t.request) && t.request.color in PALETTE
    && (t.request.NewMember? ==> t.request.email == "" || t.request.passwordHash != "")
    && SeededUpTo(t, if t.request.NewHousehold? then |SEEDS| else 0)
  }

  /** A transaction's writes are the prefix of its statements that its phase says. */
  ghost predicate WritesMatch(t: Transaction) {
    var q := t.request;
    match t.phase
    case Begun => t.own == EMPTY && t.rewardIds == []
    case Locked => q.NewHousehold? && t.own == EMPTY && t.rewardIds == []
    case Checked => q.NewHousehold? && t.own == EMPTY && t.rewardIds == []
    case HouseholdCreated => q.NewHousehold? && t.own == EMPTY.(households := HouseholdOf(q)) && t.rewardIds == []
    case MemberLocked => t.own == EMPTY.(households := HouseholdOf(q)) && t.rewardIds == []
    case MemberInserted =>
      t.own == Store(HouseholdOf(q), map[MemberIdOf(q) := MemberOf(q, None)], map[], map[]) && t.rewardIds == []
    case MemberAdded =>
      && t.own == Store(HouseholdOf(q), map[MemberIdOf(q) := MemberOf(q, None)], ProfileOf(q), map[])
      && q.color in PALETTE && t.rewardIds == []
    case Seeding(done) =>
      && q.NewHousehold? && t.own.households == HouseholdOf(q) && done < |SEEDS| && SeededUpTo(t, done)
      && t.own.members == map[MemberIdOf(q) := MemberOf(q, CredentialsOf(q))]
      && t.own.profiles == ProfileOf(q) && q.color in PALETTE
    case Ready => WroteAll(t)
    case Committed => WroteAll(t)
    case Aborted => true
  }

  lemma OneMoreSeeded(rewards: map<Id, Reward>, ids: seq<Id>, household: Id, done: nat, id: Id)
    requires done < |SEEDS| && AreSeeds(rewards, ids, household, done) && id !in rewards
    ensures AreSeeds(rewards[id := RewardOf(household, SEEDS[done])], ids + [id], household, done + 1)
  {
    hide RewardOf;
    assert forall j | 0 <= j < done :: (ids + [id])[j] == ids[j];
  }

  lemma RewardMatches(t: Transaction, id: Id)
    requires t.phase.Seeding? && WritesMatch(t) && id !in t.own.rewards
    ensures WritesMatch(Executed(t, CreateReward(id)))
  {
    hide AreSeeds, RewardOf;
    OneMoreSeeded(t.own.rewards, t.rewardIds, t.request.household, t.phase.done, id);
  }

  /** The statements that write the member and its profile. */
  lemma MemberMatches(t: Transaction, act: Statement)
    requires WritesMatch(t)
    requires || (act.InsertMember? && t.phase.MemberLocked?)
             || (act.InsertProfile? && t.phase.MemberInserted? && t.request.color in PALETTE)
             || (act.SetPassword? && t.phase.MemberAdded?
                 && (t.request.NewMember? ==> t.request.email != "" && t.request.passwordHash != ""))
    ensures WritesMatch(Executed(t, act))
  {
    hide AreSeeds, MemberOf;
    NoneSeeded(t.request.household);
  }

  lemma ExecutedMatches(s: System, i: nat, act: Statement)
    requires Enabled(s, i, act) && WritesMatch(s.txs[i])
    ensures WritesMatch(Executed(s.txs[i], act))
  {
    assert act.CreateReward? ==> act.id !in s.txs[i].own.rewards;
    hide HouseholdIdFree, MemberIdFree, ProfileFree, RewardIdFree, NameFreeEverywhere, EmailFreeEverywhere, AreSeeds;
    if act.CreateReward? {
      RewardMatches(s.txs[i], act.id);
    } else if act.InsertMember? || act.InsertProfile? || act.SetPassword? {
      MemberMatches(s.txs[i], act);
    }
  }

  lemma NoneSeeded(household: Id)
    ensures AreSeeds(map[], [], household, 0)
  {
  }

  // ---- The locks ----

  /** Phases in which a transaction relies on being the only one onboarding. */
  predicate Onboarding(t: Transaction) {
    t.request.NewHousehold? && t.Live() && !t.phase.Begun?
  }

  /** Phases in which a transaction relies on being the only one adding a member to its household. */
  predicate AddingMember(t: Transaction) {
    t.Live() && (t.phase.MemberLocked? || t.phase.MemberInserted? || t.phase.MemberAdded? || t.phase.Seeding? ||
      t.phase.Ready?)
  }

  ghost predicate Holds(s: System, i: nat, key: int) {
    key in s.locks && s.locks[key] == i
  }

  ghost predicate LocksHeld(s: System) {
    && (forall i | 0 <= i < |s.txs| && Onboarding(s.txs[i]) :: Holds(s, i, ONBOARDING_LOCK))
    && (forall i | 0 <= i < |s.txs| && AddingMember(s.txs[i]) :: Holds(s, i, s.HouseholdLock(s.txs[i].request)))
    && (forall i | 0 <= i < |s.txs| && Onboarding(s.txs[i]) && !s.txs[i].phase.Locked? ::
          s.committed.households == map[])
  }

  // ---- Where committed rows come from ----

  ghost predicate Apart(a: Store, b: Store) {
    && a.households.Keys !! b.households.Keys && a.members.Keys !! b.members.Keys
    && a.profiles.Keys !! b.profiles.Keys && a.rewards.Keys !! b.rewards.Keys
  }

  /** No id is written twice. */
  ghost predicate IdsApart(s: System) {
    && (forall i | 0 <= i < |s.txs| && s.txs[i].Live() :: Apart(s.committed, s.txs[i].own))
    && (forall i, j | 0 <= i < j < |s.txs| && s.txs[i].Live() && s.txs[j].Live() :: Apart(s.txs[i].own, s.txs[j].own))
  }

  ghost predicate Includes(a: Store, b: Store) {
    && (forall h | h in b.households :: h in a.households && a.households[h] == b.households[h])
    && (forall m | m in b.members :: m in a.members && a.members[m] == b.members[m])
    && (forall m | m in b.profiles :: m in a.profiles && a.profiles[m] == b.profiles[m])
    && (forall r | r in b.rewards :: r in a.rewards && a.rewards[r] == b.rewards[r])
  }

  /** Committed transactions' rows are all there, and the initial ones; nothing else is. */
  ghost predicate Accounted(st0: Store, s: System) {
    && Includes(s.committed, st0)
    && (forall i | 0 <= i < |s.txs| && s.txs[i].phase.Committed? :: Includes(s.committed, s.txs[i].own))
    && (forall h | h in s.committed.households && h !in st0.households ::
          exists i :: CommittedBy(s, i) && h in s.txs[i].own.households)
    && (forall m | m in s.committed.members && m !in st0.members ::
          exists i :: CommittedBy(s, i) && m in s.txs[i].own.members)
    && (forall m | m in s.committed.profiles && m !in st0.profiles ::
          exists i :: CommittedBy(s, i) && m in s.txs[i].own.profiles)
    && (forall r | r in s.committed.rewards && r !in st0.rewards ::
          exists i :: CommittedBy(s, i) && r in s.txs[i].own.rewards)
  }

  predicate CommittedBy(s: System, i: int) {
    0 <= i < |s.txs| && s.txs[i].phase.Committed?
  }

  ghost predicate AtMostOne(households: map<Id, string>) {
    forall h1, h2 | h1 in households && h2 in households :: h1 == h2
  }

  /** Only into an empty database is a household ever committed, and then only one. */
  ghost predicate OneHousehold(st0: Store, s: System) {
    s.committed.households == st0.households || (st0.households == map[] && AtMostOne(s.committed.households))
  }

  ghost predicate Inv(st0: Store, s: System) {
    && (forall i | 0 <= i < |s.txs| :: WritesMatch(s.txs[i]))
    && LocksHeld(s) && IdsApart(s) && Accounted(st0, s) && OneHousehold(st0, s)
  }

  // ---- One step ----

  /** Who holds a lock keeps it until its transaction ends, and nobody else gets it. */
  lemma HolderKeepsLock(s: System, i: nat, act: Statement, j: nat, key: int)
    requires Enabled(s, i, act) && j < |s.txs| && Holds(s, j, key) && (j == i ==> !act.Commit? && !act.Abort?)
    ensures Holds(Next(s, i, act), j, key)
  {
    hide HouseholdIdFree, MemberIdFree, ProfileFree, RewardIdFree, NameFreeEverywhere, EmailFreeEverywhere;
  }

  lemma StepKeepsHolders(s: System, i: nat, act: Statement, j: nat)
    requires Enabled(s, i, act) && LocksHeld(s) && j < |s.txs|
    ensures Onboarding(Next(s, i, act).txs[j]) ==> Holds(Next(s, i, act), j, ONBOARDING_LOCK)
    ensures AddingMember(Next(s, i, act).txs[j]) ==> Holds(Next(s, i, act), j, s.HouseholdLock(s.txs[j].request))
  {
    var t := s.txs[j];
    if Onboarding(t) && (j == i ==> !act.Commit? && !act.Abort?) {
      HolderKeepsLock(s, i, act, j, ONBOARDING_LOCK);
    }
    if AddingMember(t) && (j == i ==> !act.Commit? && !act.Abort?) {
      HolderKeepsLock(s, i, act, j, s.HouseholdLock(t.request));
    }
    hide LocksHeld;
    hide HouseholdIdFree, MemberIdFree, ProfileFree, RewardIdFree, NameFreeEverywhere, EmailFreeEverywhere;
  }

  lemma StepKeepsLocks(s: System, i: nat, act: Statement)
    requires Enabled(s, i, act) && LocksHeld(s) && WritesMatch(s.txs[i])
    ensures LocksHeld(Next(s, i, act))
  {
    hide AreSeeds, Holds, LocksAfter;
    var s' := Next(s, i, act);
    forall j | 0 <= j < |s'.txs|
      ensures Onboarding(s'.txs[j]) ==> Holds(s', j, ONBOARDING_LOCK)
      ensures AddingMember(s'.txs[j]) ==> Holds(s', j, s'.HouseholdLock(s'.txs[j].request))
    {
      StepKeepsHolders(s, i, act, j);
    }
    forall j | 0 <= j < |s'.txs| && Onboarding(s'.txs[j]) && !s'.txs[j].phase.Locked?
      ensures s'.committed.households == map[]
    {
      hide HouseholdIdFree, MemberIdFree, ProfileFree, RewardIdFree, NameFreeEverywhere, EmailFreeEverywhere;
      assert act.Commit? && s.txs[i].request.NewMember? ==> s'.committed.households == s.committed.households;
      if j != i && Onboarding(s.txs[i]) { OneOnboards(s, i, j); }
    }
  }

  lemma OneOnboards(s: System, i: nat, j: nat)
    requires LocksHeld(s) && i < |s.txs| && j < |s.txs| && Onboarding(s.txs[i]) && Onboarding(s.txs[j])
    ensures i == j
  {
    assert Holds(s, i, ONBOARDING_LOCK) && Holds(s, j, ONBOARDING_LOCK);
  }

  lemma StepKeepsIdsApart(s: System, i: nat, act: Statement)
    requires Enabled(s, i, act) && IdsApart(s) && WritesMatch(s.txs[i])
    ensures IdsApart(Next(s, i, act))
  {
    var s' := Next(s, i, act);
    if act.Commit? {
      forall j | 0 <= j < |s'.txs| && s'.txs[j].Live()
        ensures Apart(s'.committed, s'.txs[j].own)
      {
        assert j != i && Apart(s.committed, s.txs[j].own);
        assert if i < j then Apart(s.txs[i].own, s.txs[j].own) else Apart(s.txs[j].own, s.txs[i].own);
      }
    } else if !act.Abort? {
      forall j | 0 <= j < |s.txs| && s.txs[j].Live() && j != i
        ensures Apart(s.txs[j].own, s'.txs[i].own) && Apart(s'.txs[i].own, s.txs[j].own)
      {
        assert if i < j then Apart(s.txs[i].own, s.txs[j].own) else Apart(s.txs[j].own, s.txs[i].own);
        NewRowsApart(s, i, act, s.txs[j].own);
      }
      assert Apart(s.committed, s.txs[i].own);
      NewRowsApart(s, i, act, s.committed);
      hide Apart, Enabled, Executed, WritesMatch;
    }
  }

  /** A statement writes only rows whose ids no other store has. */
  lemma NewRowsApart(s: System, i: nat, act: Statement, other: Store)
    requires Enabled(s, i, act) && WritesMatch(s.txs[i]) && Apart(other, s.txs[i].own)
    requires other == s.committed || exists j :: 0 <= j < |s.txs| && s.txs[j].Live() && other == s.txs[j].own
    ensures Apart(other, Executed(s.txs[i], act).own)
  {
    hide WroteAll, AreSeeds;
  }

  lemma PlusIncludes(a: Store, b: Store)
    requires Apart(a, b)
    ensures Includes(a.Plus(b), a) && Includes(a.Plus(b), b)
  {
  }

  lemma IncludesItself(a: Store)
    ensures Includes(a, a)
  {
  }

  lemma IncludesTransitive(a: Store, b: Store, c: Store)
    requires Includes(a, b) && Includes(b, c)
    ensures Includes(a, c)
  {
  }

  /** A commit adds the transaction's own rows and nothing else. */
  lemma CommitIsAccounted(st0: Store, s: System, i: nat)
    requires Enabled(s, i, Commit) && Accounted(st0, s) && Apart(s.committed, s.txs[i].own)
    ensures Accounted(st0, Next(s, i, Commit))
  {
    var s' := Next(s, i, Commit);
    PlusIncludes(s.committed, s.txs[i].own);
    forall j | CommittedBy(s', j)
      ensures Includes(s'.committed, s'.txs[j].own)
    {
      if j != i { IncludesTransitive(s'.committed, s.committed, s.txs[j].own); }
    }
    IncludesTransitive(s'.committed, s.committed, st0);
    assert forall j :: CommittedBy(s, j) ==> CommittedBy(s', j) && s'.txs[j] == s.txs[j];
    assert CommittedBy(s', i) && s'.txs[i].own == s.txs[i].own;
    hide Includes, Apart, Enabled;
  }

  /** No other statement changes a committed row or a committed transaction. */
  lemma OthersCommitNothing(s: System, i: nat, act: Statement)
    requires Enabled(s, i, act) && !act.Commit?
    ensures Next(s, i, act).committed == s.committed
    ensures forall j :: CommittedBy(Next(s, i, act), j) <==> CommittedBy(s, j)
    ensures forall j | CommittedBy(s, j) :: Next(s, i, act).txs[j] == s.txs[j]
  {
    hide HouseholdIdFree, MemberIdFree, ProfileFree, RewardIdFree, NameFreeEverywhere, EmailFreeEverywhere;
  }

  /** Accounting looks at committed rows and committed transactions only. */
  lemma SameCommitsAccounted(st0: Store, s: System, s': System)
    requires Accounted(st0, s) && s'.committed == s.committed && |s'.txs| == |s.txs|
    requires forall j :: CommittedBy(s', j) <==> CommittedBy(s, j)
    requires forall j | CommittedBy(s, j) :: s'.txs[j] == s.txs[j]
    ensures Accounted(st0, s')
  {
    hide Includes;
    forall j | CommittedBy(s', j)
      ensures Includes(s'.committed, s'.txs[j].own)
    {
      assert CommittedBy(s, j);
    }
  }

  lemma StepKeepsAccounted(st0: Store, s: System, i: nat, act: Statement)
    requires Enabled(s, i, act) && Accounted(st0, s) && IdsApart(s)
    ensures Accounted(st0, Next(s, i, act))
  {
    hide Accounted, Apart, Executed, LocksAfter;
    if act.Commit? {
      CommitIsAccounted(st0, s, i);
    } else {
      hide Enabled, Next, IdsApart;
      OthersCommitNothing(s, i, act);
      SameCommitsAccounted(st0, s, Next(s, i, act));
    }
  }

  lemma ReadyToCommit(s: System, i: nat)
    requires Enabled(s, i, Commit) && LocksHeld(s) && WritesMatch(s.txs[i])
    ensures s.txs[i].own.households == HouseholdOf(s.txs[i].request)
    ensures s.txs[i].request.NewHousehold? ==> s.committed.households == map[]
  {
    assert s.txs[i].request.NewHousehold? ==> Onboarding(s.txs[i]);
  }

  lemma StepKeepsOneHousehold(st0: Store, s: System, i: nat, act: Statement)
    requires Enabled(s, i, act) && OneHousehold(st0, s) && LocksHeld(s) && WritesMatch(s.txs[i])
    ensures OneHousehold(st0, Next(s, i, act))
  {
    var q, households := s.txs[i].request, Next(s, i, act).committed.households;
    hide WritesMatch, LocksHeld, Enabled, Executed;
    if act.Commit? {
      ReadyToCommit(s, i);
      if q.NewHousehold? {
        assert households == HouseholdOf(q);
      } else {
        assert households == s.committed.households;
      }
    }
  }

  lemma StepKeepsInv(st0: Store, s: System, i: nat, act: Statement)
    requires Inv(st0, s) && Enabled(s, i, act)
    ensures Inv(st0, Next(s, i, act))
  {
    ExecutedMatches(s, i, act);
    StepKeepsLocks(s, i, act);
    StepKeepsIdsApart(s, i, act);
    StepKeepsAccounted(st0, s, i, act);
    StepKeepsOneHousehold(st0, s, i, act);
    hide WritesMatch, LocksHeld, IdsApart, Accounted, OneHousehold, Executed, Enabled;
  }

  lemma InvInitially(s: System)
    requires Initial(s)
    ensures Inv(s.committed, s)
  {
  }

  lemma {:induction false} RunKeepsInv(run: seq<System>, n: nat)
    requires IsRun(run) && Initial(run[0]) && n < |run|
    ensures Inv(run[0].committed, run[n])
  {
    InvInitially(run[0]);
    hide Enabled, Inv, Next, Initial;
    if n > 0 {
      RunKeepsInv(run, n - 1);
      assert StepAt(run, n - 1);
      var i: nat, act :| Enabled(run[n - 1], i, act) && run[n] == Next(run[n - 1], i, act);
      StepKeepsInv(run[0].committed, run[n - 1], i, act);
    }
  }

  // ---- Main results ----

  /** Whatever the interleaving, at most one household is ever committed to an empty database, and none to
      one that already has a household. */
  lemma AtMostOneHousehold(run: seq<System>, n: nat)
    requires IsRun(run) && Initial(run[0]) && n < |run|
    ensures run[0].committed.households == map[] ==> AtMostOne(run[n].committed.households)
    ensures run[0].committed.households != map[] ==> run[n].committed.households == run[0].committed.households
  {
    RunKeepsInv(run, n);
  }

  /** The member a request asks for is there under its id, with the name and the credentials given, if any, and with
      a profile of the color given. */
  ghost predicate IsMemberOf(st: Store, member: Id, q: Request) {
    && member in st.members && member in st.profiles && st.profiles[member] == q.color
    && q.color in {"sage", "clay", "ochre", "blue", "plum"}
    && var m := st.members[member];
    && m.household == q.household
    && match q
       case NewHousehold(_, _, owner, name, _, email, hash) =>
         member == owner && m.displayName == name && m.credentials == Some(Credentials(email, hash))
       case NewMember(_, id, name, _, email, hash) =>
         && member == id && m.displayName == name
         && m.credentials == (if email == "" then None else Some(Credentials(email, hash)))
  }

  lemma WroteAllHasMember(st: Store, t: Transaction)
    requires WroteAll(t) && Includes(st, t.own)
    ensures IsMemberOf(st, MemberIdOf(t.request), t.request)
    ensures t.own.members.Keys == t.own.profiles.Keys == {MemberIdOf(t.request)}
  {
    assert t.own.members[MemberIdOf(t.request)] == MemberOf(t.request, CredentialsOf(t.request));
    assert t.own.profiles[MemberIdOf(t.request)] == t.request.color;
  }

  /** A committed household is whole: one committed transaction asked for it, its owner is there with the
      credentials that were given, and every seed reward is there once. */
  ghost predicate IsWhole(st: Store, q: Request, rewardIds: seq<Id>) {
    && q.NewHousehold? && q.household in st.households && st.households[q.household] == q.name
    && IsMemberOf(st, q.owner, q)
    && |rewardIds| == |SEEDS|
    && (forall j, k | 0 <= j < k < |SEEDS| :: rewardIds[j] != rewardIds[k])
    && (forall j | 0 <= j < |SEEDS| :: rewardIds[j] in st.rewards && IsSeed(st.rewards[rewardIds[j]], q.household, j))
  }

  /** A reward of the household as the j-th seed describes it, on offer. */
  ghost predicate IsSeed(reward: Reward, household: Id, j: nat)
    requires j < |SEEDS|
  {
    && reward.household == household && reward.active
    && reward.name == SEEDS[j].name && reward.description == SEEDS[j].description
    && reward.imageRef == SEEDS[j].imageRef && reward.costPoints == SEEDS[j].costPoints
  }

  lemma CommittedWroteAll(st0: Store, s: System, i: nat)
    requires Inv(st0, s) && CommittedBy(s, i)
    ensures WroteAll(s.txs[i]) && Includes(s.committed, s.txs[i].own)
  {
    assert WritesMatch(s.txs[i]);
  }

  /** A committed household, or a committed seed reward, stands for everything its request asked for. */
  lemma WroteAllIsWhole(st: Store, t: Transaction)
    requires WroteAll(t) && Includes(st, t.own) && (t.own.households != map[] || t.own.rewards != map[])
    ensures IsWhole(st, t.request, t.rewardIds)
    ensures t.own.households.Keys == {t.request.household} && forall r | r in t.own.rewards :: r in t.rewardIds
  {
    assert forall r | r in t.own.rewards :: r in t.rewardIds;
    WroteAllHasMember(st, t);
  }

  lemma CommittedHouseholdIsWhole(run: seq<System>, n: nat, household: Id)
    requires IsRun(run) && Initial(run[0]) && n < |run|
    requires household in run[n].committed.households && household !in run[0].committed.households
    ensures exists i :: CommittedBy(run[n], i) && run[n].txs[i].request.household == household
                        && IsWhole(run[n].committed, run[n].txs[i].request, run[n].txs[i].rewardIds)
  {
    RunKeepsInv(run, n);
    var s := run[n];
    var i :| CommittedBy(s, i) && household in s.txs[i].own.households;
    CommittedWroteAll(run[0].committed, s, i);
    hide Inv, IsWhole, WroteAll, Includes;
    WroteAllIsWhole(s.committed, s.txs[i]);
  }

  /** What a new household finds in its storefront. */
  lemma CatalogueIsThere(st: Store, q: Request, ids: seq<Id>)
    requires IsWhole(st, q, ids)
    ensures |ids| == 4
    ensures forall j | 0 <= j < 4 :: ids[j] in st.rewards
    ensures st.rewards[ids[0]] ==
              Reward(q.household, "Extra screen time", "30 minutes of extra screen time", "\U{1F3AE}", 20, true)
    ensures st.rewards[ids[1]] ==
              Reward(q.household, "Choose dinner", "Pick what's for dinner one night this week",
                     "\U{1F37D}\U{FE0F}", 30, true)
    ensures st.rewards[ids[2]] ==
              Reward(q.household, "Stay-up-late pass", "Stay up 30 minutes past bedtime", "\U{1F319}", 25, true)
    ensures st.rewards[ids[3]] ==
              Reward(q.household, "Movie night pick", "Choose the family movie", "\U{1F3AC}", 15, true)
  {
    hide IsMemberOf;
    forall j: nat | j < 4
      ensures ids[j] in st.rewards && IsSeed(st.rewards[ids[j]], q.household, j)
    {
    }
    assert IsSeed(st.rewards[ids[0]], q.household, 0) && IsSeed(st.rewards[ids[1]], q.household, 1);
    assert IsSeed(st.rewards[ids[2]], q.household, 2) && IsSeed(st.rewards[ids[3]], q.household, 3);
  }

  /** All or nothing: a row that was not there before was written by a committed transaction that wrote
      everything it was asked to. Aborted and unfinished transactions leave no row behind. */
  lemma NoMemberIsHalfProvisioned(run: seq<System>, n: nat, member: Id)
    requires IsRun(run) && Initial(run[0]) && n < |run|
    requires member in run[n].committed.members && member !in run[0].committed.members
    ensures exists i :: CommittedBy(run[n], i) && IsMemberOf(run[n].committed, member, run[n].txs[i].request)
  {
    RunKeepsInv(run, n);
    var s := run[n];
    var i :| CommittedBy(s, i) && member in s.txs[i].own.members;
    CommittedWroteAll(run[0].committed, s, i);
    hide Inv;
    WroteAllHasMember(s.committed, s.txs[i]);
  }

  lemma NoRewardIsHalfProvisioned(run: seq<System>, n: nat, reward: Id)
    requires IsRun(run) && Initial(run[0]) && n < |run|
    requires reward in run[n].committed.rewards && reward !in run[0].committed.rewards
    ensures exists i :: CommittedBy(run[n], i) && reward in run[n].txs[i].rewardIds
                        && IsWhole(run[n].committed, run[n].txs[i].request, run[n].txs[i].rewardIds)
  {
    RunKeepsInv(run, n);
    var s := run[n];
    var i :| CommittedBy(s, i) && reward in s.txs[i].own.rewards;
    CommittedWroteAll(run[0].committed, s, i);
    hide Inv, IsWhole, WroteAll, Includes;
    WroteAllIsWhole(s.committed, s.txs[i]);
  }

  /** A profile row comes with its member, whose color it has. */
  lemma NoProfileIsAlone(run: seq<System>, n: nat, member: Id)
    requires IsRun(run) && Initial(run[0]) && n < |run|
    requires member in run[n].committed.profiles && member !in run[0].committed.profiles
    ensures exists i :: CommittedBy(run[n], i) && IsMemberOf(run[n].committed, member, run[n].txs[i].request)
  {
    RunKeepsInv(run, n);
    var s := run[n];
    var i :| CommittedBy(s, i) && member in s.txs[i].own.profiles;
    CommittedWroteAll(run[0].committed, s, i);
    hide Inv;
    WroteAllHasMember(s.committed, s.txs[i]);
  }

  /** A household's lock is held by one transaction at a time, so of two that add members to the same household
      one waits until the other has ended. */
  lemma OneAddsToHousehold(run: seq<System>, n: nat, i: nat, j: nat)
    requires IsRun(run) && Initial(run[0]) && n < |run| && i < |run[n].txs| && j < |run[n].txs|
    requires AddingMember(run[n].txs[i]) && AddingMember(run[n].txs[j])
    requires run[n].txs[i].request.household == run[n].txs[j].request.household
    ensures i == j
  {
    RunKeepsInv(run, n);
    assert Holds(run[n], i, run[n].HouseholdLock(run[n].txs[i].request));
    assert Holds(run[n], j, run[n].HouseholdLock(run[n].txs[j].request));
  }

  // ---- Committed rows stay ----

  lemma StepKeepsRows(st0: Store, s: System, i: nat, act: Statement)
    requires Inv(st0, s) && Enabled(s, i, act)
    ensures Includes(Next(s, i, act).committed, s.committed) && Next(s, i, act).db == s.db
  {
    if act.Commit? {
      assert Apart(s.committed, s.txs[i].own);
      PlusIncludes(s.committed, s.txs[i].own);
    }
  }

  /** What is committed stays as it is in every later state. */
  lemma {:induction false} CommittedRowsStay(run: seq<System>, m: nat, n: nat)
    requires IsRun(run) && Initial(run[0]) && m <= n < |run|
    ensures Includes(run[n].committed, run[m].committed) && run[n].db == run[m].db
  {
    hide Enabled, Inv, Next, Initial, Includes;
    if n == m {
      IncludesItself(run[n].committed);
    } else {
      CommittedRowsStay(run, m, n - 1);
      RunKeepsInv(run, n - 1);
      assert StepAt(run, n - 1);
      var i: nat, act :| Enabled(run[n - 1], i, act) && run[n] == Next(run[n - 1], i, act);
      StepKeepsRows(run[0].committed, run[n - 1], i, act);
      IncludesTransitive(run[n].committed, run[n - 1].committed, run[m].committed);
    }
  }

  // ---- Emails and names ----

  /** Two members who may not exist together: they share an email, or a name in one household. */
  ghost predicate Clash(db: Database, x: Member, y: Member) {
    || (x.credentials.Some? && HasEmail(db, y, x.credentials.value.email))
    || HasName(db, y, x.household, x.displayName)
  }

  ghost predicate NoClash(db: Database, a: map<Id, Member>, b: map<Id, Member>) {
    forall m1, m2 | m1 in a && m2 in b && m1 != m2 :: !Clash(db, a[m1], b[m2])
  }

  ghost predicate MembersDiffer(s: System) {
    && NoClash(s.db, s.committed.members, s.committed.members)
    && (forall i | 0 <= i < |s.txs| && s.txs[i].Live() :: NoClash(s.db, s.committed.members, s.txs[i].own.members))
    && (forall i, j | 0 <= i < |s.txs| && 0 <= j < |s.txs| && s.txs[i].Live() && s.txs[j].Live() ::
          NoClash(s.db, s.txs[i].own.members, s.txs[j].own.members))
  }

  lemma NoClashSwapped(db: Database, a: map<Id, Member>, b: map<Id, Member>)
    requires NoClash(db, a, b)
    ensures NoClash(db, b, a)
  {
    forall m1, m2 | m1 in b && m2 in a && m1 != m2
      ensures !Clash(db, b[m1], a[m2])
    {
      assert !Clash(db, a[m2], b[m1]);
    }
  }

  lemma NoClashPlus(db: Database, a: map<Id, Member>, b: map<Id, Member>, c: map<Id, Member>)
    requires NoClash(db, a, c) && NoClash(db, b, c)
    ensures NoClash(db, a + b, c)
  {
  }

  /** A statement gives its member no email and no name that another member of those stores has. */
  lemma NewMemberDiffers(s: System, i: nat, act: Statement, other: map<Id, Member>)
    requires Enabled(s, i, act) && !act.Abort? && !act.Commit? && WritesMatch(s.txs[i])
    requires NoClash(s.db, other, s.txs[i].own.members)
    requires act.SetPassword? ==> EmailFree(s.db, other, s.txs[i].request)
    requires act.InsertMember? ==> NameFree(s.db, other, s.txs[i].request)
    ensures NoClash(s.db, other, Executed(s.txs[i], act).own.members)
  {
    hide WroteAll, AreSeeds, MemberIdFree, NameFreeEverywhere, EmailFreeEverywhere;
    var q := s.txs[i].request;
    if act.SetPassword? {
      forall m | m in other && m != MemberIdOf(q)
        ensures !Clash(s.db, other[m], MemberOf(q, Some(Credentials(q.email, q.passwordHash))))
      {
        assert !Clash(s.db, other[m], s.txs[i].own.members[MemberIdOf(q)]);
      }
    }
  }

  lemma CommitKeepsMembersApart(s: System, i: nat)
    requires Enabled(s, i, Commit) && MembersDiffer(s)
    ensures MembersDiffer(Next(s, i, Commit))
  {
    var s' := Next(s, i, Commit);
    var old', own := s.committed.members, s.txs[i].own.members;
    hide Enabled, NoClash;
    NoClashSwapped(s.db, old', own);
    NoClashPlus(s.db, old', own, old');
    NoClashPlus(s.db, old', own, own);
    NoClashSwapped(s.db, old' + own, old');
    NoClashSwapped(s.db, old' + own, own);
    NoClashPlus(s.db, old', own, old' + own);
    forall j | 0 <= j < |s.txs| && s'.txs[j].Live()
      ensures NoClash(s.db, s'.committed.members, s'.txs[j].own.members)
    {
      assert s'.txs[j] == s.txs[j];
      NoClashPlus(s.db, old', own, s.txs[j].own.members);
    }
  }

  lemma StepKeepsMembersApart(s: System, i: nat, act: Statement)
    requires Enabled(s, i, act) && WritesMatch(s.txs[i]) && MembersDiffer(s)
    ensures MembersDiffer(Next(s, i, act))
  {
    var s' := Next(s, i, act);
    if act.Commit? {
      CommitKeepsMembersApart(s, i);
    } else if !act.Abort? {
      NewMemberDiffers(s, i, act, s.committed.members);
      forall j | 0 <= j < |s.txs| && s.txs[j].Live()
        ensures NoClash(s.db, s.txs[j].own.members, s'.txs[i].own.members)
        ensures NoClash(s.db, s'.txs[i].own.members, s.txs[j].own.members)
      {
        NewMemberDiffers(s, i, act, s.txs[j].own.members);
        NoClashSwapped(s.db, s.txs[j].own.members, s'.txs[i].own.members);
      }
      OwnMemberAlone(s, i, act);
    }
    hide NoClash, Enabled, Executed, WritesMatch;
  }

  /** A transaction has written one member at most. */
  lemma OwnMemberAlone(s: System, i: nat, act: Statement)
    requires Enabled(s, i, act) && !act.Abort? && WritesMatch(s.txs[i])
    ensures NoClash(s.db, Executed(s.txs[i], act).own.members, Executed(s.txs[i], act).own.members)
  {
    hide AreSeeds;
    ExecutedMatches(s, i, act);
    var t := Executed(s.txs[i], act);
    assert forall m1, m2 | m1 in t.own.members && m2 in t.own.members :: m1 == m2;
  }

  lemma WroteAsMuch(st0: Store, s: System, i: nat, act: Statement)
    requires Inv(st0, s) && Enabled(s, i, act)
    ensures WritesMatch(s.txs[i])
  {
    hide WritesMatch, LocksHeld, IdsApart, Accounted, OneHousehold;
  }

  /** No two members share an email, and no two of one household a name, in upper or lower case. */
  ghost predicate AllDiffer(db: Database, members: map<Id, Member>) {
    forall m1, m2 | m1 in members && m2 in members && m1 != m2 ::
      && (members[m1].credentials.Some? && members[m2].credentials.Some? ==>
            db.lower(members[m1].credentials.value.email) != db.lower(members[m2].credentials.value.email))
      && (members[m1].household == members[m2].household ==>
            db.lower(members[m1].displayName) != db.lower(members[m2].displayName))
  }

  lemma NoClashIsAllDiffer(db: Database, members: map<Id, Member>)
    ensures NoClash(db, members, members) <==> AllDiffer(db, members)
  {
    forall m1, m2 | m1 in members && m2 in members && m1 != m2
      ensures !Clash(db, members[m1], members[m2]) <==>
                && (members[m1].credentials.Some? && members[m2].credentials.Some? ==>
                      db.lower(members[m1].credentials.value.email) != db.lower(members[m2].credentials.value.email))
                && (members[m1].household == members[m2].household ==>
                      db.lower(members[m1].displayName) != db.lower(members[m2].displayName))
    {
    }
    hide Clash;
  }

  /** Emails stay unique across all members, and names across all members of a household, whatever their case, even
      with uncommitted ones in flight. */
  lemma MembersStayDifferent(run: seq<System>, n: nat)
    requires IsRun(run) && Initial(run[0]) && n < |run| && AllDiffer(run[0].db, run[0].committed.members)
    ensures AllDiffer(run[n].db, run[n].committed.members) && MembersDiffer(run[n])
  {
    hide IsRun, Initial, AllDiffer, NoClash;
    NoClashIsAllDiffer(run[0].db, run[0].committed.members);
    MembersStayApart(run, n);
    NoClashIsAllDiffer(run[n].db, run[n].committed.members);
  }

  lemma {:induction false} MembersStayApart(run: seq<System>, n: nat)
    requires IsRun(run) && Initial(run[0]) && n < |run|
    requires NoClash(run[0].db, run[0].committed.members, run[0].committed.members)
    ensures MembersDiffer(run[n])
  {
    assert MembersDiffer(run[0]);
    hide Enabled, MembersDiffer, Next, Inv;
    if n > 0 {
      MembersStayApart(run, n - 1);
      RunKeepsInv(run, n - 1);
      assert StepAt(run, n - 1);
      var i: nat, act :| Enabled(run[n - 1], i, act) && run[n] == Next(run[n - 1], i, act);
      WroteAsMuch(run[0].committed, run[n - 1], i, act);
      StepKeepsMembersApart(run[n - 1], i, act);
    }
  }
}
