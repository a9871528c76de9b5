/** First-run onboarding as a concurrent protocol: any number of transactions over one database, interleaved
    statement by statement under read committed, with the two kinds of advisory lock they take. */
module ProvisioningProtocol {
  import opened Prelude

  type Id = string

  datatype Credentials = Credentials(email: string, passwordHash: string)

  /** An identity.member row. */
  datatype Member = Member(household: Id, displayName: string, credentials: Option<Credentials>)

  datatype Reward =
    Reward(household: Id, name: string, description: string, imageRef: string, costPoints: nat, active: bool)

  datatype SeedReward = SeedReward(name: string, description: string, imageRef: string, costPoints: nat)

  const SEEDS: seq<SeedReward> := [
    SeedReward("Extra screen time", "30 minutes of extra screen time", "\U{1F3AE}", 20),
    SeedReward("Choose dinner", "Pick what's for dinner one night this week", "\U{1F37D}\U{FE0F}", 30),
    SeedReward("Stay-up-late pass", "Stay up 30 minutes past bedtime", "\U{1F319}", 25),
    SeedReward("Movie night pick", "Choose the family movie", "\U{1F3AC}", 15)
  ]

  function RewardOf(household: Id, seed: SeedReward): Reward {
    Reward(household, seed.name, seed.description, seed.imageRef, seed.costPoints, true)
  }

  /** The colors that a member's profile may have. */
  const PALETTE: set<string> := {"sage", "clay", "ochre", "blue", "plum"}

  /** `profiles` gives the color of a member's profile row. */
  datatype Store =
    Store(households: map<Id, string>, members: map<Id, Member>, profiles: map<Id, string>, rewards: map<Id, Reward>)
  {
    /** This store with a transaction's writes applied. */
    function Plus(own: Store): Store {
      Store(households + own.households, members + own.members, profiles + own.profiles, rewards + own.rewards)
    }
  }

  const EMPTY := Store(map[], map[], map[], map[])

  /** What one transaction was asked to provision. */
  datatype Request =
    | NewHousehold(household: Id, name: string, owner: Id, ownerName: string, color: string, email: string,
                   passwordHash: string)
    | NewMember(household: Id, member: Id, displayName: string, color: string, email: string, passwordHash: string)

  /** The member row a request adds, with or without credentials. */
  function MemberOf(q: Request, credentials: Option<Credentials>): Member {
    Member(q.household, if q.NewHousehold? then q.ownerName else q.displayName, credentials)
  }

  function MemberIdOf(q: Request): Id {
    if q.NewHousehold? then q.owner else q.member
  }

  datatype Phase =
    | Begun | Locked | Checked | HouseholdCreated | MemberLocked | MemberInserted | MemberAdded | Seeding(done: nat)
    | Ready | Committed | Aborted

  /** `own` is what the transaction has written; `rewardIds` the ids of the rewards it created, in order. */
  datatype Transaction = Transaction(request: Request, phase: Phase, own: Store, rewardIds: seq<Id>)
  {
    predicate Live() { !phase.Committed? && !phase.Aborted? }
  }

  type Int32 = n: int | -0x8000_0000 <= n < 0x8000_0000

  /** What the database computes itself: lower case, by which it compares names and emails, and the hash of a
      household's id that is the key of the household's lock. */
  datatype Database = Database(lower: string -> string, hashtext: string -> Int32)

  const ONBOARDING_LOCK := 0x4E45535F4F4E42

  /** `locks` says which transaction holds an advisory lock. */
  datatype System = System(db: Database, committed: Store, txs: seq<Transaction>, locks: map<int, nat>)
  {
    /** What a statement of transaction i sees: committed rows and its own. */
    function View(i: nat): Store
      requires i < |txs|
    {
      committed.Plus(txs[i].own)
    }

    predicate CanLock(i: nat, key: int) {
      key in locks ==> locks[key] == i
    }

    function HouseholdLock(q: Request): int {
      db.hashtext(q.household)
    }
  }

  /** LockHousehold, InsertMember and InsertProfile are the statements that add a member. */
  datatype Statement =
    | AcquireLock | CheckEmpty | CreateHousehold | LockHousehold | InsertMember | InsertProfile | SetPassword
    | CreateReward(id: Id) | Commit | Abort

  // A statement that would collide with another live transaction's uncommitted row waits for it to end.

  predicate HouseholdIdFree(s: System, id: Id) {
    && id !in s.committed.households
    && forall j | 0 <= j < |s.txs| && s.txs[j].Live() :: id !in s.txs[j].own.households
  }

  predicate MemberIdFree(s: System, id: Id) {
    && id !in s.committed.members
    && forall j | 0 <= j < |s.txs| && s.txs[j].Live() :: id !in s.txs[j].own.members
  }

  predicate ProfileFree(s: System, id: Id) {
    && id !in s.committed.profiles
    && forall j | 0 <= j < |s.txs| && s.txs[j].Live() :: id !in s.txs[j].own.profiles
  }

  predicate RewardIdFree(s: System, id: Id) {
    && id !in s.committed.rewards
    && forall j | 0 <= j < |s.txs| && s.txs[j].Live() :: id !in s.txs[j].own.rewards
  }

  predicate HasEmail(db: Database, m: Member, email: string) {
    m.credentials.Some? && db.lower(m.credentials.value.email) == db.lower(email)
  }

  predicate HasName(db: Database, m: Member, household: Id, name: string) {
    m.household == household && db.lower(m.displayName) == db.lower(name)
  }

  /** No member but the request's own has the email. */
  predicate EmailFree(db: Database, members: map<Id, Member>, q: Request) {
    forall m | m in members && m != MemberIdOf(q) :: !HasEmail(db, members[m], q.email)
  }

  /** No other member of the household has the name. */
  predicate NameFree(db: Database, members: map<Id, Member>, q: Request) {
    forall m | m in members && m != MemberIdOf(q) ::
      !HasName(db, members[m], q.household, MemberOf(q, None).displayName)
  }

  predicate EmailFreeEverywhere(s: System, q: Request) {
    && EmailFree(s.db, s.committed.members, q)
    && forall j | 0 <= j < |s.txs| && s.txs[j].Live() :: EmailFree(s.db, s.txs[j].own.members, q)
  }

  predicate NameFreeEverywhere(s: System, q: Request) {
    && NameFree(s.db, s.committed.members, q)
    && forall j | 0 <= j < |s.txs| && s.txs[j].Live() :: NameFree(s.db, s.txs[j].own.members, q)
  }

  /** Whether transaction i can now execute the statement successfully. */
  predicate Enabled(s: System, i: nat, act: Statement) {
    i < |s.txs| && s.txs[i].Live() &&
    var t := s.txs[i];
    var q := t.request;
    match act
    case AcquireLock => q.NewHousehold? && t.phase.Begun? && s.CanLock(i, ONBOARDING_LOCK)
    case CheckEmpty => t.phase.Locked? && s.View(i).households == map[]
    case CreateHousehold => t.phase.Checked? && HouseholdIdFree(s, q.household)
    case LockHousehold =>
      (if q.NewHousehold? then t.phase.HouseholdCreated? else t.phase.Begun?) && s.CanLock(i, s.HouseholdLock(q))
    case InsertMember =>
      && t.phase.MemberLocked? && q.household in s.View(i).households
      && MemberIdFree(s, MemberIdOf(q)) && NameFreeEverywhere(s, q)
    case InsertProfile => t.phase.MemberInserted? && ProfileFree(s, MemberIdOf(q)) && q.color in PALETTE
    case SetPassword =>
      && t.phase.MemberAdded? && (q.NewHousehold? || (q.email != "" && q.passwordHash != ""))
      && EmailFreeEverywhere(s, q)
    case CreateReward(id) => t.phase.Seeding? && t.phase.done < |SEEDS| && RewardIdFree(s, id)
    case Commit => t.phase.Ready?
    case Abort => true
  }

  function Executed(t: Transaction, act: Statement): Transaction {
    var q := t.request;
    match act
    case AcquireLock => t.(phase := Locked)
    case CheckEmpty => t.(phase := Checked)
    case CreateHousehold =>
      if q.NewHousehold? then
        t.(phase := HouseholdCreated, own := t.own.(households := t.own.households[q.household := q.name]))
      else t
    case LockHousehold => t.(phase := MemberLocked)
    case InsertMember =>
      t.(phase := MemberInserted, own := t.own.(members := t.own.members[MemberIdOf(q) := MemberOf(q, None)]))
    case InsertProfile =>
      t.(phase := if q.NewMember? && q.email == "" then Ready else MemberAdded,
         own := t.own.(profiles := t.own.profiles[MemberIdOf(q) := q.color]))
    case SetPassword =>
      var m := MemberOf(q, Some(Credentials(q.email, q.passwordHash)));
      t.(phase := if q.NewHousehold? then Seeding(0) else Ready,
         own := t.own.(members := t.own.members[MemberIdOf(q) := m]))
    case CreateReward(id) =>
      if t.phase.Seeding? && t.phase.done < |SEEDS| then
        t.(phase := if t.phase.done + 1 < |SEEDS| then Seeding(t.phase.done + 1) else Ready,
           rewardIds := t.rewardIds + [id],
           own := t.own.(rewards := t.own.rewards[id := RewardOf(q.household, SEEDS[t.phase.done])]))
      else t
    case Commit => t.(phase := Committed)
    case Abort => t.(phase := Aborted)
  }

  /** Locks are held until the transaction ends. */
  function LocksAfter(s: System, i: nat, act: Statement): map<int, nat>
    requires i < |s.txs|
  {
    if act.AcquireLock? then s.locks[ONBOARDING_LOCK := i]
    else if act.LockHousehold? then s.locks[s.HouseholdLock(s.txs[i].request) := i]
    else if act.Commit? || act.Abort? then map key | key in s.locks && s.locks[key] != i :: s.locks[key]
    else s.locks
  }

  /** The system after transaction i executes a statement. */
  function Next(s: System, i: nat, act: Statement): System
    requires Enabled(s, i, act)
  {
    System(s.db, if act.Commit? then s.View(i) else s.committed, s.txs[i := Executed(s.txs[i], act)],
           LocksAfter(s, i, act))
  }

  ghost predicate Step(s: System, s': System) {
    exists i: nat, act :: Enabled(s, i, act) && s' == Next(s, i, act)
  }

  ghost predicate StepAt(run: seq<System>, n: nat)
    requires n + 1 < |run|
  {
    Step(run[n], run[n + 1])
  }

  ghost predicate IsRun(run: seq<System>) {
    |run| > 0 && forall n | 0 <= n < |run| - 1 :: StepAt(run, n)
  }

  /** Transactions that have just begun. */
  ghost predicate Initial(s: System) {
    s.locks == map[] && forall i | 0 <= i < |s.txs| :: s.txs[i] == Transaction(s.txs[i].request, Begun, EMPTY, [])
  }
}
