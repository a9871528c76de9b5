/** One-time form tokens: the bounded list of pending tokens kept in a member's session. */
module FormTokens {
  import opened Prelude

  const MAX_PENDING_FORM_TOKENS := 16

  // ---- The list ----

  function Without(tokens: seq<string>, token: string): (r: seq<string>)
    ensures |r| <= |tokens|
    ensures forall t :: t in r <==> t in tokens && t != token
  {
    if tokens == [] then []
    else Without(tokens[..|tokens| - 1], token) + if tokens[|tokens| - 1] == token then [] else [tokens[|tokens| - 1]]
  }

  /** The pending list once a token is issued: the oldest make room for it. */
  function Issued(pending: seq<string>, token: string): seq<string> {
    (if |pending| >= MAX_PENDING_FORM_TOKENS then pending[|pending| - MAX_PENDING_FORM_TOKENS + 1..]
     else pending) + [token]
  }

  class Session {
    var pending: seq<string>
    ghost var history: seq<Event>  // what the session went through, in order

    ghost predicate Valid()
      reads this
    {
      pending == Pending(history)
    }

    constructor ()
      ensures Valid() && history == []
    {
      pending, history := [], [];
    }

    /** Issues a token; `random` is what the random source delivers, if it does. */
    method IssueFormToken(random: Option<string>) returns (token: string)
      requires Valid()
      modifies this
      ensures Valid()
      ensures match random
              case None => token == "" && history == old(history)
              case Some(t) => token == t && history == old(history) + [Issue(t)]
      ensures match random
              case None => pending == old(pending)
              case Some(t) =>
                pending == (if |old(pending)| < 16 then old(pending) else old(pending)[|old(pending)| - 15..]) + [t]
    {
      if random.None? { return ""; }
      token := random.value;
      var kept := pending;
      if |kept| >= MAX_PENDING_FORM_TOKENS {
        kept := kept[|kept| - MAX_PENDING_FORM_TOKENS + 1..];
      }
      PendingNext(history, Issue(token));
      pending, history := kept + [token], history + [Issue(token)];
    }

    /** Whether the presented token would be accepted; it stays pending. */
    method HasFormToken(presented: string) returns (has: bool)
      requires Valid()
      ensures has <==> Accepted(history, presented)
      ensures has <==> presented != "" && presented in pending
    {
      has := presented != "" && presented in pending;
    }

    method ConsumeFormToken(presented: string)
      requires Valid()
      modifies this
      ensures Valid() && history == old(history) + [Consume(presented)]
      ensures forall t :: t in pending <==> t in old(pending) && t != presented
    {
      var remaining: seq<string> := [];
      for i := 0 to |pending|
        invariant remaining == Without(pending[..i], presented)
      {
        assert pending[..i + 1][..i] == pending[..i];
        if pending[i] != presented { remaining := remaining + [pending[i]]; }
      }
      assert pending[..|pending|] == pending;
      PendingNext(history, Consume(presented));
      WithoutShrinks(pending, presented);
      history := history + [Consume(presented)];
      if |remaining| != |pending| { pending := remaining; }
    }
  }

  lemma {:induction false} WithoutShrinks(tokens: seq<string>, token: string)
    ensures |Without(tokens, token)| == |tokens| ==> Without(tokens, token) == tokens
  {
    if tokens != [] { WithoutShrinks(tokens[..|tokens| - 1], token); }
  }

  // ---- Histories ----

  datatype Event = Issue(token: string) | Consume(token: string)

  function Pending(history: seq<Event>): seq<string> {
    if history == [] then []
    else
      var before := Pending(history[..|history| - 1]);
      match history[|history| - 1]
      case Issue(token) => Issued(before, token)
      case Consume(token) => Without(before, token)
  }

  predicate Accepted(history: seq<Event>, presented: string) {
    presented != "" && presented in Pending(history)
  }

  lemma PendingNext(history: seq<Event>, e: Event)
    ensures Pending(history + [e]) ==
              if e.Issue? then Issued(Pending(history), e.token) else Without(Pending(history), e.token)
  {
    assert (history + [e])[..|history|] == history;
  }

  /** A session never holds more than sixteen tokens. */
  lemma {:induction false} AtMostSixteenPending(history: seq<Event>)
    ensures |Pending(history)| <= 16
  {
    if history != [] { AtMostSixteenPending(history[..|history| - 1]); }
  }

  /** Issued tokens are random: no two are equal, and none is empty. */
  ghost predicate TokensDiffer(history: seq<Event>) {
    && (forall i | 0 <= i < |history| && history[i].Issue? :: history[i].token != "")
    && (forall i, j | 0 <= i < j < |history| && history[i].Issue? && history[j].Issue? ::
          history[i].token != history[j].token)
  }

  /** The tokens issued after event i and not consumed by time n, in order: what the list would hold of them if
      it had no bound. */
  function Later(history: seq<Event>, i: nat, n: nat): (later: seq<string>)
    requires i < n <= |history|
    decreases n
  {
    if n == i + 1 then []
    else
      var before := Later(history, i, n - 1);
      match history[n - 1]
      case Issue(token) => before + [token]
      case Consume(token) => Without(before, token)
  }

  /** The token of event i was not consumed by time n, and never did sixteen newer unconsumed ones exist. */
  ghost predicate Survives(history: seq<Event>, i: nat, n: nat)
    requires i < n <= |history| && history[i].Issue?
  {
    && (forall k | i < k < n :: history[k] != Consume(history[i].token))
    && (forall k | i < k <= n :: |Later(history, i, k)| < 16)
  }

  /** The list ends in this token and the newer ones. */
  ghost predicate EndsIn(pending: seq<string>, token: string, later: seq<string>) {
    && |later| < |pending| && pending[|pending| - |later| - 1..] == [token] + later
    && token !in pending[..|pending| - |later| - 1] && token !in later
  }

  lemma {:induction false} WithoutConcat(a: seq<string>, b: seq<string>, token: string)
    ensures Without(a + b, token) == Without(a, token) + Without(b, token)
  {
    if b == [] {
      assert a + b == a;
    } else {
      var n := |b| - 1;
      assert (a + b)[..|a| + n] == a + b[..n];
      WithoutConcat(a, b[..n], token);
    }
  }

  lemma IssueStartsEnd(pending: seq<string>, token: string)
    requires token !in pending
    ensures EndsIn(Issued(pending, token), token, [])
  {
  }

  lemma IssueAddsOnly(pending: seq<string>, next: string)
    ensures forall t :: t in Issued(pending, next) ==> t in pending || t == next
  {
  }

  lemma SurvivesNext(history: seq<Event>, i: nat, n: nat)
    requires i < n <= |history| && history[i].Issue?
    ensures n == i + 1 ==> Survives(history, i, n)
    ensures n > i + 1 ==>
              (Survives(history, i, n) <==>
               Survives(history, i, n - 1) && history[n - 1] != Consume(history[i].token)
               && |Later(history, i, n)| < 16)
    ensures n > i + 1 && Survives(history, i, n - 1) ==> |Later(history, i, n - 1)| < 16
  {
  }

  lemma IssueKeepsEnd(pending: seq<string>, token: string, later: seq<string>, next: string)
    requires EndsIn(pending, token, later) && next != token && |pending| <= MAX_PENDING_FORM_TOKENS
    ensures |later| < MAX_PENDING_FORM_TOKENS - 1 ==> EndsIn(Issued(pending, next), token, later + [next])
    ensures |later| >= MAX_PENDING_FORM_TOKENS - 1 ==> token !in Issued(pending, next)
  {
    var older := pending[..|pending| - |later| - 1];
    assert pending == older + ([token] + later);
    if |pending| == MAX_PENDING_FORM_TOKENS && older != [] {
      assert Issued(pending, next) == older[1..] + ([token] + (later + [next]));
    } else if |pending| == MAX_PENDING_FORM_TOKENS {
      assert pending[1..] == later;
    } else {
      assert Issued(pending, next) == older + ([token] + (later + [next]));
    }
  }

  lemma ConsumeKeepsEnd(pending: seq<string>, token: string, later: seq<string>, spent: string)
    requires EndsIn(pending, token, later) && spent != token
    ensures EndsIn(Without(pending, spent), token, Without(later, spent))
  {
    assert [token][..0] == [] && Without([token], spent) == [token];
    hide Without;
    var older := pending[..|pending| - |later| - 1];
    assert pending == older + ([token] + later);
    WithoutConcat(older, [token] + later, spent);
    WithoutConcat([token], later, spent);
    assert Without(pending, spent) == Without(older, spent) + ([token] + Without(later, spent));
  }

  lemma {:induction false} NotPendingBeforeIssue(history: seq<Event>, i: nat, n: nat)
    requires TokensDiffer(history) && n <= i < |history| && history[i].Issue?
    ensures history[i].token !in Pending(history[..n])
  {
    if n > 0 {
      NotPendingBeforeIssue(history, i, n - 1);
      assert history[..n][..n - 1] == history[..n - 1];
    }
  }

  lemma {:induction false} PlaceInList(history: seq<Event>, i: nat, n: nat)
    requires TokensDiffer(history) && i < n <= |history| && history[i].Issue?
    ensures if Survives(history, i, n) then EndsIn(Pending(history[..n]), history[i].token, Later(history, i, n))
            else history[i].token !in Pending(history[..n])
    decreases n
  {
    hide Pending, EndsIn, Issued, Without, Survives;
    var token, before := history[i].token, Pending(history[..n - 1]);
    assert history[..n] == history[..n - 1] + [history[n - 1]];
    PendingNext(history[..n - 1], history[n - 1]);
    SurvivesNext(history, i, n);
    AtMostSixteenPending(history[..n - 1]);
    if n == i + 1 {
      NotPendingBeforeIssue(history, i, i);
      IssueStartsEnd(before, token);
    } else {
      PlaceInList(history, i, n - 1);
      if history[n - 1].Issue? { IssueAddsOnly(before, history[n - 1].token); }
      if Survives(history, i, n - 1) {
        var later := Later(history, i, n - 1);
        match history[n - 1]
        case Issue(next) => IssueKeepsEnd(before, token, later, next);
        case Consume(spent) => if spent != token { ConsumeKeepsEnd(before, token, later, spent); }
      }
    }
  }

  // ---- Main results ----

  /** A token is accepted at time n exactly when it was issued before, not consumed since, and never had sixteen
      newer unconsumed tokens behind it. */
  lemma AcceptedIffSurvives(history: seq<Event>, i: nat, n: nat)
    requires TokensDiffer(history) && i < n <= |history| && history[i].Issue?
    ensures Accepted(history[..n], history[i].token) <==> Survives(history, i, n)
  {
    PlaceInList(history, i, n);
    if Survives(history, i, n) {
      var pending, later := Pending(history[..n]), Later(history, i, n);
      assert pending[|pending| - |later| - 1] == ([history[i].token] + later)[0];
    }
  }

  /** Once refused, a token that was issued is never accepted again. */
  lemma RefusedForGood(history: seq<Event>, i: nat, m: nat, n: nat)
    requires TokensDiffer(history) && i < m <= n <= |history| && history[i].Issue?
    requires !Accepted(history[..m], history[i].token)
    ensures !Accepted(history[..n], history[i].token)
  {
    AcceptedIffSurvives(history, i, m);
    AcceptedIffSurvives(history, i, n);
  }

  /** No token but an issued one is ever accepted. */
  lemma {:induction false} OnlyIssuedAccepted(history: seq<Event>, token: string)
    ensures token in Pending(history) ==> Issue(token) in history
  {
    if history != [] {
      var n := |history| - 1;
      OnlyIssuedAccepted(history[..n], token);
      assert history == history[..n] + [history[n]];
    }
  }

  function CountIssues(history: seq<Event>, i: nat, n: nat): nat
    requires i < n <= |history|
    decreases n
  {
    if n == i + 1 then 0 else CountIssues(history, i, n - 1) + if history[n - 1].Issue? then 1 else 0
  }

  lemma {:induction false} LaterIsIssued(history: seq<Event>, i: nat, k: nat, n: nat)
    requires i < k <= n <= |history|
    ensures |Later(history, i, k)| <= CountIssues(history, i, k) <= CountIssues(history, i, n)
    decreases n, k
  {
    hide Without;
    if k < n {
      LaterIsIssued(history, i, k, n - 1);
    } else if k > i + 1 {
      LaterIsIssued(history, i, k - 1, k - 1);
    }
  }

  /** An unconsumed token outlives fifteen later issues. */
  lemma UnconsumedOutlivesFifteen(history: seq<Event>, i: nat, n: nat)
    requires TokensDiffer(history) && i < n <= |history| && history[i].Issue?
    requires forall k | i < k < n :: history[k] != Consume(history[i].token)
    requires CountIssues(history, i, n) <= 15
    ensures Accepted(history[..n], history[i].token)
  {
    forall k | i < k <= n
      ensures |Later(history, i, k)| < 16
    {
      LaterIsIssued(history, i, k, n);
    }
    AcceptedIffSurvives(history, i, n);
  }
}
