/** The single-flight cache over the query budget (internal/dnsresolver/budget.go), as a
    system of steps of any number of callers. A section under the mutex, an atomic
    operation and closing a channel are one step each. */
module QueryCache {
  import opened Wrappers

  /** What a fetch ends with. A budget rejection is final; other temporary failures are not. */
  datatype Outcome = Value(data: string) | Permanent(reason: string) | Temporary(reason: string) | OverBudget

  predicate Retry(o: Outcome) {
    o.Temporary?
  }

  type Key = string

  /** A cache entry. closed is its done channel; owner is the caller that made it. */
  datatype Entry = Entry(key: Key, owner: nat, result: Option<Outcome>, closed: bool)

  /** Where a caller is in a lookup. */
  datatype Caller =
    | Idle
    | Waiting(key: Key, e: nat)
    | Starting(key: Key, e: nat)
    | Asking(key: Key, e: nat)
    | Answered(key: Key, e: nat, o: Outcome)
    | Published(key: Key, e: nat, o: Outcome)
    | Closing(key: Key, e: nat, o: Outcome)
    | Returned(key: Key, o: Outcome)

  /** fetches and failures record every fetch begun and every temporary failure taken out
      of the cache; sent counts the calls that reached the underlying resolver. */
  datatype State = State(
    m: map<Key, nat>, entries: seq<Entry>, callers: seq<Caller>,
    limit: nat, used: nat, sent: nat, fetches: multiset<Key>, failures: multiset<Key>)

  predicate Init(s: State) {
    && s.m == map[] && s.entries == [] && s.used == 0 && s.sent == 0
    && s.fetches == multiset{} && s.failures == multiset{}
    && forall t :: 0 <= t < |s.callers| ==> s.callers[t] == Idle
  }

  // ---------------------------------------------------------------- steps

  datatype Action =
    | Call(key: Key)
    | Take
    | Answer(o: Outcome)
    | Publish
    | Delete
    | Close
    | Wake
    | Finish

  /** Whether caller t can take the step now. */
  predicate Enabled(s: State, t: nat, a: Action)
    requires t < |s.callers|
  {
    match a
    case Call(_) => s.callers[t].Idle?
    case Take => s.callers[t].Starting?
    case Answer(o) => s.callers[t].Asking? && !o.OverBudget?
    case Publish => s.callers[t].Answered? && s.callers[t].e < |s.entries|
    case Delete => s.callers[t].Published?
    case Close => s.callers[t].Closing? && s.callers[t].e < |s.entries|
    case Wake =>
      s.callers[t].Waiting? && s.callers[t].e < |s.entries|
      && s.entries[s.callers[t].e].closed && s.entries[s.callers[t].e].result.Some?
    case Finish => s.callers[t].Returned?
  }

  function Move(s: State, t: nat, c: Caller): State
    requires t < |s.callers|
  {
    s.(callers := s.callers[t := c])
  }

  /** The state after the step. */
  function Next(s: State, t: nat, a: Action): State
    requires t < |s.callers| && Enabled(s, t, a)
  {
    var c := s.callers[t];
    match a
    case Call(key) =>
      if key in s.m then Move(s, t, Waiting(key, s.m[key]))
      else
        var e := |s.entries|;
        Move(s, t, Starting(key, e)).(
          m := s.m[key := e], entries := s.entries + [Entry(key, t, None, false)],
          fetches := s.fetches + multiset{key})
    case Take =>
      if s.used + 1 > s.limit then Move(s, t, Answered(c.key, c.e, OverBudget)).(used := s.used + 1)
      else Move(s, t, Asking(c.key, c.e)).(used := s.used + 1, sent := s.sent + 1)
    case Answer(o) => Move(s, t, Answered(c.key, c.e, o))
    case Publish =>
      Move(s, t, if Retry(c.o) then Published(c.key, c.e, c.o) else Closing(c.key, c.e, c.o)).(
        entries := s.entries[c.e := s.entries[c.e].(result := Some(c.o))])
    case Delete => Move(s, t, Closing(c.key, c.e, c.o)).(m := s.m - {c.key}, failures := s.failures + multiset{c.key})
    case Close => Move(s, t, Returned(c.key, c.o)).(entries := s.entries[c.e := s.entries[c.e].(closed := true)])
    case Wake => Move(s, t, Returned(c.key, s.entries[c.e].result.value))
    case Finish => Move(s, t, Idle)
  }

  ghost predicate Step(s: State, s': State) {
    exists t: nat, a :: t < |s.callers| && Enabled(s, t, a) && s' == Next(s, t, a)
  }

  ghost predicate IsRun(run: seq<State>) {
    && run != [] && Init(run[0])
    && forall i :: 0 <= i < |run| - 1 ==> Step(run[i], run[i + 1])
  }

  // ---------------------------------------------------------------- what every run keeps

  predicate Mapped(s: State, key: Key, e: nat) {
    key in s.m && s.m[key] == e
  }

  predicate EntryIs(s: State, e: nat, x: Entry) {
    e < |s.entries| && s.entries[e] == x
  }

  predicate CallerOk(s: State, t: nat)
    requires t < |s.callers|
  {
    match s.callers[t]
    case Idle => true
    case Returned(_, _) => true
    case Waiting(key, e) => e < |s.entries| && s.entries[e].key == key
    case Starting(key, e) => EntryIs(s, e, Entry(key, t, None, false)) && Mapped(s, key, e)
    case Asking(key, e) => EntryIs(s, e, Entry(key, t, None, false)) && Mapped(s, key, e)
    case Answered(key, e, _) => EntryIs(s, e, Entry(key, t, None, false)) && Mapped(s, key, e)
    case Published(key, e, o) => EntryIs(s, e, Entry(key, t, Some(o), false)) && Mapped(s, key, e) && o.Temporary?
    case Closing(key, e, o) => EntryIs(s, e, Entry(key, t, Some(o), false)) && (o.Temporary? <==> !Mapped(s, key, e))
  }

  /** The caller is the one working on entry e. */
  predicate Owns(c: Caller, e: nat) {
    (c.Starting? || c.Asking? || c.Answered? || c.Published? || c.Closing?) && c.e == e
  }

  predicate EntryOk(s: State, e: nat)
    requires e < |s.entries|
  {
    var x := s.entries[e];
    if x.closed then x.result.Some? && (x.result.value.Temporary? ==> !Mapped(s, x.key, e))
    else x.owner < |s.callers| && Owns(s.callers[x.owner], e)
  }

  predicate KeyOk(s: State, k: Key) {
    && (k in s.m ==> s.m[k] < |s.entries| && s.entries[s.m[k]].key == k)
    && s.fetches[k] == s.failures[k] + (if k in s.m then 1 else 0)
  }

  ghost predicate Inv(s: State) {
    && (forall t: nat :: t < |s.callers| ==> CallerOk(s, t))
    && (forall e: nat :: e < |s.entries| ==> EntryOk(s, e))
    && (forall k :: KeyOk(s, k))
    && s.sent == if s.used < s.limit then s.used else s.limit
  }

  /** A step of t changes no other caller, no entry but its own, and no key of another entry. */
  lemma StepFrame(s: State, t: nat, a: Action, e: nat, key: Key)
    requires Inv(s) && t < |s.callers| && Enabled(s, t, a) && e < |s.entries|
    ensures var s' := Next(s, t, a);
            && |s'.callers| == |s.callers| && (forall u :: 0 <= u < |s.callers| && u != t ==> s'.callers[u] == s.callers[u])
            && e < |s'.entries| && s'.entries[e].key == s.entries[e].key
            && (!Owns(s.callers[t], e) ==>
                  s'.entries[e] == s.entries[e] && (Mapped(s', key, e) <==> Mapped(s, key, e)))
  {
    assert CallerOk(s, t);
  }

  /** The callers other than t are where they were, and so is what they rely on. */
  lemma OthersKeep(s: State, t: nat, a: Action, u: nat)
    requires Inv(s) && t < |s.callers| && Enabled(s, t, a) && u < |s.callers| && u != t
    ensures CallerOk(Next(s, t, a), u)
  {
    assert CallerOk(s, u) && CallerOk(s, t);
    hide Inv, Next, Enabled;
    var c := s.callers[u];
    if c.Idle? || c.Returned? {
      CallersKept(s, t, a, u);
    } else {
      StepFrame(s, t, a, c.e, c.key);
    }
  }

  lemma CallersKept(s: State, t: nat, a: Action, u: nat)
    requires t < |s.callers| && Enabled(s, t, a) && u < |s.callers| && u != t
    ensures u < |Next(s, t, a).callers| && Next(s, t, a).callers[u] == s.callers[u]
  {
  }

  lemma SelfKeeps(s: State, t: nat, a: Action)
    requires Inv(s) && t < |s.callers| && Enabled(s, t, a)
    ensures CallerOk(Next(s, t, a), t)
  {
    assert CallerOk(s, t);
    if a.Call? {
      assert KeyOk(s, a.key);
    }
  }

  lemma EntriesKeep(s: State, t: nat, a: Action, e: nat)
    requires Inv(s) && t < |s.callers| && Enabled(s, t, a) && e < |Next(s, t, a).entries|
    ensures EntryOk(Next(s, t, a), e)
  {
    assert CallerOk(s, t);
    if e < |s.entries| {
      assert EntryOk(s, e);
    }
    if a.Call? {
      assert KeyOk(s, a.key);
    }
  }

  lemma KeysKeep(s: State, t: nat, a: Action, k: Key)
    requires Inv(s) && t < |s.callers| && Enabled(s, t, a)
    ensures KeyOk(Next(s, t, a), k)
  {
    assert CallerOk(s, t) && KeyOk(s, k);
  }

  lemma StepKeepsInv(s: State, s': State)
    requires Inv(s) && Step(s, s')
    ensures Inv(s') && |s'.callers| == |s.callers| && s'.limit == s.limit
  {
    var t: nat, a :| t < |s.callers| && Enabled(s, t, a) && s' == Next(s, t, a);
    forall u: nat | u < |s'.callers|
      ensures CallerOk(s', u)
    {
      if u == t {
        SelfKeeps(s, t, a);
      } else {
        OthersKeep(s, t, a, u);
      }
    }
    forall e: nat | e < |s'.entries|
      ensures EntryOk(s', e)
    {
      EntriesKeep(s, t, a, e);
    }
    forall k
      ensures KeyOk(s', k)
    {
      KeysKeep(s, t, a, k);
    }
  }

  lemma {:induction false} RunKeepsInv(run: seq<State>, i: nat)
    requires IsRun(run) && i < |run|
    ensures Inv(run[i])
  {
    if i > 0 {
      RunKeepsInv(run, i - 1);
      StepKeepsInv(run[i - 1], run[i]);
    }
  }

  // ---------------------------------------------------------------- safety

  /** The caller is fetching the key, or about to, or about to publish what it fetched. */
  predicate InFlight(c: Caller, key: Key) {
    (c.Starting? || c.Asking? || c.Answered? || c.Published?) && c.key == key
  }

  /** In every state of every run at most one caller is fetching a key. */
  lemma OneFetchPerKey(run: seq<State>, i: nat, t: nat, u: nat, key: Key)
    requires IsRun(run) && i < |run| && t < |run[i].callers| && u < |run[i].callers|
    requires InFlight(run[i].callers[t], key) && InFlight(run[i].callers[u], key)
    ensures t == u
  {
    RunKeepsInv(run, i);
    assert CallerOk(run[i], t) && CallerOk(run[i], u);
  }

  /** Deleting the key of a failed fetch removes the deleting caller's own entry. */
  lemma DeleteRemovesOwnEntry(run: seq<State>, i: nat, t: nat)
    requires IsRun(run) && i < |run| && t < |run[i].callers| && Enabled(run[i], t, Delete)
    ensures var s, c := run[i], run[i].callers[t];
            c.key in s.m && s.m[c.key] == c.e < |s.entries| && s.entries[c.e].owner == t
  {
    RunKeepsInv(run, i);
    assert CallerOk(run[i], t);
  }

  // ---------------------------------------------------------------- temporary failures

  /** Entry e was a fetch of k that failed temporarily, and it is out of the cache. */
  predicate TakenOut(s: State, k: Key, e: nat)
    requires e < |s.entries|
  {
    s.entries[e].key == k && !Mapped(s, k, e) && s.entries[e].result.Some? && s.entries[e].result.value.Temporary?
  }

  predicate FetchOf(s: State, k: Key, e: nat)
    requires e < |s.entries|
  {
    s.entries[e].key == k
  }

  /** How many of the first n fetches were of k, and how many of these were taken out. */
  function Fetches(s: State, k: Key, n: nat): nat
    requires n <= |s.entries|
  {
    if n == 0 then 0 else Fetches(s, k, n - 1) + if FetchOf(s, k, n - 1) then 1 else 0
  }

  function Failures(s: State, k: Key, n: nat): nat
    requires n <= |s.entries|
  {
    if n == 0 then 0 else Failures(s, k, n - 1) + if TakenOut(s, k, n - 1) then 1 else 0
  }

  ghost predicate Counted(s: State, k: Key) {
    s.fetches[k] == Fetches(s, k, |s.entries|) && s.failures[k] == Failures(s, k, |s.entries|)
  }

  /** A step that makes entry own a taken-out fetch of k, or leaves all as they are. */
  lemma {:induction false} CountsKept(s: State, s': State, k: Key, n: nat, own: nat)
    requires n <= |s.entries| <= |s'.entries|
    requires forall e: nat :: e < |s.entries| ==> FetchOf(s', k, e) == FetchOf(s, k, e)
    requires forall e: nat :: e < |s.entries| && e != own ==> TakenOut(s', k, e) == TakenOut(s, k, e)
    requires own < |s.entries| && !TakenOut(s, k, own)
    ensures Fetches(s', k, n) == Fetches(s, k, n)
    ensures Failures(s', k, n) == Failures(s, k, n) + if own < n && TakenOut(s', k, own) then 1 else 0
  {
    hide TakenOut, FetchOf;
    if n > 0 {
      CountsKept(s, s', k, n - 1, own);
    }
  }

  lemma {:induction false} CountsSame(s: State, s': State, k: Key, n: nat)
    requires n <= |s.entries| <= |s'.entries|
    requires forall e: nat :: e < |s.entries| ==> FetchOf(s', k, e) == FetchOf(s, k, e) && TakenOut(s', k, e) == TakenOut(s, k, e)
    ensures Fetches(s', k, n) == Fetches(s, k, n) && Failures(s', k, n) == Failures(s, k, n)
  {
    hide TakenOut, FetchOf;
    if n > 0 {
      CountsSame(s, s', k, n - 1);
    }
  }

  lemma CountedKept(s: State, t: nat, a: Action, k: Key)
    requires Inv(s) && t < |s.callers| && Enabled(s, t, a) && Counted(s, k)
    ensures Counted(Next(s, t, a), k)
  {
    assert CallerOk(s, t) && KeyOk(s, k);
    var s' := Next(s, t, a);
    if a.Delete? {
      CountsKept(s, s', k, |s.entries|, s.callers[t].e);
    } else {
      CountsSame(s, s', k, |s.entries|);
    }
  }

  /** A key's fetches are the entries made for it, and its failures are exactly those of
      them that ended in a temporary failure and are out of the cache. */
  lemma {:induction false} FailuresAreTemporary(run: seq<State>, i: nat, k: Key)
    requires IsRun(run) && i < |run|
    ensures Counted(run[i], k)
  {
    if i > 0 {
      FailuresAreTemporary(run, i - 1, k);
      RunKeepsInv(run, i - 1);
      var s := run[i - 1];
      var t: nat, a :| t < |s.callers| && Enabled(s, t, a) && run[i] == Next(s, t, a);
      CountedKept(s, t, a, k);
    }
  }

  /** In no state of any run does a key map to a fetch that is over and failed temporarily. */
  lemma TemporaryIsNotKept(run: seq<State>, i: nat, e: nat)
    requires IsRun(run) && i < |run| && e < |run[i].entries| && run[i].entries[e].closed
    ensures run[i].entries[e].result.Some?
    ensures run[i].entries[e].result.value.Temporary? ==> !Mapped(run[i], run[i].entries[e].key, e)
  {
    RunKeepsInv(run, i);
    assert EntryOk(run[i], e);
  }

  /** When all fetches of a key are over and failed temporarily, the next call fetches it. */
  lemma FailedKeyIsFetchedAgain(run: seq<State>, i: nat, t: nat, k: Key)
    requires IsRun(run) && i < |run| && t < |run[i].callers| && Enabled(run[i], t, Call(k))
    requires forall e: nat :: e < |run[i].entries| && run[i].entries[e].key == k ==>
               run[i].entries[e].closed && run[i].entries[e].result.Some? && run[i].entries[e].result.value.Temporary?
    ensures var s' := Next(run[i], t, Call(k)); s'.callers[t].Starting? && s'.callers[t].key == k
  {
    RunKeepsInv(run, i);
    assert KeyOk(run[i], k);
    if k in run[i].m {
      TemporaryIsNotKept(run, i, run[i].m[k]);
    }
  }

  // ---------------------------------------------------------------- accounting

  /** Every key has been fetched once for each of its temporary failures, and once more if
      it is settled or being fetched; as many calls were let through as the budget allows. */
  lemma FetchesAreAccounted(run: seq<State>, i: nat, k: Key)
    requires IsRun(run) && i < |run|
    ensures var s := run[i];
            && s.fetches[k] == s.failures[k] + (if k in s.m then 1 else 0)
            && (k in s.m <==> IsSettled(s, k) || IsInFlight(s, k))
            && s.sent == (if s.used < s.limit then s.used else s.limit)
  {
    RunKeepsInv(run, i);
    assert KeyOk(run[i], k);
    CachedIsSettledOrInFlight(run, i, k);
  }

  ghost predicate IsSettled(s: State, k: Key) {
    exists o :: Settled(s, k, o)
  }

  ghost predicate IsInFlight(s: State, k: Key) {
    exists t: nat :: t < |s.callers| && InFlight(s.callers[t], k)
  }

  /** A key is in the cache exactly while it is settled or being fetched. */
  lemma CachedIsSettledOrInFlight(run: seq<State>, i: nat, k: Key)
    requires IsRun(run) && i < |run|
    ensures k in run[i].m <==> IsSettled(run[i], k) || IsInFlight(run[i], k)
  {
    if IsInFlight(run[i], k) {
      RunKeepsInv(run, i);
      var t: nat :| t < |run[i].callers| && InFlight(run[i].callers[t], k);
      assert CallerOk(run[i], t);
    } else if k in run[i].m {
      CachedIsThere(run, i, k);
    }
  }

  lemma CachedIsThere(run: seq<State>, i: nat, k: Key)
    requires IsRun(run) && i < |run| && k in run[i].m
    ensures IsSettled(run[i], k) || IsInFlight(run[i], k)
  {
    RunKeepsInv(run, i);
    var s := run[i];
    var e := s.m[k];
    assert KeyOk(s, k) && EntryOk(s, e);
    if s.entries[e].closed {
      assert Settled(s, k, s.entries[e].result.value);
    } else {
      var t := s.entries[e].owner;
      assert CallerOk(s, t);
      if s.callers[t].Closing? {
        assert Settled(s, k, s.callers[t].o);
      } else {
        assert InFlight(s.callers[t], k);
      }
    }
  }

  // ---------------------------------------------------------------- final outcomes

  /** The key has a final outcome, a value, a permanent error or a budget rejection. */
  predicate Settled(s: State, k: Key, o: Outcome) {
    k in s.m && s.m[k] < |s.entries| && s.entries[s.m[k]].result == Some(o) && (o.Value? || o.Permanent? || o.OverBudget?)
  }

  /** What caller t may be doing once k is settled and its earlier calls are over. */
  predicate Follows(s: State, t: nat, k: Key, o: Outcome)
    requires t < |s.callers|
  {
    match s.callers[t]
    case Idle => true
    case Returned(key, x) => key == k ==> x == o
    case Waiting(key, e) => key == k ==> Mapped(s, k, e)
    case _ => s.callers[t].key != k
  }

  lemma SettledKept(s: State, u: nat, a: Action, k: Key, o: Outcome)
    requires Inv(s) && u < |s.callers| && Enabled(s, u, a) && Settled(s, k, o)
    ensures Settled(Next(s, u, a), k, o) && Next(s, u, a).m[k] == s.m[k]
  {
    assert CallerOk(s, u) && KeyOk(s, k) && EntryOk(s, s.m[k]);
  }

  lemma FollowsKept(s: State, u: nat, a: Action, k: Key, o: Outcome, t: nat)
    requires Inv(s) && u < |s.callers| && Enabled(s, u, a) && Settled(s, k, o)
    requires t < |s.callers| && Follows(s, t, k, o)
    ensures Follows(Next(s, u, a), t, k, o)
  {
    SettledKept(s, u, a, k, o);
    var s' := Next(s, u, a);
    if u == t {
      assert CallerOk(s, u);
    } else {
      assert s'.callers[t] == s.callers[t];
    }
  }

  lemma StepKeepsSettled(s: State, s': State, k: Key, o: Outcome, t: nat)
    requires Inv(s) && Step(s, s') && Settled(s, k, o)
    ensures Settled(s', k, o) && s'.m[k] == s.m[k]
    ensures t < |s.callers| && Follows(s, t, k, o) ==> t < |s'.callers| && Follows(s', t, k, o)
  {
    var u: nat, a :| u < |s.callers| && Enabled(s, u, a) && s' == Next(s, u, a);
    SettledKept(s, u, a, k, o);
    if t < |s.callers| && Follows(s, t, k, o) {
      FollowsKept(s, u, a, k, o, t);
    }
  }

  lemma IdleFollows(s: State, t: nat, k: Key, o: Outcome)
    requires t < |s.callers| && s.callers[t].Idle?
    ensures Follows(s, t, k, o)
  {
  }

  lemma RunStep(run: seq<State>, j: nat)
    requires IsRun(run) && 0 < j < |run|
    ensures Step(run[j - 1], run[j])
  {
    hide Step;
  }

  /** A final outcome never changes, and it is what every call that begins later returns,
      however often the caller calls again. */
  lemma {:induction false} FinalOutcomeStays(run: seq<State>, i: nat, j: nat, k: Key, o: Outcome, t: nat)
    requires IsRun(run) && i <= j < |run| && Settled(run[i], k, o)
    requires t < |run[i].callers| && run[i].callers[t].Idle?
    ensures Settled(run[j], k, o)
    ensures t < |run[j].callers| && Follows(run[j], t, k, o)
  {
    hide IsRun, Inv, Step, Follows, Settled;
    if i == j {
      IdleFollows(run[i], t, k, o);
    } else {
      FinalOutcomeStays(run, i, j - 1, k, o, t);
      RunKeepsInv(run, j - 1);
      RunStep(run, j);
      StepKeepsSettled(run[j - 1], run[j], k, o, t);
    }
  }

  // ---------------------------------------------------------------- progress

  /** Steps a caller still has to take before its lookup is over. */
  function Work(c: Caller): nat {
    match c
    case Idle => 0
    case Returned(_, _) => 0
    case Waiting(_, _) => 1
    case Starting(_, _) => 5
    case Asking(_, _) => 4
    case Answered(_, _, _) => 3
    case Published(_, _, _) => 2
    case Closing(_, _, _) => 1
  }

  function TotalWork(callers: seq<Caller>): nat {
    if callers == [] then 0 else Work(callers[0]) + TotalWork(callers[1..])
  }

  lemma {:induction false} TotalWorkUpdate(callers: seq<Caller>, t: nat, c: Caller)
    requires t < |callers|
    ensures TotalWork(callers[t := c]) == TotalWork(callers) - Work(callers[t]) + Work(c)
  {
    if t == 0 {
      assert callers[t := c][1..] == callers[1..];
    } else {
      assert callers[t := c][1..] == callers[1..][t - 1 := c];
      TotalWorkUpdate(callers[1..], t - 1, c);
    }
  }

  lemma {:induction false} SomeoneWorks(callers: seq<Caller>) returns (t: nat)
    requires TotalWork(callers) > 0
    ensures t < |callers| && Work(callers[t]) > 0
  {
    if Work(callers[0]) > 0 {
      t := 0;
    } else {
      t := SomeoneWorks(callers[1..]);
      t := t + 1;
    }
  }

  /** The next step of a caller that is not waiting. */
  function OwnStep(c: Caller): Action
    requires Work(c) > 0 && !c.Waiting?
  {
    match c
    case Starting(_, _) => Take
    case Asking(_, _) => Answer(Value(""))
    case Answered(_, _, _) => Publish
    case Published(_, _, _) => Delete
    case Closing(_, _, _) => Close
  }

  /** No reachable state deadlocks: while some lookup is not over, some caller can take a
      step towards the end of its own. A waiting caller waits for one that is not waiting. */
  lemma NoDeadlock(run: seq<State>, i: nat) returns (t: nat, a: Action)
    requires IsRun(run) && i < |run| && TotalWork(run[i].callers) > 0
    ensures t < |run[i].callers| && Enabled(run[i], t, a) && !a.Call? && !a.Finish?
  {
    RunKeepsInv(run, i);
    var s := run[i];
    t := SomeoneWorks(s.callers);
    assert CallerOk(s, t);
    a := Wake;
    if s.callers[t].Waiting? {
      var e := s.callers[t].e;
      assert EntryOk(s, e);
      if !s.entries[e].closed {
        t := s.entries[e].owner;
        assert CallerOk(s, t);
        a := OwnStep(s.callers[t]);
      }
    } else {
      a := OwnStep(s.callers[t]);
    }
  }

  /** Every such step leaves less to do, so lookups end unless new ones keep starting. */
  lemma StepsAreProgress(s: State, t: nat, a: Action)
    requires t < |s.callers| && Enabled(s, t, a) && !a.Call? && !a.Finish?
    ensures TotalWork(Next(s, t, a).callers) < TotalWork(s.callers)
  {
    TotalWorkUpdate(s.callers, t, Next(s, t, a).callers[t]);
    assert Next(s, t, a).callers == s.callers[t := Next(s, t, a).callers[t]];
  }

  // ---------------------------------------------------------------- the budget object

  /** One attempt against a budget: it is permitted while the limit has not been used up. */
  predicate Charges(limit: nat, used: nat, sent: nat, used': nat, sent': nat, ok: bool) {
    used' == used + 1 && ok == (used < limit) && sent' == sent + if ok then 1 else 0
  }

  /** Every fetch attempts one call; without permission its outcome is a budget rejection. */
  lemma TakeCharges(s: State, t: nat)
    requires t < |s.callers| && Enabled(s, t, Take)
    ensures var s' := Next(s, t, Take);
            && Charges(s.limit, s.used, s.sent, s'.used, s'.sent, s'.callers[t].Asking?)
            && (!s'.callers[t].Asking? ==> s'.callers[t].Answered? && s'.callers[t].o.OverBudget?)
  {
  }

  class Budget {
    const limit: nat
    var used: nat
    ghost var permitted: nat

    ghost predicate Valid()
      reads this
    {
      permitted == if used < limit then used else limit
    }

    constructor (limit: nat)
      ensures Valid() && this.limit == limit && used == 0
    {
      this.limit, used, permitted := limit, 0, 0;
    }

    /** One lookup attempted, as in the Take step of a fetch. */
    method Take() returns (ok: bool)
      requires Valid()
      modifies this
      ensures Valid() && Charges(limit, old(used), old(permitted), used, permitted, ok)
    {
      used := used + 1;
      ok := used <= limit;
      if ok {
        permitted := permitted + 1;
      }
    }

    method Sent() returns (n: nat)
      requires Valid()
      ensures n == permitted
    {
      n := if used < limit then used else limit;
    }

    /** Whether any lookup was rejected. */
    method Exhausted() returns (yes: bool)
      requires Valid()
      ensures yes <==> permitted < used
    {
      yes := used > limit;
    }
  }
}
