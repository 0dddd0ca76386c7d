/** The account service: creation with a best-effort cache pre-check and a
    write-through, lookup with read-repair, and the start-up warm-up. Cache
    write failures are swallowed; the store stays the source of truth. */
module AccountService {
  import opened Results
  import opened Int64Text
  import opened Constants
  import opened Models
  import opened Database
  import opened Calls
  import opened AccountCache
  import AccountRepository

  /** What a call into the service leaves behind. */
  datatype Effect = Effect(db: Db, cache: Store, outcome: Outcome<Error>, calls: seq<Call>)

  /** The text of the rejection made by the cache pre-check. */
  const AlreadyExistsText: string := "account already exists"

  /** AccountService.CreateAccount. A positive pre-check rejects with a new
      error value; a failed pre-check is ignored; a store error comes back as
      is; after a good insert the answer is nil whatever the cache write did. */
  function CreateAccount(db: Db, cache: Store, acc: Account,
                         probe: Probe, query: AccountRepository.Query, write: Write): (e: Effect)
    ensures Exists(cache, acc.id, probe) == Ok(true) ==>
      e == Effect(db, cache, Fail(Fresh(AlreadyExistsText)), [CacheExists(acc.id)])
    ensures Exists(cache, acc.id, probe) != Ok(true) ==>
      |e.calls| >= 2 && e.calls[..2] == [CacheExists(acc.id), RepoCreateAccount(acc.id)]
    ensures e.outcome.Pass? <==> Exists(cache, acc.id, probe) != Ok(true) && query.Served? && acc.id !in db.accounts
    ensures e.outcome.Pass? ==>
      && e.db == AccountRepository.CreateAccount(db, acc, query).0
      && e.calls == [CacheExists(acc.id), RepoCreateAccount(acc.id), CacheSet(acc.id)]
    ensures e.outcome.Pass? && write.Stored? ==> e.cache == cache[KeyFor(acc.id) := acc]
    ensures e.outcome.Pass? && !write.Stored? ==> e.cache == cache
    ensures e.outcome.Fail? ==> e.db == db && e.cache == cache && Untyped(e.outcome.error)
    ensures Exists(cache, acc.id, probe) != Ok(true) && e.outcome.Fail? ==>
      && e.outcome == AccountRepository.CreateAccount(db, acc, query).1
      && e.calls == [CacheExists(acc.id), RepoCreateAccount(acc.id)]
  {
    if Exists(cache, acc.id, probe) == Ok(true) then
      Effect(db, cache, Fail(Fresh(AlreadyExistsText)), [CacheExists(acc.id)])
    else
      var (db', created) := AccountRepository.CreateAccount(db, acc, query);
      match created
      case Fail(err) => Effect(db, cache, Fail(err), [CacheExists(acc.id), RepoCreateAccount(acc.id)])
      case Pass =>
        var (cache', _) := SetAccount(cache, acc, write);
        Effect(db', cache', Pass, [CacheExists(acc.id), RepoCreateAccount(acc.id), CacheSet(acc.id)])
  }

  /** CreateAccount never fails with an error that errors.Is matches to a
      sentinel: the pre-check's rejection, worded like ErrAccountAlreadyExists,
      is not that sentinel, and the store's duplicate error is untranslated. */
  lemma CreateAccountErrorsMatchNoSentinel(db: Db, cache: Store, acc: Account,
                                           probe: Probe, query: AccountRepository.Query, write: Write, k: Kind)
    requires CreateAccount(db, cache, acc, probe, query, write).outcome.Fail?
    ensures !Is(CreateAccount(db, cache, acc, probe, query, write).outcome.error, k)
  {
  }

  /** What a lookup leaves behind. */
  datatype Lookup = Lookup(cache: Store, result: Result<Account, Error>, calls: seq<Call>)

  /** AccountService.GetAccount: the repository's answer, unchanged, and on a
      hit a best-effort read-repair of the cache. */
  function GetAccount(db: Db, cache: Store, id: Int64, query: AccountRepository.Query, write: Write): (l: Lookup)
    ensures l.result == AccountRepository.GetAccount(db, id, query)
    ensures l.result.Err? ==> l.cache == cache && l.calls == [RepoGetAccount(id)]
    ensures l.result.Ok? ==> l.calls == [RepoGetAccount(id), CacheSet(id)]
    ensures l.result.Ok? && write.Stored? ==> l.cache == cache[KeyFor(id) := Account(id, db.accounts[id])]
    ensures l.result.Ok? && !write.Stored? ==> l.cache == cache
  {
    match AccountRepository.GetAccount(db, id, query)
    case Err(err) => Lookup(cache, Err(err), [RepoGetAccount(id)])
    case Ok(acc) => Lookup(SetAccount(cache, acc, write).0, Ok(acc), [RepoGetAccount(id), CacheSet(id)])
  }

  /** Read-repair closes the loop with the existence cache: after a hit whose
      write was stored, the account exists for a reachable probe, and a later
      create of the same id is rejected by the pre-check without a store call. */
  lemma ReadRepairFeedsPreCheck(db: Db, cache: Store, id: Int64, query: AccountRepository.Query,
                                balance: real, query2: AccountRepository.Query, write2: Write)
    requires GetAccount(db, cache, id, query, Stored).result.Ok?
    ensures var repaired := GetAccount(db, cache, id, query, Stored).cache;
      && Exists(repaired, id, Reachable) == Ok(true)
      && CreateAccount(db, repaired, Account(id, balance), Reachable, query2, write2) ==
         Effect(db, repaired, Fail(Fresh(AlreadyExistsText)), [CacheExists(id)])
  {
  }

  /** The cache after attempting one write per account, in order. */
  function Replay(c: Store, accs: seq<Account>, write: nat -> Write): Store
    decreases |accs|
  {
    if accs == [] then c
    else SetAccount(Replay(c, accs[..|accs| - 1], write), accs[|accs| - 1], write(|accs| - 1)).0
  }

  /** The number of the first n writes that succeed. */
  function Successes(write: nat -> Write, n: nat): nat {
    if n == 0 then 0 else Successes(write, n - 1) + (if write(n - 1).Stored? then 1 else 0)
  }

  /** One SetAccount call per account, in order. */
  function SetCalls(accs: seq<Account>): (r: seq<Call>)
    ensures |r| == |accs|
    ensures forall i :: 0 <= i < |accs| ==> r[i] == CacheSet(accs[i].id)
  {
    seq(|accs|, i requires 0 <= i < |accs| => CacheSet(accs[i].id))
  }

  /** One more account replayed is one more write, and one more call. */
  lemma ReplayStep(c: Store, accs: seq<Account>, write: nat -> Write, i: nat)
    requires i < |accs|
    ensures Replay(c, accs[..i + 1], write) == SetAccount(Replay(c, accs[..i], write), accs[i], write(i)).0
    ensures SetCalls(accs[..i + 1]) == SetCalls(accs[..i]) + [CacheSet(accs[i].id)]
  {
    assert accs[..i + 1][..i] == accs[..i];
  }

  /** One warm-up write: whether SetAccount returned no error. */
  method WarmOne(c: Store, acc: Account, w: Write) returns (c': Store, ok: bool)
    ensures c' == SetAccount(c, acc, w).0
    ensures ok <==> w.Stored?
  {
    var step := SetAccount(c, acc, w);
    c' := step.0;
    ok := step.1.Pass?;
  }

  /** AccountService.LoadAllAccountsToCache, given what the repository's GetAll
      returned and how each write goes. A failed fetch is wrapped and writes
      nothing; otherwise every account is written once, in order, failures are
      skipped, count is the number of writes that succeeded, and the answer is nil. */
  method LoadAllAccountsToCache(fetched: Result<seq<Account>, Error>, cache: Store, write: nat -> Write)
    returns (cache': Store, o: Outcome<Error>, count: nat, calls: seq<Call>)
    ensures fetched.Err? ==>
      && o == Fail(Wrapped("failed to fetch accounts for warmup", fetched.error))
      && cache' == cache && count == 0 && calls == [RepoGetAll]
    ensures fetched.Ok? ==>
      && o == Pass
      && cache' == Replay(cache, fetched.value, write)
      && count == Successes(write, |fetched.value|)
      && count <= |fetched.value|
      && calls == [RepoGetAll] + SetCalls(fetched.value)
  {
    if fetched.Err? {
      return cache, Fail(Wrapped("failed to fetch accounts for warmup", fetched.error)), 0, [RepoGetAll];
    }
    var sets;
    cache', count, sets := WarmAll(cache, fetched.value, write);
    calls := [RepoGetAll] + sets;
    o := Pass;
  }

  /** The warm-up loop: one write per account, in order, failures skipped. */
  method WarmAll(cache: Store, accs: seq<Account>, write: nat -> Write)
    returns (cache': Store, count: nat, calls: seq<Call>)
    ensures cache' == Replay(cache, accs, write)
    ensures count == Successes(write, |accs|) && count <= |accs|
    ensures calls == SetCalls(accs)
  {
    cache' := cache;
    count := 0;
    calls := [];
    var i := 0;
    while i < |accs|
      invariant 0 <= i <= |accs|
      invariant cache' == Replay(cache, accs[..i], write)
      invariant count == Successes(write, i) && count <= i
      invariant calls == SetCalls(accs[..i])
    {
      ReplayStep(cache, accs, write, i);
      var ok;
      cache', ok := WarmOne(cache', accs[i], write(i));
      if ok {
        count := count + 1;
      }
      calls := calls + [CacheSet(accs[i].id)];
      i := i + 1;
    }
    assert accs[..i] == accs;
  }

  /** Every account whose write succeeded is in the warmed cache. */
  lemma {:induction false} WarmUpCovers(c: Store, accs: seq<Account>, write: nat -> Write, i: nat)
    requires i < |accs| && write(i).Stored?
    ensures KeyFor(accs[i].id) in Replay(c, accs, write)
    decreases |accs|
  {
    var n := |accs| - 1;
    if i < n {
      WarmUpCovers(c, accs[..n], write, i);
    }
  }

  /** The last successful write for an id decides the entry for that id. */
  lemma {:induction false} WarmUpLastWriteWins(c: Store, accs: seq<Account>, write: nat -> Write, i: nat)
    requires i < |accs| && write(i).Stored?
    requires forall j :: i < j < |accs| && accs[j].id == accs[i].id ==> !write(j).Stored?
    ensures KeyFor(accs[i].id) in Replay(c, accs, write)
    ensures Replay(c, accs, write)[KeyFor(accs[i].id)] == accs[i]
    decreases |accs|
  {
    var n := |accs| - 1;
    if i < n {
      var init := accs[..n];
      assert init[i] == accs[i];
      WarmUpLastWriteWins(c, init, write, i);
      if KeyFor(accs[n].id) == KeyFor(accs[i].id) {
        KeyForInjective(accs[n].id, accs[i].id);
      }
    }
  }

  /** Keys of ids that are not warmed are left as they were. */
  lemma {:induction false} WarmUpLeavesOthersAlone(c: Store, accs: seq<Account>, write: nat -> Write, id: Int64)
    requires forall j :: 0 <= j < |accs| ==> accs[j].id != id
    ensures KeyFor(id) in Replay(c, accs, write) <==> KeyFor(id) in c
    ensures KeyFor(id) in c ==> Replay(c, accs, write)[KeyFor(id)] == c[KeyFor(id)]
    decreases |accs|
  {
    if accs != [] {
      var n := |accs| - 1;
      WarmUpLeavesOthersAlone(c, accs[..n], write, id);
      if KeyFor(id) == KeyFor(accs[n].id) {
        KeyForInjective(id, accs[n].id);
      }
    }
  }
}
