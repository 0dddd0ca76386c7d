/** The transfer service: a short-circuiting validation (same account, then the
    cache's word on the source, then on the destination) in front of the
    engine. Only existence is read from the cache, never a cached balance. */
module TransferService {
  import opened Results
  import opened Int64Text
  import opened Constants
  import opened Models
  import opened Database
  import opened GoContext
  import opened Calls
  import opened AccountCache
  import TransferRepository

  /** TransferService.ValidateTransfer, with the cache calls it made. */
  function ValidateTransfer(cache: Store, src: Int64, dst: Int64, srcProbe: Probe, dstProbe: Probe): (v: (Outcome<Error>, seq<Call>))
    ensures v.0.Pass? <==> src != dst && Exists(cache, src, srcProbe) == Ok(true) && Exists(cache, dst, dstProbe) == Ok(true)
    ensures src == dst ==> v == (Fail(Sentinel(SameAccount)), [])
    ensures src != dst && srcProbe.Unreachable? ==>
      v.1 == [CacheExists(src)] && v.0.Fail? && Untyped(v.0.error) && !Is(v.0.error, AccountNotFound)
    ensures src != dst && Exists(cache, src, srcProbe) == Ok(false) ==>
      v == (Fail(Sentinel(AccountNotFound)), [CacheExists(src)])
    ensures src != dst && Exists(cache, src, srcProbe) == Ok(true) ==>
      v.1 == [CacheExists(src), CacheExists(dst)]
    ensures src != dst && Exists(cache, src, srcProbe) == Ok(true) && dstProbe.Unreachable? ==>
      v.0.Fail? && Untyped(v.0.error) && !Is(v.0.error, AccountNotFound)
    ensures src != dst && Exists(cache, src, srcProbe) == Ok(true) && Exists(cache, dst, dstProbe) == Ok(false) ==>
      v.0 == Fail(Sentinel(AccountNotFound))
  {
    if src == dst then (Fail(Sentinel(SameAccount)), [])
    else
      match Exists(cache, src, srcProbe)
      case Err(e) =>
        var w := Wrapped("failed to check source account cache", e);
        UntypedMatchesNothing(w, AccountNotFound);
        (Fail(w), [CacheExists(src)])
      case Ok(srcExists) =>
        if !srcExists then (Fail(Sentinel(AccountNotFound)), [CacheExists(src)])
        else
          match Exists(cache, dst, dstProbe)
          case Err(e) =>
            var w := Wrapped("failed to check destination account cache", e);
            UntypedMatchesNothing(w, AccountNotFound);
            (Fail(w), [CacheExists(src), CacheExists(dst)])
          case Ok(dstExists) =>
            if !dstExists then (Fail(Sentinel(AccountNotFound)), [CacheExists(src), CacheExists(dst)])
            else (Pass, [CacheExists(src), CacheExists(dst)])
  }

  /** What a call into the service leaves behind. */
  datatype Run = Run(db: Db, result: Result<TransferResult, Error>, calls: seq<Call>)

  /** TransferService.MakeTransfer: the engine runs, on the request as given,
      exactly when validation passes; its result or error comes back as is. */
  function MakeTransfer(ctx: Context, cache: Store, db: Db, req: TransferRequest,
                        srcProbe: Probe, dstProbe: Probe,
                        faults: set<TransferRepository.Step>, clock: int, show: real -> string): (r: Run)
    ensures var v := ValidateTransfer(cache, req.sourceId, req.destinationId, srcProbe, dstProbe);
      && (v.0.Fail? ==> r == Run(db, Err(v.0.error), v.1))
      && (v.0.Pass? ==> r.calls == v.1 + [RepoTransfer(req)])
    ensures RepoTransfer(req) in r.calls <==>
      ValidateTransfer(cache, req.sourceId, req.destinationId, srcProbe, dstProbe).0.Pass?
    ensures RepoTransfer(req) in r.calls ==>
      var a := TransferRepository.Transfer(ctx, db, req, faults, clock, show);
      r.db == a.db && r.result == a.result
  {
    var v := ValidateTransfer(cache, req.sourceId, req.destinationId, srcProbe, dstProbe);
    match v.0
    case Fail(e) => Run(db, Err(e), v.1)
    case Pass =>
      var a := TransferRepository.Transfer(ctx, db, req, faults, clock, show);
      Run(a.db, a.result, v.1 + [RepoTransfer(req)])
  }

  /** A self-transfer is refused before any cache or store call. */
  lemma SameAccountBeforeAnyCall(ctx: Context, cache: Store, db: Db, req: TransferRequest,
                                 srcProbe: Probe, dstProbe: Probe,
                                 faults: set<TransferRepository.Step>, clock: int, show: real -> string)
    requires req.sourceId == req.destinationId
    ensures MakeTransfer(ctx, cache, db, req, srcProbe, dstProbe, faults, clock, show) == Run(db, Err(Sentinel(SameAccount)), [])
  {
  }

  /** Cached balances never matter: two caches holding the same keys give the
      same run, whatever snapshots they hold. */
  lemma CacheBalancesIgnored(ctx: Context, c1: Store, c2: Store, db: Db, req: TransferRequest,
                             srcProbe: Probe, dstProbe: Probe,
                             faults: set<TransferRepository.Step>, clock: int, show: real -> string)
    requires c1.Keys == c2.Keys
    ensures MakeTransfer(ctx, c1, db, req, srcProbe, dstProbe, faults, clock, show) ==
            MakeTransfer(ctx, c2, db, req, srcProbe, dstProbe, faults, clock, show)
  {
  }
}
