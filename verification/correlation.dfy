/** Correlation-id propagation. The edge prints the id in base 10 into the
    outgoing call metadata; the core's interceptor parses it back and stores it
    in the call context under the interceptor package's own key type. */
module Correlation {
  import opened Results
  import opened Int64Text
  import opened GoContext
  import TransferRepository

  /** The interceptor's key. Its type differs from the repository's key type. */
  const CorrelationKey: ContextKey := ContextKey("interceptors.contextKey", "correlation_id")

  const MetadataKey: string := "correlation_id"

  /** The metadata the edge attaches to its outgoing call for a minted id. */
  function EdgeMetadata(id: Int64): Metadata {
    map[MetadataKey := [FormatInt(id)]]
  }

  /** The correlation_id values of the incoming metadata; none without metadata. */
  function IncomingIds(ctx: Context): seq<string> {
    match ctx.incoming
    case None => []
    case Some(md) => MetadataGet(md, MetadataKey)
  }

  /** The context the interceptor hands to the handler: the first metadata value,
      when it parses as an int64, stored under CorrelationKey; otherwise the
      context unchanged. Nothing is ever reported as an error. */
  function Recover(ctx: Context): (r: Context)
    ensures r.incoming == ctx.incoming
    ensures ctx.incoming.None? ==> r == ctx
    ensures forall k :: k != CorrelationKey ==> (k in r.values <==> k in ctx.values)
    ensures forall k :: k != CorrelationKey && k in ctx.values ==> r.values[k] == ctx.values[k]
    ensures r != ctx ==> CorrelationKey in r.values && r.values[CorrelationKey].Int64Value?
    ensures |IncomingIds(ctx)| > 0 && ParseInt(IncomingIds(ctx)[0]).Some? ==>
      r == WithValue(ctx, CorrelationKey, Int64Value(ParseInt(IncomingIds(ctx)[0]).value))
    ensures |IncomingIds(ctx)| > 0 && ParseInt(IncomingIds(ctx)[0]).Some? ==>
      Int64At(r, CorrelationKey) == ParseInt(IncomingIds(ctx)[0]).value
    ensures !(|IncomingIds(ctx)| > 0 && ParseInt(IncomingIds(ctx)[0]).Some?) ==> r == ctx
  {
    match ctx.incoming
    case None => ctx
    case Some(md) =>
      var ids := MetadataGet(md, MetadataKey);
      if |ids| == 0 then ctx
      else
        match ParseInt(ids[0])
        case None => ctx
        case Some(id) => WithValue(ctx, CorrelationKey, Int64Value(id))
  }

  /** UnaryCorrelationInterceptor: the handler runs once, on the recovered
      context, and its answer is the interceptor's answer. */
  function Intercept<Q, R>(ctx: Context, req: Q, handler: (Context, Q) -> R): R {
    handler(Recover(ctx), req)
  }

  /** The id the edge sent is the id the handler's context carries. */
  lemma RecoverEdgeId(values: map<ContextKey, Value>, id: Int64)
    ensures var ctx := Context(values, Some(EdgeMetadata(id)));
      Recover(ctx) == WithValue(ctx, CorrelationKey, Int64Value(id))
    ensures Int64At(Recover(Context(values, Some(EdgeMetadata(id)))), CorrelationKey) == id
  {
    ParseFormatInt(id);
  }

  /** An absent list, an empty list or an unparseable first value leaves the
      context as it was. */
  lemma UnusableMetadataIgnored(ctx: Context)
    requires ctx.incoming.Some?
    requires var ids := MetadataGet(ctx.incoming.value, MetadataKey); |ids| == 0 || ParseInt(ids[0]).None?
    ensures Recover(ctx) == ctx
  {
  }

  /** Only the first value counts: lists that agree on it recover the same id. */
  lemma OnlyFirstValueConsulted(values: map<ContextKey, Value>, md: Metadata, first: string, rest1: seq<string>, rest2: seq<string>)
    ensures var c1 := Recover(Context(values, Some(md[MetadataKey := [first] + rest1])));
      var c2 := Recover(Context(values, Some(md[MetadataKey := [first] + rest2])));
      c1.values == c2.values
  {
  }

  /** The interceptor and the repository use different keys, so the repository
      never sees the recovered id: unless something else stored one under its
      own key, it reads 0. */
  lemma RepositoryReadsZero(ctx: Context)
    requires TransferRepository.CorrelationKey !in ctx.values
    ensures CorrelationKey != TransferRepository.CorrelationKey
    ensures Int64At(Recover(ctx), TransferRepository.CorrelationKey) == 0
  {
  }
}
