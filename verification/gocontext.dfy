/** Go's per-call context.Context, reduced to the two things the core reads from
    it: values stored with context.WithValue, and the incoming gRPC metadata. */
module GoContext {
  import opened Results
  import opened Int64Text

  /** A WithValue key. Go compares keys by dynamic type and value, so two
      constants with the same text but different named types are different keys. */
  datatype ContextKey = ContextKey(typeName: string, name: string)

  datatype Value = Int64Value(i: Int64) | StringValue(s: string)

  /** gRPC metadata: lower-case keys to lists of values. */
  type Metadata = map<string, seq<string>>

  datatype Context = Context(values: map<ContextKey, Value>, incoming: Option<Metadata>)

  /** context.Background(). */
  const Background: Context := Context(map[], None)

  /** context.WithValue: the newest binding for a key shadows older ones. */
  function WithValue(ctx: Context, k: ContextKey, v: Value): (r: Context)
    ensures k in r.values && r.values[k] == v
    ensures r.incoming == ctx.incoming
    ensures forall k' :: k' != k ==> (k' in r.values <==> k' in ctx.values)
    ensures forall k' :: k' != k && k' in ctx.values ==> r.values[k'] == ctx.values[k']
  {
    ctx.(values := ctx.values[k := v])
  }

  /** `v, _ := ctx.Value(k).(int64)`: the stored int64, or 0 when the key is
      absent or holds a value of another type. */
  function Int64At(ctx: Context, k: ContextKey): (r: Int64)
    ensures k in ctx.values && ctx.values[k].Int64Value? ==> r == ctx.values[k].i
    ensures !(k in ctx.values && ctx.values[k].Int64Value?) ==> r == 0
  {
    if k in ctx.values && ctx.values[k].Int64Value? then ctx.values[k].i else 0
  }

  /** Reading back: the int64 just stored under a key is what the key reads,
      storing under another key leaves what a key reads unchanged, and a string
      stored under the key reads as 0. */
  lemma Int64AtAfterWithValue(ctx: Context, k: ContextKey, v: Int64, other: ContextKey, w: Value, t: string)
    ensures Int64At(WithValue(ctx, k, Int64Value(v)), k) == v
    ensures other != k ==> Int64At(WithValue(ctx, other, w), k) == Int64At(ctx, k)
    ensures Int64At(WithValue(ctx, k, StringValue(t)), k) == 0
    ensures !w.Int64Value? ==> Int64At(WithValue(ctx, k, w), k) == 0
  {
  }

  /** metadata.MD.Get: the values under a key, none when it is absent. */
  function MetadataGet(md: Metadata, key: string): seq<string> {
    if key in md then md[key] else []
  }
}
