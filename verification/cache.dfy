/** The Redis existence cache: one key per account, "account:<id>", holding a
    snapshot of the account, written without expiry. Each round trip to the
    server may fail; the Probe and Write oracles say how one went. */
module AccountCache {
  import opened Results
  import opened Int64Text
  import opened Constants
  import opened Models

  /** Key space of the cache. Entries never expire. */
  type Store = map<string, Account>

  /** fmt.Sprintf("account:%d", id), shared by SetAccount and Exists. */
  function KeyFor(id: Int64): string {
    "account:" + FormatInt(id)
  }

  /** Different ids never share a key. */
  lemma KeyForInjective(a: Int64, b: Int64)
    requires KeyFor(a) == KeyFor(b)
    ensures a == b
  {
    assert KeyFor(a)[8..] == FormatInt(a);
    assert KeyFor(b)[8..] == FormatInt(b);
    FormatIntInjective(a, b);
  }

  /** How one EXISTS round trip goes. */
  datatype Probe = Reachable | Unreachable(text: string)

  /** How one SET goes: it can fail to marshal the account or at the server. */
  datatype Write = Stored | MarshalFails(text: string) | SetFails(text: string)

  /** AccountCache.Exists: the key count is positive; a client failure is
      wrapped and is then no sentinel. */
  function Exists(c: Store, id: Int64, p: Probe): (r: Result<bool, Error>)
    ensures r.Ok? <==> p.Reachable?
    ensures r.Ok? ==> (r.value <==> KeyFor(id) in c)
    ensures r.Err? ==> r.error == Wrapped("failed to check existence", Foreign(p.text)) && Untyped(r.error)
  {
    match p
    case Reachable => Ok(KeyFor(id) in c)
    case Unreachable(t) => Err(Wrapped("failed to check existence", Foreign(t)))
  }

  /** AccountCache.SetAccount: an upsert with no expiry. A marshal failure
      returns before anything is written; a server failure is wrapped with the
      key. */
  function SetAccount(c: Store, acc: Account, w: Write): (r: (Store, Outcome<Error>))
    ensures w.Stored? <==> r.1.Pass?
    ensures w.Stored? ==> KeyFor(acc.id) in r.0 && r.0[KeyFor(acc.id)] == acc
    ensures w.Stored? ==> r.0.Keys == c.Keys + {KeyFor(acc.id)}
    ensures w.Stored? ==> forall k :: k in c && k != KeyFor(acc.id) ==> r.0[k] == c[k]
    ensures !w.Stored? ==> r.0 == c && Untyped(r.1.error)
    ensures w.MarshalFails? ==> r.1.error == Wrapped("failed to marshal account", Foreign(w.text))
    ensures w.SetFails? ==> r.1.error == Wrapped("failed to set key " + KeyFor(acc.id), Foreign(w.text))
  {
    match w
    case MarshalFails(t) => (c, Fail(Wrapped("failed to marshal account", Foreign(t))))
    case SetFails(t) => (c, Fail(Wrapped("failed to set key " + KeyFor(acc.id), Foreign(t))))
    case Stored => (c[KeyFor(acc.id) := acc], Pass)
  }

  /** After a stored write the account exists for every later reachable probe. */
  lemma SetThenExists(c: Store, acc: Account)
    ensures Exists(SetAccount(c, acc, Stored).0, acc.id, Reachable) == Ok(true)
  {
  }

  /** The last of two stored writes for one id is what the cache holds. */
  lemma SetLastWriteWins(c: Store, a: Account, b: Account)
    requires a.id == b.id
    ensures var c' := SetAccount(SetAccount(c, a, Stored).0, b, Stored).0;
            c' == SetAccount(c, b, Stored).0 && c'[KeyFor(a.id)] == b
  {
  }

  /** A write for one id never changes what Exists answers for another. */
  lemma SetLeavesOtherIdsAlone(c: Store, acc: Account, w: Write, other: Int64, p: Probe)
    requires other != acc.id
    ensures Exists(SetAccount(c, acc, w).0, other, p) == Exists(c, other, p)
  {
    if KeyFor(other) == KeyFor(acc.id) {
      KeyForInjective(other, acc.id);
    }
  }
}
