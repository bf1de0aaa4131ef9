/**
 The server's global `memory` dict and `cleanup_expired_keys`.  A key holds
 one of three shapes: a bare integer (written by INCR/DECR), a bare list
 (written by LPUSH/RPUSH) or a record `{"value": ..., "expiry_time": ...}`
 (written by SET, or by EXPIRE wrapping a bare integer or list).
 */
module Memory {
  import opened Wrappers
  import Dict

  /** What a record holds under "value": a SET string, or the bare int or list EXPIRE wrapped. */
  datatype Payload = StrVal(s: string) | IntVal(n: int) | ListVal(items: seq<string>)

  datatype Entry =
    | Num(n: int)
    | Lst(items: seq<string>)
    | Rec(value: Payload, expiry: Option<real>)

  type Store = Dict.Dict<Entry>

  /** `value["expiry_time"]` is truthy: the record has a deadline that is neither None nor 0. */
  predicate HasDeadline(e: Entry) {
    e.Rec? && e.expiry.Some? && e.expiry.value != 0.0
  }

  /** The test the sweep (and GET) apply: a record whose truthy deadline lies strictly before `now`. */
  predicate Expired(e: Entry, now: real) {
    HasDeadline(e) && e.expiry.value < now
  }

  /** `cleanup_expired_keys` run at time `now`. */
  function Sweep(store: Store, now: real): (r: Store)
    ensures forall k :: k in r.entries <==> k in store.entries && !Expired(store.entries[k], now)
    ensures forall k :: k in r.entries ==> r.entries[k] == store.entries[k]
    ensures Dict.Valid(store) ==> Dict.Valid(r)
  {
    Dict.Restrict(store, set k | k in store.entries && !Expired(store.entries[k], now))
  }

  /** After a sweep no record with a truthy deadline before `now` remains. */
  lemma SweepLeavesNoExpired(store: Store, now: real)
    ensures forall k :: k in Sweep(store, now).entries ==> !Expired(Sweep(store, now).entries[k], now)
  {
  }

  /** A second sweep at the same time removes nothing more. */
  lemma SweepIdempotent(store: Store, now: real)
    ensures Sweep(Sweep(store, now), now).entries == Sweep(store, now).entries
  {
  }

  /** Sweeping at a later time removes at least what an earlier sweep removed. */
  lemma SweepMonotone(store: Store, t1: real, t2: real)
    requires t1 <= t2
    ensures Sweep(store, t2).entries.Keys <= Sweep(store, t1).entries.Keys
  {
  }
}
