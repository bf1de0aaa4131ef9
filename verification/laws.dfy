/**
 Properties that relate several commands, or a command to the state it
 leaves behind, all stated over `Engine.Execute` with the clock as an
 explicit argument.
 */
module Laws {
  import opened Wrappers
  import opened Text
  import Resp
  import Dict
  import opened Memory
  import opened Engine

  /** The command names `handle_client` recognises. */
  const Known: set<string> :=
    {"EXISTS", "DEL", "INCR", "DECR", "LPUSH", "RPUSH", "LRANGE", "SAVE", "SET", "GET", "TTL", "EXPIRE", "KEYS", "FLUSHDB"}

  /** Which command function `Execute` hands the swept store to, for the commands whose laws need it. */
  lemma RoutesTo(cmd: seq<string>, store: Store, now: real)
    requires Dict.Valid(store) && |cmd| > 0
    ensures cmd[0] == "EXPIRE" ==> Execute(cmd, store, now) == Expire(cmd[1..], Sweep(store, now), now)
    ensures cmd[0] == "TTL" ==> Execute(cmd, store, now) == Ttl(cmd[1..], Sweep(store, now), now)
    ensures cmd[0] == "INCR" ==> Execute(cmd, store, now) == Bump(cmd[1..], Sweep(store, now), 1)
    ensures cmd[0] == "DECR" ==> Execute(cmd, store, now) == Bump(cmd[1..], Sweep(store, now), -1)
  {
  }

  /**
   The sweep runs before anything else: an empty command raises after it,
   and an unknown name is answered with the unknown-command error and leaves
   exactly the swept store.
   */
  lemma UnknownCommandOnlySweeps(cmd: seq<string>, store: Store, now: real)
    requires Dict.Valid(store)
    ensures |cmd| == 0 ==> Execute(cmd, store, now) == Step(Fault, Sweep(store, now))
    ensures |cmd| > 0 && cmd[0] !in Known ==>
      Execute(cmd, store, now) == Step(Send(Resp.Encode(Resp.Err("ERR unknown command"))), Sweep(store, now))
  {
    assert Resp.Encode(Resp.Err("ERR unknown command")) == "-" + "ERR unknown command" + "\r\n" == UnknownCommand;
  }

  /** EXISTS replies 1 exactly when the key is present and its record has not passed its deadline. */
  lemma ExistsIffLive(key: string, store: Store, now: real)
    requires Dict.Valid(store)
    ensures var r := Execute(["EXISTS", key], store, now);
      && (r.reply == Send(Resp.Encode(Resp.Int(1))) <==> key in store.entries && !Expired(store.entries[key], now))
      && (r.reply == Send(Resp.Encode(Resp.Int(0))) <==> !(key in store.entries && !Expired(store.entries[key], now)))
      && r.store == Sweep(store, now)
  {
    Resp.EncodeSmallInts();
  }

  /**
   DEL replies with the number of distinct named keys that were live,
   removes all of them, and leaves every other key as it was.
   */
  lemma DelRemovesNamed(keys: seq<string>, store: Store, now: real)
    requires Dict.Valid(store)
    ensures var live := Sweep(store, now).entries;
      var r := Execute(["DEL"] + keys, store, now);
      && r.reply == Send(Resp.Encode(Resp.Int(|KeySet(keys) * live.Keys|)))
      && (forall k :: k in keys ==> k !in r.store.entries)
      && (forall k :: k !in keys ==> (k in r.store.entries <==> k in live))
      && (forall k :: k !in keys && k in live ==> r.store.entries[k] == live[k])
  {
    var cmd := ["DEL"] + keys;
    assert cmd[1..] == keys;
    var live := Sweep(store, now);
    var del := DelKeys(keys, live);
    assert Execute(cmd, store, now) == Step(Send(":" + ShowInt(del.0) + "\r\n"), del.1);
    assert del.1.entries == live.entries - KeySet(keys);
    forall k | k in keys
      ensures k in KeySet(keys)
    {
    }
  }

  /** DEL of keys none of which is live replies 0. */
  lemma DelAbsentIsZero(keys: seq<string>, store: Store, now: real)
    requires Dict.Valid(store)
    requires forall k :: k in keys ==> k !in Sweep(store, now).entries
    ensures Execute(["DEL"] + keys, store, now).reply == Send(Resp.Encode(Resp.Int(0)))
  {
    DelRemovesNamed(keys, store, now);
    assert KeySet(keys) * Sweep(store, now).entries.Keys == {};
  }

  /** FLUSHDB empties the store, and a second FLUSHDB, at any time, changes nothing. */
  lemma FlushDbIdempotent(store: Store, now: real, later: real)
    requires Dict.Valid(store)
    ensures Execute(["FLUSHDB"], store, now).store.entries == map[]
    ensures Execute(["FLUSHDB"], Execute(["FLUSHDB"], store, now).store, later) == Execute(["FLUSHDB"], store, now)
  {
  }

  /**
   After `SET key value [EX s | PX ms]`, a GET that comes before the
   deadline (or when there is none) replies with the value's bulk encoding.
   */
  lemma SetThenGet(key: string, value: string, opts: seq<string>, store: Store, now: real, later: real)
    requires Dict.Valid(store)
    requires SetDeadline(opts, now).Some?
    requires var d := SetDeadline(opts, now).value; d.None? || d.value == 0.0 || later <= d.value
    ensures var set1 := Execute(["SET", key, value] + opts, store, now);
      && set1.reply == Send("+OK\r\n")
      && Execute(["GET", key], set1.store, later).reply == Send(Resp.Encode(Resp.Str(value)))
  {
    var cmd := ["SET", key, value] + opts;
    assert cmd[1..][2..] == opts;
    var set1 := Execute(cmd, store, now);
    assert set1.store.entries[key] == Rec(StrVal(value), SetDeadline(opts, now).value);
  }

  /**
   Once the deadline of `SET key value EX n` has passed, GET replies None and
   EXISTS replies 0.
   */
  lemma SetExThenExpired(key: string, value: string, n: int, store: Store, now: real, later: real)
    requires Dict.Valid(store)
    requires now + n as real != 0.0 && later > now + n as real
    ensures var set1 := Execute(["SET", key, value, "EX", ShowInt(n)], store, now);
      && Execute(["GET", key], set1.store, later).reply == Send(Resp.Encode(Resp.Nil))
      && Execute(["EXISTS", key], set1.store, later).reply == Send(Resp.Encode(Resp.Int(0)))
  {
    SetExStores(key, value, n, store, now);
    var set1 := Execute(["SET", key, value, "EX", ShowInt(n)], store, now);
    ExistsIffLive(key, set1.store, later);
  }

  /** `SET key value EX n` stores the value with deadline `now + n`. */
  lemma SetExStores(key: string, value: string, n: int, store: Store, now: real)
    requires Dict.Valid(store)
    ensures var set1 := Execute(["SET", key, value, "EX", ShowInt(n)], store, now);
      && Dict.Valid(set1.store)
      && key in set1.store.entries
      && set1.store.entries[key] == Rec(StrVal(value), Some(now + n as real))
  {
    ReadShowInt(n);
    var cmd := ["SET", key, value, "EX", ShowInt(n)];
    assert cmd[1..][2..] == ["EX", ShowInt(n)];
  }

  /**
   `EXPIRE key t` on a live key followed, at the same moment, by `TTL key`
   reports `t` for any positive `t`.
   */
  lemma ExpireThenTtl(key: string, t: int, store: Store, now: real)
    requires Dict.Valid(store)
    requires key in Sweep(store, now).entries
    requires t > 0 && now + t as real != 0.0
    ensures var exp := Execute(["EXPIRE", key, ShowInt(t)], store, now);
      && exp.reply == Send(Resp.Encode(Resp.Int(1)))
      && Execute(["TTL", key], exp.store, now).reply == Send(Resp.Encode(Resp.Int(t)))
  {
    var live := Sweep(store, now);
    RoutesTo(["EXPIRE", key, ShowInt(t)], store, now);
    assert ["EXPIRE", key, ShowInt(t)][1..] == [key, ShowInt(t)];
    ExpireSetsDeadline(key, t, live, now);
    var exp := Execute(["EXPIRE", key, ShowInt(t)], store, now);
    TtlOfFreshDeadline(key, t, exp.store, now);
  }

  lemma ExpireSetsDeadline(key: string, t: int, live: Store, now: real)
    requires key in live.entries
    ensures var r := Expire([key, ShowInt(t)], live, now);
      && r.reply == Send(Resp.Encode(Resp.Int(1)))
      && key in r.store.entries
      && r.store.entries[key] == Rec(Held(live.entries[key]), Some(now + t as real))
      && (Dict.Valid(live) ==> Dict.Valid(r.store))
  {
    ReadShowInt(t);
  }

  lemma TtlOfFreshDeadline(key: string, t: int, s: Store, now: real)
    requires Dict.Valid(s)
    requires key in s.entries && s.entries[key].Rec? && s.entries[key].expiry == Some(now + t as real)
    requires t > 0 && now + t as real != 0.0
    ensures Execute(["TTL", key], s, now).reply == Send(Resp.Encode(Resp.Int(t)))
  {
    RoutesTo(["TTL", key], s, now);
    assert ["TTL", key][1..] == [key];
    var live := Sweep(s, now);
    assert key in live.entries && live.entries[key] == s.entries[key];
    assert (now + t as real) - now == t as real;
    assert (t as real).Floor == t;
  }

  /** EXPIRE on a key that is not live replies 0 and changes nothing but the sweep. */
  lemma ExpireAbsent(key: string, t: int, store: Store, now: real)
    requires Dict.Valid(store)
    requires key !in Sweep(store, now).entries
    ensures Execute(["EXPIRE", key, ShowInt(t)], store, now) == Step(Send(Resp.Encode(Resp.Int(0))), Sweep(store, now))
  {
    ReadShowInt(t);
  }

  /**
   DECR undoes INCR on a key holding a bare integer; on any other key the
   pair leaves the bare integer 0.
   */
  lemma DecrUndoesIncr(key: string, store: Store, now: real)
    requires Dict.Valid(store)
    ensures var live := Sweep(store, now);
      var incr := Execute(["INCR", key], store, now);
      var decr := Execute(["DECR", key], incr.store, now);
      && decr.store.entries[key] == (if key in live.entries && live.entries[key].Num? then live.entries[key] else Num(0))
      && forall k :: k != key ==> (k in decr.store.entries <==> k in live.entries)
  {
    BumpEntries("INCR", key, store, now, 1);
    var incr := Execute(["INCR", key], store, now);
    IncrLeavesNothingExpired(key, store, now);
    BumpEntries("DECR", key, incr.store, now, -1);
  }

  /** A sweep right after INCR, at the same moment, finds nothing to remove. */
  lemma IncrLeavesNothingExpired(key: string, store: Store, now: real)
    requires Dict.Valid(store)
    ensures var incr := Execute(["INCR", key], store, now);
      Dict.Valid(incr.store) && Sweep(incr.store, now).entries == incr.store.entries
  {
    BumpEntries("INCR", key, store, now, 1);
    SweepLeavesNoExpired(store, now);
  }

  /** The store INCR (`delta` 1) or DECR (`delta` -1) leaves: the swept store with the key set to the bumped integer. */
  lemma BumpEntries(name: string, key: string, store: Store, now: real, delta: int)
    requires Dict.Valid(store)
    requires (name == "INCR" && delta == 1) || (name == "DECR" && delta == -1)
    ensures var live := Sweep(store, now);
      var v := if key in live.entries && live.entries[key].Num? then live.entries[key].n + delta else delta;
      Execute([name, key], store, now).store.entries == live.entries[key := Num(v)]
  {
    RoutesTo([name, key], store, now);
    assert [name, key][1..] == [key];
  }

  /** INCR does not type-check: a string set by SET is replaced by the integer 1. */
  lemma IncrOverwritesString(key: string, value: string, store: Store, now: real)
    requires Dict.Valid(store)
    ensures var set1 := Execute(["SET", key, value], store, now);
      var incr := Execute(["INCR", key], set1.store, now);
      && incr.reply == Send(Resp.Encode(Resp.Int(1)))
      && incr.store.entries[key] == Num(1)
  {
    var set1 := Execute(["SET", key, value], store, now);
    assert ["SET", key, value][1..][2..] == [];
    assert set1.store.entries[key] == Rec(StrVal(value), None);
  }

  /** On a missing key, LPUSH builds the reverse of the list RPUSH builds from the same values. */
  lemma LpushReversesRpush(key: string, vals: seq<string>, store: Store, now: real)
    requires Dict.Valid(store)
    requires key !in Sweep(store, now).entries
    ensures var l := Execute(["LPUSH", key] + vals, store, now);
      var r := Execute(["RPUSH", key] + vals, store, now);
      && l.store.entries[key] == Lst(Reversed(r.store.entries[key].items))
      && l.reply == r.reply
      && r.store.entries[key] == Lst(vals)
  {
    assert (["LPUSH", key] + vals)[1..] == [key] + vals;
    assert ([key] + vals)[1..] == vals;
    assert (["RPUSH", key] + vals)[1..] == [key] + vals;
    var l := Execute(["LPUSH", key] + vals, store, now);
    var lst := l.store.entries[key].items;
    assert lst == Reversed(vals) by {
      assert lst[|vals|..] == [];
    }
  }

  /** LPUSH or RPUSH on a key holding anything but a list sends nothing and changes nothing but the sweep. */
  lemma PushOnNonListIsSilent(cmd: seq<string>, store: Store, now: real)
    requires Dict.Valid(store)
    requires |cmd| >= 2 && (cmd[0] == "LPUSH" || cmd[0] == "RPUSH")
    requires cmd[1] in Sweep(store, now).entries && !Sweep(store, now).entries[cmd[1]].Lst?
    ensures Execute(cmd, store, now) == Step(Silent, Sweep(store, now))
  {
  }

  /** With one clock, GET never meets a record the sweep left behind, so its own expiry branch never fires. */
  lemma GetAfterSweepKeepsStore(args: seq<string>, store: Store, now: real)
    ensures Get(args, Sweep(store, now), now).store == Sweep(store, now)
  {
  }

  /**
   KEYS lists every live key once, in insertion order, as an array of bulk
   strings: the keys it lists are those of the store minus the expired ones,
   in the order the store had them.
   */
  lemma KeysListsLiveKeys(store: Store, now: real)
    requires Dict.Valid(store)
    ensures var live := Sweep(store, now);
      var r := Execute(["KEYS"], store, now);
      && r.store == live
      && r.reply == Send(Resp.Encode(Resp.Arr(Strs(live.order))))
      && |live.order| == |live.entries|
      && (forall k :: k in live.order <==> k in store.entries && !Expired(store.entries[k], now))
      && Dict.Distinct(live.order)
      && Dict.KeepsOrder(live.order, store.order)
  {
    Dict.FilterKeepsOrder(store.order, set k | k in store.entries && !Expired(store.entries[k], now));
  }

  /**
   LRANGE on in-range indices is Redis's inclusive range: `start` through
   `end`, with a negative `end` counted from the back.
   */
  lemma RangeWithinBounds(xs: seq<string>, start: int, end: int)
    requires 0 <= start
    requires -|xs| <= end < |xs|
    ensures var last := if end < 0 then |xs| + end else end;
      RangeOf(xs, start, end) == if start <= last then xs[start..last + 1] else []
  {
  }

  /**
   The Python slice at the end wraps an end index that is still negative:
   for `end` between `-2L - 1` and `-L - 2` on a list of length L, a
   non-positive `start` returns the first `2L + end + 1` elements instead of
   nothing.
   */
  lemma RangeNegativeEndWraps(xs: seq<string>, start: int, end: int)
    requires start <= 0
    requires -2 * |xs| - 1 <= end < -|xs| - 1
    ensures RangeOf(xs, start, end) == xs[..2 * |xs| + end + 1]
  {
  }

  /**
   LRANGE over every pair of bounds, in closed form.  The result is the
   run from the clamped start `lo` up to `hi`, where `hi` is the inclusive
   end capped at L for `end >= 0`, counts from the back for `-L-1 <= end < 0`,
   wraps once more in the slice for `-2L-1 <= end < -L-1`, and is 0 below that.
   */
  lemma RangeClosedForm(xs: seq<string>, start: int, end: int)
    ensures var len := |xs|;
      var lo := if start < 0 then 0 else start;
      var hi :=
        if end >= len then len
        else if end >= 0 then end + 1
        else if end >= -len - 1 then len + end + 1
        else if end >= -2 * len - 1 then 2 * len + end + 1
        else 0;
      RangeOf(xs, start, end) == if lo < hi then xs[lo..hi] else []
  {
  }

  /** A negative start counts as 0, and any end at or past the last index counts as the last index. */
  lemma RangeClamps(xs: seq<string>, start: int, end: int)
    ensures start < 0 ==> RangeOf(xs, start, end) == RangeOf(xs, 0, end)
    ensures end >= |xs| ==> RangeOf(xs, start, end) == RangeOf(xs, start, |xs| - 1)
    ensures end < -2 * |xs| - 1 ==> RangeOf(xs, start, end) == []
  {
    RangeClosedForm(xs, start, end);
    RangeClosedForm(xs, 0, end);
    RangeClosedForm(xs, start, |xs| - 1);
  }

  /** The boundary cases on a five-element list, including the wrap (`0 -7` gives four elements). */
  lemma RangeExamples(xs: seq<string>)
    requires |xs| == 5
    ensures RangeOf(xs, 1, -1) == xs[1..]
    ensures RangeOf(xs, -100, 100) == xs
    ensures RangeOf(xs, 10, 20) == []
    ensures RangeOf(xs, 0, -7) == xs[..4]
  {
    RangeWithinBounds(xs, 1, -1);
    RangeNegativeEndWraps(xs, 0, -7);
  }

  /** LRANGE on a missing key replies with the empty array. */
  lemma RangeOfMissingKey(key: string, a: int, b: int, store: Store, now: real)
    requires Dict.Valid(store)
    requires key !in Sweep(store, now).entries
    ensures Execute(["LRANGE", key, ShowInt(a), ShowInt(b)], store, now).reply == Send("*0\r\n")
  {
    ReadShowInt(a);
    ReadShowInt(b);
    Resp.EncodeSmallInts();
  }
}
