/**
 The command dispatch of `handle_client` as a pure step: sweep expired keys,
 then act on the command named by the first word (compared exactly, case
 and all).  Replies are the literal text the server writes; each contract
 states it as the codec's encoding of the value it stands for.
 */
module Engine {
  import opened Wrappers
  import opened Text
  import Resp
  import Dict
  import opened Memory

  /**
   What the server does after a command: write `text`; write nothing and
   read on (the LPUSH/RPUSH `continue`); raise, which ends the connection;
   or hand the store to the snapshot writer (SAVE), whose reply is its own.
   */
  datatype Reply = Send(text: string) | Silent | Fault | Persist

  datatype Step = Step(reply: Reply, store: Store)

  /** A list of strings as the codec's values. */
  function Strs(xs: seq<string>): (r: seq<Resp.Value>)
    ensures |r| == |xs| && forall i :: 0 <= i < |xs| ==> r[i] == Resp.Str(xs[i])
  {
    seq(|xs|, i requires 0 <= i < |xs| => Resp.Str(xs[i]))
  }

  /** `"".join(f"${len(x)}\r\n{x}\r\n" for x in xs)`, as LRANGE and KEYS build it. */
  function BulkLines(xs: seq<string>): string
    decreases |xs|
  {
    if |xs| == 0 then "" else "$" + ShowInt(|xs[0]|) + "\r\n" + xs[0] + "\r\n" + BulkLines(xs[1..])
  }

  /** The hand-built bulk lines are exactly the codec's encoding of the strings. */
  lemma {:induction false} BulkLinesEncode(xs: seq<string>)
    ensures BulkLines(xs) == Resp.EncodeAll(Strs(xs))
    decreases |xs|
  {
    if |xs| > 0 {
      BulkLinesEncode(xs[1..]);
      assert Strs(xs)[1..] == Strs(xs[1..]);
    }
  }

  /** The array reply LRANGE builds by hand: the count, then the bulk lines; it is the codec's encoding of the strings. */
  function BulkArray(xs: seq<string>): (r: string)
    ensures r == Resp.Encode(Resp.Arr(Strs(xs)))
  {
    BulkLinesEncode(xs);
    "*" + ShowInt(|xs|) + "\r\n" + BulkLines(xs)
  }

  /** `list(reversed(xs))`. */
  function Reversed(xs: seq<string>): (r: seq<string>)
    ensures |r| == |xs|
    ensures forall i :: 0 <= i < |xs| ==> r[i] == xs[|xs| - 1 - i]
    decreases |xs|
  {
    if |xs| == 0 then [] else Reversed(xs[1..]) + [xs[0]]
  }

  /** EXISTS key: 1 when the key survived the sweep, else 0. */
  function Exists(args: seq<string>, s: Store): (r: Step)
    ensures r.store == s
    ensures |args| == 0 ==> r.reply == Fault
    ensures |args| > 0 ==> r.reply == Send(Resp.Encode(Resp.Int(if args[0] in s.entries then 1 else 0)))
  {
    if |args| == 0 then Step(Fault, s)
    else Step(Send(":" + ShowInt(if args[0] in s.entries then 1 else 0) + "\r\n"), s)
  }

  /** The keys of `keys`, as a set. */
  function KeySet(keys: seq<string>): set<string> {
    set k | k in keys
  }

  /**
   DEL's generator: pop each named key in turn, counting the pops that found
   a value.  The count is the number of distinct named keys that were present.
   */
  function DelKeys(keys: seq<string>, s: Store): (r: (nat, Store))
    ensures r.1.entries == s.entries - KeySet(keys)
    ensures r.0 == |KeySet(keys) * s.entries.Keys|
    ensures Dict.Valid(s) ==> Dict.Valid(r.1)
    decreases |keys|
  {
    if |keys| == 0 then (0, s)
    else
      var popped := if keys[0] in s.entries then 1 else 0;
      var rest := DelKeys(keys[1..], Dict.Remove(s, keys[0]));
      DelStep(keys, s, rest);
      (popped + rest.0, rest.1)
  }

  /** One pop of DEL: removing the first key and then the others removes them all, and the counts add up. */
  lemma DelStep(keys: seq<string>, s: Store, rest: (nat, Store))
    requires |keys| > 0
    requires rest.1.entries == (s.entries - {keys[0]}) - KeySet(keys[1..])
    requires rest.0 == |KeySet(keys[1..]) * (s.entries - {keys[0]}).Keys|
    ensures rest.1.entries == s.entries - KeySet(keys)
    ensures (if keys[0] in s.entries then 1 else 0) + rest.0 == |KeySet(keys) * s.entries.Keys|
  {
    var present := s.entries.Keys;
    DelCountStep(keys, present);
    assert (s.entries - {keys[0]}).Keys == present - {keys[0]};
    assert rest.1.entries == s.entries - KeySet(keys) by {
      var lhs := (s.entries - {keys[0]}) - KeySet(keys[1..]);
      assert lhs.Keys == (s.entries - KeySet(keys)).Keys;
    }
  }

  lemma DelCountStep(keys: seq<string>, present: set<string>)
    requires |keys| > 0
    ensures KeySet(keys) == KeySet(keys[1..]) + {keys[0]}
    ensures |KeySet(keys) * present| == |KeySet(keys[1..]) * (present - {keys[0]})| + (if keys[0] in present then 1 else 0)
  {
    var here := KeySet(keys) * present;
    var later := KeySet(keys[1..]) * (present - {keys[0]});
    assert KeySet(keys) == KeySet(keys[1..]) + {keys[0]} by {
      forall k | k in KeySet(keys)
        ensures k in KeySet(keys[1..]) + {keys[0]}
      {
        var i :| 0 <= i < |keys| && keys[i] == k;
        if i > 0 {
          assert keys[1..][i - 1] == k;
        }
      }
    }
    if keys[0] in present {
      assert here == later + {keys[0]};
    } else {
      assert here == later;
    }
  }

  /** INCR (`delta` 1) and DECR (`delta` -1): anything but a bare integer is overwritten with `delta`. */
  function Bump(args: seq<string>, s: Store, delta: int): (r: Step)
    requires delta == 1 || delta == -1
    ensures |args| == 0 ==> r == Step(Fault, s)
    ensures |args| > 0 ==>
      var key := args[0];
      var v := if key in s.entries && s.entries[key].Num? then s.entries[key].n + delta else delta;
      && r.reply == Send(Resp.Encode(Resp.Int(v)))
      && r.store.entries == s.entries[key := Num(v)]
    ensures Dict.Valid(s) ==> Dict.Valid(r.store)
  {
    if |args| == 0 then Step(Fault, s)
    else
      var key := args[0];
      var v := if key in s.entries && s.entries[key].Num? then s.entries[key].n + delta else delta;
      Step(Send(":" + ShowInt(v) + "\r\n"), Dict.Put(s, key, Num(v)))
  }

  /**
   LPUSH (`front`) and RPUSH: an absent key starts as the empty list; any
   non-list value is left alone and nothing is sent.
   */
  function Push(args: seq<string>, s: Store, front: bool): (r: Step)
    ensures |args| == 0 ==> r == Step(Fault, s)
    ensures |args| > 0 && args[0] in s.entries && !s.entries[args[0]].Lst? ==> r == Step(Silent, s)
    ensures |args| > 0 && (args[0] !in s.entries || s.entries[args[0]].Lst?) ==>
      var prior := if args[0] in s.entries then s.entries[args[0]].items else [];
      var vals := args[1..];
      && r.store.entries.Keys == s.entries.Keys + {args[0]}
      && r.store.entries == s.entries[args[0] := r.store.entries[args[0]]]
      && r.store.entries[args[0]].Lst?
      && var pushed := r.store.entries[args[0]].items;
      && |pushed| == |prior| + |vals|
      && r.reply == Send(Resp.Encode(Resp.Int(|pushed|)))
      && (front ==> pushed[|vals|..] == prior && forall i :: 0 <= i < |vals| ==> pushed[i] == vals[|vals| - 1 - i])
      && (!front ==> pushed[..|prior|] == prior && pushed[|prior|..] == vals)
    ensures Dict.Valid(s) ==> Dict.Valid(r.store)
  {
    if |args| == 0 then Step(Fault, s)
    else
      var key := args[0];
      var vals := args[1..];
      if key in s.entries && !s.entries[key].Lst? then Step(Silent, s)
      else
        var prior := if key in s.entries then s.entries[key].items else [];
        var pushed := if front then Reversed(vals) + prior else prior + vals;
        Step(Send(":" + ShowInt(|pushed|) + "\r\n"), Dict.Put(s, key, Lst(pushed)))
  }

  /**
   The elements LRANGE returns: a negative `end` counts from the back, the
   end is made inclusive and capped at the length, a negative `start` becomes
   0, and the pair is then used as a Python slice, which wraps a still
   negative end once more.
   */
  function RangeOf(xs: seq<string>, start: int, end: int): (r: seq<string>)
    ensures |r| <= |xs|
    ensures var lo := if start < 0 then 0 else if start > |xs| then |xs| else start;
      lo + |r| <= |xs| && r == xs[lo..lo + |r|]
    ensures start >= |xs| ==> r == []
  {
    var len := |xs|;
    var last := if end < 0 then len + end else end;
    var stop := if last + 1 < len then last + 1 else len;
    var first := if start < 0 then 0 else start;
    Slice(xs, first, stop)
  }

  /** LRANGE key start end: both bounds are parsed first; a missing or non-list key gives the empty array. */
  function Lrange(args: seq<string>, s: Store): (r: Step)
    ensures r.store == s
    ensures |args| < 3 || ReadInt(args[1]).None? || ReadInt(args[2]).None? ==> r.reply == Fault
    ensures |args| >= 3 && ReadInt(args[1]).Some? && ReadInt(args[2]).Some? ==>
      var found := if args[0] in s.entries && s.entries[args[0]].Lst?
        then RangeOf(s.entries[args[0]].items, ReadInt(args[1]).value, ReadInt(args[2]).value)
        else [];
      r.reply == Send(Resp.Encode(Resp.Arr(Strs(found))))
  {
    if |args| < 3 then Step(Fault, s)
    else
      match (ReadInt(args[1]), ReadInt(args[2]))
      case (Some(start), Some(end)) =>
        var key := args[0];
        if key in s.entries && s.entries[key].Lst? then
          var found := RangeOf(s.entries[key].items, start, end);
          Step(Send(BulkArray(found)), s)
        else
          Step(Send("*0\r\n"), s)
      case _ => Step(Fault, s)
  }

  /**
   The deadline SET's options give: `EX n` is `now + n`, `PX n` is
   `now + n/1000`, any other word (or none) means no deadline.  `None` is a
   missing or unparsable count, which raises.
   */
  function SetDeadline(opts: seq<string>, now: real): (r: Option<Option<real>>)
    ensures |opts| == 0 ==> r == Some(None)
    ensures |opts| > 0 && opts[0] != "EX" && opts[0] != "PX" ==> r == Some(None)
    ensures |opts| > 0 && opts[0] == "EX" && |opts| > 1 && ReadInt(opts[1]).Some? ==>
      r == Some(Some(now + ReadInt(opts[1]).value as real))
    ensures |opts| > 0 && opts[0] == "PX" && |opts| > 1 && ReadInt(opts[1]).Some? ==>
      r == Some(Some(now + ReadInt(opts[1]).value as real / 1000.0))
    ensures r.None? <==> |opts| > 0 && (opts[0] == "EX" || opts[0] == "PX") && (|opts| < 2 || ReadInt(opts[1]).None?)
  {
    if |opts| == 0 || (opts[0] != "EX" && opts[0] != "PX") then Some(None)
    else if |opts| < 2 then None
    else
      match ReadInt(opts[1])
      case None => None
      case Some(n) => Some(Some(if opts[0] == "EX" then now + n as real else now + n as real / 1000.0))
  }

  /** SET key value [EX s | PX ms]: store a record holding the string, reply `+OK`. */
  function Set(args: seq<string>, s: Store, now: real): (r: Step)
    ensures |args| < 2 ==> r == Step(Fault, s)
    ensures |args| >= 2 && SetDeadline(args[2..], now).None? ==> r == Step(Fault, s)
    ensures |args| >= 2 && SetDeadline(args[2..], now).Some? ==>
      && r.reply == Send("+OK\r\n")
      && r.store.entries == s.entries[args[0] := Rec(StrVal(args[1]), SetDeadline(args[2..], now).value)]
    ensures Dict.Valid(s) ==> Dict.Valid(r.store)
  {
    if |args| < 2 then Step(Fault, s)
    else
      match SetDeadline(args[2..], now)
      case None => Step(Fault, s)
      case Some(deadline) => Step(Send("+OK\r\n"), Dict.Put(s, args[0], Rec(StrVal(args[1]), deadline)))
  }

  /**
   GET key: an expired record is deleted and reads as None; a record's
   "value" is written as a bulk string of its length.  A string gives its
   bulk encoding; a wrapped list gives its item count and its Python repr;
   a bare value or a wrapped integer has no `len(item['value'])` and raises.
   */
  function Get(args: seq<string>, s: Store, now: real): (r: Step)
    ensures |args| == 0 ==> r == Step(Fault, s)
    ensures |args| > 0 && args[0] !in s.entries ==> r == Step(Send(Resp.Encode(Resp.Nil)), s)
    ensures |args| > 0 && args[0] in s.entries && Expired(s.entries[args[0]], now) ==>
      r.reply == Send(Resp.Encode(Resp.Nil)) && r.store.entries == s.entries - {args[0]}
    ensures |args| > 0 && args[0] in s.entries && !Expired(s.entries[args[0]], now) ==>
      var e := s.entries[args[0]];
      && r.store == s
      && (e.Rec? && e.value.StrVal? ==> r.reply == Send(Resp.Encode(Resp.Str(e.value.s))))
      && (e.Rec? && e.value.ListVal? ==>
            r.reply == Send("$" + ShowInt(|e.value.items|) + "\r\n" + ReprList(e.value.items) + "\r\n"))
      && (!e.Rec? || e.value.IntVal? ==> r.reply == Fault)
    ensures Dict.Valid(s) ==> Dict.Valid(r.store)
  {
    if |args| == 0 then Step(Fault, s)
    else
      var key := args[0];
      if key !in s.entries then Step(Send("$-1\r\n"), s)
      else
        var e := s.entries[key];
        if Expired(e, now) then Step(Send("$-1\r\n"), Dict.Remove(s, key))
        else if !e.Rec? then Step(Fault, s)
        else
          match e.value
          case StrVal(v) => Step(Send("$" + ShowInt(|v|) + "\r\n" + v + "\r\n"), s)
          case IntVal(_) => Step(Fault, s)
          case ListVal(xs) => Step(Send("$" + ShowInt(|xs|) + "\r\n" + ReprList(xs) + "\r\n"), s)
  }

  /** Python's `int(x)` on a float: truncation toward zero. */
  function Trunc(x: real): (r: int)
    ensures x >= 0.0 ==> r as real <= x < r as real + 1.0
    ensures x < 0.0 ==> r as real - 1.0 < x <= r as real
  {
    if x >= 0.0 then x.Floor else -((-x).Floor)
  }

  /**
   TTL key: -2 for a missing key, -1 without a truthy deadline, otherwise the
   whole seconds left when positive and -1 when not.  It never reports 0.
   */
  function Ttl(args: seq<string>, s: Store, now: real): (r: Step)
    ensures r.store == s
    ensures |args| == 0 <==> r.reply == Fault
    ensures |args| > 0 ==> exists v {:trigger ShowInt(v)} :: r.reply == Send(Resp.Encode(Resp.Int(v))) && (v == -2 || v == -1 || v > 0)
    ensures |args| > 0 && args[0] !in s.entries ==> r.reply == Send(Resp.Encode(Resp.Int(-2)))
    ensures |args| > 0 && args[0] in s.entries && !HasDeadline(s.entries[args[0]]) ==>
      r.reply == Send(Resp.Encode(Resp.Int(-1)))
    ensures |args| > 0 && args[0] in s.entries && HasDeadline(s.entries[args[0]]) ==>
      var left := s.entries[args[0]].expiry.value - now;
      r.reply == Send(Resp.Encode(Resp.Int(if left >= 1.0 then left.Floor else -1)))
  {
    if |args| == 0 then Step(Fault, s)
    else
      var key := args[0];
      if key !in s.entries then Step(Send(":" + ShowInt(-2) + "\r\n"), s)
      else if HasDeadline(s.entries[key]) then
        var remaining := Trunc(s.entries[key].expiry.value - now);
        Step(Send(":" + ShowInt(if remaining > 0 then remaining else -1) + "\r\n"), s)
      else Step(Send(":" + ShowInt(-1) + "\r\n"), s)
  }

  /** What EXPIRE keeps as the record's value: a record's own value, or the bare int or list it wraps. */
  function Held(e: Entry): Payload {
    match e
    case Num(n) => IntVal(n)
    case Lst(xs) => ListVal(xs)
    case Rec(v, _) => v
  }

  /** EXPIRE key seconds: give a present key the deadline `now + seconds`, keeping its value. */
  function Expire(args: seq<string>, s: Store, now: real): (r: Step)
    ensures |args| < 2 || ReadInt(args[1]).None? ==> r == Step(Fault, s)
    ensures |args| >= 2 && ReadInt(args[1]).Some? && args[0] !in s.entries ==>
      r == Step(Send(Resp.Encode(Resp.Int(0))), s)
    ensures |args| >= 2 && ReadInt(args[1]).Some? && args[0] in s.entries ==>
      && r.reply == Send(Resp.Encode(Resp.Int(1)))
      && r.store.order == s.order
      && r.store.entries == s.entries[args[0] := Rec(Held(s.entries[args[0]]), Some(now + ReadInt(args[1]).value as real))]
    ensures Dict.Valid(s) ==> Dict.Valid(r.store)
  {
    if |args| < 2 then Step(Fault, s)
    else
      match ReadInt(args[1])
      case None => Step(Fault, s)
      case Some(ttl) =>
        var key := args[0];
        if key !in s.entries then Step(Send(":" + ShowInt(0) + "\r\n"), s)
        else
          var e := s.entries[key];
          var updated := match e
            case Rec(v, _) => Rec(v, Some(now + ttl as real))
            case _ => Rec(Held(e), Some(now + ttl as real));
          Step(Send(":" + ShowInt(1) + "\r\n"), Dict.Put(s, key, updated))
  }

  /** KEYS: every key, in the dict's insertion order, as an array of bulk strings. */
  function Keys(s: Store): (r: Step)
    requires Dict.Valid(s)
    ensures r.store == s
    ensures r.reply == Send(Resp.Encode(Resp.Arr(Strs(s.order))))
    ensures |s.order| == |s.entries| && forall k :: k in s.entries <==> k in s.order
  {
    Dict.SizeIsOrderLength(s);
    BulkLinesEncode(s.order);
    Step(Send("*" + ShowInt(|s.entries|) + "\r\n" + BulkLines(s.order)), s)
  }

  /** The reply to a command whose name matches none of the branches. */
  const UnknownCommand := "-ERR unknown command\r\n"

  /** One pass of the `handle_client` loop after decoding: sweep, then dispatch on the command name. */
  function Execute(cmd: seq<string>, store: Store, now: real): (r: Step)
    requires Dict.Valid(store)
    ensures Dict.Valid(r.store)
  {
    var s := Sweep(store, now);
    if |cmd| == 0 then Step(Fault, s)
    else
      var name := cmd[0];
      var args := cmd[1..];
      if name == "EXISTS" then Exists(args, s)
      else if name == "DEL" then
        var (count, rest) := DelKeys(args, s);
        Step(Send(":" + ShowInt(count) + "\r\n"), rest)
      else if name == "INCR" then Bump(args, s, 1)
      else if name == "DECR" then Bump(args, s, -1)
      else if name == "LPUSH" then Push(args, s, true)
      else if name == "RPUSH" then Push(args, s, false)
      else if name == "LRANGE" then Lrange(args, s)
      else if name == "SAVE" then Step(Persist, s)
      else if name == "SET" then Set(args, s, now)
      else if name == "GET" then Get(args, s, now)
      else if name == "TTL" then Ttl(args, s, now)
      else if name == "EXPIRE" then Expire(args, s, now)
      else if name == "KEYS" then Keys(s)
      else if name == "FLUSHDB" then Step(Send("+OK\r\n"), Dict.Empty())
      else Step(Send(UnknownCommand), s)
  }
}
