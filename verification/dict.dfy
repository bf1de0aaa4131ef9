/**
 A Python `dict`: a finite map that remembers the order in which keys were
 first inserted.  Assigning to a present key keeps its place; deleting a key
 and inserting it again moves it to the end.  Only enumeration (`KEYS`)
 observes the order.
 */
module Dict {

  datatype Dict<V> = Dict(order: seq<string>, entries: map<string, V>)

  predicate Distinct(s: seq<string>) {
    forall i, j :: 0 <= i < j < |s| ==> s[i] != s[j]
  }

  /** The order lists every key exactly once. */
  ghost predicate Valid<V>(d: Dict<V>) {
    && Distinct(d.order)
    && (forall k :: k in d.entries <==> k in d.order)
  }

  function Empty<V>(): (d: Dict<V>)
    ensures Valid(d) && d.entries == map[]
  {
    Dict([], map[])
  }

  /** `d[k] = v`: a new key goes to the end, a present key keeps its place. */
  function Put<V>(d: Dict<V>, k: string, v: V): (r: Dict<V>)
    ensures r.entries == d.entries[k := v]
    ensures k in d.entries ==> r.order == d.order
    ensures k !in d.entries ==> r.order == d.order + [k]
    ensures Valid(d) ==> Valid(r)
  {
    if k in d.entries then Dict(d.order, d.entries[k := v])
    else Dict(d.order + [k], d.entries[k := v])
  }

  /** The elements of `s` that lie in `keep`, in their original order. */
  function Filter(s: seq<string>, keep: set<string>): (r: seq<string>)
    ensures forall x :: x in r <==> x in s && x in keep
    ensures |r| <= |s|
    ensures Distinct(s) ==> Distinct(r)
    decreases |s|
  {
    if |s| == 0 then []
    else if s[0] in keep then [s[0]] + Filter(s[1..], keep)
    else Filter(s[1..], keep)
  }

  /** Keep only the keys in `keep`, each with its value and in its place. */
  function Restrict<V>(d: Dict<V>, keep: set<string>): (r: Dict<V>)
    ensures forall k :: k in r.entries <==> k in d.entries && k in keep
    ensures forall k :: k in r.entries ==> r.entries[k] == d.entries[k]
    ensures Valid(d) ==> Valid(r)
  {
    Dict(Filter(d.order, keep), map k | k in d.entries && k in keep :: d.entries[k])
  }

  /** `del d[k]` (or `d.pop(k, None)`): no effect on an absent key. */
  function Remove<V>(d: Dict<V>, k: string): (r: Dict<V>)
    ensures r.entries == d.entries - {k}
    ensures Valid(d) ==> Valid(r)
  {
    Restrict(d, d.entries.Keys - {k})
  }

  /** Where `x` first appears in `s`. */
  function IndexOf(s: seq<string>, x: string): (r: nat)
    requires x in s
    ensures r < |s| && s[r] == x
    ensures forall i :: 0 <= i < r ==> s[i] != x
    decreases |s|
  {
    if s[0] == x then 0 else 1 + IndexOf(s[1..], x)
  }

  /** Every element of `r` occurs in `s`, and they occur there in the order they have in `r`. */
  ghost predicate KeepsOrder(r: seq<string>, s: seq<string>) {
    && (forall i :: 0 <= i < |r| ==> r[i] in s)
    && (forall i, j :: 0 <= i < j < |r| ==> IndexOf(s, r[i]) < IndexOf(s, r[j]))
  }

  /** In a list of distinct keys, a key of the tail sits one place later in the whole. */
  lemma IndexOfTail(s: seq<string>, x: string)
    requires Distinct(s) && |s| > 0 && x in s[1..]
    ensures x != s[0] && IndexOf(s, x) == 1 + IndexOf(s[1..], x)
  {
    var m :| 0 <= m < |s| - 1 && s[1..][m] == x;
    assert s[m + 1] == x;
  }

  /** Filtering a list of distinct keys keeps the survivors in their relative order. */
  lemma {:induction false} FilterKeepsOrder(s: seq<string>, keep: set<string>)
    requires Distinct(s)
    ensures KeepsOrder(Filter(s, keep), s)
    decreases |s|
  {
    if |s| > 0 {
      var tail := s[1..];
      var rest := Filter(tail, keep);
      assert Distinct(tail);
      FilterKeepsOrder(tail, keep);
      forall i | 0 <= i < |rest|
        ensures rest[i] in s && IndexOf(s, rest[i]) == 1 + IndexOf(tail, rest[i])
      {
        IndexOfTail(s, rest[i]);
      }
      if s[0] in keep {
        FirstKeptLeads(s, rest, keep);
      }
    }
  }

  /** The step of `FilterKeepsOrder` where the head is kept in front of the filtered tail. */
  lemma FirstKeptLeads(s: seq<string>, rest: seq<string>, keep: set<string>)
    requires |s| > 0 && s[0] in keep && rest == Filter(s[1..], keep)
    requires KeepsOrder(rest, s[1..])
    requires forall i :: 0 <= i < |rest| ==> rest[i] in s && IndexOf(s, rest[i]) == 1 + IndexOf(s[1..], rest[i])
    ensures KeepsOrder(Filter(s, keep), s)
  {
    var r := Filter(s, keep);
    assert r == [s[0]] + rest;
    forall i, j | 0 <= i < j < |r|
      ensures IndexOf(s, r[i]) < IndexOf(s, r[j])
    {
      assert r[j] == rest[j - 1];
      if i > 0 {
        assert r[i] == rest[i - 1];
      }
    }
  }

  /** Filtering distributes over concatenation. */
  lemma {:induction false} FilterAppend(a: seq<string>, b: seq<string>, keep: set<string>)
    ensures Filter(a + b, keep) == Filter(a, keep) + Filter(b, keep)
    decreases |a|
  {
    if |a| > 0 {
      assert (a + b)[1..] == a[1..] + b;
      FilterAppend(a[1..], b, keep);
    } else {
      assert a + b == b;
    }
  }

  /** Filtering by a set that holds every element changes nothing. */
  lemma {:induction false} FilterKeepsAll(s: seq<string>, keep: set<string>)
    requires forall i :: 0 <= i < |s| ==> s[i] in keep
    ensures Filter(s, keep) == s
    decreases |s|
  {
    if |s| > 0 {
      FilterKeepsAll(s[1..], keep);
    }
  }

  /**
   `del d[k]` takes `k` out of the order and leaves every other key where it
   was relative to the rest; deleting an absent key leaves the order alone.
   */
  lemma RemoveKeepsOrder<V>(d: Dict<V>, k: string)
    requires Valid(d)
    ensures k !in d.entries ==> Remove(d, k).order == d.order
    ensures forall p :: 0 <= p < |d.order| && d.order[p] == k ==>
      Remove(d, k).order == d.order[..p] + d.order[p + 1..]
  {
    var keep := d.entries.Keys - {k};
    assert Remove(d, k).order == Filter(d.order, keep);
    if k !in d.entries {
      FilterKeepsAll(d.order, keep);
    } else {
      forall p | 0 <= p < |d.order| && d.order[p] == k
        ensures Filter(d.order, keep) == d.order[..p] + d.order[p + 1..]
      {
        FilterDropsOne(d.order, p, keep);
      }
    }
  }

  /** Filtering out the one element at `p` of a distinct list, keeping all others, splices it out. */
  lemma FilterDropsOne(s: seq<string>, p: nat, keep: set<string>)
    requires Distinct(s) && p < |s| && s[p] !in keep
    requires forall i :: 0 <= i < |s| && i != p ==> s[i] in keep
    ensures Filter(s, keep) == s[..p] + s[p + 1..]
  {
    var before := s[..p];
    var after := s[p + 1..];
    assert s == before + [s[p]] + after;
    forall i | 0 <= i < |before|
      ensures before[i] in keep
    {
      assert before[i] == s[i];
    }
    forall i | 0 <= i < |after|
      ensures after[i] in keep
    {
      assert after[i] == s[p + 1 + i];
    }
    FilterSplice(before, s[p], after, keep);
  }

  /** Filtering `a + [x] + b` where only `x` is dropped gives `a + b`. */
  lemma FilterSplice(a: seq<string>, x: string, b: seq<string>, keep: set<string>)
    requires x !in keep
    requires forall i :: 0 <= i < |a| ==> a[i] in keep
    requires forall i :: 0 <= i < |b| ==> b[i] in keep
    ensures Filter(a + [x] + b, keep) == a + b
  {
    var front := a + [x];
    assert Filter(front, keep) == a by {
      FilterAppend(a, [x], keep);
      FilterKeepsAll(a, keep);
      assert Filter([x], keep) == [];
      assert Filter(a, keep) + [] == a;
    }
    FilterAppend(front, b, keep);
    FilterKeepsAll(b, keep);
  }

  lemma {:induction false} DistinctCard(s: seq<string>)
    requires Distinct(s)
    ensures |set x | x in s| == |s|
    decreases |s|
  {
    if |s| > 0 {
      var tail := s[1..];
      DistinctCard(tail);
      assert (set x | x in s) == (set x | x in tail) + {s[0]};
    }
  }

  /** `len(d)`: a valid dict has as many keys in its order as in its map. */
  lemma SizeIsOrderLength<V>(d: Dict<V>)
    requires Valid(d)
    ensures |d.entries| == |d.order|
  {
    DistinctCard(d.order);
    assert d.entries.Keys == set x | x in d.order;
  }
}
