/**
 * The ranking done in update_ui: the best server shown on the Auto row
 * (Python's `min` with a key) and the row order with auto-sort on
 * (Auto followed by Python's stable `sorted` of the other names by latency).
 */
module Ranking {
  import opened Wrappers
  import opened Latency
  import opened Regions

  /** The latency store: server name to milliseconds. */
  type Latencies<K> = map<K, nat>

  /** A server's recorded latency, 9999 when it has none (`latencies.get(n, 9999)`). */
  function Key<K(==)>(lat: Latencies<K>, n: K): (ms: nat)
    ensures n in lat ==> ms == lat[n]
    ensures n !in lat ==> ms == Unreachable
  {
    if n in lat then lat[n] else Unreachable
  }

  /** The names a ranking chooses among: every name of keys but auto, in
      the order of keys (`[n for n in self.latencies if n != AUTO_SERVER_NAME]`). */
  function Others<K(==)>(keys: seq<K>, auto: K): (others: seq<K>)
    ensures forall n :: n in others ==> n in keys && n != auto
    ensures forall n :: n in keys && n != auto ==> n in others
    ensures |others| <= |keys|
  {
    if keys == [] then []
    else (if keys[0] != auto then [keys[0]] else []) + Others(keys[1..], auto)
  }

  /** keys starts with auto and holds it only there, as the server table does. */
  predicate AutoFirst<K(==)>(keys: seq<K>, auto: K)
  {
    && |keys| > 0 && keys[0] == auto
    && forall i :: 0 < i < |keys| ==> keys[i] != auto
  }

  /** Filtering out auto leaves a sequence without auto unchanged. */
  lemma {:induction false} OthersWithoutAuto<K>(s: seq<K>, auto: K)
    requires auto !in s
    ensures Others(s, auto) == s
  {
    if s != [] {
      assert s[0] in s;
      assert forall n :: n in s[1..] ==> n in s;
      OthersWithoutAuto(s[1..], auto);
    }
  }

  /** With auto first and only there, the other names are the rest of keys. */
  lemma {:induction false} OthersOfAutoFirst<K>(keys: seq<K>, auto: K)
    requires AutoFirst(keys, auto)
    ensures Others(keys, auto) == keys[1..]
  {
    assert forall n :: n in keys[1..] ==> n != auto;
    OthersWithoutAuto(keys[1..], auto);
  }

  /** The server table has Auto first and only there. */
  lemma ServersAutoFirst()
    ensures AutoFirst(Servers, Auto)
  {
  }

  /**
   * Position of the first minimum of ns by latency: Python's `min` scans
   * left to right and replaces its candidate only on a strictly smaller key.
   */
  function FirstMinimum<K(==)>(ns: seq<K>, lat: Latencies<K>): (r: Option<nat>)
    ensures r.None? <==> ns == []
    ensures r.Some? ==> r.value < |ns|
    ensures r.Some? ==> forall k :: 0 <= k < |ns| ==> Key(lat, ns[r.value]) <= Key(lat, ns[k])
    ensures r.Some? ==> forall k :: 0 <= k < r.value ==> Key(lat, ns[r.value]) < Key(lat, ns[k])
  {
    if ns == [] then None
    else
      var r := FirstMinimum(ns[..|ns| - 1], lat);
      if r.None? || Key(lat, ns[|ns| - 1]) < Key(lat, ns[r.value]) then Some(|ns| - 1) else r
  }

  /** best_server: the first name of least latency among those of keys other
      than auto, or None when there is none. */
  function BestServer<K(==)>(keys: seq<K>, auto: K, lat: Latencies<K>): (best: Option<K>)
    ensures best.None? <==> Others(keys, auto) == []
    ensures best.Some? ==> best.value in keys && best.value != auto
    ensures best.Some? ==> forall k :: 0 <= k < |Others(keys, auto)| ==>
      Key(lat, best.value) <= Key(lat, Others(keys, auto)[k])
  {
    match FirstMinimum(Others(keys, auto), lat)
    case None => None
    case Some(k) => Some(Others(keys, auto)[k])
  }

  /** There is a best server exactly when keys has a name other than auto; it
      is one of those names, has the least latency of them all, and on a tie
      is the one that comes first. */
  lemma {:induction false} BestServerSpec<K>(keys: seq<K>, auto: K, lat: Latencies<K>)
    ensures BestServer(keys, auto, lat).Some? <==> exists n :: n in keys && n != auto
    ensures BestServer(keys, auto, lat).Some? ==>
      BestServer(keys, auto, lat).value in keys && BestServer(keys, auto, lat).value != auto
    ensures BestServer(keys, auto, lat).Some? ==> forall n :: n in keys && n != auto ==>
      Key(lat, BestServer(keys, auto, lat).value) <= Key(lat, n)
    ensures BestServer(keys, auto, lat).Some? ==> forall k ::
      (0 <= k < |Others(keys, auto)| && Key(lat, Others(keys, auto)[k]) == Key(lat, BestServer(keys, auto, lat).value)) ==>
      BestServer(keys, auto, lat).value in Others(keys, auto)[..k + 1]
  {
    var others := Others(keys, auto);
    if others != [] {
      var i := FirstMinimum(others, lat).value;
      assert others[i] in others;
      forall n | n in keys && n != auto ensures Key(lat, others[i]) <= Key(lat, n) {
        assert n in others;
        var k :| 0 <= k < |others| && others[k] == n;
      }
      forall k | 0 <= k < |others| && Key(lat, others[k]) == Key(lat, others[i])
        ensures others[i] in others[..k + 1]
      {
        assert others[..k + 1][i] == others[i];
      }
    } else {
      assert forall n :: n in keys && n != auto ==> n in others;
    }
  }

  /** A name strictly faster than every other candidate is the best server. */
  lemma {:induction false} FastestIsBest<K>(keys: seq<K>, auto: K, lat: Latencies<K>, s: K)
    requires s in keys && s != auto
    requires forall t :: t != auto && t != s ==> Key(lat, s) < Key(lat, t)
    ensures BestServer(keys, auto, lat) == Some(s)
  {
    BestServerSpec(keys, auto, lat);
  }

  /** A name that reads 0 ms while every other candidate reads more is the
      best server. */
  lemma {:induction false} ZeroIsBest<K>(keys: seq<K>, auto: K, lat: Latencies<K>, s: K)
    requires s in keys && s != auto
    requires forall t :: t != auto && t != s ==> Key(lat, t) > 0
    ensures BestServer(keys, auto, lat[s := 0]) == Some(s)
  {
    var zero := lat[s := 0];
    forall t | t != auto && t != s ensures Key(zero, s) < Key(zero, t) {
      assert Key(zero, t) == Key(lat, t);
    }
    FastestIsBest(keys, auto, zero, s);
  }

  /** A name slower than some other candidate is never the best server. */
  lemma {:induction false} SlowerNotBest<K>(keys: seq<K>, auto: K, lat: Latencies<K>, s: K, t: K)
    requires t in keys && t != auto && Key(lat, t) < Key(lat, s)
    ensures BestServer(keys, auto, lat) != Some(s)
  {
    BestServerSpec(keys, auto, lat);
  }

  /** s is non-decreasing in latency. */
  predicate SortedBy<K(==)>(s: seq<K>, lat: Latencies<K>)
  {
    forall i, j :: 0 <= i < j < |s| ==> Key(lat, s[i]) <= Key(lat, s[j])
  }

  /** The elements of s whose latency is v, in their order in s. A sort is
      stable when it keeps each of these subsequences as it was. */
  function WithLatency<K(==)>(s: seq<K>, lat: Latencies<K>, v: nat): seq<K>
  {
    if s == [] then []
    else WithLatency(s[..|s| - 1], lat, v) + (if Key(lat, s[|s| - 1]) == v then [s[|s| - 1]] else [])
  }

  /** Puts x after every element of s whose latency is at most x's. */
  function Insert<K(==)>(x: K, s: seq<K>, lat: Latencies<K>): (r: seq<K>)
    ensures multiset(r) == multiset(s) + multiset{x}
  {
    if s == [] || Key(lat, s[|s| - 1]) <= Key(lat, x) then s + [x]
    else
      var init := s[..|s| - 1];
      assert s == init + [s[|s| - 1]];
      Insert(x, init, lat) + [s[|s| - 1]]
  }

  /** Inserting into a sorted sequence keeps it sorted. */
  lemma {:induction false} InsertSorted<K>(x: K, s: seq<K>, lat: Latencies<K>)
    requires SortedBy(s, lat)
    ensures SortedBy(Insert(x, s, lat), lat)
  {
    if s == [] || Key(lat, s[|s| - 1]) <= Key(lat, x) {
    } else {
      var last := s[|s| - 1];
      var init := s[..|s| - 1];
      var r' := Insert(x, init, lat);
      InsertSorted(x, init, lat);
      forall i | 0 <= i < |r'| ensures Key(lat, r'[i]) <= Key(lat, last) {
        assert r'[i] in multiset(r');
        if r'[i] != x {
          assert r'[i] in multiset(init);
          var k :| 0 <= k < |init| && init[k] == r'[i];
          assert s[k] == init[k];
        }
      }
    }
  }

  /** sorted(ns, key=latency), written as an insertion sort that takes the
      names in order. */
  function SortByLatency<K(==)>(ns: seq<K>, lat: Latencies<K>): (r: seq<K>)
    ensures multiset(r) == multiset(ns)
    ensures SortedBy(r, lat)
  {
    if ns == [] then []
    else
      assert ns == ns[..|ns| - 1] + [ns[|ns| - 1]];
      InsertSorted(ns[|ns| - 1], SortByLatency(ns[..|ns| - 1], lat), lat);
      Insert(ns[|ns| - 1], SortByLatency(ns[..|ns| - 1], lat), lat)
  }

  /** WithLatency picks only elements of s that have latency v. */
  lemma {:induction false} WithLatencyMembers<K>(s: seq<K>, lat: Latencies<K>, v: nat, n: K)
    requires n in WithLatency(s, lat, v)
    ensures n in s && Key(lat, n) == v
  {
    if n !in WithLatency(s[..|s| - 1], lat, v) {
    } else {
      WithLatencyMembers(s[..|s| - 1], lat, v, n);
      var k :| 0 <= k < |s| - 1 && s[..|s| - 1][k] == n;
      assert s[k] == n;
    }
  }

  /** WithLatency of a sequence extended by one element. */
  lemma {:induction false} WithLatencySnoc<K>(s: seq<K>, x: K, lat: Latencies<K>, v: nat)
    ensures WithLatency(s + [x], lat, v) == WithLatency(s, lat, v) + (if Key(lat, x) == v then [x] else [])
  {
    assert (s + [x])[..|s|] == s;
  }

  /** Inserting x into a sorted sequence puts it after every element of
      equal latency. */
  lemma {:induction false} InsertStable<K>(x: K, s: seq<K>, lat: Latencies<K>, v: nat)
    requires SortedBy(s, lat)
    ensures WithLatency(Insert(x, s, lat), lat, v)
      == WithLatency(s, lat, v) + (if Key(lat, x) == v then [x] else [])
  {
    if s == [] || Key(lat, s[|s| - 1]) <= Key(lat, x) {
      WithLatencySnoc(s, x, lat, v);
    } else {
      var last := s[|s| - 1];
      var init := s[..|s| - 1];
      assert s == init + [last];
      var r' := Insert(x, init, lat);
      assert Insert(x, s, lat) == r' + [last];
      assert SortedBy(init, lat);
      InsertStable(x, init, lat, v);
      WithLatencySnoc(r', last, lat, v);
      WithLatencySnoc(init, last, lat, v);
      var wx := if Key(lat, x) == v then [x] else [];
      var wl := if Key(lat, last) == v then [last] else [];
      assert wx == [] || wl == [];
      assert wx + wl == wl + wx;
    }
  }

  /** SortByLatency is stable: equal latencies keep their relative order. */
  lemma {:induction false} SortStable<K>(ns: seq<K>, lat: Latencies<K>, v: nat)
    ensures WithLatency(SortByLatency(ns, lat), lat, v) == WithLatency(ns, lat, v)
  {
    if ns != [] {
      var init := ns[..|ns| - 1];
      SortStable(init, lat, v);
      InsertStable(ns[|ns| - 1], SortByLatency(init, lat), lat, v);
    }
  }

  /** Sequences that agree on every latency's subsequence and end in
      elements of equal latency end in the same element, and agree without it. */
  lemma {:induction false} DropLastAgreeing<K>(a': seq<K>, la: K, b': seq<K>, lb: K, lat: Latencies<K>)
    requires Key(lat, la) == Key(lat, lb)
    requires forall v :: WithLatency(a' + [la], lat, v) == WithLatency(b' + [lb], lat, v)
    ensures la == lb
    ensures forall v :: WithLatency(a', lat, v) == WithLatency(b', lat, v)
  {
    var m := Key(lat, la);
    WithLatencySnoc(a', la, lat, m);
    WithLatencySnoc(b', lb, lat, m);
    var w := WithLatency(a' + [la], lat, m);
    assert w == WithLatency(b' + [lb], lat, m);
    assert w[|w| - 1] == la && w[|w| - 1] == lb;
    forall v ensures WithLatency(a', lat, v) == WithLatency(b', lat, v) {
      WithLatencySnoc(a', la, lat, v);
      WithLatencySnoc(b', lb, lat, v);
      var wa, wb := WithLatency(a' + [la], lat, v), WithLatency(b' + [lb], lat, v);
      assert wa == wb;
      if v == m {
        assert wa == WithLatency(a', lat, v) + [la];
        assert wb == WithLatency(b', lat, v) + [lb];
        assert WithLatency(a', lat, v) == wa[..|wa| - 1];
        assert WithLatency(b', lat, v) == wb[..|wb| - 1];
      } else {
        assert wa == WithLatency(a', lat, v) + (if Key(lat, la) == v then [la] else []);
        assert WithLatency(a', lat, v) == wa;
        assert WithLatency(b', lat, v) == wb;
      }
    }
  }

  /** The last element x of a sorted sequence a has the greatest latency, so
      any sorted b agreeing with a holds an element of that latency, at the end. */
  lemma {:induction false} LastLatencyBound<K>(a: seq<K>, b: seq<K>, lat: Latencies<K>)
    requires a != [] && b != [] && SortedBy(b, lat)
    requires forall v :: WithLatency(a, lat, v) == WithLatency(b, lat, v)
    ensures Key(lat, a[|a| - 1]) <= Key(lat, b[|b| - 1])
  {
    var a', la := a[..|a| - 1], a[|a| - 1];
    var m := Key(lat, la);
    assert a == a' + [la];
    WithLatencySnoc(a', la, lat, m);
    var w := WithLatency(b, lat, m);
    assert w == WithLatency(a', lat, m) + [la];
    assert w[|w| - 1] == la;
    WithLatencyMembers(b, lat, m, la);
    var i :| 0 <= i < |b| && b[i] == la;
    if i < |b| - 1 {
      assert Key(lat, b[i]) <= Key(lat, b[|b| - 1]);
    }
  }

  /** WithLatency of a non-empty sequence at the latency of its last element is not empty. */
  lemma {:induction false} LastIsKept<K>(s: seq<K>, lat: Latencies<K>)
    requires s != []
    ensures WithLatency(s, lat, Key(lat, s[|s| - 1])) != []
  {
  }

  /** Only the empty sequence agrees with the empty sequence on every latency. */
  lemma {:induction false} AgreeingWithEmpty<K>(b: seq<K>, lat: Latencies<K>)
    requires forall v :: WithLatency([], lat, v) == WithLatency(b, lat, v)
    ensures b == []
  {
    if b != [] {
      LastIsKept(b, lat);
      assert false;
    }
  }

  /** Two sequences sorted by latency that agree on the subsequence of every
      latency are equal: a stable sort has only one possible result, so
      SortByLatency gives what any stable sort (Python's Timsort included) gives. */
  lemma {:induction false} StableSortIsUnique<K>(a: seq<K>, b: seq<K>, lat: Latencies<K>)
    requires SortedBy(a, lat) && SortedBy(b, lat)
    requires forall v :: WithLatency(a, lat, v) == WithLatency(b, lat, v)
    ensures a == b
    decreases |a| + |b|
  {
    if a == [] {
      AgreeingWithEmpty(b, lat);
    } else if b == [] {
      AgreeingWithEmpty(a, lat);
    } else {
      LastLatencyBound(a, b, lat);
      LastLatencyBound(b, a, lat);
      var a', b' := a[..|a| - 1], b[..|b| - 1];
      assert a == a' + [a[|a| - 1]] && b == b' + [b[|b| - 1]];
      DropLastAgreeing(a', a[|a| - 1], b', b[|b| - 1], lat);
      StableSortIsUnique(a', b', lat);
    }
  }

  /** Any sequence that is sorted by latency and stable with respect to ns
      is SortByLatency(ns): the model of `sorted` is fixed by these two properties. */
  lemma {:induction false} SortByLatencyIsTheStableSort<K>(ns: seq<K>, r: seq<K>, lat: Latencies<K>)
    requires SortedBy(r, lat)
    requires forall v :: WithLatency(r, lat, v) == WithLatency(ns, lat, v)
    ensures r == SortByLatency(ns, lat)
  {
    forall v ensures WithLatency(r, lat, v) == WithLatency(SortByLatency(ns, lat), lat, v) {
      SortStable(ns, lat, v);
    }
    StableSortIsUnique(r, SortByLatency(ns, lat), lat);
  }

  /** No element of latency v, nothing kept. */
  lemma {:induction false} NoneKept<K>(s: seq<K>, lat: Latencies<K>, v: nat)
    requires forall k :: 0 <= k < |s| ==> Key(lat, s[k]) != v
    ensures WithLatency(s, lat, v) == []
  {
    if s != [] {
      NoneKept(s[..|s| - 1], lat, v);
    }
  }

  /** The first element of latency v in s heads WithLatency(s, lat, v). */
  lemma {:induction false} FirstKept<K>(s: seq<K>, lat: Latencies<K>, v: nat, i: nat)
    requires i < |s| && Key(lat, s[i]) == v
    requires forall k :: 0 <= k < i ==> Key(lat, s[k]) != v
    ensures WithLatency(s, lat, v) != [] && WithLatency(s, lat, v)[0] == s[i]
  {
    var init := s[..|s| - 1];
    if i == |s| - 1 {
      NoneKept(init, lat, v);
    } else {
      FirstKept(init, lat, v, i);
    }
  }

  /** The row order with auto-sort on: auto pinned first, then the other
      names in a stable sort by latency. */
  function AutoSortOrder<K(==)>(keys: seq<K>, auto: K, lat: Latencies<K>): (order: seq<K>)
    ensures |order| == |Others(keys, auto)| + 1 && order[0] == auto
    ensures multiset(order) == multiset{auto} + multiset(Others(keys, auto))
    ensures SortedBy(order[1..], lat)
  {
    var sorted := SortByLatency(Others(keys, auto), lat);
    assert |sorted| == |multiset(sorted)| == |Others(keys, auto)|;
    var order := [auto] + sorted;
    assert order[1..] == sorted;
    order
  }

  /** With auto first and only there, auto-sort rearranges keys. */
  lemma {:induction false} AutoSortPermutes<K>(keys: seq<K>, auto: K, lat: Latencies<K>)
    requires AutoFirst(keys, auto)
    ensures |AutoSortOrder(keys, auto, lat)| == |keys|
    ensures multiset(AutoSortOrder(keys, auto, lat)) == multiset(keys)
  {
    OthersOfAutoFirst(keys, auto);
    assert keys == [auto] + keys[1..];
  }

  /** Equal latencies keep the order of keys after auto. */
  lemma {:induction false} AutoSortOrderStable<K>(keys: seq<K>, auto: K, lat: Latencies<K>, v: nat)
    ensures WithLatency(AutoSortOrder(keys, auto, lat)[1..], lat, v) == WithLatency(Others(keys, auto), lat, v)
  {
    assert AutoSortOrder(keys, auto, lat)[1..] == SortByLatency(Others(keys, auto), lat);
    SortStable(Others(keys, auto), lat, v);
  }

  /** A stable sort by latency starts with the first element of least
      latency: min and sorted agree on their choice. */
  lemma {:induction false} SortedHeadIsFirstMinimum<K>(ns: seq<K>, lat: Latencies<K>)
    requires ns != []
    ensures SortByLatency(ns, lat)[0] == ns[FirstMinimum(ns, lat).value]
  {
    var r := SortByLatency(ns, lat);
    var k := FirstMinimum(ns, lat).value;
    var m := Key(lat, ns[k]);
    assert r[0] in multiset(ns);
    var i :| 0 <= i < |ns| && ns[i] == r[0];
    assert ns[k] in multiset(r);
    var j :| 0 <= j < |r| && r[j] == ns[k];
    assert Key(lat, r[0]) == m;
    FirstKept(r, lat, m, 0);
    FirstKept(ns, lat, m, k);
    SortStable(ns, lat, m);
  }

  /** The Auto row names the server that auto-sort puts right below it. */
  lemma {:induction false} BestServerLeadsAutoSort<K>(keys: seq<K>, auto: K, lat: Latencies<K>)
    requires Others(keys, auto) != []
    ensures BestServer(keys, auto, lat) == Some(AutoSortOrder(keys, auto, lat)[1])
  {
    var ns := Others(keys, auto);
    assert AutoSortOrder(keys, auto, lat)[1] == SortByLatency(ns, lat)[0];
    SortedHeadIsFirstMinimum(ns, lat);
  }

  /** update_ui's target row order for the declared order keys, the current
      latencies and the sort flag: when auto comes first in keys, either
      way a rearrangement of keys with auto on top, and keys itself when
      auto-sort is off. */
  function TargetOrder<K(==)>(keys: seq<K>, auto: K, lat: Latencies<K>, autoSort: bool): (order: seq<K>)
    ensures AutoFirst(keys, auto) ==> |order| == |keys| && order[0] == auto
    ensures AutoFirst(keys, auto) ==> multiset(order) == multiset(keys)
    ensures !autoSort ==> order == keys
  {
    assert AutoFirst(keys, auto) ==>
      multiset(AutoSortOrder(keys, auto, lat)) == multiset(keys) && |AutoSortOrder(keys, auto, lat)| == |keys| by {
      if AutoFirst(keys, auto) {
        AutoSortPermutes(keys, auto, lat);
      }
    }
    if autoSort then AutoSortOrder(keys, auto, lat) else keys
  }
}
