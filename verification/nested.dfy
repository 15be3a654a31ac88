/**
 * Two-level string-keyed maps, the shape of both the ratings store
 * (`artist -> album -> record`) and the reconciler's result buckets
 * (`artist -> album or song -> detail or counter`), with the two mutations
 * the source applies to them: `setdefault` (first write wins) and a counter
 * increment.  Also the sums the summary statistics are built from.
 */
module Nested {
  import opened Wrappers

  type Buckets<V> = map<string, map<string, V>>

  /** Every `(outer, inner)` key pair present in `m`. */
  function Pairs<V>(m: Buckets<V>): set<(string, string)> {
    set a, k | a in m && k in m[a] :: (a, k)
  }

  function Lookup<V>(m: Buckets<V>, a: string, k: string): Option<V> {
    if a in m && k in m[a] then Some(m[a][k]) else None
  }

  /** `d.setdefault(a, v)` on a one-level map. */
  function SetDefaultKey(m: map<string, int>, a: string, v: int): (r: map<string, int>)
    ensures r.Keys == m.Keys + {a}
    ensures a in m ==> r[a] == m[a]
    ensures a !in m ==> r[a] == v
    ensures forall b | b in m && b != a :: r[b] == m[b]
  {
    if a in m then m else m[a := v]
  }

  /**
   * `m.setdefault(a, {}).setdefault(k, v)` in Python, `m[a] ||= {}` then
   * `m[a][k] ||= v` in Ruby: the pair `(a, k)` receives `v` only when it is
   * absent, and the outer key `a` is present afterwards in every case.
   */
  function SetDefault<V>(m: Buckets<V>, a: string, k: string, v: V): (r: Buckets<V>)
    ensures Lookup(r, a, k) == (if (a, k) in Pairs(m) then Lookup(m, a, k) else Some(v))
    ensures forall a', k' | (a', k') != (a, k) :: Lookup(r, a', k') == Lookup(m, a', k')
    ensures Pairs(r) == Pairs(m) + {(a, k)}
    ensures r.Keys == m.Keys + {a}
  {
    if a in m && k in m[a] then m
    else
      var inner := if a in m then m[a] else map[];
      var r := m[a := inner[k := v]];
      assert Pairs(r) == Pairs(m) + {(a, k)} by {
        forall p | p in Pairs(r) ensures p in Pairs(m) + {(a, k)} {
          if p.0 != a { assert p in Pairs(m); }
        }
      }
      r
  }

  /**
   * `m.setdefault(a, {}).setdefault(k, 0)` followed by `m[a][k] += 1`: the
   * counter of `(a, k)` goes up by one, starting from zero.
   */
  function Bump(m: Buckets<int>, a: string, k: string): (r: Buckets<int>)
    ensures Lookup(r, a, k) == Some(Lookup(m, a, k).GetOr(0) + 1)
    ensures forall a', k' | (a', k') != (a, k) :: Lookup(r, a', k') == Lookup(m, a', k')
    ensures Pairs(r) == Pairs(m) + {(a, k)}
    ensures r.Keys == m.Keys + {a}
  {
    var inner := if a in m then m[a] else map[];
    var count := if k in inner then inner[k] else 0;
    var r := m[a := inner[k := count + 1]];
    assert Pairs(r) == Pairs(m) + {(a, k)} by {
      forall p | p in Pairs(r) ensures p in Pairs(m) + {(a, k)} {
        if p.0 != a { assert p in Pairs(m); }
      }
      forall p | p in Pairs(m) ensures p in Pairs(r) {
        assert p.0 in r && p.1 in r[p.0];
      }
    }
    r
  }

  /** One `setdefault` to perform: outer key, inner key, value. */
  datatype Entry<V> = Entry(outer: string, inner: string, value: V)

  function EntryPairs<V>(es: seq<Entry<V>>): set<(string, string)> {
    set i | 0 <= i < |es| :: (es[i].outer, es[i].inner)
  }

  /** Appending an entry adds its pair. */
  lemma EntryPairsSnoc<V>(es: seq<Entry<V>>, e: Entry<V>)
    ensures EntryPairs(es + [e]) == EntryPairs(es) + {(e.outer, e.inner)}
  {
    var es' := es + [e];
    forall p | p in EntryPairs(es') ensures p in EntryPairs(es) + {(e.outer, e.inner)} {
      var i :| 0 <= i < |es'| && p == (es'[i].outer, es'[i].inner);
      if i < |es| { assert es'[i] == es[i]; }
    }
    forall p | p in EntryPairs(es) ensures p in EntryPairs(es') {
      var i :| 0 <= i < |es| && p == (es[i].outer, es[i].inner);
      assert es'[i] == es[i];
    }
    assert es'[|es|] == e;
  }

  /** The value of the first entry of `es` keyed `(a, k)`, if any. */
  function FirstValue<V>(es: seq<Entry<V>>, a: string, k: string): Option<V> {
    if |es| == 0 then None
    else if es[0].outer == a && es[0].inner == k then Some(es[0].value)
    else FirstValue(es[1..], a, k)
  }

  lemma {:induction false} FirstValueSnoc<V>(es: seq<Entry<V>>, e: Entry<V>)
    ensures
      forall a, k :: FirstValue(es + [e], a, k) ==
        (if FirstValue(es, a, k).Some? then FirstValue(es, a, k)
         else if e.outer == a && e.inner == k then Some(e.value)
         else None)
    decreases |es|
  {
    if |es| > 0 {
      FirstValueSnoc(es[1..], e);
      assert (es + [e])[1..] == es[1..] + [e];
    }
  }

  /**
   * The `setdefault`s of `es` applied in order to `m`.  A pair already in
   * `m` keeps its value; any other pair ends up with the value of the FIRST
   * entry that names it.
   */
  function InsertAll<V>(m: Buckets<V>, es: seq<Entry<V>>): Buckets<V>
    decreases |es|
  {
    if |es| == 0 then m
    else SetDefault(InsertAll(m, es[..|es| - 1]), es[|es| - 1].outer, es[|es| - 1].inner, es[|es| - 1].value)
  }

  /** The insertion holds the pairs of `m` and those of `es`. */
  lemma {:induction false} InsertAllPairs<V>(m: Buckets<V>, es: seq<Entry<V>>)
    ensures Pairs(InsertAll(m, es)) == Pairs(m) + EntryPairs(es)
    decreases |es|
  {
    if |es| > 0 {
      var front := es[..|es| - 1];
      var e := es[|es| - 1];
      InsertAllPairs(m, front);
      assert front + [e] == es;
      InsertAllSnoc(m, front, e);
      EntryPairsSnoc(front, e);
    }
  }

  /** A pair of `m` keeps its value; any other pair has the value of the first entry naming it. */
  lemma {:induction false} InsertAllLookup<V>(m: Buckets<V>, es: seq<Entry<V>>)
    ensures
      forall a, k :: Lookup(InsertAll(m, es), a, k) ==
        (if (a, k) in Pairs(m) then Lookup(m, a, k) else FirstValue(es, a, k))
    decreases |es|
  {
    if |es| > 0 {
      var front := es[..|es| - 1];
      var e := es[|es| - 1];
      InsertAllLookup(m, front);
      assert front + [e] == es;
      InsertAllSnoc(m, front, e);
      FirstValueSnoc(front, e);
    }
  }

  /** What the insertion holds: both of the above. */
  lemma InsertAllSpec<V>(m: Buckets<V>, es: seq<Entry<V>>)
    ensures Pairs(InsertAll(m, es)) == Pairs(m) + EntryPairs(es)
    ensures
      forall a, k :: Lookup(InsertAll(m, es), a, k) ==
        (if (a, k) in Pairs(m) then Lookup(m, a, k) else FirstValue(es, a, k))
  {
    InsertAllPairs(m, es);
    InsertAllLookup(m, es);
  }

  /** Inserting one more entry is one more `setdefault`. */
  lemma InsertAllSnoc<V>(m: Buckets<V>, es: seq<Entry<V>>, e: Entry<V>)
    ensures InsertAll(m, es + [e]) == SetDefault(InsertAll(m, es), e.outer, e.inner, e.value)
  {
    assert (es + [e])[..|es|] == es;
  }

  /** A bucket built by `setdefault`s stays the insertion of its entries after one more. */
  lemma InsertAllStep<V>(prev: Buckets<V>, es: seq<Entry<V>>, e: Entry<V>, next: Buckets<V>, es': seq<Entry<V>>)
    requires prev == InsertAll(map[], es)
    requires next == SetDefault(prev, e.outer, e.inner, e.value)
    requires es' == es + [e]
    ensures next == InsertAll(map[], es')
  {
    InsertAllSnoc(map[], es, e);
  }

  lemma {:induction false} InsertAllConcat<V>(m: Buckets<V>, xs: seq<Entry<V>>, ys: seq<Entry<V>>)
    ensures InsertAll(m, xs + ys) == InsertAll(InsertAll(m, xs), ys)
    decreases |ys|
  {
    if |ys| == 0 {
      assert xs + ys == xs;
    } else {
      var ys' := ys[..|ys| - 1];
      assert (xs + ys)[..|xs + ys| - 1] == xs + ys';
      assert (xs + ys)[|xs + ys| - 1] == ys[|ys| - 1];
      InsertAllConcat(m, xs, ys');
    }
  }

  /** Sum of the values of `m` over the keys `ks`, taken in an arbitrary order. */
  ghost function TotalOver(m: map<string, int>, ks: set<string>): int
    requires ks <= m.Keys
    decreases ks
  {
    if ks == {} then 0
    else
      var k :| k in ks;
      m[k] + TotalOver(m, ks - {k})
  }

  /** Sum of all the values of `m`, i.e. `reduce(+, m.values())`. */
  ghost function Total(m: map<string, int>): int {
    TotalOver(m, m.Keys)
  }

  /** The sum does not depend on the order: any key can be taken out first. */
  lemma {:induction false} TotalOverRemove(m: map<string, int>, ks: set<string>, k: string)
    requires ks <= m.Keys && k in ks
    ensures TotalOver(m, ks) == m[k] + TotalOver(m, ks - {k})
    decreases ks
  {
    var j :| j in ks && TotalOver(m, ks) == m[j] + TotalOver(m, ks - {j});
    if j != k {
      TotalOverRemove(m, ks - {j}, k);
      TotalOverRemove(m, ks - {k}, j);
      assert ks - {j} - {k} == ks - {k} - {j};
    }
  }

  lemma {:induction false} TotalOverAgree(m1: map<string, int>, m2: map<string, int>, ks: set<string>)
    requires ks <= m1.Keys && ks <= m2.Keys
    requires forall k | k in ks :: m1[k] == m2[k]
    ensures TotalOver(m1, ks) == TotalOver(m2, ks)
    decreases ks
  {
    if ks != {} {
      var k :| k in ks;
      TotalOverRemove(m1, ks, k);
      TotalOverRemove(m2, ks, k);
      TotalOverAgree(m1, m2, ks - {k});
    }
  }

  /** Overwriting one value moves the sum by the difference. */
  lemma TotalUpdate(m: map<string, int>, k: string, v: int)
    ensures Total(m[k := v]) == Total(m) - (if k in m then m[k] else 0) + v
  {
    var m' := m[k := v];
    TotalOverRemove(m', m'.Keys, k);
    TotalOverAgree(m', m, m.Keys - {k});
    assert m'.Keys - {k} == m.Keys - {k};
    if k in m {
      TotalOverRemove(m, m.Keys, k);
    } else {
      assert m.Keys - {k} == m.Keys;
    }
  }

  /** A map whose values are all 1 sums to its number of keys. */
  lemma {:induction false} TotalOfOnes(m: map<string, int>, ks: set<string>)
    requires ks <= m.Keys
    requires forall k | k in ks :: m[k] == 1
    ensures TotalOver(m, ks) == |ks|
    decreases ks
  {
    if ks != {} {
      var k :| k in ks;
      TotalOverRemove(m, ks, k);
      TotalOfOnes(m, ks - {k});
    }
  }

  /** Per outer key, the sum of its inner values. */
  ghost function Subtotals(m: Buckets<int>): map<string, int> {
    map a | a in m :: Total(m[a])
  }

  /** Sum of every inner value: `reduce(+, map(lambda x: reduce(+, x.values()), m.values()))`. */
  ghost function NestedTotal(m: Buckets<int>): int {
    Total(Subtotals(m))
  }

  /** Each counter increment adds exactly one to the nested sum. */
  lemma NestedTotalBump(m: Buckets<int>, a: string, k: string)
    ensures NestedTotal(Bump(m, a, k)) == NestedTotal(m) + 1
  {
    var inner := if a in m then m[a] else map[];
    var count := if k in inner then inner[k] else 0;
    var r := Bump(m, a, k);
    assert r == m[a := inner[k := count + 1]];
    TotalUpdate(inner, k, count + 1);
    assert Subtotals(r) == Subtotals(m)[a := Total(inner) + 1];
    TotalUpdate(Subtotals(m), a, Total(inner) + 1);
    if a !in m {
      assert inner.Keys == {};
    }
  }

  /** A map that is `prev`, possibly with one counter bumped, sums to one more when bumped. */
  lemma NestedTotalMaybeBump(prev: Buckets<int>, next: Buckets<int>, a: string, k: string, bumped: bool)
    requires next == if bumped then Bump(prev, a, k) else prev
    ensures NestedTotal(next) == NestedTotal(prev) + (if bumped then 1 else 0)
  {
    if bumped {
      NestedTotalBump(prev, a, k);
    }
  }

  /** A `setdefault` of 1 adds one to the nested sum exactly when it creates a pair. */
  lemma NestedTotalSetDefaultOne(m: Buckets<int>, a: string, k: string)
    ensures NestedTotal(SetDefault(m, a, k, 1)) ==
      NestedTotal(m) + (if (a, k) in Pairs(m) then 0 else 1)
    ensures |Pairs(SetDefault(m, a, k, 1))| ==
      |Pairs(m)| + (if (a, k) in Pairs(m) then 0 else 1)
  {
    if (a, k) in Pairs(m) {
      assert Pairs(m) + {(a, k)} == Pairs(m);
    } else {
      assert SetDefault(m, a, k, 1) == Bump(m, a, k);
      NestedTotalBump(m, a, k);
    }
  }

  /** Sums the values of `m` one key at a time. */
  method SumValues(m: map<string, int>) returns (s: int)
    ensures s == Total(m)
  {
    s := 0;
    var rest := m.Keys;
    while rest != {}
      invariant rest <= m.Keys
      invariant s + TotalOver(m, rest) == Total(m)
      decreases rest
    {
      var k :| k in rest;
      TotalOverRemove(m, rest, k);
      s := s + m[k];
      rest := rest - {k};
    }
  }

  /** Sums, over the outer keys, the sum of each inner map's values. */
  method SumNested(m: Buckets<int>) returns (s: int)
    ensures s == NestedTotal(m)
  {
    s := 0;
    var rest := m.Keys;
    ghost var sub := Subtotals(m);
    assert sub.Keys == m.Keys;
    while rest != {}
      invariant rest <= m.Keys
      invariant s + TotalOver(sub, rest) == NestedTotal(m)
      decreases rest
    {
      var a :| a in rest;
      TotalOverRemove(sub, rest, a);
      var inner := SumValues(m[a]);
      s := s + inner;
      rest := rest - {a};
    }
  }

  /** The pairs of `m` whose outer key is in `outer`. */
  function PairsWithin<V>(m: Buckets<V>, outer: set<string>): set<(string, string)> {
    set a, k | a in outer && a in m && k in m[a] :: (a, k)
  }

  lemma {:induction false} RowSize(a: string, ks: set<string>)
    ensures |set k | k in ks :: (a, k)| == |ks|
    decreases ks
  {
    if ks != {} {
      var k :| k in ks;
      var row := set x | x in ks :: (a, x);
      assert row == (set x | x in ks - {k} :: (a, x)) + {(a, k)};
      RowSize(a, ks - {k});
    }
  }

  /** Counts the pairs of `m` as the sum, over outer keys, of the inner maps' sizes. */
  method CountPairs<V>(m: Buckets<V>) returns (n: int)
    ensures n == |Pairs(m)|
  {
    n := 0;
    var rest := m.Keys;
    assert PairsWithin(m, rest) == Pairs(m);
    while rest != {}
      invariant rest <= m.Keys
      invariant n + |PairsWithin(m, rest)| == |Pairs(m)|
      decreases rest
    {
      var a :| a in rest;
      var row := set k | k in m[a].Keys :: (a, k);
      RowSize(a, m[a].Keys);
      assert PairsWithin(m, rest) == PairsWithin(m, rest - {a}) + row;
      assert PairsWithin(m, rest - {a}) * row == {};
      n := n + |m[a]|;
      rest := rest - {a};
    }
  }
}
