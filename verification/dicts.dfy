/**
 * String-keyed records with the insertion order of JavaScript objects: a new
 * key is appended, and assigning to an existing key overwrites its value in
 * place.
 */
module Dicts {
  import opened Common

  type Dict<V> = seq<(string, V)>

  function Keys<V>(d: Dict<V>): (ks: seq<string>)
    ensures |ks| == |d|
    ensures forall i :: 0 <= i < |d| ==> ks[i] == d[i].0
  {
    if |d| == 0 then [] else [d[0].0] + Keys(d[1..])
  }

  predicate HasKey<V>(d: Dict<V>, k: string) {
    exists i | 0 <= i < |d| :: d[i].0 == k
  }

  /** No key appears twice. */
  predicate DistinctKeys<V>(d: Dict<V>) {
    forall i, j :: 0 <= i < j < |d| ==> d[i].0 != d[j].0
  }

  /** `d[k]`: the value of the first entry with key `k`. */
  function Get<V>(d: Dict<V>, k: string): (r: Option<V>)
    ensures r.None? <==> !HasKey(d, k)
    ensures r.Some? ==> exists i :: 0 <= i < |d| && d[i] == (k, r.value)
  {
    if |d| == 0 then None
    else if d[0].0 == k then Some(d[0].1)
    else
      var r := Get(d[1..], k);
      assert r.Some? ==> exists i :: 0 <= i < |d| - 1 && d[1..][i] == (k, r.value);
      r
  }

  lemma HasKeyTail<V>(d: Dict<V>, k: string)
    requires |d| > 0 && d[0].0 != k
    ensures HasKey(d, k) <==> HasKey(d[1..], k)
  {
    if HasKey(d, k) {
      var i :| 0 <= i < |d| && d[i].0 == k;
      assert d[1..][i - 1].0 == k;
    }
    if HasKey(d[1..], k) {
      var i :| 0 <= i < |d| - 1 && d[1..][i].0 == k;
      assert d[i + 1].0 == k;
    }
  }

  /** `d[k] = v`: overwrite in place when the key exists, append otherwise. */
  function Put<V>(d: Dict<V>, k: string, v: V): (r: Dict<V>)
    ensures !HasKey(d, k) ==> r == d + [(k, v)]
    ensures Keys(r) == if HasKey(d, k) then Keys(d) else Keys(d) + [k]
  {
    if |d| == 0 then [(k, v)]
    else if d[0].0 == k then [(k, v)] + d[1..]
    else
      HasKeyTail(d, k);
      [d[0]] + Put(d[1..], k, v)
  }

  /** After `d[k] = v`, `k` reads `v` and every other key reads as before. */
  lemma {:induction false} PutGet<V>(d: Dict<V>, k: string, v: V, k': string)
    ensures Get(Put(d, k, v), k) == Some(v)
    ensures k' != k ==> Get(Put(d, k, v), k') == Get(d, k')
  {
    if |d| > 0 && d[0].0 != k {
      PutGet(d[1..], k, v, k');
      assert Put(d, k, v)[1..] == Put(d[1..], k, v);
    }
  }

  /** Two key-disjoint records with distinct keys concatenate to one with distinct keys. */
  lemma DistinctConcat<V>(a: Dict<V>, b: Dict<V>)
    requires DistinctKeys(a) && DistinctKeys(b)
    requires forall i, j :: 0 <= i < |a| && 0 <= j < |b| ==> a[i].0 != b[j].0
    ensures DistinctKeys(a + b)
  {
    forall i, j | 0 <= i < j < |a + b|
      ensures (a + b)[i].0 != (a + b)[j].0
    {
      if j < |a| {
        assert (a + b)[i] == a[i] && (a + b)[j] == a[j];
      } else if i >= |a| {
        assert (a + b)[i] == b[i - |a|] && (a + b)[j] == b[j - |a|];
      } else {
        assert (a + b)[i] == a[i] && (a + b)[j] == b[j - |a|];
      }
    }
  }

  /** The assignments `d[k] = v` for every entry of `entries`, in order. */
  function PutAll<V>(d: Dict<V>, entries: Dict<V>): Dict<V>
    decreases |entries|
  {
    if |entries| == 0 then d else PutAll(Put(d, entries[0].0, entries[0].1), entries[1..])
  }

  lemma PutAllOne<V>(d: Dict<V>, k: string, v: V)
    ensures PutAll(d, [(k, v)]) == Put(d, k, v)
  {
    assert [(k, v)][1..] == [];
  }

  lemma PutAllPair<V>(d: Dict<V>, k1: string, v1: V, k2: string, v2: V)
    ensures PutAll(d, [(k1, v1), (k2, v2)]) == Put(Put(d, k1, v1), k2, v2)
  {
    assert [(k1, v1), (k2, v2)][1..] == [(k2, v2)];
    PutAllOne(Put(d, k1, v1), k2, v2);
  }

  /** When no key repeats, the assignments simply append: nothing is overwritten. */
  lemma {:induction false} PutAllFresh<V>(d: Dict<V>, entries: Dict<V>)
    requires DistinctKeys(d + entries)
    ensures PutAll(d, entries) == d + entries
    decreases |entries|
  {
    if |entries| > 0 {
      var e := entries[0];
      forall i | 0 <= i < |d|
        ensures d[i].0 != e.0
      {
        assert (d + entries)[i] == d[i] && (d + entries)[|d|] == e;
      }
      assert d + [e] + entries[1..] == d + entries;
      PutAllFresh(d + [e], entries[1..]);
    }
  }

  /** The value of the last entry with key `k`: the one a run of assignments leaves behind. */
  function LastValue<V>(entries: Dict<V>, k: string): (r: Option<V>)
    ensures r.None? <==> !HasKey(entries, k)
    decreases |entries|
  {
    if |entries| == 0 then None
    else if entries[|entries| - 1].0 == k then Some(entries[|entries| - 1].1)
    else
      var r := LastValue(entries[..|entries| - 1], k);
      assert HasKey(entries, k) <==> HasKey(entries[..|entries| - 1], k) by {
        if HasKey(entries, k) {
          var i :| 0 <= i < |entries| && entries[i].0 == k;
          assert entries[..|entries| - 1][i].0 == k;
        }
        if HasKey(entries[..|entries| - 1], k) {
          var i :| 0 <= i < |entries| - 1 && entries[..|entries| - 1][i].0 == k;
          assert entries[i].0 == k;
        }
      }
      r
  }

  /** Peeling the first assignment off: a later assignment to the same key wins. */
  lemma LastValueFront<V>(entries: Dict<V>, k: string)
    requires |entries| > 0
    ensures LastValue(entries, k)
            == if HasKey(entries[1..], k) then LastValue(entries[1..], k)
               else if entries[0].0 == k then Some(entries[0].1) else None
    decreases |entries|
  {
    if |entries| > 1 {
      var e := entries;
      var n := |e| - 1;
      if e[n].0 != k {
        LastValueFront(e[..n], k);
        assert e[..n][1..] == e[1..][..n - 1];
        assert e[1..][n - 1] == e[n];
      } else {
        assert e[1..][n - 1] == e[n];
      }
    }
  }

  /**
   * Last writer wins: after a run of assignments, a key reads the value of
   * its last assignment, and a key never assigned reads as before.
   */
  lemma {:induction false} PutAllGet<V>(d: Dict<V>, entries: Dict<V>, k: string)
    ensures Get(PutAll(d, entries), k) == if HasKey(entries, k) then LastValue(entries, k) else Get(d, k)
    decreases |entries|
  {
    if |entries| > 0 {
      var e := entries[0];
      PutAllGet(Put(d, e.0, e.1), entries[1..], k);
      PutGet(d, e.0, e.1, k);
      LastValueFront(entries, k);
      HasKeyFront(entries, k);
    }
  }

  lemma HasKeyFront<V>(d: Dict<V>, k: string)
    requires |d| > 0
    ensures HasKey(d, k) <==> d[0].0 == k || HasKey(d[1..], k)
  {
    if HasKey(d[1..], k) {
      var i :| 0 <= i < |d| - 1 && d[1..][i].0 == k;
      assert d[i + 1].0 == k;
    }
    if d[0].0 != k {
      HasKeyTail(d, k);
    }
  }

  /** Two runs of assignments one after the other are one run. */
  lemma {:induction false} PutAllConcat<V>(d: Dict<V>, a: Dict<V>, b: Dict<V>)
    ensures PutAll(d, a + b) == PutAll(PutAll(d, a), b)
    decreases |a|
  {
    if |a| > 0 {
      assert (a + b)[0] == a[0] && (a + b)[1..] == a[1..] + b;
      PutAllConcat(Put(d, a[0].0, a[0].1), a[1..], b);
    } else {
      assert a + b == b;
    }
  }

  /** `delete d[k]`: every entry with key `k` goes, the others keep their order. */
  function Remove<V>(d: Dict<V>, k: string): (r: Dict<V>)
    ensures |r| <= |d|
    ensures Get(r, k) == None
    ensures forall k' :: k' != k ==> Get(r, k') == Get(d, k')
  {
    if |d| == 0 then []
    else if d[0].0 == k then Remove(d[1..], k)
    else
      var rest := Remove(d[1..], k);
      assert ([d[0]] + rest)[1..] == rest;
      [d[0]] + rest
  }

  /** Removing a key that is not there changes nothing. */
  lemma {:induction false} RemoveAbsent<V>(d: Dict<V>, k: string)
    requires !HasKey(d, k)
    ensures Remove(d, k) == d
  {
    if |d| > 0 {
      assert d[0].0 != k;
      HasKeyTail(d, k);
      RemoveAbsent(d[1..], k);
      assert [d[0]] + d[1..] == d;
    }
  }

  /** Distinct keys, one entry at a time. */
  lemma DistinctCons<V>(d: Dict<V>)
    requires |d| > 0
    ensures DistinctKeys(d) <==> !HasKey(d[1..], d[0].0) && DistinctKeys(d[1..])
  {
    if DistinctKeys(d) {
      forall i | 0 <= i < |d| - 1
        ensures d[1..][i].0 != d[0].0
      {
        assert d[1..][i] == d[i + 1];
      }
      forall i, j | 0 <= i < j < |d| - 1
        ensures d[1..][i].0 != d[1..][j].0
      {
        assert d[1..][i] == d[i + 1] && d[1..][j] == d[j + 1];
      }
    }
    if !HasKey(d[1..], d[0].0) && DistinctKeys(d[1..]) {
      forall i, j | 0 <= i < j < |d|
        ensures d[i].0 != d[j].0
      {
        assert d[j] == d[1..][j - 1];
        if i > 0 {
          assert d[i] == d[1..][i - 1];
        }
      }
    }
  }

  /** Removing a key keeps the keys distinct. */
  lemma {:induction false} RemoveDistinct<V>(d: Dict<V>, k: string)
    requires DistinctKeys(d)
    ensures DistinctKeys(Remove(d, k))
  {
    if |d| > 0 {
      DistinctCons(d);
      RemoveDistinct(d[1..], k);
      if d[0].0 != k {
        var r := Remove(d, k);
        assert r[1..] == Remove(d[1..], k);
        assert Get(r[1..], d[0].0) == Get(d[1..], d[0].0);
        DistinctCons(r);
      }
    }
  }

  /** Assigning to a key keeps the keys distinct. */
  lemma PutDistinct<V>(d: Dict<V>, k: string, v: V)
    requires DistinctKeys(d)
    ensures DistinctKeys(Put(d, k, v))
  {
    var r := Put(d, k, v);
    if HasKey(d, k) {
      assert Keys(r) == Keys(d);
      assert forall i :: 0 <= i < |r| ==> r[i].0 == Keys(r)[i] == Keys(d)[i] == d[i].0;
    } else {
      assert r == d + [(k, v)];
      DistinctConcat(d, [(k, v)]);
    }
  }

  /** The sum of `size` over the values: a directory's size from its files' sizes. */
  function Total<V>(d: Dict<V>, size: V -> nat): nat {
    if |d| == 0 then 0 else size(d[0].1) + Total(d[1..], size)
  }

  lemma {:induction false} TotalConcat<V>(a: Dict<V>, b: Dict<V>, size: V -> nat)
    ensures Total(a + b, size) == Total(a, size) + Total(b, size)
  {
    if |a| > 0 {
      assert (a + b)[0] == a[0] && (a + b)[1..] == a[1..] + b;
      TotalConcat(a[1..], b, size);
    } else {
      assert a + b == b;
    }
  }

  /** A new key adds its value's size. */
  lemma TotalPutFresh<V>(d: Dict<V>, k: string, v: V, size: V -> nat)
    requires !HasKey(d, k)
    ensures Total(Put(d, k, v), size) == Total(d, size) + size(v)
  {
    TotalConcat(d, [(k, v)], size);
  }

  /** The size of what `Get` finds, or nothing. */
  function SizeAt<V>(d: Dict<V>, k: string, size: V -> nat): nat {
    match Get(d, k)
    case Some(v) => size(v)
    case None => 0
  }

  /** Removing a key takes away exactly the size of its value. */
  lemma {:induction false} TotalRemove<V>(d: Dict<V>, k: string, size: V -> nat)
    requires DistinctKeys(d)
    ensures Total(Remove(d, k), size) + SizeAt(d, k, size) == Total(d, size)
  {
    if |d| > 0 {
      DistinctCons(d);
      if d[0].0 == k {
        RemoveAbsent(d[1..], k);
      } else {
        TotalRemove(d[1..], k, size);
        assert Remove(d, k)[1..] == Remove(d[1..], k);
      }
    }
  }

  /** With distinct keys, every entry is the one its key finds. */
  lemma {:induction false} GetDistinct<V>(d: Dict<V>, i: nat)
    requires DistinctKeys(d) && i < |d|
    ensures Get(d, d[i].0) == Some(d[i].1)
  {
    if i > 0 {
      DistinctCons(d);
      assert d[i] == d[1..][i - 1];
      GetDistinct(d[1..], i - 1);
    }
  }
}
