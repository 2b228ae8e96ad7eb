/** A PHP array with integer keys, as both repositories use it: entries in insertion
    order, at most one per key. Assigning to an existing key keeps its position;
    assigning to a new key appends; `unset` drops the entry; `array_filter` keeps the
    surviving entries with their keys. */
module PhpArray {
  import opened Wrappers

  datatype Entry<V> = Entry(key: int, value: V)

  function Keys<V>(a: seq<Entry<V>>): (ks: seq<int>)
    ensures |ks| == |a| && forall i :: 0 <= i < |a| ==> ks[i] == a[i].key
  {
    seq(|a|, i requires 0 <= i < |a| => a[i].key)
  }

  /** `array_values($a)`: the values in insertion order. */
  function Values<V>(a: seq<Entry<V>>): (vs: seq<V>)
    ensures |vs| == |a| && forall i :: 0 <= i < |a| ==> vs[i] == a[i].value
  {
    seq(|a|, i requires 0 <= i < |a| => a[i].value)
  }

  /** The key of a stored entry is one of the array's keys. */
  lemma KeyOfMember<V>(a: seq<Entry<V>>, e: Entry<V>)
    requires e in a
    ensures e.key in Keys(a)
  {
    var i :| 0 <= i < |a| && a[i] == e;
    assert Keys(a)[i] == e.key;
  }

  predicate DistinctKeys<V>(a: seq<Entry<V>>) {
    forall i, j :: 0 <= i < j < |a| ==> a[i].key != a[j].key
  }

  /** `$a[$k] ?? null`. */
  function Get<V>(a: seq<Entry<V>>, k: int): (r: Option<V>)
    ensures r.None? <==> k !in Keys(a)
    ensures r.Some? ==> Entry(k, r.value) in a
  {
    if |a| == 0 then None
    else if a[0].key == k then Some(a[0].value)
    else
      assert Keys(a) == [a[0].key] + Keys(a[1..]);
      Get(a[1..], k)
  }

  /** With distinct keys, looking up a stored key finds its entry. */
  lemma {:induction false} GetStored<V>(a: seq<Entry<V>>, i: int)
    requires DistinctKeys(a) && 0 <= i < |a|
    ensures Get(a, a[i].key) == Some(a[i].value)
    decreases |a|
  {
    if i > 0 {
      assert a[0].key != a[i].key;
      GetStored(a[1..], i - 1);
    }
  }

  /** `$a[$k] = $v`. */
  function Put<V>(a: seq<Entry<V>>, k: int, v: V): (r: seq<Entry<V>>)
    ensures k !in Keys(a) ==> r == a + [Entry(k, v)]
    ensures k in Keys(a) ==> Keys(r) == Keys(a)
    ensures k in Keys(a) ==> forall i :: 0 <= i < |a| && a[i].key != k ==> r[i] == a[i]
    ensures Get(r, k) == Some(v)
    ensures forall k' :: k' != k ==> Get(r, k') == Get(a, k')
    ensures DistinctKeys(a) ==> DistinctKeys(r)
  {
    if k in Keys(a) then
      var r := seq(|a|, i requires 0 <= i < |a| => if a[i].key == k then Entry(k, v) else a[i]);
      assert Keys(r) == Keys(a);
      ReplaceGet(a, r, k, v, k);
      forall k' | k' != k ensures Get(r, k') == Get(a, k') {
        ReplaceGet(a, r, k, v, k');
      }
      r
    else
      var r := a + [Entry(k, v)];
      AppendGet(a, k, v, k);
      forall k' | k' != k ensures Get(r, k') == Get(a, k') {
        AppendGet(a, k, v, k');
      }
      r
  }

  lemma {:induction false} ReplaceGet<V>(a: seq<Entry<V>>, r: seq<Entry<V>>, k: int, v: V, k': int)
    requires |r| == |a|
    requires forall i :: 0 <= i < |a| ==> r[i] == if a[i].key == k then Entry(k, v) else a[i]
    ensures k' == k && k in Keys(a) ==> Get(r, k') == Some(v)
    ensures k' != k ==> Get(r, k') == Get(a, k')
    decreases |a|
  {
    if |a| > 0 && a[0].key != k' {
      assert Keys(a) == [a[0].key] + Keys(a[1..]);
      assert r[0].key != k';
      ReplaceGet(a[1..], r[1..], k, v, k');
    }
  }

  lemma {:induction false} AppendGet<V>(a: seq<Entry<V>>, k: int, v: V, k': int)
    requires k !in Keys(a)
    ensures k' == k ==> Get(a + [Entry(k, v)], k') == Some(v)
    ensures k' != k ==> Get(a + [Entry(k, v)], k') == Get(a, k')
    decreases |a|
  {
    var r := a + [Entry(k, v)];
    if |a| > 0 && a[0].key != k' {
      assert r[1..] == a[1..] + [Entry(k, v)];
      assert Keys(a) == [a[0].key] + Keys(a[1..]);
      AppendGet(a[1..], k, v, k');
    }
  }

  /** `unset($a[$k])`. */
  function Remove<V>(a: seq<Entry<V>>, k: int): (r: seq<Entry<V>>)
    ensures |r| <= |a|
    ensures forall i :: 0 <= i < |r| ==> r[i] in a && r[i].key != k
  {
    if |a| == 0 then []
    else if a[0].key == k then Remove(a[1..], k)
    else [a[0]] + Remove(a[1..], k)
  }

  /** `unset` drops exactly the entry under `k`: every other entry survives, in order,
      and removing an absent key changes nothing. */
  lemma RemoveKeeps<V>(a: seq<Entry<V>>, k: int)
    ensures k !in Keys(Remove(a, k))
    ensures forall i :: 0 <= i < |a| && a[i].key != k ==> a[i] in Remove(a, k)
    ensures k !in Keys(a) ==> Remove(a, k) == a
    ensures DistinctKeys(a) && k in Keys(a) ==>
      exists i :: 0 <= i < |a| && a[i].key == k && Remove(a, k) == a[..i] + a[i + 1..]
  {
    RemoveDropsKey(a, k);
    RemoveKeepsOthers(a, k);
    if k !in Keys(a) {
      RemoveAbsent(a, k);
    } else if DistinctKeys(a) {
      var i := RemoveSplice(a, k);
    }
  }

  /** With distinct keys, `unset` of a stored key cuts its one entry out and leaves the
      entries before and after it in place. */
  lemma {:induction false} RemoveSplice<V>(a: seq<Entry<V>>, k: int) returns (i: nat)
    requires DistinctKeys(a) && k in Keys(a)
    ensures i < |a| && a[i].key == k && Remove(a, k) == a[..i] + a[i + 1..]
    decreases |a|
  {
    KeysCons(a);
    DistinctTail(a);
    if a[0].key == k {
      RemoveAbsent(a[1..], k);
      i := 0;
    } else {
      var j := RemoveSplice(a[1..], k);
      i := j + 1;
      ConsSplice(a, j);
    }
  }

  /** Cutting position `j` out of the tail and putting the head back cuts position
      `j + 1` out of the whole. */
  lemma ConsSplice<T>(a: seq<T>, j: nat)
    requires j + 1 < |a|
    ensures [a[0]] + (a[1..][..j] + a[1..][j + 1..]) == a[..j + 1] + a[j + 2..]
  {
    assert a[1..][..j] == a[1..j + 1] && a[1..][j + 1..] == a[j + 2..];
    assert [a[0]] + a[1..j + 1] == a[..j + 1];
  }

  lemma RemoveDropsKey<V>(a: seq<Entry<V>>, k: int)
    ensures k !in Keys(Remove(a, k))
  {
    var r := Remove(a, k);
    assert forall i :: 0 <= i < |r| ==> Keys(r)[i] != k;
  }

  lemma {:induction false} RemoveKeepsOthers<V>(a: seq<Entry<V>>, k: int)
    ensures forall i :: 0 <= i < |a| && a[i].key != k ==> a[i] in Remove(a, k)
    decreases |a|
  {
    if |a| > 0 {
      RemoveKeepsOthers(a[1..], k);
      forall i | 0 <= i < |a| && a[i].key != k ensures a[i] in Remove(a, k) {
        if i > 0 {
          assert a[i] == a[1..][i - 1];
        }
      }
    }
  }

  lemma {:induction false} RemoveAbsent<V>(a: seq<Entry<V>>, k: int)
    requires k !in Keys(a)
    ensures Remove(a, k) == a
    decreases |a|
  {
    if |a| > 0 {
      assert Keys(a) == [a[0].key] + Keys(a[1..]);
      RemoveAbsent(a[1..], k);
      assert a == [a[0]] + a[1..];
    }
  }

  lemma {:induction false} RemoveDistinct<V>(a: seq<Entry<V>>, k: int)
    requires DistinctKeys(a)
    ensures DistinctKeys(Remove(a, k))
    decreases |a|
  {
    if |a| > 0 && a[0].key != k {
      RemoveDistinct(a[1..], k);
      var rest := Remove(a[1..], k);
      var r := [a[0]] + rest;
      assert r == Remove(a, k);
      forall i, j | 0 <= i < j < |r| ensures r[i].key != r[j].key {
        if i == 0 {
          assert r[j] == rest[j - 1] && rest[j - 1] in a[1..];
          var m :| 0 <= m < |a[1..]| && a[1..][m] == r[j];
          assert a[m + 1] == r[j];
        } else {
          assert r[i] == rest[i - 1] && r[j] == rest[j - 1];
        }
      }
    } else if |a| > 0 {
      RemoveDistinct(a[1..], k);
    }
  }

  /** The keys of an array are its first key followed by the keys of the rest. */
  lemma KeysCons<V>(a: seq<Entry<V>>)
    requires |a| > 0
    ensures Keys(a) == [a[0].key] + Keys(a[1..])
  {
  }

  /** With distinct keys, the rest of the array has distinct keys and not the first. */
  lemma DistinctTail<V>(a: seq<Entry<V>>)
    requires |a| > 0 && DistinctKeys(a)
    ensures DistinctKeys(a[1..]) && a[0].key !in Keys(a[1..])
  {
    forall i | 0 <= i < |a| - 1 ensures Keys(a[1..])[i] != a[0].key {
      assert a[1..][i] == a[i + 1];
    }
  }

  lemma {:induction false} RemoveCount<V>(a: seq<Entry<V>>, k: int)
    requires DistinctKeys(a) && k in Keys(a)
    ensures |Remove(a, k)| == |a| - 1
    decreases |a|
  {
    KeysCons(a);
    DistinctTail(a);
    if a[0].key == k {
      RemoveAbsent(a[1..], k);
    } else {
      RemoveCount(a[1..], k);
    }
  }

  /** Removing a key leaves every lookup of another key as it was. */
  lemma {:induction false} RemoveGetOther<V>(a: seq<Entry<V>>, k: int, k': int)
    requires k' != k
    ensures Get(Remove(a, k), k') == Get(a, k')
    decreases |a|
  {
    if |a| > 0 {
      RemoveGetOther(a[1..], k, k');
      if a[0].key != k {
        var r := [a[0]] + Remove(a[1..], k);
        assert r[1..] == Remove(a[1..], k);
      }
    }
  }

  /** `unset($a[$k])` followed by `$a[$k] ?? null` gives null, and every other lookup is
      unchanged. */
  lemma RemoveGet<V>(a: seq<Entry<V>>, k: int)
    ensures Get(Remove(a, k), k) == None
    ensures forall k' :: k' != k ==> Get(Remove(a, k), k') == Get(a, k')
  {
    RemoveDropsKey(a, k);
    forall k' | k' != k ensures Get(Remove(a, k), k') == Get(a, k') {
      RemoveGetOther(a, k, k');
    }
  }

  /** `array_filter($a, $p)`: the entries whose value satisfies `p`, keys and order kept
      (the order is `FilterInOrder`'s). */
  function Filter<V>(a: seq<Entry<V>>, p: V -> bool): (r: seq<Entry<V>>)
    ensures |r| <= |a|
    ensures forall i :: 0 <= i < |r| ==> r[i] in a && p(r[i].value)
    ensures forall i :: 0 <= i < |a| && p(a[i].value) ==> a[i] in r
    ensures DistinctKeys(a) ==> DistinctKeys(r)
  {
    if |a| == 0 then []
    else
      var rest := Filter(a[1..], p);
      if p(a[0].value) then
        var r := [a[0]] + rest;
        assert DistinctKeys(a) ==> DistinctKeys(r) by {
          if DistinctKeys(a) {
            forall j | 0 < j < |r| ensures r[0].key != r[j].key {
              assert r[j] in a[1..];
            }
          }
        }
        r
      else rest
  }

  /** Every position shifted one place right, for the tail of an array. */
  function Shift(ix: seq<nat>): (r: seq<nat>)
    ensures |r| == |ix| && forall i :: 0 <= i < |ix| ==> r[i] == ix[i] + 1
  {
    seq(|ix|, i requires 0 <= i < |ix| => ix[i] + 1)
  }

  /** The positions of `a`, in ascending order, whose value satisfies `p`. */
  function Kept<V>(a: seq<Entry<V>>, p: V -> bool): (ix: seq<nat>)
    ensures forall i :: 0 <= i < |ix| ==> ix[i] < |a|
    ensures forall i, j :: 0 <= i < j < |ix| ==> ix[i] < ix[j]
    decreases |a|
  {
    if |a| == 0 then []
    else
      var rest := Shift(Kept(a[1..], p));
      if p(a[0].value) then [0] + rest else rest
  }

  /** `Kept` lists exactly the positions whose value satisfies `p`. */
  lemma {:induction false} KeptExactly<V>(a: seq<Entry<V>>, p: V -> bool, j: int)
    requires 0 <= j < |a|
    ensures j in Kept(a, p) <==> p(a[j].value)
    decreases |a|
  {
    var rest := Kept(a[1..], p);
    ShiftMember(rest, j);
    if j > 0 {
      KeptExactly(a[1..], p, j - 1);
      assert a[1..][j - 1] == a[j];
    }
  }

  /** `j` is a shifted position exactly when `j - 1` was a position; 0 never is. */
  lemma ShiftMember(ix: seq<nat>, j: int)
    ensures j in Shift(ix) <==> j > 0 && (j - 1) in ix
  {
    var sh := Shift(ix);
    if j in sh {
      var m :| 0 <= m < |sh| && sh[m] == j;
      assert ix[m] == j - 1;
    }
    if j > 0 && (j - 1) in ix {
      var m :| 0 <= m < |ix| && ix[m] == j - 1;
      assert sh[m] == j;
    }
  }

  /** `array_filter` keeps the survivors in their original order: its result reads `a`
      at the ascending positions `Kept(a, p)`, and nowhere else. */
  lemma {:induction false} FilterInOrder<V>(a: seq<Entry<V>>, p: V -> bool)
    ensures |Filter(a, p)| == |Kept(a, p)|
    ensures forall i :: 0 <= i < |Filter(a, p)| ==> Filter(a, p)[i] == a[Kept(a, p)[i]]
    decreases |a|
  {
    if |a| > 0 {
      FilterInOrder(a[1..], p);
      var rest, ks := Filter(a[1..], p), Kept(a[1..], p);
      forall i | 0 <= i < |rest| ensures rest[i] == a[Shift(ks)[i]] {
        assert a[1..][ks[i]] == a[ks[i] + 1];
      }
    }
  }

  function Not<V>(p: V -> bool): V -> bool {
    v => !p(v)
  }

  /** A predicate and its negation split an array: their filters' sizes add up. */
  lemma {:induction false} FilterPartition<V>(a: seq<Entry<V>>, p: V -> bool)
    ensures |Filter(a, p)| + |Filter(a, Not(p))| == |a|
  {
    if |a| > 0 {
      FilterPartition(a[1..], p);
    }
  }

  /** Filtering by a predicate every value satisfies changes nothing. */
  lemma {:induction false} FilterAll<V>(a: seq<Entry<V>>, p: V -> bool)
    requires forall i :: 0 <= i < |a| ==> p(a[i].value)
    ensures Filter(a, p) == a
  {
    if |a| > 0 {
      FilterAll(a[1..], p);
    }
  }

  /** The first surviving entry of `array_filter` is the first entry, in insertion
      order, whose value satisfies `p`; nothing survives exactly when none does. */
  lemma {:induction false} FilterFirst<V>(a: seq<Entry<V>>, p: V -> bool)
    ensures |Filter(a, p)| > 0 <==> exists i :: 0 <= i < |a| && p(a[i].value)
    ensures |Filter(a, p)| > 0 ==>
      exists i :: 0 <= i < |a| && a[i] == Filter(a, p)[0] && forall j :: 0 <= j < i ==> !p(a[j].value)
  {
    if |a| > 0 {
      FilterFirst(a[1..], p);
      if !p(a[0].value) {
        if exists i :: 0 <= i < |a| && p(a[i].value) {
          var i :| 0 <= i < |a| && p(a[i].value);
          assert a[1..][i - 1] == a[i];
        }
        if |Filter(a, p)| > 0 {
          var i :| 0 <= i < |a[1..]| && a[1..][i] == Filter(a, p)[0]
            && forall j :: 0 <= j < i ==> !p(a[1..][j].value);
          assert a[i + 1] == Filter(a, p)[0];
          forall j | 0 <= j < i + 1 ensures !p(a[j].value) {
            if j > 0 {
              assert a[j] == a[1..][j - 1];
            }
          }
        }
      }
    }
  }

  /** Filters with predicates that agree on the stored values give the same result. */
  lemma {:induction false} FilterCongruent<V>(a: seq<Entry<V>>, p: V -> bool, q: V -> bool)
    requires forall i :: 0 <= i < |a| ==> p(a[i].value) == q(a[i].value)
    ensures Filter(a, p) == Filter(a, q)
  {
    if |a| > 0 {
      FilterCongruent(a[1..], p, q);
    }
  }
}
