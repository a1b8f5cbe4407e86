/**
 * The bookkeeping of `android.util.LruCache` as the disk caches use it: an
 * access-ordered table of entries (eldest first), a running total of the
 * entries' sizes, and `trimToSize`, which evicts the eldest entry while the
 * total exceeds the bound.
 */
module Lru {

  /** One cache entry: a file name and the size charged for it. */
  datatype Entry = Entry(name: string, size: nat)

  /** The total charged size of a sequence of entries (LruCache's `size`). */
  function Total(es: seq<Entry>): nat {
    if es == [] then 0 else es[0].size + Total(es[1..])
  }

  function Names(es: seq<Entry>): (ns: seq<string>)
    ensures |ns| == |es|
    ensures forall i :: 0 <= i < |es| ==> ns[i] == es[i].name
  {
    if es == [] then [] else [es[0].name] + Names(es[1..])
  }

  /** An access-ordered map holds each key once. */
  predicate Distinct(es: seq<Entry>) {
    forall i, j :: 0 <= i < j < |es| ==> es[i].name != es[j].name
  }

  predicate Has(es: seq<Entry>, k: string) {
    exists i :: 0 <= i < |es| && es[i].name == k
  }

  /** The entries without key k: `map.remove(k)`. */
  function Without(es: seq<Entry>, k: string): (r: seq<Entry>)
    ensures |r| <= |es|
  {
    if es == [] then []
    else (if es[0].name == k then [] else [es[0]]) + Without(es[1..], k)
  }

  /** No entry for k is left, and removing an absent key changes nothing. */
  lemma {:induction false} WithoutLacks(es: seq<Entry>, k: string)
    ensures forall i :: 0 <= i < |Without(es, k)| ==> Without(es, k)[i].name != k
    ensures !Has(es, k) ==> Without(es, k) == es
  {
    if es != [] {
      WithoutLacks(es[1..], k);
      var head: seq<Entry> := if es[0].name == k then [] else [es[0]];
      var w := Without(es, k);
      assert w == head + Without(es[1..], k);
      forall i | 0 <= i < |w| ensures w[i].name != k {
        if i >= |head| {
          assert w[i] == Without(es[1..], k)[i - |head|];
        }
      }
      if !Has(es, k) {
        assert !Has(es[1..], k) by {
          forall j | 0 <= j < |es[1..]| ensures es[1..][j].name != k {
            assert es[1..][j] == es[j + 1];
          }
        }
        assert es[0].name != k;
        assert es == [es[0]] + es[1..];
      }
    }
  }

  /** `put`: the key moves to the youngest end with its new size, before trimming. */
  function Touch(es: seq<Entry>, e: Entry): seq<Entry> {
    Without(es, e.name) + [e]
  }

  /**
   * `trimToSize(max)`: drop the eldest entry while the total exceeds max.
   * `evictAll` is `trimToSize(-1)`, hence the integer bound.
   */
  function Trim(es: seq<Entry>, max: int): (r: seq<Entry>)
    ensures max >= 0 ==> Total(r) <= max
    ensures max < 0 ==> r == []
  {
    if Total(es) <= max then es else if es == [] then [] else Trim(es[1..], max)
  }

  /** What `trimToSize` keeps is a suffix: it only ever removes the eldest entry. */
  lemma {:induction false} TrimSuffix(es: seq<Entry>, max: int)
    ensures |Trim(es, max)| <= |es|
    ensures Trim(es, max) == es[|es| - |Trim(es, max)|..]
  {
    if Total(es) > max && es != [] {
      TrimSuffix(es[1..], max);
    }
  }

  /** The entries `trimToSize` evicts, eldest first. */
  function Evicted(es: seq<Entry>, max: int): (ev: seq<Entry>)
    ensures ev + Trim(es, max) == es
  {
    TrimSuffix(es, max);
    es[..|es| - |Trim(es, max)|]
  }

  /** `LruCache.put(k, v)` followed by its `trimToSize(maxSize)`. */
  function Put(es: seq<Entry>, e: Entry, max: int): seq<Entry> {
    Trim(Touch(es, e), max)
  }

  // ---------------------------------------------------------------- totals

  lemma {:induction false} TotalAppend(a: seq<Entry>, b: seq<Entry>)
    ensures Total(a + b) == Total(a) + Total(b)
  {
    if a == [] {
      assert a + b == b;
    } else {
      assert (a + b)[1..] == a[1..] + b;
      TotalAppend(a[1..], b);
    }
  }

  /** A suffix never weighs more than the whole. */
  lemma SuffixTotal(es: seq<Entry>, i: nat)
    requires i <= |es|
    ensures Total(es[i..]) <= Total(es)
  {
    assert es == es[..i] + es[i..];
    TotalAppend(es[..i], es[i..]);
  }

  /** Removing a key that is present subtracts exactly its size. */
  lemma {:induction false} WithoutTotal(es: seq<Entry>, k: string, i: nat)
    requires Distinct(es)
    requires i < |es| && es[i].name == k
    ensures Total(Without(es, k)) + es[i].size == Total(es)
  {
    if i == 0 {
      assert !Has(es[1..], k) by {
        forall j | 0 <= j < |es[1..]| ensures es[1..][j].name != k {
          assert es[1..][j] == es[j + 1];
        }
      }
      var tail := es[1..];
      WithoutLacks(tail, k);
      assert Without(tail, k) == tail;
      assert Without(es, k) == [] + Without(tail, k);
      assert Without(es, k) == tail;
    } else {
      assert Distinct(es[1..]) by {
        forall a, b | 0 <= a < b < |es[1..]| ensures es[1..][a].name != es[1..][b].name {
          assert es[1..][a] == es[a + 1] && es[1..][b] == es[b + 1];
        }
      }
      assert es[0].name != k;
      WithoutTotal(es[1..], k, i - 1);
      assert Without(es, k) == [es[0]] + Without(es[1..], k);
      TotalAppend([es[0]], Without(es[1..], k));
    }
  }

  lemma {:induction false} WithoutAppend(a: seq<Entry>, b: seq<Entry>, k: string)
    ensures Without(a + b, k) == Without(a, k) + Without(b, k)
  {
    if a == [] {
      assert a + b == b;
    } else {
      var t := a + b;
      assert t[0] == a[0] && t[1..] == a[1..] + b;
      WithoutAppend(a[1..], b, k);
      var head: seq<Entry> := if a[0].name == k then [] else [a[0]];
      var x, y := Without(a[1..], k), Without(b, k);
      assert Without(t, k) == head + (x + y);
      assert head + (x + y) == (head + x) + y;
    }
  }

  // ---------------------------------------------------------- trimming

  /**
   * `trimToSize` stops at the LONGEST suffix that fits: every suffix longer
   * than the one it keeps exceeds the bound.
   */
  lemma {:induction false} TrimKeepsLongest(es: seq<Entry>, max: int, len: nat)
    requires 0 < len <= |es|
    requires Total(es[|es| - len..]) > max
    ensures |Trim(es, max)| < len
  {
    SuffixTotal(es, |es| - len);
    assert Trim(es, max) == Trim(es[1..], max);
    TrimSuffix(es[1..], max);
    if len < |es| {
      var t := es[1..];
      assert t[|t| - len..] == es[|es| - len..];
      TrimKeepsLongest(t, max, len);
    }
  }

  /** Trimming a suffix that is still longer than the kept part changes nothing. */
  lemma {:induction false} TrimOfSuffix(es: seq<Entry>, max: int, i: nat)
    requires i <= |es|
    requires |Trim(es, max)| <= |es| - i
    ensures Trim(es[i..], max) == Trim(es, max)
  {
    if i > 0 {
      assert Total(es) > max;
      assert Trim(es, max) == Trim(es[1..], max);
      assert es[1..][i - 1..] == es[i..];
      TrimOfSuffix(es[1..], max, i - 1);
    }
  }

  /** `trimToSize` is idempotent: a trimmed table no longer exceeds the bound. */
  lemma TrimIdempotent(es: seq<Entry>, max: int)
    ensures Trim(Trim(es, max), max) == Trim(es, max)
  {
  }

  /** A distinct table stays distinct under removal, touching and trimming. */
  lemma HasSplit(es: seq<Entry>, x: string)
    requires es != []
    ensures Has(es, x) <==> es[0].name == x || Has(es[1..], x)
  {
    if Has(es[1..], x) {
      var j :| 0 <= j < |es[1..]| && es[1..][j].name == x;
      assert es[j + 1].name == x;
    }
    if Has(es, x) && es[0].name != x {
      var i :| 0 <= i < |es| && es[i].name == x;
      assert es[1..][i - 1] == es[i];
    }
  }

  lemma HasConcat(a: seq<Entry>, b: seq<Entry>, x: string)
    ensures Has(a + b, x) <==> Has(a, x) || Has(b, x)
  {
    if Has(a + b, x) {
      var i :| 0 <= i < |a + b| && (a + b)[i].name == x;
      if i >= |a| {
        assert b[i - |a|] == (a + b)[i];
      }
    }
    if Has(b, x) {
      var j :| 0 <= j < |b| && b[j].name == x;
      assert (a + b)[|a| + j] == b[j];
    }
    if Has(a, x) {
      var i :| 0 <= i < |a| && a[i].name == x;
      assert (a + b)[i] == a[i];
    }
  }

  lemma {:induction false} WithoutKeepsOthers(es: seq<Entry>, k: string, x: string)
    requires x != k
    ensures Has(Without(es, k), x) <==> Has(es, x)
  {
    if es != [] {
      WithoutKeepsOthers(es[1..], k, x);
      var head: seq<Entry> := if es[0].name == k then [] else [es[0]];
      HasConcat(head, Without(es[1..], k), x);
      HasSplit(es, x);
    }
  }

  /** The entries after the eldest are distinct and none has the eldest's key. */
  lemma DistinctTail(es: seq<Entry>)
    requires Distinct(es) && es != []
    ensures Distinct(es[1..])
    ensures forall e :: e in es[1..] ==> e.name != es[0].name
  {
    var t := es[1..];
    forall a, b | 0 <= a < b < |t| ensures t[a].name != t[b].name {
      assert t[a] == es[a + 1] && t[b] == es[b + 1];
    }
    forall e | e in t ensures e.name != es[0].name {
      var j :| 0 <= j < |t| && t[j] == e;
      assert t[j] == es[j + 1];
    }
  }

  /** An entry whose key the distinct rest lacks can go in front. */
  lemma DistinctCons(x: Entry, t: seq<Entry>)
    requires Distinct(t) && forall e :: e in t ==> e.name != x.name
    ensures Distinct([x] + t)
  {
    var q := [x] + t;
    forall a, b | 0 <= a < b < |q| ensures q[a].name != q[b].name {
      assert q[b] == t[b - 1] && q[b] in t;
      if a > 0 {
        assert q[a] == t[a - 1];
      }
    }
  }

  /** Removing a key keeps only entries that were there. */
  lemma {:induction false} WithoutMembers(es: seq<Entry>, k: string)
    ensures forall e :: e in Without(es, k) ==> e in es
  {
    if es != [] {
      WithoutMembers(es[1..], k);
      var head: seq<Entry> := if es[0].name == k then [] else [es[0]];
      assert Without(es, k) == head + Without(es[1..], k);
      assert es == [es[0]] + es[1..];
    }
  }

  lemma {:induction false} WithoutSubseq(es: seq<Entry>, k: string)
    requires Distinct(es)
    ensures Distinct(Without(es, k))
    ensures forall e :: e in Without(es, k) ==> e in es
  {
    WithoutMembers(es, k);
    if es != [] {
      DistinctTail(es);
      WithoutSubseq(es[1..], k);
      var tail := Without(es[1..], k);
      if es[0].name == k {
        assert Without(es, k) == tail;
      } else {
        assert Without(es, k) == [es[0]] + tail;
        DistinctCons(es[0], tail);
      }
    }
  }

  lemma TouchDistinct(es: seq<Entry>, e: Entry)
    requires Distinct(es)
    ensures Distinct(Touch(es, e))
  {
    WithoutSubseq(es, e.name);
    WithoutLacks(es, e.name);
    var w := Without(es, e.name);
    forall a, b | 0 <= a < b < |w + [e]|
      ensures (w + [e])[a].name != (w + [e])[b].name
    {
      assert (w + [e])[a] == w[a];
    }
  }

  lemma SuffixDistinct(es: seq<Entry>, i: nat)
    requires Distinct(es) && i <= |es|
    ensures Distinct(es[i..])
  {
    forall a, b | 0 <= a < b < |es[i..]| ensures es[i..][a].name != es[i..][b].name {
      assert es[i..][a] == es[a + i] && es[i..][b] == es[b + i];
    }
  }

  lemma PutDistinct(es: seq<Entry>, e: Entry, max: int)
    requires Distinct(es)
    ensures Distinct(Put(es, e, max))
  {
    TouchDistinct(es, e);
    var t := Touch(es, e);
    TrimSuffix(t, max);
    SuffixDistinct(t, |t| - |Trim(t, max)|);
  }

  // ---------------------------------------------------- the LRU theorem

  /** The table holds an entry for e's key whose size is at most e's. */
  predicate KeptNotShrunk(s: seq<Entry>, e: Entry) {
    exists j :: 0 <= j < |s| && s[j].name == e.name && s[j].size <= e.size
  }

  /**
   * One `put` on a trimmed table ends where the same `put` on the untrimmed
   * table ends, provided the key is new, or is still cached and does not
   * shrink. This is what makes an LRU cache keep the most recent entries.
   */
  lemma PutOnTrimmed(d: seq<Entry>, e: Entry, max: int)
    requires Distinct(d)
    requires !Has(d, e.name) || KeptNotShrunk(Trim(d, max), e)
    ensures Put(Trim(d, max), e, max) == Put(d, e, max)
  {
    var s := Trim(d, max);
    TrimSuffix(d, max);
    var n := |d| - |s|;
    if n == 0 {
      assert s == d;
    } else {
      var p := Evicted(d, max);
      EvictedLackKey(d, e, max);
      TouchHeavier(d, e, max);
      assert p[n - 1] == d[|d| - |s| - 1];
      TouchOfSplit(p, s, e);
      TrimPastPrefix(p, Touch(s, e), max);
    }
  }

  /** Touching a key the prefix lacks leaves the prefix alone. */
  lemma TouchOfSplit(p: seq<Entry>, s: seq<Entry>, e: Entry)
    requires Without(p, e.name) == p
    ensures Touch(p + s, e) == p + Touch(s, e)
  {
    WithoutAppend(p, s, e.name);
    var ws := Without(s, e.name);
    assert (p + ws) + [e] == p + (ws + [e]);
  }

  /**
   * When the last entry of a prefix together with what follows it is too
   * heavy, trimming discards the whole prefix.
   */
  lemma TrimPastPrefix(p: seq<Entry>, rest: seq<Entry>, max: int)
    requires p != []
    requires Total([p[|p| - 1]] + rest) > max
    ensures Trim(p + rest, max) == Trim(rest, max)
  {
    var x := p + rest;
    var n := |p|;
    var tail := [p[n - 1]] + rest;
    assert x[n - 1..] == tail;
    TrimKeepsLongest(x, max, |tail|);
    assert x[n..] == rest;
    TrimOfSuffix(x, max, n);
  }

  /** Under the admissibility condition the evicted entries hold no entry for the key. */
  lemma EvictedLackKey(d: seq<Entry>, e: Entry, max: int)
    requires Distinct(d)
    requires !Has(d, e.name) || KeptNotShrunk(Trim(d, max), e)
    ensures Without(Evicted(d, max), e.name) == Evicted(d, max)
  {
    var s := Trim(d, max);
    var p := Evicted(d, max);
    if Has(d, e.name) {
      var j :| 0 <= j < |s| && s[j].name == e.name && s[j].size <= e.size;
      forall i | 0 <= i < |p| ensures p[i].name != e.name {
        assert p[i] == d[i] && s[j] == d[|p| + j];
      }
    } else {
      forall i | 0 <= i < |p| ensures p[i].name != e.name {
        assert p[i] == d[i];
      }
    }
    assert !Has(p, e.name);
    WithoutLacks(p, e.name);
  }

  /**
   * The last evicted entry, the touched kept part and the new entry together
   * weigh more than the bound.
   */
  lemma TouchHeavier(d: seq<Entry>, e: Entry, max: int)
    requires Distinct(d)
    requires |Trim(d, max)| < |d|
    requires !Has(d, e.name) || KeptNotShrunk(Trim(d, max), e)
    ensures Total([d[|d| - |Trim(d, max)| - 1]] + (Without(Trim(d, max), e.name) + [e])) > max
  {
    var s := Trim(d, max);
    TrimSuffix(d, max);
    var n := |d| - |s|;
    var last := d[n - 1];
    TrimLastEvicted(d, max);
    assert d[n - 1..] == [last] + s;
    SuffixDistinct(d, n);
    if !Has(d, e.name) {
      assert !Has(s, e.name) by {
        forall i | 0 <= i < |s| ensures s[i].name != e.name {
          assert s[i] == d[n + i];
        }
      }
    }
    TouchNotLighter(s, e);
    TotalAppend([last], s);
    TotalAppend([last], Without(s, e.name) + [e]);
  }

  /** Touching a new key, or one that does not shrink, never lightens the table. */
  lemma TouchNotLighter(s: seq<Entry>, e: Entry)
    requires Distinct(s)
    requires !Has(s, e.name) || KeptNotShrunk(s, e)
    ensures Total(Without(s, e.name) + [e]) >= Total(s)
  {
    var ws := Without(s, e.name);
    TotalAppend(ws, [e]);
    assert Total([e]) == e.size;
    if Has(s, e.name) {
      var j :| 0 <= j < |s| && s[j].name == e.name && s[j].size <= e.size;
      WithoutTotal(s, e.name, j);
    } else {
      WithoutLacks(s, e.name);
    }
  }

  /** The entry evicted last by `trimToSize` was needed to exceed the bound. */
  lemma {:induction false} TrimLastEvicted(d: seq<Entry>, max: int)
    requires |Trim(d, max)| < |d|
    ensures Total(d[|d| - |Trim(d, max)| - 1..]) > max
  {
    assert Total(d) > max;
    var t := d[1..];
    assert Trim(d, max) == Trim(t, max);
    var m := |Trim(t, max)|;
    TrimSuffix(t, max);
    if m < |t| {
      TrimLastEvicted(t, max);
      assert t[|t| - m - 1..] == d[|d| - m - 1..];
    } else {
      assert d[|d| - m - 1..] == d;
    }
  }

  /** The access order a sequence of touches produces, with no bound at all. */
  function Ideal(touches: seq<Entry>): seq<Entry> {
    if touches == [] then [] else Touch(Ideal(touches[..|touches| - 1]), touches[|touches| - 1])
  }

  /** The table after `put`-ing each touch in turn into a cache bounded by max. */
  function Replay(touches: seq<Entry>, max: int): seq<Entry> {
    if touches == [] then [] else Put(Replay(touches[..|touches| - 1], max), touches[|touches| - 1], max)
  }

  /**
   * The condition under which the LRU theorem holds: each touch names a key
   * that is new, or that is still cached and does not shrink.
   */
  predicate Admissible(touches: seq<Entry>, max: int) {
    touches == [] ||
    (Admissible(touches[..|touches| - 1], max) &&
     var e := touches[|touches| - 1];
     var before := Replay(touches[..|touches| - 1], max);
     (!Has(Ideal(touches[..|touches| - 1]), e.name) ||
      KeptNotShrunk(before, e)))
  }

  lemma {:induction false} IdealDistinct(touches: seq<Entry>)
    ensures Distinct(Ideal(touches))
  {
    if touches != [] {
      IdealDistinct(touches[..|touches| - 1]);
      TouchDistinct(Ideal(touches[..|touches| - 1]), touches[|touches| - 1]);
    }
  }

  /**
   * The LRU theorem: a bounded cache fed admissible touches holds exactly
   * the longest recent suffix of the unbounded access order that fits.
   */
  lemma {:induction false} ReplayIsTrimmedIdeal(touches: seq<Entry>, max: int)
    requires Admissible(touches, max)
    ensures Replay(touches, max) == Trim(Ideal(touches), max)
  {
    if touches == [] {
      assert Total([]) == 0;
      if max < 0 {
        assert Trim([], max) == [];
      }
    } else {
      var init := touches[..|touches| - 1];
      var e := touches[|touches| - 1];
      ReplayIsTrimmedIdeal(init, max);
      IdealDistinct(init);
      PutOnTrimmed(Ideal(init), e, max);
    }
  }

  /** Touching keys that all differ is always admissible. */
  lemma {:induction false} FreshKeysAdmissible(touches: seq<Entry>, max: int)
    requires Distinct(touches)
    ensures Admissible(touches, max)
    ensures Ideal(touches) == touches
  {
    if touches != [] {
      var init := touches[..|touches| - 1];
      var e := touches[|touches| - 1];
      assert Distinct(init) by {
        forall a, b | 0 <= a < b < |init| ensures init[a].name != init[b].name {
          assert init[a] == touches[a] && init[b] == touches[b];
        }
      }
      FreshKeysAdmissible(init, max);
      assert !Has(init, e.name) by {
        forall i | 0 <= i < |init| ensures init[i].name != e.name {
          assert init[i] == touches[i];
        }
      }
      assert touches == init + [e];
      WithoutLacks(init, e.name);
    }
  }

  /** Every suffix that fits is kept whole. */
  lemma {:induction false} TrimKeepsFitting(es: seq<Entry>, max: int, i: nat)
    requires i <= |es|
    requires Total(es[i..]) <= max
    ensures |Trim(es, max)| >= |es| - i
  {
    if Total(es) > max {
      assert es[1..][i - 1..] == es[i..];
      TrimKeepsFitting(es[1..], max, i - 1);
    }
  }

  /**
   * The expected size `lruTest` computes: walk the table from the youngest
   * entry backwards, adding sizes, and stop at the first one that would pass
   * the bound. It is the total `trimToSize` leaves.
   */
  method ExpectedSize(sizes: seq<Entry>, max: nat) returns (expected: nat)
    ensures expected == Total(Trim(sizes, max))
  {
    expected := 0;
    var i := |sizes|;
    while i > 0
      invariant 0 <= i <= |sizes|
      invariant expected == Total(sizes[i..])
      invariant expected <= max
    {
      if expected + sizes[i - 1].size > max {
        break;
      }
      assert sizes[i - 1..] == [sizes[i - 1]] + sizes[i..];
      expected := expected + sizes[i - 1].size;
      i := i - 1;
    }
    if i > 0 {
      assert sizes[i - 1..] == [sizes[i - 1]] + sizes[i..];
      TrimKeepsLongest(sizes, max, |sizes| - i + 1);
    }
    TrimKeepsFitting(sizes, max, i);
    TrimSuffix(sizes, max);
    assert Trim(sizes, max) == sizes[i..];
  }
}
