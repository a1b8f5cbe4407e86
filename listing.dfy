/**
 * The start-up listing of the disk caches: the accepted files of the cache
 * directory, oldest modification first, so that putting them in that order
 * leaves the most recently modified files as the youngest LRU entries.
 */
module Listing {
  import opened Common

  /** One file of the directory listing, with what the caches ask of it. */
  datatype Listed = Listed(name: string, isFile: bool, mtime: int, size: nat)

  /** `Long.compare(a, b)`: the sign of a - b. */
  function LongCompare(a: int, b: int): (c: int)
    ensures c < 0 <==> a < b
    ensures c == 0 <==> a == b
    ensures c > 0 <==> a > b
  {
    if a < b then -1 else if a == b then 0 else 1
  }

  /**
   * The comparator as written in the urlloader `DiskLruCache.java`:
   * `(int)(a - b)` on two `long` modification times.
   */
  function TruncatedCompare(a: int, b: int): (c: int)
    ensures -0x8000_0000 <= a - b < 0x8000_0000 ==> c == a - b
  {
    ToInt32(a - b)
  }

  /** x inserted in front of the first element it does not compare after. */
  function Insert(x: Listed, s: seq<Listed>, cmp: (int, int) -> int): (r: seq<Listed>)
    ensures |r| == |s| + 1
  {
    if s == [] then [x]
    else if cmp(x.mtime, s[0].mtime) <= 0 then [x] + s
    else [s[0]] + Insert(x, s[1..], cmp)
  }

  /** A comparison sort of the listing by modification time under cmp. */
  function SortWith(s: seq<Listed>, cmp: (int, int) -> int): (r: seq<Listed>)
    ensures |r| == |s|
  {
    if s == [] then [] else Insert(s[0], SortWith(s[1..], cmp), cmp)
  }

  /** `Arrays.sort` with `Long.compare`, and Kotlin's `sortedBy { lastModified }`. */
  function ByModification(s: seq<Listed>): seq<Listed> {
    SortWith(s, LongCompare)
  }

  predicate Ascending(s: seq<Listed>) {
    forall i, j :: 0 <= i < j < |s| ==> s[i].mtime <= s[j].mtime
  }

  /** Each file is no older than the one before it. */
  predicate Adjacent(s: seq<Listed>) {
    forall i :: 0 < i < |s| ==> s[i - 1].mtime <= s[i].mtime
  }

  lemma {:induction false} ChainUp(s: seq<Listed>, i: nat, j: nat)
    requires Adjacent(s) && i <= j < |s|
    ensures s[i].mtime <= s[j].mtime
  {
    if i < j {
      ChainUp(s, i, j - 1);
    }
  }

  lemma AdjacentAscending(s: seq<Listed>)
    requires Adjacent(s)
    ensures Ascending(s)
  {
    forall i, j | 0 <= i < j < |s| ensures s[i].mtime <= s[j].mtime {
      ChainUp(s, i, j);
    }
  }

  /** Insertion keeps every file of the listing and adds x. */
  lemma {:induction false} InsertPerm(x: Listed, s: seq<Listed>, cmp: (int, int) -> int)
    ensures multiset(Insert(x, s, cmp)) == multiset(s) + multiset{x}
  {
    if s != [] && cmp(x.mtime, s[0].mtime) > 0 {
      InsertPerm(x, s[1..], cmp);
      assert s == [s[0]] + s[1..];
    }
  }

  /** Sorting is a permutation. */
  lemma {:induction false} SortPerm(s: seq<Listed>, cmp: (int, int) -> int)
    ensures multiset(SortWith(s, cmp)) == multiset(s)
  {
    if s != [] {
      SortPerm(s[1..], cmp);
      InsertPerm(s[0], SortWith(s[1..], cmp), cmp);
      assert s == [s[0]] + s[1..];
    }
  }

  /** The first element after an insertion is x or the former first element. */
  lemma InsertHead(x: Listed, s: seq<Listed>, cmp: (int, int) -> int)
    ensures Insert(x, s, cmp)[0] == x || (s != [] && Insert(x, s, cmp)[0] == s[0])
  {
  }

  lemma {:induction false} InsertAdjacent(x: Listed, s: seq<Listed>)
    requires Adjacent(s)
    ensures Adjacent(Insert(x, s, LongCompare))
  {
    if s == [] {
    } else if x.mtime <= s[0].mtime {
      var q := [x] + s;
      forall i | 0 < i < |q| ensures q[i - 1].mtime <= q[i].mtime {
        if i > 1 {
          assert q[i - 1] == s[i - 2] && q[i] == s[i - 1];
        }
      }
    } else {
      var t := s[1..];
      assert Adjacent(t) by {
        forall i | 0 < i < |t| ensures t[i - 1].mtime <= t[i].mtime {
          assert t[i - 1] == s[i] && t[i] == s[i + 1];
        }
      }
      InsertAdjacent(x, t);
      var r := Insert(x, t, LongCompare);
      InsertHead(x, t, LongCompare);
      if t != [] {
        assert t[0] == s[1];
      }
      var q := [s[0]] + r;
      forall i | 0 < i < |q| ensures q[i - 1].mtime <= q[i].mtime {
        if i > 1 {
          assert q[i - 1] == r[i - 2] && q[i] == r[i - 1];
        }
      }
    }
  }

  lemma {:induction false} SortAdjacent(s: seq<Listed>)
    ensures Adjacent(ByModification(s))
  {
    if s != [] {
      SortAdjacent(s[1..]);
      InsertAdjacent(s[0], SortWith(s[1..], LongCompare));
    }
  }

  /** The corrected comparator sorts the listing, oldest first, as a permutation. */
  lemma ByModificationSorts(s: seq<Listed>)
    ensures Ascending(ByModification(s))
    ensures multiset(ByModification(s)) == multiset(s)
  {
    SortAdjacent(s);
    AdjacentAscending(ByModification(s));
    SortPerm(s, LongCompare);
  }

  /** Two files 3 * 10^9 ms (about 34.7 days) apart. */
  const Newer := Listed("newer", true, 3_000_000_000, 1)
  const Older := Listed("older", true, 0, 1)

  /**
   * The truncated comparator claims, in both directions, that the newer file
   * is the older one, so every sort that follows the comparator lists the
   * newer file first, whatever order the directory gave; the start-up puts
   * then make the newer file the eldest entry, the first one evicted.
   */
  lemma TruncatedCompareMisorders()
    ensures TruncatedCompare(Newer.mtime, Older.mtime) < 0
    ensures TruncatedCompare(Older.mtime, Newer.mtime) > 0
    ensures SortWith([Newer, Older], TruncatedCompare) == [Newer, Older]
    ensures SortWith([Older, Newer], TruncatedCompare) == [Newer, Older]
    ensures !Ascending(SortWith([Older, Newer], TruncatedCompare))
    ensures ByModification([Newer, Older]) == [Older, Newer]
  {
    assert TruncatedCompare(Newer.mtime, Older.mtime) == -1_294_967_296;
    assert TruncatedCompare(Older.mtime, Newer.mtime) == 1_294_967_296;
    assert SortWith([Older], TruncatedCompare) == [Older];
    assert SortWith([Newer], TruncatedCompare) == [Newer];
    assert SortWith([Older], LongCompare) == [Older];
    assert [Newer, Older][1..] == [Older];
    assert [Older, Newer][1..] == [Newer];
    assert [Older][1..] == [];
    assert [Newer][1..] == [];
    assert Insert(Newer, [Older], LongCompare) == [Older] + [Newer];
    assert Insert(Older, [Newer], TruncatedCompare) == [Newer] + [Older];
  }

  /** Every two modification times of the listing are less than 2^31 ms apart. */
  predicate CloseTimes(s: seq<Listed>) {
    forall x, y :: x in s && y in s ==> -0x8000_0000 < x.mtime - y.mtime < 0x8000_0000
  }

  /** Two comparators put x before or after each element of s alike. */
  predicate AgreeOn(x: Listed, s: seq<Listed>, c1: (int, int) -> int, c2: (int, int) -> int) {
    forall y :: y in s ==> (c1(x.mtime, y.mtime) <= 0 <==> c2(x.mtime, y.mtime) <= 0)
  }

  lemma {:induction false} InsertAgree(x: Listed, s: seq<Listed>, c1: (int, int) -> int, c2: (int, int) -> int)
    requires AgreeOn(x, s, c1, c2)
    ensures Insert(x, s, c1) == Insert(x, s, c2)
  {
    if s != [] {
      assert s[0] in s;
      assert AgreeOn(x, s[1..], c1, c2) by {
        forall y | y in s[1..] ensures y in s { }
      }
      InsertAgree(x, s[1..], c1, c2);
    }
  }

  /** Sorting under two comparators that agree on every pair of the listing gives the same order. */
  lemma {:induction false} SortAgree(s: seq<Listed>, c1: (int, int) -> int, c2: (int, int) -> int)
    requires forall x :: x in s ==> AgreeOn(x, s, c1, c2)
    ensures SortWith(s, c1) == SortWith(s, c2)
  {
    if s != [] {
      var t := s[1..];
      forall x | x in t ensures AgreeOn(x, t, c1, c2) {
        assert x in s && AgreeOn(x, s, c1, c2);
      }
      SortAgree(t, c1, c2);
      SortPerm(t, c1);
      assert s[0] in s;
      forall y | y in SortWith(t, c1) ensures c1(s[0].mtime, y.mtime) <= 0 <==> c2(s[0].mtime, y.mtime) <= 0 {
        assert y in multiset(SortWith(t, c1));
        assert y in t;
        assert y in s;
      }
      InsertAgree(s[0], SortWith(t, c1), c1, c2);
    }
  }

  /** While the times are less than 2^31 ms apart, the truncated comparator sorts as `Long.compare` does. */
  lemma TruncatedSortsWhenClose(s: seq<Listed>)
    requires CloseTimes(s)
    ensures SortWith(s, TruncatedCompare) == ByModification(s)
    ensures Ascending(SortWith(s, TruncatedCompare))
  {
    forall x | x in s ensures AgreeOn(x, s, TruncatedCompare, LongCompare) {
      forall y | y in s ensures TruncatedCompare(x.mtime, y.mtime) <= 0 <==> LongCompare(x.mtime, y.mtime) <= 0 {
        assert -0x8000_0000 < x.mtime - y.mtime < 0x8000_0000;
      }
    }
    SortAgree(s, TruncatedCompare, LongCompare);
    ByModificationSorts(s);
  }

  /** The files `listFiles(filter)` returns: the accepted ones, in directory order. */
  function Accepted(s: seq<Listed>, accept: Listed -> bool): (r: seq<Listed>)
    ensures forall x :: x in r ==> x in s && accept(x)
    ensures forall x :: x in s && accept(x) ==> x in r
    ensures |r| <= |s|
  {
    if s == [] then []
    else (if accept(s[0]) then [s[0]] else []) + Accepted(s[1..], accept)
  }

  /** A directory lists each file name once. */
  predicate UniqueNames(s: seq<Listed>) {
    forall i, j :: 0 <= i < j < |s| ==> s[i].name != s[j].name
  }

  lemma {:induction false} AcceptedUnique(s: seq<Listed>, accept: Listed -> bool)
    requires UniqueNames(s)
    ensures UniqueNames(Accepted(s, accept))
  {
    if s != [] {
      var t := s[1..];
      assert UniqueNames(t) by {
        forall i, j | 0 <= i < j < |t| ensures t[i].name != t[j].name {
          assert t[i] == s[i + 1] && t[j] == s[j + 1];
        }
      }
      AcceptedUnique(t, accept);
      var r := Accepted(t, accept);
      forall y | y in r ensures y.name != s[0].name {
        var k :| 0 <= k < |t| && t[k] == y;
        assert t[k] == s[k + 1];
      }
      var q := (if accept(s[0]) then [s[0]] else []) + r;
      forall i, j | 0 <= i < j < |q| ensures q[i].name != q[j].name {
        if accept(s[0]) && i == 0 {
          assert q[j] == r[j - 1] && q[j] in r;
        }
      }
    }
  }

  lemma InsertMembers(x: Listed, s: seq<Listed>, cmp: (int, int) -> int, y: Listed)
    requires y in Insert(x, s, cmp)
    ensures y == x || y in s
  {
    InsertPerm(x, s, cmp);
    assert y in multiset(Insert(x, s, cmp));
  }

  lemma {:induction false} InsertUnique(x: Listed, s: seq<Listed>, cmp: (int, int) -> int)
    requires UniqueNames(s)
    requires forall y :: y in s ==> y.name != x.name
    ensures UniqueNames(Insert(x, s, cmp))
  {
    if s != [] && cmp(x.mtime, s[0].mtime) > 0 {
      var t := s[1..];
      assert UniqueNames(t) by {
        forall i, j | 0 <= i < j < |t| ensures t[i].name != t[j].name {
          assert t[i] == s[i + 1] && t[j] == s[j + 1];
        }
      }
      InsertUnique(x, t, cmp);
      var r := Insert(x, t, cmp);
      forall y | y in r ensures y.name != s[0].name {
        InsertMembers(x, t, cmp, y);
        if y != x {
          var k :| 0 <= k < |t| && t[k] == y;
          assert t[k] == s[k + 1];
        }
      }
      var q := [s[0]] + r;
      forall i, j | 0 <= i < j < |q| ensures q[i].name != q[j].name {
        assert q[j] == r[j - 1] && q[j] in r;
        if i > 0 {
          assert q[i] == r[i - 1];
        }
      }
    }
  }

  /** Sorting moves files around and never duplicates a name. */
  lemma {:induction false} SortUnique(s: seq<Listed>, cmp: (int, int) -> int)
    requires UniqueNames(s)
    ensures UniqueNames(SortWith(s, cmp))
  {
    if s != [] {
      var t := s[1..];
      assert UniqueNames(t) by {
        forall i, j | 0 <= i < j < |t| ensures t[i].name != t[j].name {
          assert t[i] == s[i + 1] && t[j] == s[j + 1];
        }
      }
      SortUnique(t, cmp);
      SortPerm(t, cmp);
      forall y | y in SortWith(t, cmp) ensures y.name != s[0].name {
        assert y in multiset(SortWith(t, cmp));
        var k :| 0 <= k < |t| && t[k] == y;
        assert t[k] == s[k + 1];
      }
      InsertUnique(s[0], SortWith(t, cmp), cmp);
    }
  }
}
