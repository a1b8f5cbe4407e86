/** Vocabulary shared by the task registries, the caches and the loaders. */
module Common {

  /** A value that may be absent: Java's and Kotlin's null. */
  datatype Option<T> = None | Some(value: T) {
    function GetOr(default: T): T {
      match this
      case Some(v) => v
      case None => default
    }
  }

  /** `s.endsWith(suffix)` of Java and Kotlin. */
  predicate EndsWith(s: string, suffix: string) {
    |suffix| <= |s| && s[|s| - |suffix|..] == suffix
  }

  /** Kotlin `dropLast(n)`: everything but the last n characters, "" when n is too large. */
  function DropLast(s: string, n: nat): (r: string)
    ensures |r| == if n <= |s| then |s| - n else 0
    ensures r <= s
  {
    if n <= |s| then s[..|s| - n] else []
  }

  /** Kotlin `takeLast(n)`: the last n characters, the whole string when it is shorter. */
  function TakeLast(s: string, n: nat): (r: string)
    ensures |r| == if n <= |s| then n else |s|
    ensures EndsWith(s, r)
  {
    if n <= |s| then s[|s| - n..] else s
  }

  /** `String.indexOf(c)`: the first position of c, or |s| when c does not occur. */
  function IndexOf(s: string, c: char): (i: nat)
    ensures i <= |s|
    ensures i < |s| ==> s[i] == c
    ensures forall j :: 0 <= j < i ==> s[j] != c
  {
    if s == [] then 0 else if s[0] == c then 0 else 1 + IndexOf(s[1..], c)
  }

  /**
   * The id search of all three registries: if every integer in [0, n) is
   * already taken, at least n ids are taken. It bounds the search loops.
   */
  lemma {:induction false} CountBelow(taken: set<int>, n: nat)
    requires forall j :: 0 <= j < n ==> j in taken
    ensures n <= |taken|
  {
    if n > 0 {
      CountBelow(taken - {n - 1}, n - 1);
    }
  }

  /**
   * order lists every element of s once: the order in which a loop over a
   * copy of a hash set or of a map's keys visits them, which the model
   * leaves open. Read from the end: the last element visited is in s, and
   * the ones before it enumerate the rest of s.
   */
  ghost predicate Enumerates<X>(order: seq<X>, s: set<X>)
    decreases |order|
  {
    if order == [] then s == {}
    else order[|order| - 1] in s && Enumerates(order[..|order| - 1], s - {order[|order| - 1]})
  }

  /** Visiting one more element, not visited before, extends the enumeration. */
  lemma EnumeratesSnoc<X>(order: seq<X>, s: set<X>, x: X)
    requires Enumerates(order, s) && x !in s
    ensures Enumerates(order + [x], s + {x})
  {
    assert (order + [x])[..|order|] == order;
    assert s + {x} - {x} == s;
  }

  /** A loop over a snapshot set: visiting one more of the elements still to go extends the enumeration of those done. */
  lemma EnumeratesNext<X>(order: seq<X>, all: set<X>, rest: set<X>, x: X)
    requires Enumerates(order, all - rest) && rest <= all && x in rest
    ensures Enumerates(order + [x], all - (rest - {x}))
  {
    EnumeratesSnoc(order, all - rest, x);
    assert all - rest + {x} == all - (rest - {x});
  }

  /** Taking an element out of a set and putting it back gives the set again. */
  lemma RemoveAddBack<X>(s: set<X>, x: X)
    requires x in s
    ensures s - {x} + {x} == s
  {
  }

  /** Removing the keys of s from a map but x, then x, removes the keys of s. */
  lemma MapRemoveStep<K, V>(m: map<K, V>, s: set<K>, x: K)
    requires x in s
    ensures m - (s - {x}) - {x} == m - s
  {
  }

  /** An enumeration of s holds no element twice and holds exactly the elements of s. */
  lemma {:induction false} EnumeratesLists<X>(order: seq<X>, s: set<X>)
    requires Enumerates(order, s)
    ensures forall i, j :: 0 <= i < j < |order| ==> order[i] != order[j]
    ensures forall x :: x in order <==> x in s
  {
    if order != [] {
      var p := order[..|order| - 1];
      var x := order[|order| - 1];
      EnumeratesLists(p, s - {x});
      assert order == p + [x];
    }
  }

  /**
   * The JVM's narrowing `(int)` cast of a `long`: keep the low 32 bits and
   * read them as a two's-complement number.
   */
  function ToInt32(x: int): (r: int)
    ensures -0x8000_0000 <= r < 0x8000_0000
    ensures (r - x) % 0x1_0000_0000 == 0
    ensures -0x8000_0000 <= x < 0x8000_0000 ==> r == x
  {
    (x + 0x8000_0000) % 0x1_0000_0000 - 0x8000_0000
  }
}
