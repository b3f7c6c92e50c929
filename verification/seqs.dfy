/**
 * Ordered collections. A JavaScript object keyed by string ids iterates its
 * keys in insertion order, so the players, zombies and lobbies of the server
 * are modelled as sequences whose elements carry their own key. The helpers
 * here are the three things the server does with such an object: search it
 * in order, delete a key, and assign a key (overwrite in place or append).
 */
module Seqs {
  import opened Wrappers

  /** Index of the first element satisfying `p`: every `for…in` loop that
      stops at its first match. */
  function FirstIndex<T>(s: seq<T>, p: T -> bool): (r: Option<nat>)
    ensures r.Some? ==> r.value < |s| && p(s[r.value])
    ensures r.Some? ==> forall j :: 0 <= j < r.value ==> !p(s[j])
    ensures r.None? <==> forall j :: 0 <= j < |s| ==> !p(s[j])
  {
    if |s| == 0 then None
    else if p(s[0]) then Some(0)
    else match FirstIndex(s[1..], p)
      case None => None
      case Some(k) => Some(k + 1)
  }

  /** `delete obj[key]` on the element at index `i`; the others keep their order. */
  function RemoveAt<T>(s: seq<T>, i: nat): (r: seq<T>)
    requires i < |s|
    ensures |r| == |s| - 1
    ensures forall j :: 0 <= j < i ==> r[j] == s[j]
    ensures forall j :: i <= j < |r| ==> r[j] == s[j + 1]
  {
    s[..i] + s[i + 1..]
  }

  /** `obj[key] = x`: an existing key keeps its position and takes the new
      value, a new key goes last. `sameKey` says which element has x's key. */
  function Upsert<T>(s: seq<T>, sameKey: T -> bool, x: T): (r: seq<T>)
    ensures FirstIndex(s, sameKey).Some? ==> |r| == |s|
    ensures FirstIndex(s, sameKey).None? ==> |r| == |s| + 1 && r[|s|] == x
    ensures FirstIndex(s, sameKey).Some? ==> r[FirstIndex(s, sameKey).value] == x
    ensures forall j :: 0 <= j < |s| && !sameKey(s[j]) ==> r[j] == s[j]
  {
    match FirstIndex(s, sameKey)
    case Some(k) => s[k := x]
    case None => s + [x]
  }

  /** After `obj[key] = x` the key is found where it was, or last when it
      was new. */
  lemma UpsertFinds<T>(s: seq<T>, sameKey: T -> bool, x: T)
    requires sameKey(x)
    ensures FirstIndex(Upsert(s, sameKey, x), sameKey)
         == if FirstIndex(s, sameKey).Some? then FirstIndex(s, sameKey) else Some(|s|)
  {
    var r := Upsert(s, sameKey, x);
    var want := if FirstIndex(s, sameKey).Some? then FirstIndex(s, sameKey).value else |s|;
    assert r[want] == x;
    forall j | 0 <= j < want ensures !sameKey(r[j]) {
      assert r[j] == s[j];
    }
    FirstIndexIsFirst(r, sameKey, want);
  }

  /** The first index is the one before which nothing matches. */
  lemma {:induction false} FirstIndexIsFirst<T>(s: seq<T>, p: T -> bool, i: nat)
    requires i < |s| && p(s[i])
    requires forall j :: 0 <= j < i ==> !p(s[j])
    ensures FirstIndex(s, p) == Some(i)
  {
    if i > 0 {
      FirstIndexIsFirst(s[1..], p, i - 1);
    }
  }

  /** The elements of `s` whose flag in `keep` is set, in their order. */
  ghost function Select<T>(s: seq<T>, keep: seq<bool>): seq<T>
    requires |keep| == |s|
  {
    if |s| == 0 then []
    else Select(s[..|s| - 1], keep[..|s| - 1]) + (if keep[|s| - 1] then [s[|s| - 1]] else [])
  }

  /** The flag `p(s[i])` of every element, in order. */
  ghost function Flags<T>(s: seq<T>, p: T -> bool): (r: seq<bool>)
    ensures |r| == |s|
    ensures forall i :: 0 <= i < |s| ==> r[i] == p(s[i])
  {
    seq(|s|, i requires 0 <= i < |s| => p(s[i]))
  }

  lemma SelectSnoc<T>(s: seq<T>, keep: seq<bool>, x: T, b: bool)
    requires |keep| == |s|
    ensures Select(s + [x], keep + [b]) == Select(s, keep) + (if b then [x] else [])
  {
    assert (s + [x])[..|s|] == s;
    assert (keep + [b])[..|s|] == keep;
  }

  /** `Select` read from the front: the first element is kept or not, then
      the rest is selected. */
  lemma {:induction false} SelectCons<T>(x: T, b: bool, s: seq<T>, keep: seq<bool>)
    requires |keep| == |s|
    ensures Select([x] + s, [b] + keep) == (if b then [x] else []) + Select(s, keep)
    decreases |s|
  {
    if |s| == 0 {
      assert ([x] + s)[..0] == [];
    } else {
      var n := |s|;
      SelectCons(x, b, s[..n - 1], keep[..n - 1]);
      assert ([x] + s)[..n] == [x] + s[..n - 1];
      assert ([b] + keep)[..n] == [b] + keep[..n - 1];
    }
  }

  lemma {:induction false} SelectKeepsProperty<T>(s: seq<T>, keep: seq<bool>, p: T -> bool)
    requires |keep| == |s|
    requires forall k :: 0 <= k < |s| && keep[k] ==> p(s[k])
    ensures forall x :: x in Select(s, keep) ==> p(x)
  {
    if |s| > 0 {
      SelectKeepsProperty(s[..|s| - 1], keep[..|s| - 1], p);
    }
  }

  /** The elements satisfying `p`, in their original order: exactly the
      selection of `s` by the flags `p(s[i])`. */
  function Filter<T>(s: seq<T>, p: T -> bool): (r: seq<T>)
    ensures r == Select(s, Flags(s, p))
    ensures |r| <= |s|
    ensures forall j :: 0 <= j < |r| ==> p(r[j])
  {
    if |s| == 0 then []
    else
      var rest := Filter(s[1..], p);
      assert Select(s, Flags(s, p)) == (if p(s[0]) then [s[0]] else []) + Select(s[1..], Flags(s[1..], p)) by {
        assert Flags(s, p) == [p(s[0])] + Flags(s[1..], p);
        assert s == [s[0]] + s[1..];
        SelectCons(s[0], p(s[0]), s[1..], Flags(s[1..], p));
      }
      (if p(s[0]) then [s[0]] else []) + rest
  }

  /** The filtered elements are exactly the elements of `s` that satisfy `p`. */
  lemma {:induction false} FilterMembers<T>(s: seq<T>, p: T -> bool)
    ensures forall x :: x in Filter(s, p) ==> x in s && p(x)
    ensures forall x :: x in s && p(x) ==> x in Filter(s, p)
  {
    if |s| > 0 {
      FilterMembers(s[1..], p);
      assert s == [s[0]] + s[1..];
      assert Filter(s, p) == (if p(s[0]) then [s[0]] else []) + Filter(s[1..], p);
    }
  }

  /** Filtering two sequences that agree on `p` element by element keeps
      them in step: the survivors pair up, index by index, under any
      relation the original pairs satisfied. */
  lemma {:induction false} FilterPointwise<T>(s: seq<T>, t: seq<T>, p: T -> bool, rel: (T, T) -> bool)
    requires |s| == |t|
    requires forall j :: 0 <= j < |s| ==> p(s[j]) == p(t[j]) && rel(s[j], t[j])
    ensures |Filter(s, p)| == |Filter(t, p)|
    ensures forall i :: 0 <= i < |Filter(s, p)| ==> rel(Filter(s, p)[i], Filter(t, p)[i])
  {
    if |s| > 0 {
      FilterPointwise(s[1..], t[1..], p, rel);
    }
  }

  /** No two elements share a key. */
  ghost predicate DistinctBy<T, K>(s: seq<T>, key: T -> K)
  {
    forall i, j :: 0 <= i < j < |s| ==> key(s[i]) != key(s[j])
  }

  /** Writing x over the entry `sameKey` picks, or appending it, keeps keys
      distinct when `sameKey` picks at most one entry and no other entry
      carries x's key. */
  lemma UpsertKeepsDistinct<T, K>(s: seq<T>, sameKey: T -> bool, x: T, key: T -> K)
    requires DistinctBy(s, key)
    requires forall i, j :: 0 <= i < j < |s| ==> !(sameKey(s[i]) && sameKey(s[j]))
    requires forall j :: 0 <= j < |s| && !sameKey(s[j]) ==> key(s[j]) != key(x)
    ensures DistinctBy(Upsert(s, sameKey, x), key)
  {
    var r := Upsert(s, sameKey, x);
    match FirstIndex(s, sameKey)
    case Some(k) =>
      forall j | 0 <= j < |s| && j != k ensures !sameKey(s[j]) {
        if k < j { assert !(sameKey(s[k]) && sameKey(s[j])); }
      }
    case None =>
  }

  /** Deleting an entry keeps keys distinct. */
  lemma RemoveAtKeepsDistinct<T, K>(s: seq<T>, i: nat, key: T -> K)
    requires i < |s| && DistinctBy(s, key)
    ensures DistinctBy(RemoveAt(s, i), key)
  {
    var r := RemoveAt(s, i);
    forall a, b | 0 <= a < b < |r| ensures key(r[a]) != key(r[b]) {
      assert r[a] == s[if a < i then a else a + 1];
      assert r[b] == s[if b < i then b else b + 1];
    }
  }

  /** Filtering keeps keys distinct. */
  lemma {:induction false} FilterKeepsDistinct<T, K>(s: seq<T>, p: T -> bool, key: T -> K)
    requires DistinctBy(s, key)
    ensures DistinctBy(Filter(s, p), key)
  {
    if |s| > 0 {
      var t := s[1..];
      FilterKeepsDistinct(t, p, key);
      var rest := Filter(t, p);
      FilterMembers(t, p);
      forall j | 0 <= j < |rest| ensures key(rest[j]) != key(s[0]) {
        assert rest[j] in rest;
        var m :| 0 <= m < |t| && t[m] == rest[j];
        assert s[m + 1] == t[m];
      }
      assert Filter(s, p) == (if p(s[0]) then [s[0]] else []) + rest;
    }
  }

  /** Overwriting an entry with one of the same key keeps keys distinct. */
  lemma UpdateKeepsDistinct<T, K>(s: seq<T>, i: nat, x: T, key: T -> K)
    requires i < |s| && DistinctBy(s, key) && key(x) == key(s[i])
    ensures DistinctBy(s[i := x], key)
  {
  }
}
