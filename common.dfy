/**
 * Value types and sequence operations shared by the account store, the two
 * tweet stores and the password policy. The Python code works on lists of
 * dicts; the searches, comprehensions and `list.remove` it uses are modelled
 * here once, generically, and specialised by the store modules.
 */
module Common {

  datatype Option<T> = None | Some(value: T)

  /** A call that either returns a value or raises one of the source's exceptions. */
  datatype Result<T, E> = Ok(value: T) | Err(error: E)

  /** A call that returns nothing on success or raises one of the source's exceptions. */
  datatype Outcome<E> = Pass | Fail(error: E)

  /** No element occurs twice. */
  predicate NoDup<T(==)>(s: seq<T>)
  {
    forall i, j :: 0 <= i < j < |s| ==> s[i] != s[j]
  }

  /** No two elements share a key (the source uses ids and usernames as keys). */
  predicate UniqueKeys<T, K(==)>(s: seq<T>, key: T -> K)
  {
    forall i, j :: 0 <= i < j < |s| ==> key(s[i]) != key(s[j])
  }

  /**
   * The position a `for x in s: if p(x): return ...` loop stops at:
   * the first element satisfying `p`, or None when the loop runs off the end.
   */
  function FirstIndex<T>(s: seq<T>, p: T -> bool): (r: Option<nat>)
    ensures r.Some? ==> r.value < |s| && p(s[r.value])
    ensures r.Some? ==> forall j :: 0 <= j < r.value ==> !p(s[j])
    ensures r.None? <==> forall j :: 0 <= j < |s| ==> !p(s[j])
  {
    if |s| == 0 then None
    else if p(s[0]) then Some(0)
    else
      match FirstIndex(s[1..], p)
      case None => None
      case Some(k) =>
        assert forall j :: 1 <= j < k + 1 ==> s[j] == s[1..][j - 1];
        Some(k + 1)
  }

  /**
   * The list comprehension `[x for x in s if keep(x)]`: the elements of `s`
   * that satisfy `keep`, in their original order.
   */
  function Filter<T>(s: seq<T>, keep: T -> bool): (r: seq<T>)
    ensures |r| <= |s|
    ensures forall i :: 0 <= i < |r| ==> r[i] in s && keep(r[i])
    ensures forall i :: 0 <= i < |s| && keep(s[i]) ==> s[i] in r
    ensures |r| == |s| <==> forall i :: 0 <= i < |s| ==> keep(s[i])
    ensures |r| == |s| ==> r == s
  {
    if |s| == 0 then []
    else
      var rest := Filter(s[1..], keep);
      assert forall i :: 1 <= i < |s| ==> s[i] == s[1..][i - 1];
      assert (forall i :: 0 <= i < |s| ==> keep(s[i])) <==>
             keep(s[0]) && forall i :: 0 <= i < |s[1..]| ==> keep(s[1..][i]);
      if keep(s[0]) then [s[0]] + rest else rest
  }

  /** Filtering distributes over concatenation, so the kept elements stay in their order. */
  lemma {:induction false} FilterAppend<T>(a: seq<T>, b: seq<T>, keep: T -> bool)
    ensures Filter(a + b, keep) == Filter(a, keep) + Filter(b, keep)
  {
    if |a| == 0 {
      assert a + b == b;
    } else {
      assert (a + b)[1..] == a[1..] + b;
      FilterAppend(a[1..], b, keep);
    }
  }

  /** Filtering keeps keys distinct: it only drops elements. */
  lemma {:induction false} FilterKeepsUniqueKeys<T, K>(s: seq<T>, keep: T -> bool, key: T -> K)
    requires UniqueKeys(s, key)
    ensures UniqueKeys(Filter(s, keep), key)
  {
    if |s| > 0 {
      var tail := s[1..];
      assert UniqueKeys(tail, key) by {
        forall i, j | 0 <= i < j < |tail| ensures key(tail[i]) != key(tail[j]) {
          assert tail[i] == s[i + 1] && tail[j] == s[j + 1];
        }
      }
      FilterKeepsUniqueKeys(tail, keep, key);
      var rest := Filter(tail, keep);
      if keep(s[0]) {
        var r := [s[0]] + rest;
        forall i, j | 0 <= i < j < |r| ensures key(r[i]) != key(r[j]) {
          if i == 0 {
            assert r[j] in tail;
            var k :| 0 <= k < |tail| && tail[k] == r[j];
            assert s[k + 1] == r[j];
          } else {
            assert r[i] == rest[i - 1] && r[j] == rest[j - 1];
          }
        }
      }
    }
  }

  /**
   * Python's `list.remove(x)`: drops the first occurrence of `x`. Python raises
   * ValueError when `x` is absent; every caller in the source checks `x in s` first.
   */
  function RemoveFirst<T(==)>(s: seq<T>, x: T): (r: seq<T>)
    requires x in s
    ensures |r| == |s| - 1
    ensures multiset(r) == multiset(s) - multiset{x}
  {
    if s[0] == x then
      assert s == [s[0]] + s[1..];
      s[1..]
    else
      assert s == [s[0]] + s[1..];
      [s[0]] + RemoveFirst(s[1..], x)
  }

  /** RemoveFirst removes exactly the first occurrence and keeps the rest in order. */
  lemma {:induction false} RemoveFirstSplit<T>(a: seq<T>, x: T, b: seq<T>)
    requires x !in a
    ensures RemoveFirst(a + [x] + b, x) == a + b
  {
    if |a| > 0 {
      assert (a + [x] + b)[1..] == a[1..] + [x] + b;
      RemoveFirstSplit(a[1..], x, b);
      assert a + b == [a[0]] + (a[1..] + b);
    }
  }

  /** Removing from a list without duplicates leaves no occurrence behind and no duplicate. */
  lemma RemoveFirstNoDup<T>(s: seq<T>, x: T)
    requires x in s && NoDup(s)
    ensures x !in RemoveFirst(s, x)
    ensures NoDup(RemoveFirst(s, x))
  {
    var k :| 0 <= k < |s| && s[k] == x;
    var a, b := s[..k], s[k + 1..];
    assert s == a + [x] + b;
    RemoveFirstSplit(a, x, b);
    var r := a + b;
    assert forall i :: 0 <= i < |r| ==> r[i] == s[if i < k then i else i + 1];
  }
}
