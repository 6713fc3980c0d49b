/**
  Filtering and ordering of listings. Every listing the server returns ends in `ORDER BY name`;
  the model compares names by code point (`Text.LexLess`) and sorts with a
  stable insertion sort whose result is proved sorted and a permutation of
  its input. Equal names keep their input order, one of the orders the
  database may return.
 */
module Lists {
  import opened Text

  /** `a` sorts no later than `b`. */
  predicate NameLe(a: string, b: string) {
    !LexLess(b, a)
  }

  lemma NameLeTotal(a: string, b: string)
    ensures NameLe(a, b) || NameLe(b, a)
  {
    if LexLess(b, a) {
      LexAsymmetric(b, a);
    }
  }

  lemma NameLeTransitive(a: string, b: string, c: string)
    requires NameLe(a, b) && NameLe(b, c)
    ensures NameLe(a, c)
  {
    if LexLess(c, a) {
      if a != b {
        LexTotal(a, b);
      }
      if b != c {
        LexTotal(b, c);
      }
      if a != b && b != c {
        LexTransitive(a, b, c);
        LexAsymmetric(a, c);
      }
    }
  }

  /** `s` is ordered by the name `key` gives each element. */
  predicate SortedBy<T>(s: seq<T>, key: T -> string) {
    forall i, j :: 0 <= i < j < |s| ==> NameLe(key(s[i]), key(s[j]))
  }

  /** Inserts `x` before the first element whose name is not smaller. */
  function Insert<T>(x: T, s: seq<T>, key: T -> string): (r: seq<T>)
    requires SortedBy(s, key)
    ensures SortedBy(r, key)
    ensures multiset(r) == multiset(s) + multiset{x}
    decreases |s|
  {
    if |s| == 0 then [x]
    else if NameLe(key(x), key(s[0])) then
      InsertFront(x, s, key);
      [x] + s
    else
      var rest := Insert(x, s[1..], key);
      assert s == [s[0]] + s[1..];
      InsertBehind(s[0], x, s[1..], rest, key);
      [s[0]] + rest
  }

  lemma InsertFront<T>(x: T, s: seq<T>, key: T -> string)
    requires SortedBy(s, key) && |s| > 0 && NameLe(key(x), key(s[0]))
    ensures SortedBy([x] + s, key)
  {
    forall j | 0 < j < |s| {
      NameLeTransitive(key(x), key(s[0]), key(s[j]));
    }
  }

  lemma InsertBehind<T>(h: T, x: T, s: seq<T>, rest: seq<T>, key: T -> string)
    requires SortedBy([h] + s, key) && !NameLe(key(x), key(h))
    requires SortedBy(rest, key) && multiset(rest) == multiset(s) + multiset{x}
    ensures SortedBy([h] + rest, key)
  {
    NameLeTotal(key(x), key(h));
    forall j | 0 <= j < |rest| ensures NameLe(key(h), key(rest[j])) {
      assert rest[j] in multiset(rest);
      if rest[j] != x {
        assert rest[j] in multiset(s);
        var k :| 0 <= k < |s| && s[k] == rest[j];
        assert ([h] + s)[0] == h && ([h] + s)[k + 1] == s[k];
        assert NameLe(key(([h] + s)[0]), key(([h] + s)[k + 1]));
      } else {
        assert key(rest[j]) == key(x);
      }
    }
    var r := [h] + rest;
    forall i, j | 0 <= i < j < |r| ensures NameLe(key(r[i]), key(r[j])) {
      if i > 0 {
        assert r[i] == rest[i - 1] && r[j] == rest[j - 1];
      } else {
        assert r[j] == rest[j - 1];
      }
    }
  }

  /** The elements of `s` in name order: sorted, and a permutation of `s`. */
  function SortByName<T>(s: seq<T>, key: T -> string): (r: seq<T>)
    ensures SortedBy(r, key)
    ensures multiset(r) == multiset(s)
    decreases |s|
  {
    if |s| == 0 then []
    else
      assert s == [s[0]] + s[1..];
      Insert(s[0], SortByName(s[1..], key), key)
  }

  /** Sorting keeps exactly the elements it was given. */
  lemma SortByNameMembers<T>(s: seq<T>, key: T -> string, x: T)
    ensures x in SortByName(s, key) <==> x in s
  {
    var r := SortByName(s, key);
    assert x in r <==> x in multiset(r);
    assert x in s <==> x in multiset(s);
  }

  /** The elements of `s` that satisfy `p`, in their original order (`Array.prototype.filter`). */
  function Where<T>(s: seq<T>, p: T -> bool): (r: seq<T>)
    ensures |r| <= |s|
    ensures forall x :: x in r ==> x in s && p(x)
    ensures forall i :: 0 <= i < |s| && p(s[i]) ==> s[i] in r
    ensures IsSubsequence(r, s)
    decreases |s|
  {
    if |s| == 0 then []
    else
      var rest := Where(s[1..], p);
      assert s == [s[0]] + s[1..];
      if p(s[0]) then [s[0]] + rest else rest
  }

  /** `a` is `b` with some elements left out and the rest kept in order. */
  ghost predicate IsSubsequence<T>(a: seq<T>, b: seq<T>)
    decreases |b|
  {
    if |a| == 0 then true
    else if |b| == 0 then false
    else if a[0] == b[0] then IsSubsequence(a[1..], b[1..])
    else IsSubsequence(a, b[1..])
  }

  /** Keeping every element keeps the sequence. */
  lemma {:induction false} WhereAll<T>(s: seq<T>, p: T -> bool)
    requires forall x :: x in s ==> p(x)
    ensures Where(s, p) == s
    decreases |s|
  {
    if |s| > 0 {
      assert forall x :: x in s[1..] ==> x in s;
      WhereAll(s[1..], p);
    }
  }

  /** Pairwise distinct keys: no two positions share a key. */
  ghost predicate DistinctBy<T, K>(s: seq<T>, key: T -> K) {
    forall i, j :: 0 <= i < j < |s| ==> key(s[i]) != key(s[j])
  }

  lemma {:induction false} DistinctOccursOnce<T, K>(s: seq<T>, key: T -> K, x: T)
    requires DistinctBy(s, key)
    ensures multiset(s)[x] <= 1
    decreases |s|
  {
    if |s| > 0 {
      assert s == [s[0]] + s[1..];
      assert DistinctBy(s[1..], key) by {
        forall i, j | 0 <= i < j < |s[1..]| ensures key(s[1..][i]) != key(s[1..][j]) {
          assert s[1..][i] == s[i + 1] && s[1..][j] == s[j + 1];
        }
      }
      DistinctOccursOnce(s[1..], key, x);
      if s[0] == x {
        forall k | 0 <= k < |s[1..]| ensures s[1..][k] != x {
          assert s[1..][k] == s[k + 1];
          assert key(s[0]) != key(s[k + 1]);
        }
        assert x !in s[1..];
      }
    }
  }

  lemma OccursTwice<T>(s: seq<T>, i: nat, j: nat)
    requires i < j < |s| && s[i] == s[j]
    ensures multiset(s)[s[i]] >= 2
  {
    assert s == s[..j] + [s[j]] + s[j + 1..];
    assert s[i] in s[..j];
    assert multiset(s) == multiset(s[..j]) + multiset{s[j]} + multiset(s[j + 1..]);
  }

  /** A permutation of a sequence with distinct keys has distinct keys. */
  lemma PermutationKeepsDistinct<T, K>(s: seq<T>, r: seq<T>, key: T -> K)
    requires multiset(r) == multiset(s)
    requires DistinctBy(s, key)
    ensures DistinctBy(r, key)
  {
    forall i, j | 0 <= i < j < |r| ensures key(r[i]) != key(r[j]) {
      assert r[i] in multiset(s) && r[j] in multiset(s);
      if r[i] == r[j] {
        OccursTwice(r, i, j);
        DistinctOccursOnce(s, key, r[i]);
      } else {
        var a :| 0 <= a < |s| && s[a] == r[i];
        var b :| 0 <= b < |s| && s[b] == r[j];
        assert a != b;
        if a < b {
          assert key(s[a]) != key(s[b]);
        } else {
          assert key(s[b]) != key(s[a]);
        }
      }
    }
  }

  /** The keys of the elements of `s`. */
  ghost function KeySet<T, K>(s: seq<T>, key: T -> K): set<K> {
    set x | x in s :: key(x)
  }

  /** A sequence with distinct keys has as many distinct keys as elements. */
  lemma {:induction false} DistinctKeyCount<T, K>(s: seq<T>, key: T -> K)
    requires DistinctBy(s, key)
    ensures |KeySet(s, key)| == |s|
    decreases |s|
  {
    if |s| > 0 {
      var tail := s[1..];
      assert DistinctBy(tail, key) by {
        forall i, j | 0 <= i < j < |tail| ensures key(tail[i]) != key(tail[j]) {
          assert tail[i] == s[i + 1] && tail[j] == s[j + 1];
        }
      }
      DistinctKeyCount(tail, key);
      var rest := KeySet(tail, key);
      assert KeySet(s, key) == {key(s[0])} + rest by {
        assert s == [s[0]] + tail;
      }
      assert key(s[0]) !in rest by {
        forall k | 0 <= k < |tail| ensures key(tail[k]) != key(s[0]) {
          assert tail[k] == s[k + 1];
        }
      }
    }
  }

  /** Dropping the head keeps keys distinct, and no later key equals the head's. */
  lemma DistinctTail<T, K>(s: seq<T>, key: T -> K)
    requires |s| > 0 && DistinctBy(s, key)
    ensures DistinctBy(s[1..], key)
    ensures forall x :: x in s[1..] ==> key(x) != key(s[0])
  {
    var tail := s[1..];
    forall i, j | 0 <= i < j < |tail| ensures key(tail[i]) != key(tail[j]) {
      assert tail[i] == s[i + 1] && tail[j] == s[j + 1];
    }
    forall x | x in tail ensures key(x) != key(s[0]) {
      var k :| 0 <= k < |tail| && tail[k] == x;
      assert tail[k] == s[k + 1];
    }
  }

  /** At most one element in front of a sequence with distinct keys, sharing none of them, keeps keys distinct. */
  lemma DistinctPrepend<T, K>(head: seq<T>, rest: seq<T>, key: T -> K)
    requires |head| <= 1 && DistinctBy(rest, key)
    requires forall x, y :: x in head && y in rest ==> key(x) != key(y)
    ensures DistinctBy(head + rest, key)
  {
    var r := head + rest;
    forall i, j | 0 <= i < j < |r| ensures key(r[i]) != key(r[j]) {
      assert r[j] == rest[j - |head|];
      if i < |head| {
        assert r[i] in head && r[j] in rest;
      } else {
        assert r[i] == rest[i - |head|];
      }
    }
  }

  /** Filtering a sequence with distinct keys keeps them distinct. */
  lemma {:induction false} WhereKeepsDistinct<T, K>(s: seq<T>, p: T -> bool, key: T -> K)
    ensures DistinctBy(s, key) ==> DistinctBy(Where(s, p), key)
    decreases |s|
  {
    if |s| > 0 && DistinctBy(s, key) {
      DistinctTail(s, key);
      WhereKeepsDistinct(s[1..], p, key);
      var rest := Where(s[1..], p);
      if p(s[0]) {
        var r := [s[0]] + rest;
        forall i, j | 0 <= i < j < |r| ensures key(r[i]) != key(r[j]) {
          assert r[j] == rest[j - 1] && r[j] in rest;
          if i > 0 {
            assert r[i] == rest[i - 1];
          }
        }
      }
    }
  }

  /** Every earlier element is related to every later one. */
  ghost predicate Pairwise<T>(s: seq<T>, rel: (T, T) -> bool) {
    forall i, j :: 0 <= i < j < |s| ==> rel(s[i], s[j])
  }

  /** Filtering keeps a relation that held between every earlier and later element. */
  lemma {:induction false} WhereKeepsPairwise<T>(s: seq<T>, p: T -> bool, rel: (T, T) -> bool)
    ensures Pairwise(s, rel) ==> Pairwise(Where(s, p), rel)
    decreases |s|
  {
    if |s| > 0 && Pairwise(s, rel) {
      var tail := s[1..];
      forall i, j | 0 <= i < j < |tail| ensures rel(tail[i], tail[j]) {
        assert tail[i] == s[i + 1] && tail[j] == s[j + 1];
      }
      WhereKeepsPairwise(tail, p, rel);
      var rest := Where(tail, p);
      forall x | x in rest ensures rel(s[0], x) {
        var k :| 0 <= k < |tail| && tail[k] == x;
        assert tail[k] == s[k + 1];
      }
      if p(s[0]) {
        var r := [s[0]] + rest;
        forall i, j | 0 <= i < j < |r| ensures rel(r[i], r[j]) {
          assert r[j] == rest[j - 1] && r[j] in rest;
          if i > 0 {
            assert r[i] == rest[i - 1];
          }
        }
      }
    }
  }
}
