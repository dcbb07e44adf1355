/**
  `java.util.List` operations under an `equals` that compares one key (the id of
  a user or a team, the user of a registration, a vote as a whole): `contains`,
  `remove(Object)` and `removeIf`. Keys are taken by named functions so that the
  same key function is the same value everywhere.
*/
module Lists {

  /** `List.contains(o)` when `equals` compares `key`. */
  predicate HasKey<T, K(==,!new)>(s: seq<T>, key: T -> K, k: K) {
    exists i | 0 <= i < |s| :: key(s[i]) == k
  }

  /** No two elements are `equals`: the list behaves as an ordered set. */
  predicate DistinctKeys<T, K(==,!new)>(s: seq<T>, key: T -> K) {
    forall i, j {:trigger key(s[i]), key(s[j])} | 0 <= i < j < |s| :: key(s[i]) != key(s[j])
  }

  /** `List.remove(o)`: drops the first element whose key is `k`, if any. */
  function RemoveFirst<T, K(==,!new)>(s: seq<T>, key: T -> K, k: K): (r: seq<T>)
    ensures HasKey(s, key, k) ==> |r| == |s| - 1
    ensures !HasKey(s, key, k) ==> r == s
    ensures forall j :: HasKey(r, key, j) ==> HasKey(s, key, j)
  {
    if s == [] then []
    else if key(s[0]) == k then s[1..]
    else
      var tail := RemoveFirst(s[1..], key, k);
      var r := [s[0]] + tail;
      assert forall j :: HasKey(r, key, j) ==> HasKey(s, key, j) by {
        forall j | HasKey(r, key, j) ensures HasKey(s, key, j) {
          var i :| 0 <= i < |r| && key(r[i]) == j;
          if i > 0 {
            assert key(tail[i - 1]) == j;
            assert HasKey(tail, key, j);
            var m :| 0 <= m < |s[1..]| && key(s[1..][m]) == j;
            assert key(s[m + 1]) == j;
          } else {
            assert key(s[0]) == j;
          }
        }
      }
      r
  }

  /** `Collection.removeIf(e -> e equals k)`: drops every element whose key is `k`. */
  function RemoveAll<T, K(==,!new)>(s: seq<T>, key: T -> K, k: K): (r: seq<T>)
    ensures |r| <= |s|
    ensures !HasKey(r, key, k)
    ensures forall j :: j != k ==> (HasKey(r, key, j) <==> HasKey(s, key, j))
  {
    if s == [] then []
    else
      var tail := RemoveAll(s[1..], key, k);
      var head := if key(s[0]) == k then [] else [s[0]];
      var r := head + tail;
      assert forall j :: j != k ==> (HasKey(r, key, j) <==> HasKey(s, key, j)) by {
        forall j | j != k ensures HasKey(r, key, j) <==> HasKey(s, key, j) {
          if HasKey(s, key, j) {
            var i :| 0 <= i < |s| && key(s[i]) == j;
            if i == 0 {
              assert r[0] == s[0];
            } else {
              assert key(s[1..][i - 1]) == j;
              assert HasKey(tail, key, j);
              var m :| 0 <= m < |tail| && key(tail[m]) == j;
              assert key(r[|head| + m]) == j;
            }
          }
          if HasKey(r, key, j) {
            var i :| 0 <= i < |r| && key(r[i]) == j;
            if i < |head| {
              assert key(s[0]) == j;
            } else {
              assert key(tail[i - |head|]) == j;
              assert HasKey(s[1..], key, j);
              var m :| 0 <= m < |s[1..]| && key(s[1..][m]) == j;
              assert key(s[m + 1]) == j;
            }
          }
        }
      }
      r
  }

  /** Adding an element whose key is new keeps the keys distinct. */
  lemma DistinctKeysAppend<T, K(!new)>(s: seq<T>, key: T -> K, x: T)
    requires DistinctKeys(s, key) && !HasKey(s, key, key(x))
    ensures DistinctKeys(s + [x], key)
  {
    var t := s + [x];
    forall i, j | 0 <= i < j < |t| ensures key(t[i]) != key(t[j]) {
      if j == |s| {
        assert key(t[i]) == key(s[i]);
      }
    }
  }

  /** `remove(x)` drops exactly the first occurrence: in particular, `remove(x)` right
      after `add(x)` of an element with a new key gives the list back. */
  lemma {:induction false} RemoveFirstSplit<T, K(!new)>(a: seq<T>, x: T, b: seq<T>, key: T -> K)
    requires !HasKey(a, key, key(x))
    ensures RemoveFirst(a + [x] + b, key, key(x)) == a + b
    decreases |a|
  {
    if a == [] {
      assert a + [x] + b == [x] + b;
    } else {
      assert key(a[0]) != key(x);
      assert forall i | 0 <= i < |a[1..]| :: a[1..][i] == a[i + 1];
      RemoveFirstSplit(a[1..], x, b, key);
      assert (a + [x] + b)[1..] == a[1..] + [x] + b;
      assert a + b == [a[0]] + (a[1..] + b);
    }
  }

  /** `removeIf` right after `add(x)` of an element with a new key gives the list back. */
  lemma {:induction false} RemoveAllAppended<T, K(!new)>(s: seq<T>, x: T, key: T -> K)
    requires !HasKey(s, key, key(x))
    ensures RemoveAll(s + [x], key, key(x)) == s
    decreases |s|
  {
    if s != [] {
      assert key(s[0]) != key(x);
      assert forall i | 0 <= i < |s[1..]| :: s[1..][i] == s[i + 1];
      RemoveAllAppended(s[1..], x, key);
      assert (s + [x])[1..] == s[1..] + [x];
    }
  }

  /** On a list without repeated keys, `remove(k)` leaves no element with key `k`
      and keeps the keys distinct. */
  lemma RemoveFirstDistinct<T, K(!new)>(s: seq<T>, key: T -> K, k: K)
    requires DistinctKeys(s, key)
    ensures DistinctKeys(RemoveFirst(s, key, k), key)
    ensures !HasKey(RemoveFirst(s, key, k), key, k)
  {
    RemoveFirstKeepsDistinct(s, key, key, k);
    RemoveFirstNoKey(s, key, k);
  }

  lemma {:induction false} RemoveFirstNoKey<T, K(!new)>(s: seq<T>, key: T -> K, k: K)
    requires DistinctKeys(s, key)
    ensures !HasKey(RemoveFirst(s, key, k), key, k)
    decreases |s|
  {
    if s != [] {
      var rest := s[1..];
      assert forall i | 0 <= i < |rest| :: rest[i] == s[i + 1];
      if key(s[0]) == k {
        forall i | 0 <= i < |rest| ensures key(rest[i]) != k {
          assert key(s[0]) != key(s[i + 1]);
        }
      } else {
        RemoveFirstNoKey(rest, key, k);
        var tail := RemoveFirst(rest, key, k);
        var r := [s[0]] + tail;
        assert r == RemoveFirst(s, key, k);
        forall i | 0 <= i < |r| ensures key(r[i]) != k {
          if i > 0 {
            assert r[i] == tail[i - 1];
          }
        }
      }
    }
  }

  /** `List.remove` by one key keeps any other key distinct. */
  lemma {:induction false} RemoveFirstKeepsDistinct<T, K(!new), J(!new)>(s: seq<T>, key: T -> K, other: T -> J, k: K)
    requires DistinctKeys(s, other)
    ensures DistinctKeys(RemoveFirst(s, key, k), other)
    decreases |s|
  {
    if s != [] && key(s[0]) != k {
      var tail := s[1..];
      assert forall i | 0 <= i < |tail| :: tail[i] == s[i + 1];
      RemoveFirstKeepsDistinct(tail, key, other, k);
      RemoveFirstSubset(tail, key, k);
      var rt := RemoveFirst(tail, key, k);
      var r := [s[0]] + rt;
      forall i, j | 0 <= i < j < |r| ensures other(r[i]) != other(r[j]) {
        if i == 0 {
          assert r[j] == rt[j - 1];
          assert r[j] in tail;
        } else {
          assert r[i] == rt[i - 1] && r[j] == rt[j - 1];
        }
      }
    }
  }

  /** Every element left by `List.remove` was in the list. */
  lemma {:induction false} RemoveFirstSubset<T, K(!new)>(s: seq<T>, key: T -> K, k: K)
    ensures forall x | x in RemoveFirst(s, key, k) :: x in s
    decreases |s|
  {
    if s != [] && key(s[0]) != k {
      RemoveFirstSubset(s[1..], key, k);
    }
  }
}
