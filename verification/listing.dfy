/** Newest-first listings: the `ORDER BY createdAt DESC` of the follow and
    bookmark queries, over any key type with a creation time per key. Rows with
    equal times may come in any order, as in the database. */
module Listing {

  /** Every entry of `s` has a creation time in `at`. */
  predicate Keyed<K(==)>(s: seq<K>, at: map<K, int>) {
    forall i :: 0 <= i < |s| ==> s[i] in at
  }

  /** Creation times never increase along `s`. */
  predicate NewestFirst<K(==)>(s: seq<K>, at: map<K, int>)
    requires Keyed(s, at)
  {
    forall i, j :: 0 <= i < j < |s| ==> at[s[i]] >= at[s[j]]
  }

  predicate Distinct<K(==)>(s: seq<K>) {
    forall i, j :: 0 <= i < j < |s| ==> s[i] != s[j]
  }

  /** Inserts `k` before the first entry that is not newer than it. */
  function Insert<K(==)>(s: seq<K>, k: K, at: map<K, int>): (r: seq<K>)
    requires Keyed(s, at) && k in at && NewestFirst(s, at)
    ensures multiset(r) == multiset(s) + multiset{k}
    ensures Keyed(r, at) && NewestFirst(r, at)
    ensures |r| == |s| + 1
    ensures |r| > 0 && (r[0] == k || (|s| > 0 && r[0] == s[0]))
  {
    if |s| == 0 then [k]
    else if at[k] >= at[s[0]] then [k] + s
    else
      var rest := Insert(s[1..], k, at);
      assert s == [s[0]] + s[1..];
      [s[0]] + rest
  }

  /** Lists exactly the given keys, each once, newest first. */
  method ListNewestFirst<K(==)>(keys: set<K>, at: map<K, int>) returns (s: seq<K>)
    requires keys <= at.Keys
    ensures Keyed(s, at) && NewestFirst(s, at)
    ensures Distinct(s)
    ensures forall k :: k in s <==> k in keys
  {
    s := [];
    var rest := keys;
    while rest != {}
      invariant rest <= keys
      invariant Keyed(s, at) && NewestFirst(s, at)
      invariant Distinct(s)
      invariant forall k :: k in s <==> k in keys && k !in rest
      decreases |rest|
    {
      var k :| k in rest;
      var s' := Insert(s, k, at);
      assert forall x :: x in s' <==> x in s || x == k by {
        forall x ensures x in s' <==> x in s || x == k {
          assert x in s' <==> x in multiset(s');
          assert x in s <==> x in multiset(s);
        }
      }
      DistinctAfterInsert(s, k, s');
      s := s';
      rest := rest - {k};
    }
  }

  /** Adding a new element to a duplicate-free sequence, as a permutation, keeps it duplicate-free. */
  lemma DistinctAfterInsert<K>(s: seq<K>, k: K, r: seq<K>)
    requires Distinct(s) && k !in s
    requires multiset(r) == multiset(s) + multiset{k}
    ensures Distinct(r)
  {
    forall i, j | 0 <= i < j < |r| ensures r[i] != r[j] {
      if r[i] == r[j] {
        var x := r[i];
        assert multiset(r)[x] >= 2 by {
          assert r == r[..i] + [x] + r[i + 1..j] + [x] + r[j + 1..];
        }
        MultiplicityInDistinct(s, x);
        assert false;
      }
    }
  }

  /** In a duplicate-free sequence every element occurs once. */
  lemma {:induction false} MultiplicityInDistinct<K>(s: seq<K>, x: K)
    requires Distinct(s)
    ensures multiset(s)[x] <= 1
  {
    if |s| > 0 {
      assert s == [s[0]] + s[1..];
      assert Distinct(s[1..]) by {
        forall i, j | 0 <= i < j < |s[1..]| ensures s[1..][i] != s[1..][j] {
          assert s[1..][i] == s[i + 1] && s[1..][j] == s[j + 1];
        }
      }
      MultiplicityInDistinct(s[1..], x);
      if s[0] == x {
        assert x !in s[1..] by {
          forall i | 0 <= i < |s[1..]| ensures s[1..][i] != x {
            assert s[1..][i] == s[i + 1];
          }
        }
      }
    }
  }

  /** A duplicate-free listing of exactly the members of a set has its size. */
  lemma DistinctCardinality<K>(s: seq<K>, keys: set<K>)
    requires Distinct(s) && forall k :: k in s <==> k in keys
    ensures |s| == |keys|
  {
    if |s| > 0 {
      var x := s[|s| - 1];
      var init := s[..|s| - 1];
      assert Distinct(init);
      assert x !in init;
      forall k ensures k in init <==> k in keys - {x} {
        if k in init {
          var i :| 0 <= i < |init| && init[i] == k;
          assert s[i] == k;
        }
        if k in keys - {x} {
          var i :| 0 <= i < |s| && s[i] == k;
          assert i < |s| - 1;
          assert init[i] == k;
        }
      }
      DistinctCardinality(init, keys - {x});
    } else {
      assert forall k :: k !in keys;
      assert keys == {};
    }
  }
}
