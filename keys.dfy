/**
 * Keys of the ordered store and the order the store keeps them in.
 *
 * A key is a string. The store orders keys by their UTF-8 bytes; since UTF-8
 * preserves code-point order, that is the lexicographic order on characters
 * defined here by Less. A full scan visits keys in that order, and a prefix
 * scan visits the keys that start with the prefix, also in that order.
 */
module Keys {
  type Key = string

  /** Strict lexicographic order: a proper prefix comes first, otherwise the first differing character decides. */
  predicate Less(a: Key, b: Key)
    decreases |a|
  {
    if |a| == 0 then |b| != 0
    else if |b| == 0 then false
    else if a[0] != b[0] then a[0] < b[0]
    else Less(a[1..], b[1..])
  }

  lemma {:induction false} LessIrreflexive(a: Key)
    ensures !Less(a, a)
    decreases |a|
  {
    if |a| > 0 {
      LessIrreflexive(a[1..]);
    }
  }

  lemma {:induction false} LessTransitive(a: Key, b: Key, c: Key)
    requires Less(a, b) && Less(b, c)
    ensures Less(a, c)
    decreases |a|
  {
    if |a| > 0 && a[0] == b[0] && b[0] == c[0] {
      LessTransitive(a[1..], b[1..], c[1..]);
    }
  }

  lemma {:induction false} LessTotal(a: Key, b: Key)
    ensures a == b || Less(a, b) || Less(b, a)
    decreases |a|
  {
    if |a| > 0 && |b| > 0 && a[0] == b[0] {
      LessTotal(a[1..], b[1..]);
      if a[1..] == b[1..] {
        assert a == [a[0]] + a[1..] && b == [b[0]] + b[1..];
      }
    }
  }

  lemma LessAsymmetric(a: Key, b: Key)
    requires Less(a, b)
    ensures !Less(b, a)
  {
    if Less(b, a) {
      LessTransitive(a, b, a);
      LessIrreflexive(a);
    }
  }

  /** A key sorts before every longer key it is a prefix of ("test" before "test2"). */
  lemma {:induction false} ProperPrefixLess(a: Key, b: Key)
    requires a < b
    ensures Less(a, b)
    decreases |a|
  {
    if |a| > 0 {
      assert a[1..] < b[1..];
      ProperPrefixLess(a[1..], b[1..]);
    }
  }

  /** A shared prefix does not change the order. */
  lemma {:induction false} LessCommonPrefix(p: Key, a: Key, b: Key)
    ensures Less(p + a, p + b) <==> Less(a, b)
    decreases |p|
  {
    if |p| > 0 {
      assert (p + a)[1..] == p[1..] + a && (p + b)[1..] == p[1..] + b;
      assert Less(p + a, p + b) == Less(p[1..] + a, p[1..] + b);
      LessCommonPrefix(p[1..], a, b);
    } else {
      assert p + a == a && p + b == b;
    }
  }

  /** Keys that share a prefix are contiguous: a key between two keys with prefix `p` has prefix `p` too. */
  lemma {:induction false} PrefixBetween(p: Key, a: Key, b: Key, c: Key)
    requires p <= a && p <= c && Less(a, b) && Less(b, c)
    ensures p <= b
    decreases |p|
  {
    if |p| > 0 {
      assert |a| > 0 && |c| > 0 && a[0] == p[0] == c[0];
      if |b| > 0 && b[0] == p[0] {
        assert p[1..] <= a[1..] && p[1..] <= c[1..];
        PrefixBetween(p[1..], a[1..], b[1..], c[1..]);
      }
    }
  }

  predicate IsLeast(k: Key, ks: set<Key>)
  {
    k in ks && forall j | j in ks :: j == k || Less(k, j)
  }

  lemma {:induction false} LeastExists(ks: set<Key>)
    requires ks != {}
    ensures exists k :: IsLeast(k, ks)
    decreases ks
  {
    var x :| x in ks;
    if ks != {x} {
      LeastExists(ks - {x});
      var m :| IsLeast(m, ks - {x});
      LessTotal(x, m);
      if Less(x, m) {
        forall j | j in ks && j != x ensures Less(x, j) {
          if j != m {
            LessTransitive(x, m, j);
          }
        }
        assert IsLeast(x, ks);
      } else {
        assert IsLeast(m, ks);
      }
    } else {
      assert IsLeast(x, ks);
    }
  }

  lemma LeastUnique(a: Key, b: Key, ks: set<Key>)
    requires IsLeast(a, ks) && IsLeast(b, ks)
    ensures a == b
  {
    if a != b {
      LessAsymmetric(a, b);
    }
  }

  ghost function Least(ks: set<Key>): (k: Key)
    requires ks != {}
    ensures IsLeast(k, ks)
  {
    LeastExists(ks);
    var k :| IsLeast(k, ks);
    k
  }

  ghost predicate StrictlySorted(s: seq<Key>)
  {
    forall i, j | 0 <= i < j < |s| :: Less(s[i], s[j])
  }

  /** The keys of `ks` in ascending order, each once: the order of a full scan. */
  ghost function Ordered(ks: set<Key>): (r: seq<Key>)
    ensures StrictlySorted(r)
    ensures forall k :: k in r <==> k in ks
    ensures |r| == |ks|
    decreases ks
  {
    if ks == {} then []
    else
      var m := Least(ks);
      [m] + Ordered(ks - {m})
  }

  /** Ascending order determines the sequence: any strictly ascending listing of `ks` is Ordered(ks). */
  lemma {:induction false} OrderedUnique(s: seq<Key>, ks: set<Key>)
    requires StrictlySorted(s)
    requires forall k :: k in s <==> k in ks
    ensures s == Ordered(ks)
    decreases |s|
  {
    if s == [] {
      assert ks == {};
    } else {
      assert IsLeast(s[0], ks) by {
        forall j | j in ks && j != s[0] ensures Less(s[0], j) {
          var i :| 0 <= i < |s| && s[i] == j;
          assert i != 0;
        }
      }
      LeastUnique(s[0], Least(ks), ks);
      var rest := ks - {s[0]};
      forall k ensures k in s[1..] <==> k in rest {
        if k in s[1..] {
          var i :| 1 <= i < |s| && s[i] == k;
          LessIrreflexive(k);
          assert Less(s[0], s[i]);
        }
        if k in rest {
          assert k in s && k != s[0];
        }
      }
      OrderedUnique(s[1..], rest);
    }
  }

  /** The keys of `ks` that start with `p`: what a prefix scan visits. */
  function WithPrefix(ks: set<Key>, p: Key): (r: set<Key>)
    ensures forall k :: k in r <==> k in ks && p <= k
  {
    set k | k in ks && p <= k
  }

  /** The elements of `s` that start with `p`, in their order in `s`. */
  function Filter(s: seq<Key>, p: Key): (r: seq<Key>)
  {
    if s == [] then []
    else (if p <= s[0] then [s[0]] else []) + Filter(s[1..], p)
  }

  lemma {:induction false} FilterMembers(s: seq<Key>, p: Key)
    ensures forall k :: k in Filter(s, p) <==> k in s && p <= k
  {
    if s != [] {
      FilterMembers(s[1..], p);
      assert s == [s[0]] + s[1..];
    }
  }

  lemma {:induction false} FilterSorted(s: seq<Key>, p: Key)
    requires StrictlySorted(s)
    ensures StrictlySorted(Filter(s, p))
  {
    if s != [] {
      FilterSorted(s[1..], p);
      FilterMembers(s[1..], p);
      var tail := Filter(s[1..], p);
      forall k | k in tail ensures Less(s[0], k) {
        var i :| 1 <= i < |s| && s[i] == k;
      }
    }
  }

  /** A prefix scan yields exactly the entries of a full scan whose keys start with the prefix, in the same order. */
  lemma PrefixScanIsFilter(ks: set<Key>, p: Key)
    ensures Ordered(WithPrefix(ks, p)) == Filter(Ordered(ks), p)
  {
    var all := Ordered(ks);
    FilterSorted(all, p);
    FilterMembers(all, p);
    OrderedUnique(Filter(all, p), WithPrefix(ks, p));
  }

  /** In ascending order the keys with prefix `p` form one block, so a scan can stop at the first key without it. */
  lemma PrefixScanContiguous(ks: set<Key>, p: Key)
    ensures var s := Ordered(ks);
      forall i, j, l | 0 <= i < j < l < |s| && p <= s[i] && p <= s[l] :: p <= s[j]
  {
    var s := Ordered(ks);
    forall i, j, l | 0 <= i < j < l < |s| && p <= s[i] && p <= s[l] ensures p <= s[j] {
      PrefixBetween(p, s[i], s[j], s[l]);
    }
  }

  /** One step of the scan: the least key moves from the unvisited set to the end of the listing so far. */
  lemma OrderedStep(r: seq<Key>, ks: set<Key>, k: Key)
    requires IsLeast(k, ks)
    ensures r + Ordered(ks) == (r + [k]) + Ordered(ks - {k})
  {
    LeastUnique(k, Least(ks), ks);
    assert Ordered(ks) == [k] + Ordered(ks - {k});
  }

  /** The ordered scan the store performs over a set of keys. */
  method Scan(ks: set<Key>) returns (r: seq<Key>)
    ensures r == Ordered(ks)
  {
    var rest := ks;
    r := [];
    while rest != {}
      invariant rest <= ks
      invariant r + Ordered(rest) == Ordered(ks)
      decreases |rest|
    {
      LeastExists(rest);
      var k :| IsLeast(k, rest);
      OrderedStep(r, rest, k);
      r, rest := r + [k], rest - {k};
    }
  }
}
