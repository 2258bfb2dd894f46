// Sorted lists of names: strict byte-wise order, and the sorted list of a set.
module Names {
  import opened Text

  predicate Less(a: string, b: string) {
    Leq(a, b) && a != b
  }

  predicate StrictlySorted(s: seq<string>) {
    forall i, j | 0 <= i < j < |s| :: Less(s[i], s[j])
  }

  function ToSet(s: seq<string>): set<string> {
    set x | x in s
  }

  lemma LessTransitive(a: string, b: string, c: string)
    requires Less(a, b) && Less(b, c)
    ensures Less(a, c)
  {
    LeqTransitive(a, b, c);
    if Leq(b, a) {
      LeqAntisymmetric(a, b);
    }
  }

  lemma LessTotal(a: string, b: string)
    ensures a == b || Less(a, b) || Less(b, a)
    ensures !(Less(a, b) && Less(b, a))
  {
    LeqTotal(a, b);
    if Leq(a, b) && Leq(b, a) {
      LeqAntisymmetric(a, b);
    }
  }

  /** Put x into a strictly sorted list; a name already there is not repeated. */
  function Insert(x: string, s: seq<string>): (r: seq<string>)
    requires StrictlySorted(s)
    ensures StrictlySorted(r)
    ensures ToSet(r) == ToSet(s) + {x}
  {
    if s == [] then [x]
    else if x == s[0] then s
    else if Leq(x, s[0]) then
      InsertFront(x, s);
      [x] + s
    else
      InsertLater(x, s);
      [s[0]] + Insert(x, s[1..])
  }

  lemma InsertFront(x: string, s: seq<string>)
    requires StrictlySorted(s) && s != [] && Less(x, s[0])
    ensures StrictlySorted([x] + s)
    ensures ToSet([x] + s) == ToSet(s) + {x}
  {
    forall j | 0 <= j < |s|
      ensures Less(x, s[j])
    {
      if j > 0 {
        LessTransitive(x, s[0], s[j]);
      }
    }
    assert forall y :: y in [x] + s <==> y == x || y in s;
  }

  lemma InsertLater(x: string, s: seq<string>)
    requires StrictlySorted(s) && s != [] && x != s[0] && !Leq(x, s[0])
    ensures StrictlySorted(s[1..])
    ensures forall r | StrictlySorted(r) && ToSet(r) == ToSet(s[1..]) + {x} ::
      StrictlySorted([s[0]] + r) && ToSet([s[0]] + r) == ToSet(s) + {x}
  {
    LessTotal(x, s[0]);
    forall r | StrictlySorted(r) && ToSet(r) == ToSet(s[1..]) + {x}
      ensures StrictlySorted([s[0]] + r) && ToSet([s[0]] + r) == ToSet(s) + {x}
    {
      forall j | 0 <= j < |r|
        ensures Less(s[0], r[j])
      {
        assert r[j] in ToSet(r);
        if r[j] != x {
          assert r[j] in s[1..];
        }
      }
      assert forall y :: y in [s[0]] + r <==> y == s[0] || y in ToSet(r);
      assert forall y :: y in s <==> y == s[0] || y in s[1..];
    }
  }

  /** The sorted list of a set of names. */
  ghost function Sorted(names: set<string>): (r: seq<string>)
    ensures StrictlySorted(r)
    ensures ToSet(r) == names
  {
    if names == {} then []
    else
      var x :| x in names;
      Insert(x, Sorted(names - {x}))
  }

  /** Strictly sorted lists of the same names are equal. */
  lemma {:induction false} SortedUnique(a: seq<string>, b: seq<string>)
    requires StrictlySorted(a) && StrictlySorted(b) && ToSet(a) == ToSet(b)
    ensures a == b
  {
    if a == [] {
      assert forall i | 0 <= i < |b| :: b[i] in ToSet(b);
    } else {
      assert a[0] in ToSet(a) && a[0] in ToSet(b);
      assert b != [] && b[0] in ToSet(b) && b[0] in ToSet(a);
      HeadsEqual(a, b);
      assert ToSet(a[1..]) == ToSet(a) - {a[0]} by {
        assert forall y :: y in a <==> y == a[0] || y in a[1..];
        assert a[0] !in a[1..];
      }
      assert ToSet(b[1..]) == ToSet(b) - {b[0]} by {
        assert forall y :: y in b <==> y == b[0] || y in b[1..];
        assert b[0] !in b[1..];
      }
      SortedUnique(a[1..], b[1..]);
      assert a == [a[0]] + a[1..] && b == [b[0]] + b[1..];
    }
  }

  lemma HeadsEqual(a: seq<string>, b: seq<string>)
    requires StrictlySorted(a) && StrictlySorted(b) && a != [] && b != []
    requires a[0] in b && b[0] in a
    ensures a[0] == b[0]
  {
    LessTotal(a[0], b[0]);
    var i :| 0 <= i < |b| && b[i] == a[0];
    var j :| 0 <= j < |a| && a[j] == b[0];
    assert forall k | 0 < k < |b| :: Less(b[0], b[k]);
    assert forall k | 0 < k < |a| :: Less(a[0], a[k]);
  }

  /** The name that comes last when each is followed by the suffix. */
  ghost function Last(names: set<string>, suffix: string): (x: string)
    requires names != {}
    ensures x in names
    ensures forall y | y in names :: Leq(y + suffix, x + suffix)
    decreases |names|
  {
    var y :| y in names;
    if names == {y} then
      LeqReflexive(y + suffix);
      y
    else
      var z := Last(names - {y}, suffix);
      LastOf(y, z, names, suffix);
      if Leq(z + suffix, y + suffix) then y else z
  }

  lemma {:induction false} LeqReflexive(a: string)
    ensures Leq(a, a)
  {
    if a != "" {
      LeqReflexive(a[1..]);
    }
  }

  lemma LastOf(y: string, z: string, names: set<string>, suffix: string)
    requires y in names && z in names - {y}
    requires forall w | w in names - {y} :: Leq(w + suffix, z + suffix)
    ensures forall w | w in names :: Leq(w + suffix, (if Leq(z + suffix, y + suffix) then y else z) + suffix)
  {
    LeqTotal(y + suffix, z + suffix);
    LeqReflexive(y + suffix);
    forall w | w in names
      ensures Leq(w + suffix, (if Leq(z + suffix, y + suffix) then y else z) + suffix)
    {
      if w != y && Leq(z + suffix, y + suffix) {
        LeqTransitive(w + suffix, z + suffix, y + suffix);
      }
    }
  }

  // ---- sorting by a name ----

  predicate StrictBy<T>(key: T -> string, s: seq<T>) {
    forall i, j | 0 <= i < j < |s| :: Less(key(s[i]), key(s[j]))
  }

  predicate DistinctBy<T>(key: T -> string, s: seq<T>) {
    forall i, j | 0 <= i < j < |s| :: key(s[i]) != key(s[j])
  }

  function InsertBy<T>(key: T -> string, x: T, s: seq<T>): seq<T> {
    if s == [] || Leq(key(x), key(s[0])) then [x] + s else [s[0]] + InsertBy(key, x, s[1..])
  }

  function SortBy<T>(key: T -> string, s: seq<T>): seq<T> {
    if s == [] then [] else InsertBy(key, s[0], SortBy(key, s[1..]))
  }

  lemma {:induction false} InsertByResult<T(!new)>(key: T -> string, x: T, s: seq<T>)
    requires StrictBy(key, s) && forall y | y in s :: key(y) != key(x)
    ensures StrictBy(key, InsertBy(key, x, s))
    ensures forall y :: y in InsertBy(key, x, s) <==> y == x || y in s
  {
    if s != [] {
      assert s[0] in s;
      LessTotal(key(x), key(s[0]));
      if Leq(key(x), key(s[0])) {
        forall j | 0 <= j < |s|
          ensures Less(key(x), key(s[j]))
        {
          if j > 0 {
            LessTransitive(key(x), key(s[0]), key(s[j]));
          }
        }
      } else {
        InsertByResult(key, x, s[1..]);
        var r := InsertBy(key, x, s[1..]);
        forall j | 0 <= j < |r|
          ensures Less(key(s[0]), key(r[j]))
        {
          assert r[j] in r;
          if r[j] != x {
            var k :| 0 <= k < |s[1..]| && s[1..][k] == r[j];
            assert s[k + 1] == r[j];
          }
        }
        assert forall y :: y in s <==> y == s[0] || y in s[1..];
      }
    }
  }

  lemma {:induction false} SortByResult<T(!new)>(key: T -> string, s: seq<T>)
    requires DistinctBy(key, s)
    ensures StrictBy(key, SortBy(key, s))
    ensures forall y :: y in SortBy(key, s) <==> y in s
  {
    if s != [] {
      SortByResult(key, s[1..]);
      forall y | y in s[1..]
        ensures key(y) != key(s[0])
      {
        var k :| 0 <= k < |s[1..]| && s[1..][k] == y;
        assert s[k + 1] == y;
      }
      var sorted := SortBy(key, s[1..]);
      assert forall y | y in sorted :: y in s[1..];
      InsertByResult(key, s[0], sorted);
      assert forall y :: y in s <==> y == s[0] || y in s[1..];
    }
  }

  lemma {:induction false} InsertByMultiset<T>(key: T -> string, x: T, s: seq<T>)
    ensures multiset(InsertBy(key, x, s)) == multiset(s) + multiset{x}
  {
    if s != [] {
      assert s == [s[0]] + s[1..];
      InsertByMultiset(key, x, s[1..]);
    }
  }

  lemma {:induction false} SortByMultiset<T>(key: T -> string, s: seq<T>)
    ensures multiset(SortBy(key, s)) == multiset(s)
  {
    if s != [] {
      assert s == [s[0]] + s[1..];
      SortByMultiset(key, s[1..]);
      InsertByMultiset(key, s[0], SortBy(key, s[1..]));
    }
  }

  predicate SortedBy<T>(key: T -> string, s: seq<T>) {
    forall i, j | 0 <= i < j < |s| :: Leq(key(s[i]), key(s[j]))
  }

  lemma {:induction false} InsertBySorted<T(!new)>(key: T -> string, x: T, s: seq<T>)
    requires SortedBy(key, s)
    ensures SortedBy(key, InsertBy(key, x, s))
    ensures forall y :: y in InsertBy(key, x, s) <==> y == x || y in s
  {
    if s != [] {
      LeqTotal(key(x), key(s[0]));
      if Leq(key(x), key(s[0])) {
        forall j | 0 < j < |s|
          ensures Leq(key(x), key(s[j]))
        {
          LeqTransitive(key(x), key(s[0]), key(s[j]));
        }
      } else {
        InsertBySorted(key, x, s[1..]);
        var r := InsertBy(key, x, s[1..]);
        forall j | 0 <= j < |r|
          ensures Leq(key(s[0]), key(r[j]))
        {
          assert r[j] in r;
          if r[j] != x {
            var k :| 0 <= k < |s[1..]| && s[1..][k] == r[j];
            assert s[k + 1] == r[j];
          }
        }
      }
    }
  }

  /** qsort by a name: the elements, in weakly increasing order. */
  lemma {:induction false} SortBySorted<T(!new)>(key: T -> string, s: seq<T>)
    ensures SortedBy(key, SortBy(key, s))
    ensures forall y :: y in SortBy(key, s) <==> y in s
  {
    if s != [] {
      SortBySorted(key, s[1..]);
      InsertBySorted(key, s[0], SortBy(key, s[1..]));
    }
  }
}
