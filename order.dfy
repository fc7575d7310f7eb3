/**
 * Go's ordering of strings and the library sorts the result model relies on
 * (`sort.Strings` and `sort.Slice` with a `<` on a string key).
 *
 * Go compares strings byte by byte; here strings are sequences of code points,
 * and for UTF-8 text the two orders agree.
 */
module StringOrder {

  /** Go's `a < b` on strings: lexicographic, and a proper prefix sorts first. */
  predicate Less(a: string, b: string)
    decreases |a|
  {
    |b| > 0 && (|a| == 0 || a[0] < b[0] || (a[0] == b[0] && Less(a[1..], b[1..])))
  }

  predicate LessEq(a: string, b: string)
  {
    a == b || Less(a, b)
  }

  lemma {:induction false} LessIrreflexive(a: string)
    ensures !Less(a, a)
  {
    if |a| > 0 {
      LessIrreflexive(a[1..]);
    }
  }

  lemma {:induction false} LessTransitive(a: string, b: string, c: string)
    requires Less(a, b) && Less(b, c)
    ensures Less(a, c)
  {
    if |a| > 0 && a[0] == b[0] && b[0] == c[0] {
      LessTransitive(a[1..], b[1..], c[1..]);
    }
  }

  lemma {:induction false} LessTotal(a: string, b: string)
    ensures Less(a, b) || a == b || Less(b, a)
  {
    if |a| > 0 && |b| > 0 && a[0] == b[0] {
      LessTotal(a[1..], b[1..]);
      if a[1..] == b[1..] {
        assert a == [a[0]] + a[1..] && b == [b[0]] + b[1..];
      }
    }
  }

  lemma LessAsymmetric(a: string, b: string)
    requires Less(a, b)
    ensures !Less(b, a) && a != b
  {
    LessIrreflexive(a);
    if Less(b, a) {
      LessTransitive(a, b, a);
    }
  }

  lemma LessEqTransitive(a: string, b: string, c: string)
    requires LessEq(a, b) && LessEq(b, c)
    ensures LessEq(a, c)
  {
    if a != b && b != c {
      LessTransitive(a, b, c);
    }
  }

  /** The identity key, for sorting strings by themselves. */
  function Id(s: string): string { s }

  ghost predicate SortedBy<T>(s: seq<T>, key: T -> string)
  {
    forall i, j :: 0 <= i < j < |s| ==> LessEq(key(s[i]), key(s[j]))
  }

  ghost predicate StrictlySortedBy<T>(s: seq<T>, key: T -> string)
  {
    forall i, j :: 0 <= i < j < |s| ==> Less(key(s[i]), key(s[j]))
  }

  ghost predicate Sorted(s: seq<string>) { SortedBy(s, Id) }

  ghost predicate StrictlySorted(s: seq<string>) { StrictlySortedBy(s, Id) }

  /** No element occurs twice. */
  ghost predicate NoDup<T>(s: seq<T>)
  {
    forall i, j :: 0 <= i < j < |s| ==> s[i] != s[j]
  }

  /** Distinct elements of `s` have distinct keys. */
  ghost predicate KeyInjective<T>(s: seq<T>, key: T -> string)
  {
    forall x, y :: x in s && y in s && key(x) == key(y) ==> x == y
  }

  /** One step of insertion sort: place `x` before the first element whose key is not below its own. */
  function Insert<T>(x: T, s: seq<T>, key: T -> string): (r: seq<T>)
    requires SortedBy(s, key)
    ensures SortedBy(r, key)
    ensures multiset(r) == multiset(s) + multiset{x}
    ensures |r| == |s| + 1
    ensures x in r && (forall y :: y in s ==> y in r) && forall y :: y in r ==> y == x || y in s
  {
    if s == [] then [x]
    else if LessEq(key(x), key(s[0])) then
      InsertFront(x, s, key);
      [x] + s
    else
      var t := Insert(x, s[1..], key);
      assert s == [s[0]] + s[1..];
      InsertBehind(x, s, t, key);
      [s[0]] + t
  }

  lemma InsertFront<T>(x: T, s: seq<T>, key: T -> string)
    requires SortedBy(s, key) && s != [] && LessEq(key(x), key(s[0]))
    ensures SortedBy([x] + s, key)
  {
    var r := [x] + s;
    forall i, j | 0 <= i < j < |r| ensures LessEq(key(r[i]), key(r[j])) {
      if i == 0 && j > 1 {
        LessEqTransitive(key(x), key(s[0]), key(s[j - 1]));
      }
    }
  }

  lemma InsertBehind<T>(x: T, s: seq<T>, t: seq<T>, key: T -> string)
    requires SortedBy(s, key) && s != [] && !LessEq(key(x), key(s[0]))
    requires SortedBy(t, key) && multiset(t) == multiset(s[1..]) + multiset{x}
    ensures SortedBy([s[0]] + t, key)
  {
    var r := [s[0]] + t;
    forall j | 0 < j < |r| ensures LessEq(key(s[0]), key(r[j])) {
      assert r[j] in multiset(t);
      if r[j] == x {
        LessTotal(key(x), key(s[0]));
      } else {
        assert r[j] in multiset(s[1..]);
        var k :| 0 <= k < |s[1..]| && s[1..][k] == r[j];
        assert s[k + 1] == r[j];
      }
    }
  }

  /** The model of Go's library sorts: a sorted permutation of the input. */
  function SortBy<T>(s: seq<T>, key: T -> string): (r: seq<T>)
    ensures SortedBy(r, key)
    ensures multiset(r) == multiset(s)
    ensures |r| == |s|
  {
    if s == [] then [] else
    assert s == [s[0]] + s[1..];
    Insert(s[0], SortBy(s[1..], key), key)
  }

  /** `sort.Strings`. */
  function SortStrings(s: seq<string>): (r: seq<string>)
    ensures Sorted(r) && multiset(r) == multiset(s)
  {
    SortBy(s, Id)
  }

  lemma DupCount<T>(s: seq<T>, i: int, j: int)
    requires 0 <= i < j < |s| && s[i] == s[j]
    ensures multiset(s)[s[i]] >= 2
  {
    assert s == s[..j] + s[j..];
    assert s[i] in s[..j];
    assert s[j] in s[j..];
  }

  lemma {:induction false} NoDupCount<T>(s: seq<T>, x: T)
    requires NoDup(s)
    ensures multiset(s)[x] <= 1
  {
    if s != [] {
      assert s == [s[0]] + s[1..];
      NoDupCount(s[1..], x);
      if x == s[0] {
        assert x !in s[1..];
      }
    }
  }

  /** A permutation of a sequence without repeats has no repeats either. */
  lemma NoDupPerm<T>(a: seq<T>, b: seq<T>)
    requires multiset(a) == multiset(b) && NoDup(a)
    ensures NoDup(b)
  {
    forall i, j | 0 <= i < j < |b| ensures b[i] != b[j] {
      if b[i] == b[j] {
        DupCount(b, i, j);
        NoDupCount(a, b[i]);
      }
    }
  }

  lemma StrictNoDup<T>(s: seq<T>, key: T -> string)
    requires StrictlySortedBy(s, key)
    ensures NoDup(s)
  {
    forall i, j | 0 <= i < j < |s| ensures s[i] != s[j] {
      LessIrreflexive(key(s[i]));
    }
  }

  /** A sorted sequence without repeated elements or keys is strictly sorted. */
  lemma SortedStrict<T>(s: seq<T>, key: T -> string)
    requires SortedBy(s, key) && NoDup(s) && KeyInjective(s, key)
    ensures StrictlySortedBy(s, key)
  {
  }

  /** Two sequences strictly sorted by the same key and holding the same elements are equal. */
  lemma {:induction false} StrictlySortedUnique<T>(a: seq<T>, b: seq<T>, key: T -> string)
    requires StrictlySortedBy(a, key) && StrictlySortedBy(b, key)
    requires forall x :: x in a <==> x in b
    ensures a == b
  {
    SameElementsEmpty(a, b);
    if a != [] {
      assert a[0] in b && b[0] in a;
      var i :| 0 <= i < |a| && a[i] == b[0];
      var j :| 0 <= j < |b| && b[j] == a[0];
      if i != 0 {
        if j != 0 {
          LessAsymmetric(key(b[0]), key(b[j]));
        } else {
          LessIrreflexive(key(a[0]));
        }
        assert false;
      }
      assert a[0] == b[0];
      forall x ensures x in a[1..] <==> x in b[1..] {
        if x in a[1..] {
          var k :| 0 <= k < |a[1..]| && a[1..][k] == x;
          assert a[k + 1] == x;
          LessIrreflexive(key(a[0]));
          assert x != a[0];
          assert x in b;
        }
        if x in b[1..] {
          var k :| 0 <= k < |b[1..]| && b[1..][k] == x;
          assert b[k + 1] == x;
          LessIrreflexive(key(b[0]));
          assert x != b[0];
          assert x in a;
        }
      }
      StrictlySortedUnique(a[1..], b[1..], key);
      assert a == [a[0]] + a[1..] && b == [b[0]] + b[1..];
    }
  }

  lemma SameElementsEmpty<T>(a: seq<T>, b: seq<T>)
    requires forall x :: x in a <==> x in b
    ensures a == [] <==> b == []
  {
    if a != [] { assert a[0] in b; }
    if b != [] { assert b[0] in a; }
  }

  /** Inserting a key not yet present keeps a sequence strictly sorted. */
  lemma InsertStrict<T>(x: T, s: seq<T>, key: T -> string)
    requires StrictlySortedBy(s, key)
    requires forall y :: y in s ==> key(y) != key(x)
    ensures SortedBy(s, key)
    ensures StrictlySortedBy(Insert(x, s, key), key)
  {
    var r := Insert(x, s, key);
    StrictNoDup(s, key);
    var s' := s + [x];
    assert NoDup(s');
    assert multiset(s') == multiset(r);
    NoDupPerm(s', r);
    forall y, z | y in r && z in r && key(y) == key(z) ensures y == z {
      assert y in multiset(r) && z in multiset(r);
      assert y in s' && z in s';
      if y != z && y != x && z != x {
        var p :| 0 <= p < |s| && s[p] == y;
        var q :| 0 <= q < |s| && s[q] == z;
        if p < q { LessIrreflexive(key(y)); } else if q < p { LessIrreflexive(key(z)); }
      }
    }
    SortedStrict(r, key);
  }

  /** In a strictly sorted sequence, an element less than `s[i]` comes before index `i`. */
  lemma LessIsEarlier(s: seq<string>, i: int, x: string)
    requires StrictlySorted(s) && 0 <= i < |s| && x in s && Less(x, s[i])
    ensures exists p :: 0 <= p < i && s[p] == x
  {
    var p :| 0 <= p < |s| && s[p] == x;
    if p == i {
      LessIrreflexive(x);
    } else if p > i {
      LessAsymmetric(s[i], x);
    }
  }

  /** The strictly sorted sequence of a finite set of strings. */
  ghost function SortedSeq(s: set<string>): (r: seq<string>)
    ensures StrictlySorted(r)
    ensures forall x :: x in r <==> x in s
    decreases s
  {
    if s == {} then []
    else
      var x :| x in s;
      var t := SortedSeq(s - {x});
      InsertStrict(x, t, Id);
      Insert(x, t, Id)
  }

  /** Sorting a repeat-free listing of a set gives that set's strictly sorted sequence. */
  lemma SortListing(found: seq<string>, s: set<string>)
    requires NoDup(found) && forall x :: x in found <==> x in s
    ensures SortStrings(found) == SortedSeq(s)
  {
    SortRepeatFree(found);
    StrictlySortedUnique(SortStrings(found), SortedSeq(s), Id);
  }

  /** Sorting a listing without repeats gives a strictly sorted sequence of the same names. */
  lemma SortRepeatFree(found: seq<string>)
    requires NoDup(found)
    ensures StrictlySorted(SortStrings(found))
    ensures forall x :: x in SortStrings(found) <==> x in found
  {
    var out := SortStrings(found);
    assert forall x :: x in out <==> x in multiset(found);
    NoDupPerm(found, out);
    SortedStrict(out, Id);
  }
}
