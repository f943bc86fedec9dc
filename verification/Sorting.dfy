/**
  qsort and bsearch as far as C specifies them: a sorted result is ordered and holds
  the same records. How equal records end up is left open.
*/
module Sorting {
  import opened CStrings

  /** No record comes before one that should come before it. */
  predicate OrderedBy<T>(s: seq<T>, before: (T, T) -> bool) {
    forall i, j :: 0 <= i < j < |s| ==> !before(s[j], s[i])
  }

  /** What a comparison function has to be for a sort to make sense. */
  ghost predicate IsOrder<T(!new)>(before: (T, T) -> bool) {
    && (forall a, b :: before(a, b) ==> !before(b, a))
    && (forall a, b, c :: !before(c, b) && !before(b, a) ==> !before(c, a))
  }

  /** qsort */
  method QsortBy<T(!new)>(items: seq<T>, before: (T, T) -> bool) returns (sorted: seq<T>)
    requires IsOrder(before)
    ensures OrderedBy(sorted, before)
    ensures multiset(sorted) == multiset(items)
  {
    sorted := [];
    for n := 0 to |items|
      invariant OrderedBy(sorted, before) && multiset(sorted) == multiset(items[..n])
    {
      sorted := Insert(sorted, before, items[n]);
      assert items[..n + 1] == items[..n] + [items[n]];
    }
    assert items[..|items|] == items;
  }

  method Insert<T(!new)>(s: seq<T>, before: (T, T) -> bool, x: T) returns (r: seq<T>)
    requires IsOrder(before) && OrderedBy(s, before)
    ensures OrderedBy(r, before)
    ensures multiset(r) == multiset(s) + multiset{x}
  {
    var i := |s|;
    while i > 0 && before(x, s[i - 1])
      invariant 0 <= i <= |s|
      invariant forall j :: i <= j < |s| ==> before(x, s[j])
      decreases i
    {
      i := i - 1;
    }
    r := s[..i] + [x] + s[i..];
    InsertKeepsOrder(s, before, x, i);
    assert s == s[..i] + s[i..];
  }

  lemma {:induction false} InsertKeepsOrder<T(!new)>(s: seq<T>, before: (T, T) -> bool, x: T, i: nat)
    requires IsOrder(before) && i <= |s| && OrderedBy(s, before)
    requires i > 0 ==> !before(x, s[i - 1])
    requires forall j :: i <= j < |s| ==> before(x, s[j])
    ensures OrderedBy(s[..i] + [x] + s[i..], before)
  {
    var r := s[..i] + [x] + s[i..];
    forall a, b | 0 <= a < b < |r| ensures !before(r[b], r[a]) {
      if b == i && a < i - 1 {
        assert !before(s[i - 1], s[a]);
      }
    }
  }

  // ----- Records with string keys

  predicate Ordered<T>(s: seq<T>, key: T -> string) {
    forall i, j :: 0 <= i < j < |s| ==> !Less(key(s[j]), key(s[i]))
  }

  predicate DistinctKeys<T>(s: seq<T>, key: T -> string) {
    forall i, j :: 0 <= i < j < |s| ==> key(s[i]) != key(s[j])
  }

  function ByKey<T>(key: T -> string): (T, T) -> bool { (a: T, b: T) => Less(key(a), key(b)) }

  lemma {:induction false} KeysAreOrdered<T(!new)>(key: T -> string)
    ensures IsOrder(ByKey(key))
  {
    forall a, b | ByKey(key)(a, b) ensures !ByKey(key)(b, a) {
      CompareAntisymmetric(key(a), key(b));
    }
    forall a, b, c | !ByKey(key)(c, b) && !ByKey(key)(b, a) ensures !ByKey(key)(c, a) {
      NotLessTransitive(key(c), key(b), key(a));
    }
  }

  /** qsort of records by strcmp of their keys. */
  method Qsort<T(!new)>(items: seq<T>, key: T -> string) returns (sorted: seq<T>)
    ensures Ordered(sorted, key)
    ensures multiset(sorted) == multiset(items)
  {
    KeysAreOrdered(key);
    sorted := QsortBy(items, ByKey(key));
    assert forall i, j :: 0 <= i < j < |sorted| ==> !ByKey(key)(sorted[j], sorted[i]);
  }

  lemma {:induction false} NotLessTransitive(c: string, b: string, a: string)
    requires !Less(c, b) && !Less(b, a)
    ensures !Less(c, a)
  {
    CompareAntisymmetric(c, b);
    CompareAntisymmetric(b, a);
    if Less(c, a) {
      if b != c {
        LessTransitive(b, c, a);
      }
    }
  }

  /** The test of neighbours behind a qsort finds every duplicate key. */
  method AdjacentDuplicate<T>(s: seq<T>, key: T -> string) returns (found: bool)
    requires Ordered(s, key)
    ensures found <==> !DistinctKeys(s, key)
  {
    var i := 1;
    while i < |s|
      invariant 0 < i && (|s| > 0 ==> i <= |s| && DistinctKeys(s[..i], key))
    {
      if key(s[i - 1]) == key(s[i]) {
        return true;
      }
      DistinctStep(s, key, i);
      i := i + 1;
    }
    if |s| > 0 {
      assert s[..i] == s;
    }
    return false;
  }

  /** bsearch: finds a record with the key when there is one. */
  method Bsearch<T>(s: seq<T>, key: T -> string, wanted: string) returns (r: Option<T>)
    requires Ordered(s, key)
    ensures r.Some? ==> r.value in s && key(r.value) == wanted
    ensures r.None? ==> forall x :: x in s ==> key(x) != wanted
  {
    var low, high := 0, |s|;
    while low < high
      invariant 0 <= low <= high <= |s|
      invariant forall i :: 0 <= i < low ==> Less(key(s[i]), wanted)
      invariant forall i :: high <= i < |s| ==> Less(wanted, key(s[i]))
    {
      var middle := (low + high) / 2;
      var c := Compare(wanted, key(s[middle]));
      if c == 0 {
        return Some(s[middle]);
      }
      CompareAntisymmetric(wanted, key(s[middle]));
      if c < 0 {
        AboveMiddle(s, key, wanted, middle);
        high := middle;
      } else {
        BelowMiddle(s, key, wanted, middle);
        low := middle + 1;
      }
    }
    forall i | 0 <= i < |s| ensures key(s[i]) != wanted {
      CompareAntisymmetric(wanted, key(s[i]));
    }
    return None;
  }

  lemma {:induction false} AboveMiddle<T>(s: seq<T>, key: T -> string, wanted: string, middle: nat)
    requires Ordered(s, key) && middle < |s| && Less(wanted, key(s[middle]))
    ensures forall i :: middle <= i < |s| ==> Less(wanted, key(s[i]))
  {
    forall i | middle <= i < |s| ensures Less(wanted, key(s[i])) {
      CompareAntisymmetric(key(s[i]), key(s[middle]));
      if middle < i && key(s[i]) != key(s[middle]) {
        LessTransitive(wanted, key(s[middle]), key(s[i]));
      }
    }
  }

  lemma {:induction false} BelowMiddle<T>(s: seq<T>, key: T -> string, wanted: string, middle: nat)
    requires Ordered(s, key) && middle < |s| && Less(key(s[middle]), wanted)
    ensures forall i :: 0 <= i <= middle ==> Less(key(s[i]), wanted)
  {
    forall i | 0 <= i <= middle ensures Less(key(s[i]), wanted) {
      CompareAntisymmetric(key(s[i]), key(s[middle]));
      if i < middle && key(s[i]) != key(s[middle]) {
        LessTransitive(key(s[i]), key(s[middle]), wanted);
      }
    }
  }

  lemma {:induction false} DistinctStep<T>(s: seq<T>, key: T -> string, i: nat)
    requires Ordered(s, key) && 0 < i < |s| && DistinctKeys(s[..i], key) && key(s[i - 1]) != key(s[i])
    ensures DistinctKeys(s[..i + 1], key)
  {
    forall j | 0 <= j < i ensures key(s[j]) != key(s[i]) {
      CompareAntisymmetric(key(s[i - 1]), key(s[i]));
      if j < i - 1 {
        assert s[..i][j] == s[j] && s[..i][i - 1] == s[i - 1];
      }
    }
  }

  /** With distinct keys neighbours are strictly ordered, and so is any pair. */
  lemma {:induction false} StrictlyOrdered<T>(s: seq<T>, key: T -> string, i: nat, j: nat)
    requires Ordered(s, key) && DistinctKeys(s, key) && i < j < |s|
    ensures Less(key(s[i]), key(s[j]))
  {
    CompareAntisymmetric(key(s[i]), key(s[j]));
  }

  lemma {:induction false} SameMembers<T>(s: seq<T>, t: seq<T>)
    requires multiset(s) == multiset(t)
    ensures |s| == |t|
    ensures forall x :: x in s <==> x in t
  {
    assert |s| == |multiset(s)| && |t| == |multiset(t)|;
    assert forall x :: x in s <==> x in multiset(s);
    assert forall x :: x in t <==> x in multiset(t);
  }

  /** Distinctness of the keys does not depend on the order. */
  lemma {:induction false} DistinctAfterSort<T>(s: seq<T>, t: seq<T>, key: T -> string)
    requires multiset(s) == multiset(t) && DistinctKeys(s, key)
    ensures DistinctKeys(t, key)
  {
    forall i, j | 0 <= i < j < |t| ensures key(t[i]) != key(t[j]) {
      if key(t[i]) == key(t[j]) {
        TwiceIsNotDistinct(s, t, key, i, j);
      }
    }
  }

  lemma {:induction false} TwiceIsNotDistinct<T>(s: seq<T>, t: seq<T>, key: T -> string, i: nat, j: nat)
    requires multiset(s) == multiset(t) && i < j < |t| && key(t[i]) == key(t[j])
    ensures !DistinctKeys(s, key)
  {
    SameMembers(s, t);
    assert t[i] in s && t[j] in s;
    if t[i] == t[j] {
      assert t == t[..i] + [t[i]] + t[i + 1..j] + [t[j]] + t[j + 1..];
      assert multiset(t)[t[i]] >= 2;
      MultiplicityTwo(s, t[i]);
    } else {
      var a :| 0 <= a < |s| && s[a] == t[i];
      var b :| 0 <= b < |s| && s[b] == t[j];
    }
  }

  lemma {:induction false} MultiplicityTwo<T>(s: seq<T>, x: T)
    requires multiset(s)[x] >= 2
    ensures exists a, b :: 0 <= a < b < |s| && s[a] == x && s[b] == x
  {
    assert x in s;
    var a :| 0 <= a < |s| && s[a] == x;
    var others := s[..a] + s[a + 1..];
    assert s == s[..a] + [x] + s[a + 1..];
    assert multiset(others)[x] == multiset(s)[x] - 1;
    assert x in others;
    var b :| 0 <= b < |others| && others[b] == x;
    if b < a {
      assert s[b] == x;
    } else {
      assert s[b + 1] == x;
    }
  }
}
