/** Python's `sorted(set(xs))` for a list of strings: the distinct elements
    of `xs` in ascending order. */
module SortedSet {
  import opened PyString

  /** Ascending with no element repeated. */
  predicate StrictlySorted(s: seq<string>) {
    forall i, j :: 0 <= i < j < |s| ==> Less(s[i], s[j])
  }

  /** Insert `x` into a strictly sorted sequence, unless it is already there. */
  function Insert(x: string, s: seq<string>): (r: seq<string>)
    requires StrictlySorted(s)
    ensures StrictlySorted(r)
    ensures forall y :: y in r <==> y == x || y in s
    decreases |s|
  {
    if s == [] then
      [x]
    else if x == s[0] then
      s
    else if Less(x, s[0]) then
      forall j | 0 < j < |s| ensures Less(x, s[j]) {
        LessTransitive(x, s[0], s[j]);
      }
      [x] + s
    else
      LessTotal(x, s[0]);
      var rest := Insert(x, s[1..]);
      assert forall y :: y in s[1..] ==> Less(s[0], y);
      [s[0]] + rest
  }

  /** `sorted(set(xs))`. */
  function SortedDistinct(xs: seq<string>): (r: seq<string>)
    ensures StrictlySorted(r)
    ensures forall y :: y in r <==> y in xs
  {
    if xs == [] then
      []
    else
      var init := xs[..|xs| - 1];
      assert xs == init + [xs[|xs| - 1]];
      Insert(xs[|xs| - 1], SortedDistinct(init))
  }

  /** A strictly sorted sequence is determined by its elements, so
      `SortedDistinct` is the one result `sorted(set(xs))` can have,
      however it is computed. */
  lemma {:induction false} StrictlySortedUnique(a: seq<string>, b: seq<string>)
    requires StrictlySorted(a) && StrictlySorted(b)
    requires forall y :: y in a <==> y in b
    ensures a == b
    decreases |a|
  {
    assert Elements(a) == Elements(b);
    StrictlySortedCardinality(a);
    StrictlySortedCardinality(b);
    if a != [] {
      if a[0] != b[0] {
        assert a[0] in b && b[0] in a;
        var i :| 0 <= i < |a| && a[i] == b[0];
        var j :| 0 <= j < |b| && b[j] == a[0];
        assert Less(a[0], b[0]) && Less(b[0], a[0]);
        LessAsymmetric(a[0], b[0]);
      }
      forall y ensures y in a[1..] <==> y in b[1..] {
        LessIrreflexive(a[0]);
        if y in a[1..] {
          var k :| 1 <= k < |a| && a[k] == y;
          assert Less(a[0], y);
          assert y in b && y != b[0];
          assert b == [b[0]] + b[1..];
        }
        if y in b[1..] {
          var k :| 1 <= k < |b| && b[k] == y;
          assert Less(b[0], y);
          assert y in a && y != a[0];
          assert a == [a[0]] + a[1..];
        }
      }
      StrictlySortedUnique(a[1..], b[1..]);
      assert a == [a[0]] + a[1..] && b == [b[0]] + b[1..];
    }
  }

  /** The elements of `s`, as a set. */
  function Elements(s: seq<string>): (r: set<string>)
    ensures forall y :: y in r <==> y in s
  {
    set i | 0 <= i < |s| :: s[i]
  }

  /** No element of a strictly sorted sequence occurs twice, so it is as
      long as its set of elements is large. */
  lemma {:induction false} StrictlySortedCardinality(s: seq<string>)
    requires StrictlySorted(s)
    ensures |Elements(s)| == |s|
    decreases |s|
  {
    if s != [] {
      var t := s[1..];
      assert Elements(s) == {s[0]} + Elements(t);
      assert s[0] !in Elements(t) by {
        LessIrreflexive(s[0]);
      }
      StrictlySortedCardinality(t);
    }
  }

  /** In a strictly sorted sequence each element has one position. */
  lemma StrictlySortedDistinct(s: seq<string>, i: int, j: int)
    requires StrictlySorted(s)
    requires 0 <= i < |s| && 0 <= j < |s| && i != j
    ensures s[i] != s[j]
  {
    if i < j {
      LessIrreflexive(s[i]);
    } else {
      LessIrreflexive(s[j]);
    }
  }

  /** Walking a strictly sorted sequence front to back, the next element
      is never among those already passed. */
  lemma StrictlySortedNext(s: seq<string>, i: nat)
    requires StrictlySorted(s) && i < |s|
    ensures s[i] !in Elements(s[..i])
    ensures Elements(s[..i + 1]) == Elements(s[..i]) + {s[i]}
  {
    forall j | 0 <= j < i
      ensures s[..i][j] != s[i]
    {
      StrictlySortedDistinct(s, j, i);
    }
    assert s[..i + 1] == s[..i] + [s[i]];
  }
}
