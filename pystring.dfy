/** The handful of Python `str` operations the site checker relies on,
    restricted to what they do on ASCII text: `strip`, `lower`,
    `replace(old, "")`, the substring test `in`, and the ordering `<`
    that `sorted` uses. */
module PyString {

  // ---------------------------------------------------------------------
  // strip

  /** The ASCII characters Python's `str.isspace` accepts, which are the
      ones a bare `str.strip()` removes: space, \t, \n, \v, \f, \r and the
      four information separators \x1c-\x1f. */
  predicate IsSpace(c: char) {
    c == ' ' || '\t' <= c <= '\r' || '\U{001C}' <= c <= '\U{001F}'
  }

  /** What a call to `strip` removes: `s.strip()` removes whitespace,
      `s.strip(chars)` the characters of `chars`. */
  datatype StripSet = Whitespace | Chars(cs: set<char>)

  predicate Strippable(c: char, k: StripSet) {
    match k
    case Whitespace => IsSpace(c)
    case Chars(cs) => c in cs
  }

  /** The part of `s` left after dropping its longest prefix of characters
      in `k`. */
  function TrimLeft(s: string, k: StripSet): string {
    if s != [] && Strippable(s[0], k) then TrimLeft(s[1..], k) else s
  }

  /** The part of `s` left after dropping its longest suffix of characters
      in `k`. */
  function TrimRight(s: string, k: StripSet): string {
    if s != [] && Strippable(s[|s| - 1], k) then TrimRight(s[..|s| - 1], k) else s
  }

  /** Python's `s.strip()` / `s.strip(chars)`: drop the characters of `k`
      at both ends. */
  function Strip(s: string, k: StripSet): string {
    TrimRight(TrimLeft(s, k), k)
  }

  /** `TrimLeft` drops a prefix, all of whose characters are in `k`, and
      stops at the first character that is not. */
  lemma {:induction false} TrimLeftSpec(s: string, k: StripSet)
    ensures var r := TrimLeft(s, k);
            && |r| <= |s| && r == s[|s| - |r|..]
            && (forall i :: 0 <= i < |s| - |r| ==> Strippable(s[i], k))
            && (r != [] ==> !Strippable(r[0], k))
  {
    if s != [] && Strippable(s[0], k) {
      TrimLeftSpec(s[1..], k);
    }
  }

  /** `TrimRight` drops a suffix, all of whose characters are in `k`, and
      stops at the last character that is not. */
  lemma {:induction false} TrimRightSpec(s: string, k: StripSet)
    ensures var r := TrimRight(s, k);
            && |r| <= |s| && r == s[..|r|]
            && (forall i :: |r| <= i < |s| ==> Strippable(s[i], k))
            && (r != [] ==> !Strippable(r[|r| - 1], k))
  {
    if s != [] && Strippable(s[|s| - 1], k) {
      TrimRightSpec(s[..|s| - 1], k);
    }
  }

  /** The result of strip is no longer than its input, neither starts nor
      ends with a character of `k`, and, being a slice of the input, has no
      upper-case letter when the input has none. */
  lemma StripSpec(s: string, k: StripSet)
    ensures var r := Strip(s, k);
            && |r| <= |s|
            && (r != [] ==> !Strippable(r[0], k) && !Strippable(r[|r| - 1], k))
            && (NoUpper(s) ==> NoUpper(r))
  {
    var t := TrimLeft(s, k);
    TrimLeftSpec(s, k);
    TrimRightSpec(t, k);
    assert forall i :: 0 <= i < |t| ==> t[i] == s[|s| - |t| + i];
  }

  lemma {:induction false} TrimLeftOfPadded(a: string, t: string, k: StripSet)
    requires forall j :: 0 <= j < |a| ==> Strippable(a[j], k)
    requires t != [] ==> !Strippable(t[0], k)
    ensures TrimLeft(a + t, k) == t
  {
    if a != [] {
      assert (a + t)[1..] == a[1..] + t;
      TrimLeftOfPadded(a[1..], t, k);
    } else {
      assert a + t == t;
    }
  }

  lemma {:induction false} TrimRightOfPadded(t: string, b: string, k: StripSet)
    requires forall j :: 0 <= j < |b| ==> Strippable(b[j], k)
    requires t != [] ==> !Strippable(t[|t| - 1], k)
    ensures TrimRight(t + b, k) == t
  {
    if b != [] {
      assert (t + b)[..|t + b| - 1] == t + b[..|b| - 1];
      TrimRightOfPadded(t, b[..|b| - 1], k);
    } else {
      assert t + b == t;
    }
  }

  /** Strip is determined by its description: whatever surrounds a slice
      that neither starts nor ends with a character of `k`, when the
      surroundings consist of characters of `k` only, is what strip
      removes. */
  lemma StripOfPadded(a: string, r: string, b: string, k: StripSet)
    requires forall j :: 0 <= j < |a| ==> Strippable(a[j], k)
    requires forall j :: 0 <= j < |b| ==> Strippable(b[j], k)
    requires r != [] ==> !Strippable(r[0], k) && !Strippable(r[|r| - 1], k)
    ensures Strip(a + r + b, k) == r
  {
    assert a + r + b == a + (r + b);
    if r == [] {
      assert a + r + b == a + b;
      assert forall j :: 0 <= j < |a + b| ==> Strippable((a + b)[j], k);
      TrimLeftOfPadded(a + b, [], k);
      assert a + b + [] == a + b;
    } else {
      TrimLeftOfPadded(a, r + b, k);
      TrimRightOfPadded(r, b, k);
    }
  }

  /** Text that neither starts nor ends with a character of `k` is left as
      it is. */
  lemma StripUnpadded(s: string, k: StripSet)
    requires s != [] ==> !Strippable(s[0], k) && !Strippable(s[|s| - 1], k)
    ensures Strip(s, k) == s
  {
    StripOfPadded([], s, [], k);
    assert [] + s + [] == s;
  }

  // ---------------------------------------------------------------------
  // lower

  predicate IsUpper(c: char) {
    'A' <= c <= 'Z'
  }

  /** Python's `str.lower` on one character, for ASCII letters; every other
      character is left as it is. */
  function LowerChar(c: char): (r: char)
    ensures !IsUpper(r)
    ensures !IsUpper(c) ==> r == c
    ensures IsUpper(c) ==> r as int == c as int + 32
  {
    if IsUpper(c) then (c as int - 'A' as int + 'a' as int) as char else c
  }

  /** Python's `s.lower()`: every character lowered independently. */
  function Lower(s: string): string {
    seq(|s|, i requires 0 <= i < |s| => LowerChar(s[i]))
  }

  predicate NoUpper(s: string) {
    forall i :: 0 <= i < |s| ==> !IsUpper(s[i])
  }

  /** Lowering leaves no upper-case letter, and text without one is left
      as it is; so lowering twice is lowering once. */
  lemma LowerSpec(s: string)
    ensures |Lower(s)| == |s|
    ensures NoUpper(Lower(s))
    ensures NoUpper(s) <==> Lower(s) == s
    ensures Lower(Lower(s)) == Lower(s)
  {
    if Lower(s) == s {
      forall i | 0 <= i < |s| ensures !IsUpper(s[i]) {
        assert s[i] == LowerChar(s[i]);
      }
    }
  }

  // ---------------------------------------------------------------------
  // replace and `in`

  /** `p` occurs in `s` starting at index `i`. */
  predicate MatchAt(s: string, p: string, i: int) {
    0 <= i <= |s| && p <= s[i..]
  }

  /** Python's `s.replace(p, "")` for a non-empty `p`: scanning from the
      left, each occurrence of `p` that does not overlap an earlier removed
      one is removed. */
  function RemoveAll(s: string, p: string): string
    requires p != []
    decreases |s|
  {
    if p <= s then
      RemoveAll(s[|p|..], p)
    else if s == [] then
      []
    else
      [s[0]] + RemoveAll(s[1..], p)
  }

  /** Removal only shortens the text, and brings in no upper-case letter. */
  lemma {:induction false} RemoveAllSpec(s: string, p: string)
    requires p != []
    ensures |RemoveAll(s, p)| <= |s|
    ensures NoUpper(s) ==> NoUpper(RemoveAll(s, p))
    decreases |s|
  {
    if p <= s {
      RemoveAllSpec(s[|p|..], p);
    } else if s != [] {
      RemoveAllSpec(s[1..], p);
    }
  }

  /** With no occurrence of `p`, nothing is removed. */
  lemma {:induction false} RemoveAllNoMatch(s: string, p: string)
    requires p != []
    requires forall i :: 0 <= i <= |s| ==> !MatchAt(s, p, i)
    ensures RemoveAll(s, p) == s
    decreases |s|
  {
    assert !MatchAt(s, p, 0);
    if s != [] {
      forall i | 0 <= i <= |s[1..]|
        ensures !MatchAt(s[1..], p, i)
      {
        assert s[1..][i..] == s[i + 1..];
        assert !MatchAt(s, p, i + 1);
      }
      RemoveAllNoMatch(s[1..], p);
      assert s == [s[0]] + s[1..];
    }
  }

  /** A convenient way to meet `RemoveAllNoMatch`: the first character of
      the pattern does not occur at all. */
  lemma RemoveAllFirstCharAbsent(s: string, p: string)
    requires p != [] && p[0] !in s
    ensures RemoveAll(s, p) == s
  {
    forall i | 0 <= i <= |s|
      ensures !MatchAt(s, p, i)
    {
      if i < |s| {
        assert s[i..][0] == s[i];
      }
    }
    RemoveAllNoMatch(s, p);
  }

  /** The leftmost occurrence goes: if `p` first occurs in `a + p + b` right
      after `a`, the result is `a` followed by the removal applied to `b`.
      Together with `RemoveAllNoMatch` this pins `RemoveAll` down as
      Python's left-to-right, non-overlapping replacement. */
  lemma {:induction false} RemoveAllLeftmost(a: string, p: string, b: string)
    requires p != []
    requires forall i :: 0 <= i < |a| ==> !MatchAt(a + p + b, p, i)
    ensures RemoveAll(a + p + b, p) == a + RemoveAll(b, p)
    decreases |a|
  {
    var s := a + p + b;
    if a == [] {
      assert s == p + b;
      assert s[|p|..] == b;
    } else {
      assert !MatchAt(s, p, 0);
      assert s[1..] == a[1..] + p + b;
      forall i | 0 <= i < |a[1..]|
        ensures !MatchAt(a[1..] + p + b, p, i)
      {
        assert s[1..][i..] == s[i + 1..];
        assert !MatchAt(s, p, i + 1);
      }
      RemoveAllLeftmost(a[1..], p, b);
      assert [a[0]] + (a[1..] + RemoveAll(b, p)) == a + RemoveAll(b, p);
    }
  }

  /** Python's `sub in s`. */
  function Contains(s: string, sub: string): bool
    decreases |s|
  {
    if sub <= s then true
    else if s == [] then false
    else Contains(s[1..], sub)
  }

  /** `sub in s` holds exactly when `sub` occurs at some index of `s`. */
  lemma {:induction false} ContainsSpec(s: string, sub: string)
    ensures Contains(s, sub) <==> exists i :: MatchAt(s, sub, i)
    decreases |s|
  {
    if sub <= s {
      assert MatchAt(s, sub, 0);
    } else if s != [] {
      ContainsSpec(s[1..], sub);
      if Contains(s[1..], sub) {
        var i :| MatchAt(s[1..], sub, i);
        assert s[1..][i..] == s[i + 1..];
        assert MatchAt(s, sub, i + 1);
      }
      if exists i :: MatchAt(s, sub, i) {
        var i :| MatchAt(s, sub, i);
        assert i != 0;
        assert s[1..][i - 1..] == s[i..];
        assert MatchAt(s[1..], sub, i - 1);
      }
    }
  }

  // ---------------------------------------------------------------------
  // ordering

  /** Python's `a < b` on strings: code point by code point, a proper
      prefix coming first. */
  predicate Less(a: string, b: string)
    decreases |a|
  {
    if a == [] then b != []
    else if b == [] then false
    else if a[0] != b[0] then a[0] < b[0]
    else Less(a[1..], b[1..])
  }

  lemma {:induction false} LessIrreflexive(a: string)
    ensures !Less(a, a)
    decreases |a|
  {
    if a != [] {
      LessIrreflexive(a[1..]);
    }
  }

  lemma {:induction false} LessTransitive(a: string, b: string, c: string)
    requires Less(a, b) && Less(b, c)
    ensures Less(a, c)
    decreases |a|
  {
    if a != [] && b != [] && c != [] && a[0] == b[0] == c[0] {
      LessTransitive(a[1..], b[1..], c[1..]);
    }
  }

  /** Any two different strings are ordered one way or the other. */
  lemma {:induction false} LessTotal(a: string, b: string)
    requires a != b
    ensures Less(a, b) || Less(b, a)
    decreases |a|
  {
    if a != [] && b != [] && a[0] == b[0] {
      assert a == [a[0]] + a[1..] && b == [b[0]] + b[1..];
      LessTotal(a[1..], b[1..]);
    }
  }

  lemma LessAsymmetric(a: string, b: string)
    requires Less(a, b)
    ensures !Less(b, a)
  {
    if Less(b, a) {
      LessTransitive(a, b, a);
      LessIrreflexive(a);
    }
  }
}
