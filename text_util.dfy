/** Character and string helpers shared by the number conversions, the calculator and the display. */
module TextUtil {

  /** An ASCII decimal digit: the class `\d` of a JavaScript regular expression without the `u` flag. */
  predicate IsDigit(c: char) {
    '0' <= c <= '9'
  }

  predicate AllDigits(s: string) {
    forall i :: 0 <= i < |s| ==> IsDigit(s[i])
  }

  /** True when some character of `s` is a digit: what `/\d/.test(s)` answers. */
  predicate HasDigit(s: string) {
    exists i :: 0 <= i < |s| && IsDigit(s[i])
  }

  /** The number of ASCII digits at the start of `s`. */
  function LeadingDigits(s: string): (n: nat)
    ensures n <= |s|
    ensures AllDigits(s[..n])
    ensures n < |s| ==> !IsDigit(s[n])
  {
    if s == [] || !IsDigit(s[0]) then 0 else 1 + LeadingDigits(s[1..])
  }

  lemma {:induction false} LeadingDigitsConcat(a: string, b: string)
    requires AllDigits(a)
    ensures LeadingDigits(a + b) == |a| + LeadingDigits(b)
  {
    if a == [] {
      assert a + b == b;
    } else {
      assert (a + b)[1..] == a[1..] + b;
      LeadingDigitsConcat(a[1..], b);
    }
  }

  /** The index of the first `c` in `s`, or `|s|` when there is none (JavaScript's `indexOf`, with `|s|` for -1). */
  function IndexOf(s: string, c: char): (i: nat)
    ensures i <= |s|
    ensures i < |s| <==> c in s
    ensures i < |s| ==> s[i] == c
    ensures c !in s[..i]
  {
    if s == [] then 0
    else if s[0] == c then 0
    else
      var j := IndexOf(s[1..], c);
      assert s[..j + 1] == [s[0]] + s[1..][..j];
      1 + j
  }

  /** `s` with every character of `drop` deleted: the effect of a global regular-expression replace of a character class by ''. */
  function Without(s: string, drop: set<char>): (r: string)
    ensures |r| <= |s|
  {
    if s == [] then []
    else
      var tail := Without(s[1..], drop);
      if s[0] in drop then tail else [s[0]] + tail
  }

  /** No deleted character is left, and every other character occurs as often as before. */
  lemma {:induction false} WithoutCounts(s: string, drop: set<char>, c: char)
    ensures c in drop ==> c !in Without(s, drop)
    ensures c !in drop ==> multiset(Without(s, drop))[c] == multiset(s)[c]
  {
    if s != [] {
      WithoutCounts(s[1..], drop, c);
      assert s == [s[0]] + s[1..];
    }
  }

  lemma {:induction false} WithoutConcat(a: string, b: string, drop: set<char>)
    ensures Without(a + b, drop) == Without(a, drop) + Without(b, drop)
  {
    if a == [] {
      assert a + b == b;
    } else {
      assert (a + b)[1..] == a[1..] + b;
      WithoutConcat(a[1..], b, drop);
    }
  }

  /** Deleting characters that do not occur changes nothing. */
  lemma {:induction false} WithoutAbsent(s: string, drop: set<char>)
    requires forall i :: 0 <= i < |s| ==> s[i] !in drop
    ensures Without(s, drop) == s
  {
    if s != [] {
      WithoutAbsent(s[1..], drop);
    }
  }

  /** JavaScript's `s.split(c)` for a one-character separator: the pieces between the occurrences of c. */
  function Split(s: string, c: char): (parts: seq<string>)
    ensures |parts| >= 1
    ensures parts[0] == s[..IndexOf(s, c)]
    ensures |parts| >= 2 <==> c in s
    ensures forall k :: 0 <= k < |parts| ==> c !in parts[k]
    decreases |s|
  {
    var i := IndexOf(s, c);
    if i == |s| then [s] else [s[..i]] + Split(s[i + 1..], c)
  }

  /** JavaScript's `parts.join(c)`. */
  function Join(parts: seq<string>, c: char): string
    requires |parts| >= 1
  {
    if |parts| == 1 then parts[0] else parts[0] + [c] + Join(parts[1..], c)
  }

  /** Splitting and joining again gives back the text. */
  lemma {:induction false} JoinSplit(s: string, c: char)
    ensures Join(Split(s, c), c) == s
    decreases |s|
  {
    var i := IndexOf(s, c);
    if i < |s| {
      JoinSplit(s[i + 1..], c);
      JoinSplitStep(s, c, i);
    }
  }

  lemma JoinSplitStep(s: string, c: char, i: nat)
    requires i == IndexOf(s, c) < |s|
    requires Join(Split(s[i + 1..], c), c) == s[i + 1..]
    ensures Join(Split(s, c), c) == s
  {
    var rest := Split(s[i + 1..], c);
    var parts := [s[..i]] + rest;
    assert Split(s, c) == parts;
    assert parts[1..] == rest;
    assert Join(parts, c) == s[..i] + [c] + Join(rest, c);
    assert s == s[..i] + [c] + s[i + 1..];
  }

  /** A first piece without c, then c: the split starts with that piece. */
  lemma SplitAfter(a: string, rest: string, c: char)
    requires c !in a
    ensures Split(a + [c] + rest, c) == [a] + Split(rest, c)
  {
    var s := a + [c] + rest;
    assert s == a + ([c] + rest);
    IndexOfPrefix(a, [c] + rest, c);
    assert IndexOf([c] + rest, c) == 0;
    assert IndexOf(s, c) == |a|;
    assert s[..|a|] == a;
    assert s[|a| + 1..] == rest;
  }

  /** Three pieces without c, joined by c, split back into those pieces. */
  lemma SplitThree(a: string, b: string, d: string, c: char)
    requires c !in a && c !in b && c !in d
    ensures Split(a + [c] + b + [c] + d, c) == [a, b, d]
  {
    assert a + [c] + b + [c] + d == a + [c] + (b + [c] + d);
    SplitAfter(a, b + [c] + d, c);
    SplitAfter(b, d, c);
    assert Split(d, c) == [d];
  }

  /** With exactly one c in s, s is the first piece, c, and the second piece. */
  lemma SplitOnce(s: string, c: char)
    requires multiset(s)[c] == 1
    ensures var parts := Split(s, c); |parts| == 2 && s == parts[0] + [c] + parts[1]
  {
    var i := IndexOf(s, c);
    assert s == s[..i] + [c] + s[i + 1..];
    assert multiset(s) == multiset(s[..i]) + multiset([c]) + multiset(s[i + 1..]);
    assert c !in s[i + 1..];
    assert Split(s[i + 1..], c) == [s[i + 1..]];
  }

  /** Two runs of digits concatenate to a run of digits. */
  lemma AllDigitsConcat(a: string, b: string)
    requires AllDigits(a) && AllDigits(b)
    ensures AllDigits(a + b)
  {
    forall k | 0 <= k < |a + b|
      ensures IsDigit((a + b)[k])
    {
      if k < |a| { assert (a + b)[k] == a[k]; } else { assert (a + b)[k] == b[k - |a|]; }
    }
  }

  /** The first c in a + b is the first c in a, or lies in b when a has none. */
  lemma IndexOfPrefix(a: string, b: string, c: char)
    ensures IndexOf(a + b, c) == if c in a then IndexOf(a, c) else |a| + IndexOf(b, c)
  {
    if c in a {
      var i := IndexOf(a, c);
      assert (a + b)[i] == c;
      assert (a + b)[..i] == a[..i];
      IndexOfFirst(a + b, c, i);
    } else {
      var i := |a| + IndexOf(b, c);
      if c in b {
        assert (a + b)[i] == c;
        assert (a + b)[..i] == a + b[..IndexOf(b, c)];
        IndexOfFirst(a + b, c, i);
      } else {
        assert c !in a + b;
      }
    }
  }

  lemma IndexOfFirst(s: string, c: char, i: nat)
    requires i < |s| && s[i] == c && c !in s[..i]
    ensures IndexOf(s, c) == i
  {
  }
}
