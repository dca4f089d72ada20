/** Character classes and the alphanumeric filter `normalize` used to build
    every catalog key. */
module Text {

  /** `[a-zA-Z0-9]` */
  predicate IsAlnum(c: char) {
    ('a' <= c <= 'z') || ('A' <= c <= 'Z') || ('0' <= c <= '9')
  }

  /** `[a-zA-Z0-9_]`, the regular-expression word character. */
  predicate IsWordChar(c: char) {
    IsAlnum(c) || c == '_'
  }

  predicate AllAlnum(s: string) {
    forall i :: 0 <= i < |s| ==> IsAlnum(s[i])
  }

  /** Length of the longest run of characters satisfying `p` that starts at `from`. */
  function RunLength(s: string, from: nat, p: char -> bool): (n: nat)
    requires from <= |s|
    ensures from + n <= |s|
    ensures forall k :: from <= k < from + n ==> p(s[k])
    ensures from + n == |s| || !p(s[from + n])
    decreases |s| - from
  {
    if from == |s| || !p(s[from]) then 0 else 1 + RunLength(s, from + 1, p)
  }

  /** Removes every character outside `[a-zA-Z0-9]`. */
  function Normalize(s: string): (r: string)
    ensures AllAlnum(r)
    ensures |r| <= |s|
  {
    if s == [] then []
    else (if IsAlnum(s[0]) then [s[0]] else []) + Normalize(s[1..])
  }

  /** Normalizing a concatenation normalizes each part. */
  lemma {:induction false} NormalizeAppend(a: string, b: string)
    ensures Normalize(a + b) == Normalize(a) + Normalize(b)
  {
    if a == [] {
      assert a + b == b;
    } else {
      var head := if IsAlnum(a[0]) then [a[0]] else [];
      assert (a + b)[0] == a[0] && (a + b)[1..] == a[1..] + b;
      assert Normalize(a + b) == head + Normalize(a[1..] + b);
      NormalizeAppend(a[1..], b);
      assert Normalize(a) == head + Normalize(a[1..]);
      assert head + (Normalize(a[1..]) + Normalize(b)) == (head + Normalize(a[1..])) + Normalize(b);
    }
  }

  /** An alphanumeric string is left exactly as it is. */
  lemma {:induction false} NormalizeFixesAlnum(s: string)
    requires AllAlnum(s)
    ensures Normalize(s) == s
  {
    if s != [] {
      NormalizeFixesAlnum(s[1..]);
    }
  }

  /** Normalizing twice is the same as normalizing once. */
  lemma NormalizeIdempotent(s: string)
    ensures Normalize(Normalize(s)) == Normalize(s)
  {
    NormalizeFixesAlnum(Normalize(s));
  }

  /** An alphanumeric character between two texts survives normalization
      between their normalized forms. */
  lemma NormalizeAround(before: string, c: char, after: string)
    requires IsAlnum(c)
    ensures Normalize(before + [c] + after) == Normalize(before) + [c] + Normalize(after)
  {
    assert before + [c] + after == before + ([c] + after);
    NormalizeAppend(before, [c] + after);
    assert ([c] + after)[1..] == after;
  }

  /** Every alphanumeric character of the input survives, in its place:
      what comes before it in the output is the normalized text before it,
      and what comes after is the normalized text after it. */
  lemma NormalizeKeepsAlnumInOrder(s: string, i: nat)
    requires i < |s| && IsAlnum(s[i])
    ensures Normalize(s) == Normalize(s[..i]) + [s[i]] + Normalize(s[i + 1..])
  {
    var before, after := s[..i], s[i + 1..];
    assert before + [s[i]] + after == s;
    NormalizeAround(before, s[i], after);
  }

  /** A character that is not alphanumeric never appears in the output, and
      each alphanumeric character appears exactly as often as in the input. */
  lemma {:induction false} NormalizeCounts(s: string, c: char)
    ensures !IsAlnum(c) ==> c !in Normalize(s)
    ensures IsAlnum(c) ==> multiset(Normalize(s))[c] == multiset(s)[c]
  {
    if s != [] {
      NormalizeCounts(s[1..], c);
      assert s == [s[0]] + s[1..];
      assert multiset(s) == multiset([s[0]]) + multiset(s[1..]);
      var head := if IsAlnum(s[0]) then [s[0]] else [];
      assert multiset(Normalize(s)) == multiset(head) + multiset(Normalize(s[1..]));
    }
  }
}
