/**
 * String helpers over `seq<char>` standing in for the Foundation string
 * operations the SDK uses: substring search, prefix test, first/last index
 * of a character, trimming by a character set and ASCII case folding.
 */
module Text {

  /** `sub` occurs at position `i` of `s`. */
  predicate OccursAt(s: string, sub: string, i: nat) {
    i + |sub| <= |s| && s[i..i + |sub|] == sub
  }

  /** Some occurrence of `sub` starts at position `i` or later. */
  predicate OccursFrom(s: string, sub: string, i: nat)
    decreases |s| - i
  {
    if i > |s| then false
    else OccursAt(s, sub, i) || OccursFrom(s, sub, i + 1)
  }

  /**
   * Foundation's `s.contains(sub)`: `sub` is a contiguous infix of `s`.
   * They differ only on the empty needle, which this predicate finds in every
   * string and Foundation finds in none; every needle the SDK passes is a
   * non-empty literal or a keyword list without an empty entry.
   */
  predicate Contains(s: string, sub: string) {
    OccursFrom(s, sub, 0)
  }

  lemma {:induction false} OccursFromAt(s: string, sub: string, i: nat, k: nat)
    requires i <= k && OccursAt(s, sub, k)
    ensures OccursFrom(s, sub, i)
    decreases k - i
  {
    if i < k {
      OccursFromAt(s, sub, i + 1, k);
    }
  }

  /** An occurrence at a known position makes `sub` contained in `s`. */
  lemma ContainsAt(s: string, sub: string, i: nat)
    requires OccursAt(s, sub, i)
    ensures Contains(s, sub)
  {
    OccursFromAt(s, sub, 0, i);
  }

  lemma {:induction false} OccursFromWitness(s: string, sub: string, i: nat) returns (k: nat)
    requires OccursFrom(s, sub, i)
    ensures i <= k && OccursAt(s, sub, k)
    decreases |s| - i
  {
    if OccursAt(s, sub, i) {
      k := i;
    } else {
      k := OccursFromWitness(s, sub, i + 1);
    }
  }

  /** A position where a contained `sub` occurs. */
  lemma Witness(s: string, sub: string) returns (k: nat)
    requires Contains(s, sub)
    ensures OccursAt(s, sub, k)
  {
    k := OccursFromWitness(s, sub, 0);
  }

  predicate HasPrefix(s: string, p: string) {
    |p| <= |s| && s[..|p|] == p
  }

  lemma PrefixIsContained(s: string, p: string)
    requires HasPrefix(s, p)
    ensures Contains(s, p)
  {
    ContainsAt(s, p, 0);
  }

  /** If `sub` is contained in an infix of `t`, it is contained in `t`. */
  lemma ContainsMonotone(t: string, lo: nat, hi: nat, sub: string)
    requires lo <= hi <= |t|
    requires Contains(t[lo..hi], sub)
    ensures Contains(t, sub)
  {
    var u := t[lo..hi];
    var i := Witness(u, sub);
    var a, b := u[i..i + |sub|], t[lo + i..lo + i + |sub|];
    assert forall k :: 0 <= k < |a| ==> a[k] == b[k];
    ContainsAt(t, sub, lo + i);
  }

  /** Containment of strings is transitive. */
  lemma ContainsTransitive(t: string, u: string, v: string)
    requires Contains(t, u) && Contains(u, v)
    ensures Contains(t, v)
  {
    var i := Witness(t, u);
    assert u == t[i..i + |u|];
    ContainsMonotone(t, i, i + |u|, v);
  }

  /** Every slice of `s` is contained in `s`. */
  lemma SliceContained(s: string, lo: nat, hi: nat)
    requires lo <= hi <= |s|
    ensures Contains(s, s[lo..hi])
  {
    ContainsAt(s, s[lo..hi], lo);
  }

  /** A string contains itself. */
  lemma ContainsSelf(s: string)
    ensures Contains(s, s)
  {
    ContainsAt(s, s, 0);
  }

  /** A character that is absent from `s` is absent from every string `s` contains. */
  lemma AbsentCharStaysAbsent(s: string, sub: string, c: char)
    requires Contains(s, sub) && c !in s
    ensures c !in sub
  {
    var i := Witness(s, sub);
    assert sub == s[i..i + |sub|];
  }

  /** A string cannot contain a piece holding a character it lacks. */
  lemma NotContainedByChar(s: string, sub: string, c: char)
    requires c in sub && c !in s
    ensures !Contains(s, sub)
  {
    if Contains(s, sub) {
      AbsentCharStaysAbsent(s, sub, c);
    }
  }

  /** Index of the first occurrence of `c` at or after `i`, or -1. */
  function FirstIndexFrom(s: string, c: char, i: nat): (r: int)
    requires i <= |s|
    ensures r == -1 || i <= r < |s|
    ensures r == -1 ==> forall k :: i <= k < |s| ==> s[k] != c
    ensures r >= 0 ==> s[r] == c && forall k :: i <= k < r ==> s[k] != c
    decreases |s| - i
  {
    if i == |s| then -1
    else if s[i] == c then i
    else FirstIndexFrom(s, c, i + 1)
  }

  /** Index of the first occurrence of `c` (Swift `firstIndex(of:)`), or -1. */
  function FirstIndexOf(s: string, c: char): (r: int)
    ensures -1 <= r < |s|
    ensures r == -1 <==> c !in s
    ensures r >= 0 ==> s[r] == c && c !in s[..r]
  {
    FirstIndexFrom(s, c, 0)
  }

  /** `k` is the first index of `c` when `c` sits at `k` and nowhere before. */
  lemma FirstIndexOfAt(s: string, c: char, k: nat)
    requires k < |s| && s[k] == c && c !in s[..k]
    ensures FirstIndexOf(s, c) == k
  {
  }

  /** Index of the last occurrence of `c` before position `j`, or -1. */
  function LastIndexBefore(s: string, c: char, j: nat): (r: int)
    requires j <= |s|
    ensures -1 <= r < j
    ensures r == -1 ==> forall k :: 0 <= k < j ==> s[k] != c
    ensures r >= 0 ==> s[r] == c && forall k :: r < k < j ==> s[k] != c
  {
    if j == 0 then -1
    else if s[j - 1] == c then j - 1
    else LastIndexBefore(s, c, j - 1)
  }

  /** Index of the last occurrence of `c` (Swift `lastIndex(of:)`), or -1. */
  function LastIndexOf(s: string, c: char): (r: int)
    ensures -1 <= r < |s|
    ensures r == -1 <==> c !in s
    ensures r >= 0 ==> s[r] == c && c !in s[r + 1..]
  {
    LastIndexBefore(s, c, |s|)
  }

  /** `k` is the last index of `c` when `c` sits at `k` and nowhere after. */
  lemma LastIndexOfAt(s: string, c: char, k: nat)
    requires k < |s| && s[k] == c && c !in s[k + 1..]
    ensures LastIndexOf(s, c) == k
  {
  }

  /** Foundation's `CharacterSet.whitespaces`: general category Zs plus tab. */
  predicate IsWhitespace(c: char) {
    c == '\t' || c == ' ' || c == '\U{00A0}' || c == '\U{1680}'
    || ('\U{2000}' <= c <= '\U{200A}') || c == '\U{202F}' || c == '\U{205F}' || c == '\U{3000}'
  }

  /** Foundation's `CharacterSet.newlines`: U+000A to U+000D, U+0085, U+2028 and U+2029. */
  predicate IsNewline(c: char) {
    ('\n' <= c <= '\r') || c == '\U{0085}' || c == '\U{2028}' || c == '\U{2029}'
  }

  /** Foundation's `CharacterSet.whitespacesAndNewlines`: `IsWhitespace` or `IsNewline`, that is Zs, tab, U+000A to U+000D, U+0085, U+2028 and U+2029. */
  predicate IsWhitespaceOrNewline(c: char) {
    IsWhitespace(c) || IsNewline(c)
  }

  /** ASCII letters and digits: the part of `CharacterSet.alphanumerics` this model keeps. */
  predicate IsAlphanumeric(c: char) {
    ('a' <= c <= 'z') || ('A' <= c <= 'Z') || ('0' <= c <= '9')
  }

  /** Drops leading and trailing characters that satisfy `drop`. */
  function Trim(s: string, drop: char -> bool): (r: string)
    ensures |r| <= |s|
    ensures |r| > 0 ==> !drop(r[0]) && !drop(r[|r| - 1])
    ensures Contains(s, r)
  {
    var t := TrimStart(s, drop);
    var r := TrimEnd(t, drop);
    assert s[|s| - |t|..][..|r|] == s[|s| - |t|..|s| - |t| + |r|];
    ContainsAt(s, r, |s| - |t|);
    r
  }

  function TrimStart(s: string, drop: char -> bool): (r: string)
    ensures |r| <= |s| && r == s[|s| - |r|..]
    ensures |r| > 0 ==> !drop(r[0])
  {
    if |s| > 0 && drop(s[0]) then TrimStart(s[1..], drop) else s
  }

  function TrimEnd(s: string, drop: char -> bool): (r: string)
    ensures |r| <= |s| && r == s[..|r|]
    ensures |r| > 0 ==> !drop(r[|r| - 1])
  {
    if |s| > 0 && drop(s[|s| - 1]) then TrimEnd(s[..|s| - 1], drop) else s
  }

  function LowerChar(c: char): char {
    if 'A' <= c <= 'Z' then (c as int + 32) as char else c
  }

  /** Swift `lowercased()`, restricted to ASCII case mapping. */
  function Lower(s: string): (r: string)
    ensures |r| == |s|
    ensures forall i :: 0 <= i < |s| ==> r[i] == LowerChar(s[i])
  {
    if |s| == 0 then [] else [LowerChar(s[0])] + Lower(s[1..])
  }

  /** `caseInsensitiveCompare(_:) == .orderedSame`, restricted to ASCII case mapping. */
  predicate EqualsIgnoringCase(a: string, b: string) {
    Lower(a) == Lower(b)
  }

  /** `localizedCaseInsensitiveContains(_:)`, restricted to ASCII case mapping. */
  predicate ContainsIgnoringCase(s: string, sub: string) {
    Contains(Lower(s), Lower(sub))
  }

  /** Swift `contains(where:)` over a list of needles: some needle is a substring of `s`. */
  predicate ContainsAny(s: string, needles: seq<string>) {
    if needles == [] then false
    else Contains(s, needles[0]) || ContainsAny(s, needles[1..])
  }

  /** A needle found in `s` makes `ContainsAny` hold. */
  lemma {:induction false} ContainsAnyMember(s: string, needles: seq<string>, k: nat)
    requires k < |needles| && Contains(s, needles[k])
    ensures ContainsAny(s, needles)
  {
    if k > 0 {
      ContainsAnyMember(s, needles[1..], k - 1);
    }
  }

  /** `ContainsAny` holds only through a needle found in `s`. */
  lemma {:induction false} ContainsAnyWitness(s: string, needles: seq<string>) returns (k: nat)
    requires ContainsAny(s, needles)
    ensures k < |needles| && Contains(s, needles[k])
  {
    if Contains(s, needles[0]) {
      k := 0;
    } else {
      k := ContainsAnyWitness(s, needles[1..]);
      k := k + 1;
    }
  }

  /** `ContainsAny` agrees with its quantified reading. */
  lemma ContainsAnyIff(s: string, needles: seq<string>)
    ensures ContainsAny(s, needles) <==> exists k :: 0 <= k < |needles| && Contains(s, needles[k])
  {
    if ContainsAny(s, needles) {
      var k := ContainsAnyWitness(s, needles);
    }
    forall k | 0 <= k < |needles| && Contains(s, needles[k])
      ensures ContainsAny(s, needles)
    {
      ContainsAnyMember(s, needles, k);
    }
  }

  lemma LowerAppend(a: string, b: string)
    ensures Lower(a + b) == Lower(a) + Lower(b)
  {
    var l, r := Lower(a + b), Lower(a) + Lower(b);
    assert forall i :: 0 <= i < |l| ==> l[i] == r[i];
  }

  /** Lower-casing twice is lower-casing once. */
  lemma LowerIdempotent(s: string)
    ensures Lower(Lower(s)) == Lower(s)
  {
  }

  /** Appending text never removes a contained substring. */
  lemma ContainsExtend(a: string, b: string, sub: string)
    requires Contains(a, sub)
    ensures Contains(a + b, sub)
  {
    var i := Witness(a, sub);
    assert (a + b)[i..i + |sub|] == a[i..i + |sub|];
    ContainsAt(a + b, sub, i);
  }
}
