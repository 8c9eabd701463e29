/**
 * Choosing one element of a list by a real-valued key. Swift's
 * `sorted(by:).first` with a strict `<` on the key returns a minimal element,
 * and because Swift's sort is stable that element is the earliest one among
 * equals; `ArgMinFirst` is that choice without the sort.
 */
module Select {

  /** The index of the earliest element whose key is minimal. */
  function ArgMinFirst<T>(s: seq<T>, key: T -> real): (k: nat)
    requires |s| > 0
    ensures k < |s|
    ensures forall j :: 0 <= j < |s| ==> key(s[k]) <= key(s[j])
    ensures forall j :: 0 <= j < k ==> key(s[k]) < key(s[j])
  {
    if |s| == 1 then 0
    else
      var k := ArgMinFirst(s[1..], key);
      if key(s[0]) <= key(s[1..][k]) then 0 else k + 1
  }

  /** The earliest minimal element is the only index with both properties. */
  lemma ArgMinFirstUnique<T>(s: seq<T>, key: T -> real, k: nat)
    requires k < |s|
    requires forall j :: 0 <= j < |s| ==> key(s[k]) <= key(s[j])
    requires forall j :: 0 <= j < k ==> key(s[k]) < key(s[j])
    ensures ArgMinFirst(s, key) == k
  {
  }

  /** Swift `filter`: the elements satisfying `p`, in their original order. */
  function Filter<T(!new)>(s: seq<T>, p: T -> bool): (r: seq<T>)
    ensures |r| <= |s|
    ensures forall x :: x in r <==> x in s && p(x)
  {
    if |s| == 0 then []
    else if p(s[0]) then [s[0]] + Filter(s[1..], p)
    else Filter(s[1..], p)
  }

  /** `filter(p).count`. */
  function CountWhere<T(!new)>(s: seq<T>, p: T -> bool): (n: nat)
    ensures n <= |s|
    ensures n == |Filter(s, p)|
    ensures n == 0 <==> forall x :: x in s ==> !p(x)
  {
    if |s| == 0 then 0
    else (if p(s[0]) then 1 else 0) + CountWhere(s[1..], p)
  }

  /** The index of the first element satisfying `p` (a `for` loop that returns on the first hit), or -1. */
  function FirstWhere<T>(s: seq<T>, p: T -> bool): (k: int)
    ensures -1 <= k < |s|
    ensures k == -1 <==> forall j :: 0 <= j < |s| ==> !p(s[j])
    ensures k >= 0 ==> p(s[k]) && forall j :: 0 <= j < k ==> !p(s[j])
  {
    if |s| == 0 then -1
    else if p(s[0]) then 0
    else
      var k := FirstWhere(s[1..], p);
      assert forall j :: 1 <= j < |s| ==> s[j] == s[1..][j - 1];
      if k == -1 then -1 else k + 1
  }

  /** `prefix(n)`: the first `n` elements, or all of them when there are fewer. */
  function Take<T>(s: seq<T>, n: nat): (r: seq<T>)
    ensures |r| <= n && |r| <= |s|
    ensures |s| <= n ==> r == s
    ensures |s| > n ==> |r| == n
    ensures r == s[..|r|]
  {
    if |s| <= n then s else s[..n]
  }

  /** Truncating, appending and truncating again is appending and truncating once. */
  lemma TakeAppendTake<T>(x: seq<T>, y: seq<T>, n: nat)
    ensures Take(Take(x, n) + y, n) == Take(x + y, n)
  {
    if |x| > n {
      var a, b := Take(Take(x, n) + y, n), Take(x + y, n);
      assert forall i :: 0 <= i < n ==> a[i] == x[i] == b[i];
    }
  }

  /** Truncating past a short prefix keeps the prefix whole. */
  lemma TakePrefix<T>(x: seq<T>, y: seq<T>, n: nat)
    requires |x| <= n
    ensures Take(x + y, n) == x + Take(y, n - |x|)
  {
    var a, b := Take(x + y, n), x + Take(y, n - |x|);
    assert |a| == |b|;
    assert forall i :: 0 <= i < |a| ==> a[i] == b[i];
  }

  lemma AppendAssoc<T>(a: seq<T>, b: seq<T>, c: seq<T>)
    ensures a + b + c == a + (b + c)
  {
  }
}
