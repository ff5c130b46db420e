/**
 * Python's slicing `s[lo:hi]` (step 1) on lists, pandas positional slices and
 * index objects. Bounds are integers: a negative bound counts from the end,
 * and both bounds are clamped to the sequence, so a slice never fails.
 */
module PySlice {

  /** The position a slice bound `i` denotes in a sequence of length `n`. */
  function Bound(i: int, n: nat): (b: nat)
    ensures b <= n
    ensures i < 0 && n + i >= 0 ==> b == n + i
    ensures 0 <= i <= n ==> b == i
  {
    if i < 0 then (if n + i < 0 then 0 else n + i)
    else if i > n then n
    else i
  }

  /** `s[lo:hi]`. */
  function Slice<T>(s: seq<T>, lo: int, hi: int): seq<T>
  {
    var l, h := Bound(lo, |s|), Bound(hi, |s|);
    if l <= h then s[l..h] else []
  }

  /**
   * `s[-k:]`. For 1 <= k <= |s| this is the last k elements; since `-0 == 0`,
   * `s[-0:]` is all of `s`, and a k beyond the length is clamped to all of `s`.
   */
  function Tail<T>(s: seq<T>, k: nat): (r: seq<T>)
    ensures 1 <= k <= |s| ==> |r| == k && r == s[|s| - k..]
    ensures k == 0 || k > |s| ==> r == s
    ensures |r| <= k || r == s
  {
    Slice(s, -(k as int), |s|)
  }

  /** Cutting a trailing suffix twice is cutting the shorter suffix once. */
  lemma TailOfTail<T>(s: seq<T>, k1: nat, k2: nat)
    requires 1 <= k2 <= k1 <= |s|
    ensures Tail(Tail(s, k1), k2) == Tail(s, k2)
  {
    var t := Tail(s, k1);
    assert t == s[|s| - k1..];
    assert Tail(t, k2) == t[|t| - k2..];
  }

  /**
   * The three-way cut `s[:a]`, `s[a:b]`, `s[b:]` loses and duplicates nothing
   * and keeps the order, for any cut points 0 <= a <= b <= |s|.
   */
  lemma {:induction false} ThreeWayCut<T>(s: seq<T>, a: int, b: int)
    requires 0 <= a <= b <= |s|
    ensures Slice(s, 0, a) + Slice(s, a, b) + Slice(s, b, |s|) == s
    ensures |Slice(s, 0, a)| == a && |Slice(s, a, b)| == b - a && |Slice(s, b, |s|)| == |s| - b
  {
    assert Slice(s, 0, a) == s[..a];
    assert Slice(s, a, b) == s[a..b];
    assert Slice(s, b, |s|) == s[b..];
    assert s[..a] + s[a..b] + s[b..] == s;
  }
}
