/** The few Python `str` primitives the reply pipeline relies on, on strings as `seq<char>`. */
module Strings {

  /** Python's normalisation of a slice bound `k` against a string of length `n`:
      a negative bound counts from the end, and the result is clamped to `[0, n]`. */
  function SliceIndex(n: nat, k: int): (r: nat)
    ensures r <= n
    ensures 0 <= k <= n ==> r == k
    ensures k < 0 && n + k >= 0 ==> r == n + k
    ensures n + k < 0 ==> r == 0
    ensures k > n ==> r == n
  {
    if k < 0 then (if n + k < 0 then 0 else n + k)
    else if k > n then n
    else k
  }

  /** `s[:k]`: the prefix up to the normalised bound. */
  function Take(s: string, k: int): string {
    if 0 <= k <= |s| then s[..k] else s[..SliceIndex(|s|, k)]
  }

  /** `s[k:]`: the rest after the normalised bound, so that `s[:k] + s[k:] == s`. */
  function Drop(s: string, k: int): string {
    if 0 <= k <= |s| then s[k..] else s[SliceIndex(|s|, k)..]
  }

  /** The two slices at the same bound split a string: the prefix is as long as the
      normalised bound and the rest follows it. */
  lemma TakeDrop(s: string, k: int)
    ensures |Take(s, k)| == SliceIndex(|s|, k)
    ensures Take(s, k) <= s
    ensures Take(s, k) + Drop(s, k) == s
  {
  }

  /** The largest index below `e` that holds `c`, or -1 when `s[..e]` has none. */
  function LastIndexBefore(s: string, c: char, e: nat): (r: int)
    requires e <= |s|
    ensures -1 <= r < e
    ensures r >= 0 ==> s[r] == c
    ensures forall j :: r < j < e ==> s[j] != c
    decreases e
  {
    if e == 0 then -1
    else if s[e - 1] == c then e - 1
    else LastIndexBefore(s, c, e - 1)
  }

  /** `s.rfind(c, 0, end)` for a one-character needle: the last occurrence of `c`
      strictly before the (normalised) bound `end`, or -1. */
  function RFind(s: string, c: char, end: int): (r: int)
    ensures -1 <= r < SliceIndex(|s|, end)
    ensures r >= 0 ==> s[r] == c
    ensures forall j :: r < j < SliceIndex(|s|, end) ==> s[j] != c
  {
    LastIndexBefore(s, c, if 0 <= end <= |s| then end else SliceIndex(|s|, end))
  }

  /** `str.lower()` restricted to ASCII letters. */
  function LowerChar(c: char): char {
    if 'A' <= c <= 'Z' then (c as int - 'A' as int + 'a' as int) as char else c
  }

  function Lower(s: string): (r: string)
    ensures |r| == |s|
    ensures forall i :: 0 <= i < |s| && 'A' <= s[i] <= 'Z' ==> r[i] as int == s[i] as int + 32
    ensures forall i :: 0 <= i < |s| && !('A' <= s[i] <= 'Z') ==> r[i] == s[i]
  {
    seq(|s|, i requires 0 <= i < |s| => LowerChar(s[i]))
  }

  /** `"".join(parts)` */
  function Concat(parts: seq<string>): string
    decreases |parts|
  {
    if |parts| == 0 then "" else parts[0] + Concat(parts[1..])
  }

  lemma {:induction false} ConcatAppend(a: seq<string>, b: seq<string>)
    ensures Concat(a + b) == Concat(a) + Concat(b)
    decreases |a|
  {
    if |a| == 0 {
      assert a + b == b;
    } else {
      assert (a + b)[1..] == a[1..] + b;
      ConcatAppend(a[1..], b);
    }
  }

  /** Joining one more part and then the rest of the text is joining the old parts and then
      that part followed by the rest. */
  lemma AppendOne(parts: seq<string>, head: string, rest: string)
    ensures Concat(parts + [head]) + rest == Concat(parts) + (head + rest)
  {
    ConcatAppend(parts, [head]);
    assert Concat([head]) == head + Concat([]);
    assert Concat(parts + [head]) == Concat(parts) + head;
    SeqAssoc(Concat(parts), head, rest);
  }

  lemma SeqAssoc<T>(a: seq<T>, b: seq<T>, c: seq<T>)
    ensures (a + b) + c == a + (b + c)
  {
  }

  /** Lower-casing is idempotent, so a name stored lower-cased dispatches the same way again. */
  lemma LowerIdempotent(s: string)
    ensures Lower(Lower(s)) == Lower(s)
  {
  }
}
