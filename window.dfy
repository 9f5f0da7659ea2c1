/**
  A `collections.deque` created with `maxlen`: appending to a full deque
  drops its oldest (leftmost) entry.
*/
module Window {

  /** The last `n` entries of `s` (all of `s` when it is shorter). */
  function Last<T>(s: seq<T>, n: nat): seq<T>
  {
    if |s| <= n then s else s[|s| - n..]
  }

  /** `deque.append(x)` on a deque of at most `cap` entries. */
  function Push<T>(w: seq<T>, x: T, cap: nat): (r: seq<T>)
    requires |w| <= cap
    ensures |r| <= cap
    ensures cap > 0 ==> |r| > 0 && r[|r| - 1] == x
    ensures r == Last(w + [x], cap)
  {
    if |w| < cap then w + [x] else if cap == 0 then [] else w[1..] + [x]
  }

  /** Every entry after an append is the new one or was already there, and the oldest of several is an old one. */
  lemma PushEntries<T>(w: seq<T>, x: T, cap: nat)
    requires |w| <= cap && cap > 0
    ensures forall y :: y in Push(w, x, cap) ==> y == x || y in w
    ensures |Push(w, x, cap)| > 1 ==> Push(w, x, cap)[0] in w
  {
  }

  /** Keeping only the last `n` entries before each append loses nothing that the last `n` after it would keep. */
  lemma LastPush<T>(s: seq<T>, x: T, n: nat)
    ensures Push(Last(s, n), x, n) == Last(s + [x], n)
  {
    var w := Last(s, n);
    if |s| > n {
      assert w + [x] == (s + [x])[|s| - n..];
      assert Last(w + [x], n) == (s + [x])[|s| + 1 - n..];
    }
  }

  /** The window after each of the first `i + 1` readings is the push of reading `i` onto the window before it. */
  lemma LastPushPrefix<T>(s: seq<T>, i: nat, n: nat)
    requires i < |s|
    ensures |Last(s[..i], n)| <= n
    ensures Push(Last(s[..i], n), s[i], n) == Last(s[..i + 1], n)
  {
    assert s[..i + 1] == s[..i] + [s[i]];
    LastPush(s[..i], s[i], n);
  }
}
