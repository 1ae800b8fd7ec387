/** The bounded history log of a room: a sliding window of the most recent 200 entries. */
module Window {

  const MaxHistory: nat := 200

  /** `push` then, when the log has grown past the cap, one `shift`. */
  function AppendCapped<T>(h: seq<T>, x: T): (r: seq<T>)
    ensures r != [] && r[|r| - 1] == x
    ensures |r| <= |h| + 1 && r == (h + [x])[|h| + 1 - |r|..]
    ensures |h| <= MaxHistory ==> |r| <= MaxHistory
  {
    var pushed := h + [x];
    if |pushed| > MaxHistory then pushed[1..] else pushed
  }

  /** Below the cap nothing is evicted; at the cap exactly the oldest entry goes and the order is kept. */
  lemma AppendCappedEvictsOldest<T>(h: seq<T>, x: T)
    requires |h| <= MaxHistory
    ensures |h| < MaxHistory ==> AppendCapped(h, x) == h + [x]
    ensures |h| == MaxHistory ==> AppendCapped(h, x) == h[1..] + [x]
  {
    if |h| == MaxHistory {
      assert (h + [x])[1..] == h[1..] + [x];
    }
  }

  /** Every entry of the capped log is the appended one or an entry of the old log. */
  lemma AppendCappedEntry<T>(h: seq<T>, x: T, i: int)
    requires 0 <= i < |AppendCapped(h, x)|
    ensures var r := AppendCapped(h, x);
      i == |r| - 1 ==> r[i] == x
    ensures var r := AppendCapped(h, x);
      i < |r| - 1 ==> 0 <= |h| + 1 - |r| + i < |h| && r[i] == h[|h| + 1 - |r| + i]
  {
    var r := AppendCapped(h, x);
    assert r[i] == (h + [x])[|h| + 1 - |r| + i];
  }

  /** The log after appending each of `xs` in turn. */
  function AppendAll<T>(h: seq<T>, xs: seq<T>): seq<T>
    decreases |xs|
  {
    if xs == [] then h else AppendAll(AppendCapped(h, xs[0]), xs[1..])
  }

  /** The last `n` entries of `s` (all of them when there are fewer). */
  function Newest<T>(s: seq<T>, n: nat): (r: seq<T>)
    ensures |r| == if |s| <= n then |s| else n
    ensures r == s[|s| - |r|..]
  {
    if |s| <= n then s else s[|s| - n..]
  }

  /** Dropping from the front of `s` what `Newest` would drop anyway does not change the window. */
  lemma NewestOfSuffix<T>(s: seq<T>, k: nat, tail: seq<T>, n: nat)
    requires k <= |s|
    requires k == 0 || |s| - k >= n
    ensures Newest(s[k..] + tail, n) == Newest(s + tail, n)
  {
    if k > 0 {
      var a := s[k..] + tail;
      var b := s + tail;
      assert |a| >= n;
      assert a[|a| - n..] == b[|b| - n..];
    } else {
      assert s[k..] == s;
    }
  }

  /**
   * Sliding window: however many messages are appended, the log holds exactly the
   * newest `MaxHistory` of everything appended, oldest first.
   */
  lemma {:induction false} AppendAllKeepsNewest<T>(h: seq<T>, xs: seq<T>)
    requires |h| <= MaxHistory
    ensures AppendAll(h, xs) == Newest(h + xs, MaxHistory)
    decreases |xs|
  {
    if xs == [] {
      assert h + xs == h;
    } else {
      var h' := AppendCapped(h, xs[0]);
      AppendAllKeepsNewest(h', xs[1..]);
      var pushed := h + [xs[0]];
      var k := |pushed| - |h'|;
      assert h' == pushed[k..];
      NewestOfSuffix(pushed, k, xs[1..], MaxHistory);
      assert pushed + xs[1..] == h + xs;
    }
  }
}
