/** The bounded history of app.py: `history = deque(maxlen=HISTORY_MAX)`, the counter
    `_last_seq` that the worker raises by one with every append, and the view that
    `/history` serves, `list(history)[-500:]`. */
module SampleHistory {

  /** The most entries `/history` returns. */
  const RecentLimit: nat := 500

  function Min(a: nat, b: nat): nat
  {
    if a <= b then a else b
  }

  /** The last `min(|s|, n)` elements of `s`, oldest first: what a deque bounded to `n`
      holds after `s` has been appended to it one element at a time, and, for n > 0, what
      the Python slice `s[-n:]` gives (`s[-0:]` would be all of `s`). */
  function Latest<T>(s: seq<T>, n: nat): (w: seq<T>)
    ensures |w| == Min(|s|, n)
    ensures s == s[..|s| - |w|] + w
  {
    if |s| <= n then s else s[|s| - n..]
  }

  /** Appending to the bounded window of `s` gives the bounded window of `s + [x]`:
      keeping only the latest `n` as one goes loses nothing that matters later. */
  lemma LatestAppend<T>(s: seq<T>, x: T, n: nat)
    ensures Latest(Latest(s, n) + [x], n) == Latest(s + [x], n)
  {
  }

  /** A window of a window is the narrower window. */
  lemma LatestOfLatest<T>(s: seq<T>, n: nat, m: nat)
    ensures Latest(Latest(s, n), m) == Latest(s, Min(n, m))
  {
  }

  /** The deque and the counter. `appended` is every record ever appended, oldest first;
      it exists only to state what the deque holds. */
  class History<T> {
    const capacity: nat
    var entries: seq<T>
    var lastSeq: nat
    ghost var appended: seq<T>

    /** The deque holds the latest `capacity` records appended, in order, and the counter
        is the number of appends so far. */
    ghost predicate Valid()
      reads this
    {
      entries == Latest(appended, capacity) && lastSeq == |appended|
    }

    /** `deque(maxlen=capacity)` and `_last_seq = 0`. */
    constructor (capacity: nat)
      ensures Valid() && this.capacity == capacity
      ensures entries == [] && lastSeq == 0 && appended == []
    {
      this.capacity := capacity;
      entries := [];
      lastSeq := 0;
      appended := [];
    }

    /** `history.append(data)` followed by `_last_seq += 1`, as one atomic step. A deque
        at its bound drops its oldest entry to make room. */
    method Append(x: T)
      requires Valid()
      modifies this
      ensures Valid()
      ensures appended == old(appended) + [x] && lastSeq == old(lastSeq) + 1
      ensures entries == Latest(old(entries) + [x], capacity)
      ensures |entries| <= capacity
      ensures capacity > 0 ==> entries[|entries| - 1] == x
    {
      entries := entries + [x];
      if |entries| > capacity {
        entries := entries[1..];
      }
      lastSeq := lastSeq + 1;
      LatestAppend(appended, x, capacity);
      appended := appended + [x];
    }

    /** `list(history)[-500:]`: the latest entries, oldest first, at most 500 of them. */
    function Recent(): (r: seq<T>)
      reads this
      ensures |r| == Min(|entries|, RecentLimit)
      ensures entries == entries[..|entries| - |r|] + r
    {
      Latest(entries, RecentLimit)
    }
  }

  /** `/history` serves the latest `min(500, HISTORY_MAX)` records ever appended, in the
      order they were appended. */
  lemma RecentIsLatestAppended<T>(h: History<T>)
    requires h.Valid()
    ensures h.Recent() == Latest(h.appended, Min(h.capacity, RecentLimit))
  {
  }
}
