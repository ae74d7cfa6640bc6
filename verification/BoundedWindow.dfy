/** Time-stamped logs that are trimmed to a window and a cap, and why trimming cannot be seen from outside. */
module BoundedWindow {

  datatype Entry<T> = Entry(time: int, val: T)

  const MAX_ENTRIES: nat := 10_000

  /** The log a map holds for an address, if any. */
  function Lookup<T>(data: map<string, seq<Entry<T>>>, ip: string): seq<Entry<T>> {
    if ip in data then data[ip] else []
  }

  /** The entries newer than a cutoff. */
  function Live<T>(s: seq<Entry<T>>, cutoff: int): (r: seq<Entry<T>>)
    ensures |r| <= |s|
  {
    if s == [] then []
    else
      var n := |s| - 1;
      Live(s[..n], cutoff) + if s[n].time > cutoff then [s[n]] else []
  }

  lemma {:induction false} LiveMembers<T>(s: seq<Entry<T>>, cutoff: int, i: nat)
    requires i < |Live(s, cutoff)|
    ensures Live(s, cutoff)[i] in s && Live(s, cutoff)[i].time > cutoff
  {
    var n := |s| - 1;
    if i < |Live(s[..n], cutoff)| {
      LiveMembers(s[..n], cutoff, i);
    }
  }

  function Last<T>(s: seq<T>, n: nat): seq<T> {
    if |s| <= n then s else s[|s| - n..]
  }

  /** In time order. */
  predicate Sorted<T>(s: seq<Entry<T>>) {
    var n := |s| - 1;
    n < 1 || (s[n - 1].time <= s[n].time && Sorted(s[..n]))
  }

  /** In time order, and nothing newer than the clock. */
  predicate Ordered<T>(s: seq<Entry<T>>, now: int) {
    Sorted(s) && (s != [] ==> s[|s| - 1].time <= now)
  }

  /** `k` entries lead up to the first one newer than the cutoff. */
  ghost predicate Splits<T>(s: seq<Entry<T>>, cutoff: int, k: nat) {
    && k <= |s|
    && (forall i | 0 <= i < k :: s[i].time <= cutoff)
    && (forall i | k <= i < |s| :: s[i].time > cutoff)
  }

  /** What a reader may see: from cutoff `c0` on, the newest entries of the held log are those of the full one. */
  ghost predicate SameView<T>(held: seq<Entry<T>>, log: seq<Entry<T>>, c0: int) {
    forall c | c >= c0 :: SameAt(held, log, c)
  }

  ghost predicate SameAt<T>(held: seq<Entry<T>>, log: seq<Entry<T>>, cutoff: int) {
    Last(Live(held, cutoff), MAX_ENTRIES) == Last(Live(log, cutoff), MAX_ENTRIES)
  }

  lemma {:induction false} LiveOfSplit<T>(s: seq<Entry<T>>, cutoff: int, k: nat)
    requires Splits(s, cutoff, k)
    ensures Live(s, cutoff) == s[k..]
  {
    if |s| > k {
      LiveOfSplit(s[..|s| - 1], cutoff, k);
      assert s[k..] == s[..|s| - 1][k..] + [s[|s| - 1]];
    } else if s != [] {
      LiveOfSplit(s[..|s| - 1], cutoff, |s| - 1);
    }
  }

  /** The loop that drops expired entries from the front and then the overflow computes the trim. */
  lemma DropIsTrim<T>(s: seq<Entry<T>>, cutoff: int, drop: nat)
    requires Splits(s, cutoff, drop)
    ensures var over := |s| - drop - MAX_ENTRIES;
            s[if over > 0 then drop + over else drop..] == Last(Live(s, cutoff), MAX_ENTRIES)
  {
    LiveOfSplit(s, cutoff, drop);
  }

  lemma {:induction false} SortedSplits<T>(s: seq<Entry<T>>, cutoff: int) returns (k: nat)
    requires Sorted(s)
    ensures Splits(s, cutoff, k)
  {
    if s == [] {
      k := 0;
    } else if s[|s| - 1].time <= cutoff {
      k := |s|;
      SortedUpTo(s, cutoff);
    } else {
      k := SortedSplits(s[..|s| - 1], cutoff);
      assert forall i | 0 <= i < |s| - 1 :: s[..|s| - 1][i] == s[i];
    }
  }

  lemma SplitsInOrder<T>(s: seq<Entry<T>>, c0: int, k: nat, c: int, j: nat)
    requires Splits(s, c0, k) && Splits(s, c, j) && c0 <= c
    ensures k <= j
  {
    if j < |s| {
      var e := s[j];
    }
  }

  lemma {:induction false} SortedUpTo<T>(s: seq<Entry<T>>, t: int)
    requires Ordered(s, t)
    ensures forall i | 0 <= i < |s| :: s[i].time <= t
  {
    if |s| > 1 {
      SortedUpTo(s[..|s| - 1], t);
      assert forall i | 0 <= i < |s| - 1 :: s[..|s| - 1][i] == s[i];
    }
  }

  lemma {:induction false} SuffixOrdered<T>(s: seq<Entry<T>>, now: int, k: nat)
    requires Ordered(s, now) && k <= |s|
    ensures Ordered(s[k..], now)
  {
    if |s| >= k + 2 {
      var n := |s| - 1;
      SuffixOrdered(s[..n], s[n - 1].time, k);
      assert s[k..][..n - k] == s[..n][k..];
    }
  }

  /** Dropping expired entries, then all but the newest, hides nothing from a later reader. */
  lemma TrimKeepsView<T>(s: seq<Entry<T>>, c0: int, now: int)
    requires Ordered(s, now)
    ensures SameView(Last(Live(s, c0), MAX_ENTRIES), s, c0) && Ordered(Last(Live(s, c0), MAX_ENTRIES), now)
    ensures SameView(Live(s, c0), s, c0) && Ordered(Live(s, c0), now)
  {
    var k := SortedSplits(s, c0);
    LiveOfSplit(s, c0, k);
    var m := if |s| - k <= MAX_ENTRIES then k else |s| - MAX_ENTRIES;
    assert Last(Live(s, c0), MAX_ENTRIES) == s[m..];
    SuffixOrdered(s, now, k);
    SuffixOrdered(s, now, m);
    forall c | c >= c0
      ensures SameAt(s[m..], s, c) && SameAt(s[k..], s, c)
    {
      SuffixView(s, c0, c, k, m);
      SuffixView(s, c0, c, k, k);
    }
  }

  /** A suffix that holds all entries newer than `c0`, or at least the newest up to the cap, shows the same. */
  lemma SuffixView<T>(s: seq<Entry<T>>, c0: int, c: int, k: nat, m: nat)
    requires Sorted(s) && Splits(s, c0, k) && c0 <= c && k <= m <= |s|
    requires m == k || m <= |s| - MAX_ENTRIES
    ensures SameAt(s[m..], s, c)
  {
    var j := SortedSplits(s, c);
    LiveOfSplit(s, c, j);
    SplitsInOrder(s, c0, k, c, j);
    SplitSuffix(s, c, j, m);
    LastOfSuffixes(s, j, if j >= m then j else m);
  }

  lemma SplitSuffix<T>(s: seq<Entry<T>>, c: int, j: nat, m: nat)
    requires Splits(s, c, j) && m <= |s|
    ensures Live(s[m..], c) == s[if j >= m then j else m..]
  {
    var i := if j >= m then j - m else 0;
    LiveOfSplit(s[m..], c, i);
    assert s[m..][i..] == s[m + i..];
  }

  lemma LastOfSuffixes<T>(s: seq<T>, j: nat, m: nat)
    requires j <= m <= |s| && (m == j || m <= |s| - MAX_ENTRIES)
    ensures Last(s[m..], MAX_ENTRIES) == Last(s[j..], MAX_ENTRIES)
  {
    if m > j {
      assert Last(s[m..], MAX_ENTRIES) == s[|s| - MAX_ENTRIES..];
      assert Last(s[j..], MAX_ENTRIES) == s[|s| - MAX_ENTRIES..];
    }
  }

  lemma LiveSnoc<T>(s: seq<Entry<T>>, e: Entry<T>, cutoff: int)
    ensures Live(s + [e], cutoff) == Live(s, cutoff) + if e.time > cutoff then [e] else []
  {
    assert (s + [e])[..|s|] == s;
  }

  lemma AppendKeepsView<T>(held: seq<Entry<T>>, log: seq<Entry<T>>, e: Entry<T>, c0: int)
    requires SameView(held, log, c0)
    ensures SameView(held + [e], log + [e], c0)
  {
    forall c | c >= c0
      ensures SameAt(held + [e], log + [e], c)
    {
      assert SameAt(held, log, c);
      LiveSnoc(held, e, c);
      LiveSnoc(log, e, c);
      if e.time > c {
        LastSnoc(Live(held, c), e);
        LastSnoc(Live(log, c), e);
      }
    }
  }

  lemma LastSnoc<T>(x: seq<T>, e: T)
    ensures Last(x + [e], MAX_ENTRIES) == Last(Last(x, MAX_ENTRIES) + [e], MAX_ENTRIES)
  {
  }

  lemma ViewTransitive<T>(held: seq<Entry<T>>, mid: seq<Entry<T>>, log: seq<Entry<T>>, c0: int, c1: int)
    requires c0 <= c1 && SameView(held, mid, c1) && SameView(mid, log, c0)
    ensures SameView(held, log, c1)
  {
    forall c | c >= c1
      ensures SameAt(held, log, c)
    {
      assert SameAt(held, mid, c) && SameAt(mid, log, c);
    }
  }

  /** A log whose last entry has expired shows nothing, so forgetting it hides nothing. */
  lemma ForgetKeepsView<T>(held: seq<Entry<T>>, c0: int)
    requires Ordered(held, c0)
    ensures SameView([], held, c0)
  {
    SortedUpTo(held, c0);
    forall c | c >= c0
      ensures SameAt([], held, c)
    {
      LiveOfSplit(held, c, |held|);
    }
  }
}
