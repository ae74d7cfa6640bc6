/** Per-address event counting over a sliding window: trimmed on every add, swept at most once per window. */
module SlidingWindows {
  import opened BoundedWindow
  import opened Selections

  type Log = seq<BoundedWindow.Entry<string>>

  datatype State = State(window: int, data: map<string, Log>, lastSweep: int)

  function Held(w: State, ip: string): Log {
    Lookup(w.data, ip)
  }

  function Trimmed(entries: Log, cutoff: int): Log {
    Last(Live(entries, cutoff), MAX_ENTRIES)
  }

  function PruneData(data: map<string, Log>, cutoff: int): map<string, Log> {
    map ip | ip in data && Live(data[ip], cutoff) != [] :: Live(data[ip], cutoff)
  }

  /** Addresses that went quiet are swept out at most once per window. */
  function Sweep(w: State, now: int): State {
    if now - w.lastSweep >= w.window then State(w.window, PruneData(w.data, now - w.window), now) else w
  }

  function AddTo(w: State, ip: string, key: string, now: int): State {
    Sweep(w.(data := Stored(w, ip, key, now)), now)
  }

  function CountOf(w: State, ip: string, now: int): nat {
    |Live(Held(w, ip), now - w.window)|
  }

  function Keys(s: Log): set<string> {
    set e | e in s && e.val != "" :: e.val
  }

  function DistinctCountOf(w: State, ip: string, now: int): nat {
    |Keys(Live(Held(w, ip), now - w.window))|
  }

  /** The map between the trim and the sweep. */
  function Stored(w: State, ip: string, key: string, now: int): map<string, Log> {
    w.data[ip := Trimmed(Held(w, ip) + [BoundedWindow.Entry(now, key)], now - w.window)]
  }

  // ---- runs ----

  datatype Op = Add(ip: string, key: string, now: int) | Prune(now: int)

  function Step(w: State, op: Op): State {
    match op
    case Add(ip, key, now) => AddTo(w, ip, key, now)
    case Prune(now) => w.(data := PruneData(w.data, now - w.window))
  }

  function Run(w: State, ops: seq<Op>): State {
    if ops == [] then w else Step(Run(w, ops[..|ops| - 1]), ops[|ops| - 1])
  }

  /** The full event log of one address: every add, nothing ever dropped. */
  function FullLog(ops: seq<Op>, ip: string): Log {
    if ops == [] then []
    else
      var op := ops[|ops| - 1];
      FullLog(ops[..|ops| - 1], ip) + if op.Add? && op.ip == ip then [BoundedWindow.Entry(op.now, op.key)] else []
  }

  function Clock(start: int, ops: seq<Op>): int {
    if ops == [] then start else ops[|ops| - 1].now
  }

  function Time(ops: seq<Op>, i: nat): int
    requires i < |ops|
  {
    ops[i].now
  }

  ghost predicate NonDecreasing(start: int, ops: seq<Op>) {
    && (forall i | 0 <= i < |ops| :: start <= Time(ops, i))
    && forall i, j | 0 <= i < j < |ops| :: Time(ops, i) <= Time(ops, j)
  }

  lemma PrefixNonDecreasing(start: int, ops: seq<Op>, n: nat)
    requires NonDecreasing(start, ops) && n < |ops|
    ensures NonDecreasing(start, ops[..n]) && Clock(start, ops[..n]) <= ops[n].now
  {
    forall i, j | 0 <= i <= j <= n
      ensures start <= ops[i].now <= ops[j].now
    {
      assert start <= Time(ops, i) && (i < j ==> Time(ops, i) <= Time(ops, j));
    }
  }

  lemma NonDecreasingSnoc(start: int, ops: seq<Op>, op: Op)
    requires NonDecreasing(start, ops) && Clock(start, ops) <= op.now
    ensures NonDecreasing(start, ops + [op])
  {
    var n := |ops| - 1;
    forall i | 0 <= i < |ops|
      ensures start <= ops[i].now <= op.now
    {
      assert start <= Time(ops, i) && (i < n ==> Time(ops, i) <= Time(ops, n));
    }
    forall i, j | 0 <= i < j < |ops + [op]|
      ensures Time(ops + [op], i) <= Time(ops + [op], j)
    {
      if j < |ops| {
        assert Time(ops, i) <= Time(ops, j);
      }
    }
  }

  function Fresh(window: int, start: int): State {
    State(window, map[], start)
  }

  /** What every operation keeps of one address's held log, at time `t`. */
  ghost predicate HeldOk(held: Log, log: Log, cutoff: int, t: int) {
    SameView(held, log, cutoff) && Ordered(held, t) && |held| <= MAX_ENTRIES
  }

  ghost predicate RefinesAt(w: State, t: int, log: Log, ip: string) {
    HeldOk(Held(w, ip), log, t - w.window, t) && (ip in w.data ==> Recent(w.data[ip], w.lastSweep - w.window))
  }

  predicate Recent(s: Log, cutoff: int) {
    s != [] && s[|s| - 1].time > cutoff
  }

  /** The bounded window refines the full logs; every address held has an entry from at most one window before the
      last sweep, and after an add the last sweep is less than one window old. */
  ghost predicate Refines(w: State, start: int, ops: seq<Op>) {
    var t := Clock(start, ops);
    && (forall ip :: RefinesAt(w, t, FullLog(ops, ip), ip))
    && w.lastSweep <= t
    && (ops != [] && ops[|ops| - 1].Add? ==> t - w.lastSweep < w.window || w.data == map[])
  }

  lemma PrunedIsOk(held: Log, log: Log, c0: int, t0: int, cutoff: int, t: int)
    requires HeldOk(held, log, c0, t0) && c0 <= cutoff && t0 <= t
    ensures HeldOk(Live(held, cutoff), log, cutoff, t)
  {
    TrimKeepsView(held, cutoff, t);
    ViewTransitive(Live(held, cutoff), held, log, c0, cutoff);
  }

  lemma OrderedSnoc(s: Log, e: BoundedWindow.Entry<string>, t: int)
    requires Ordered(s, t) && t <= e.time
    ensures Ordered(s + [e], e.time)
  {
    assert (s + [e])[..|s|] == s;
  }

  lemma TrimmedIsOk(held: Log, log: Log, e: BoundedWindow.Entry<string>, c0: int, t0: int, cutoff: int)
    requires HeldOk(held, log, c0, t0) && c0 <= cutoff && t0 <= e.time
    ensures HeldOk(Trimmed(held + [e], cutoff), log + [e], cutoff, e.time)
  {
    OrderedSnoc(held, e, t0);
    AppendKeepsView(held, log, e, c0);
    TrimKeepsView(held + [e], cutoff, e.time);
    ViewTransitive(Trimmed(held + [e], cutoff), held + [e], log + [e], c0, cutoff);
  }

  /** The new entry survives its own trim when the window is positive, as the last one. */
  lemma TrimmedEnds(held: Log, e: BoundedWindow.Entry<string>, cutoff: int)
    requires e.time > cutoff
    ensures Recent(Trimmed(held + [e], cutoff), cutoff)
  {
    LiveSnoc(held, e, cutoff);
  }

  lemma LiveLast(s: Log, cutoff: int)
    requires Live(s, cutoff) != []
    ensures Recent(Live(s, cutoff), cutoff)
  {
    LiveMembers(s, cutoff, |Live(s, cutoff)| - 1);
  }

  lemma FullLogSnoc(ops: seq<Op>, op: Op, x: string)
    ensures FullLog(ops + [op], x) ==
            if op.Add? && op.ip == x then FullLog(ops, x) + [BoundedWindow.Entry(op.now, op.key)] else FullLog(ops, x)
  {
    assert (ops + [op])[..|ops|] == ops;
  }

  lemma StoredIsOk(w: State, t: int, log: Log, ip: string, key: string, now: int, x: string)
    requires HeldOk(Held(w, x), log, t - w.window, t) && t <= now
    ensures var log' := if x == ip then log + [BoundedWindow.Entry(now, key)] else log;
            HeldOk(Lookup(Stored(w, ip, key, now), x), log', now - w.window, now)
  {
    var e := BoundedWindow.Entry(now, key);
    if x == ip {
      TrimmedIsOk(Held(w, ip), log, e, t - w.window, t, now - w.window);
      assert Lookup(Stored(w, ip, key, now), x) == Trimmed(Held(w, ip) + [e], now - w.window);
    } else {
      assert Lookup(Stored(w, ip, key, now), x) == Held(w, x);
      StaysOk(Held(w, x), log, t - w.window, t, now - w.window, now);
    }
  }

  /** A sweep forgets an address exactly when nothing of it is live. */
  lemma SweptAt(data: map<string, Log>, log: Log, cutoff: int, now: int, x: string)
    requires HeldOk(Lookup(data, x), log, cutoff, now)
    ensures var s := Lookup(PruneData(data, cutoff), x);
            HeldOk(s, log, cutoff, now) && (x in PruneData(data, cutoff) ==> Recent(s, cutoff) && cutoff < now)
  {
    PrunedIsOk(Lookup(data, x), log, cutoff, now, cutoff, now);
    assert Lookup(PruneData(data, cutoff), x) == Live(Lookup(data, x), cutoff);
    if x in PruneData(data, cutoff) {
      LiveLast(data[x], cutoff);
    }
  }

  lemma StoredIsRecent(w: State, ip: string, key: string, now: int, x: string)
    requires w.lastSweep <= now < w.lastSweep + w.window
    requires x in w.data ==> Recent(w.data[x], w.lastSweep - w.window)
    ensures x in Stored(w, ip, key, now) ==> Recent(Stored(w, ip, key, now)[x], w.lastSweep - w.window)
  {
    TrimmedEnds(Held(w, ip), BoundedWindow.Entry(now, key), now - w.window);
  }

  lemma DueSweepRefinesAt(w: State, log: Log, now: int, x: string)
    requires HeldOk(Held(w, x), log, now - w.window, now) && now - w.lastSweep >= w.window
    ensures RefinesAt(Sweep(w, now), now, log, x)
    ensures w.window <= 0 ==> x !in Sweep(w, now).data
  {
    var swept := PruneData(w.data, now - w.window);
    assert Sweep(w, now) == State(w.window, swept, now);
    SweptAt(w.data, log, now - w.window, now, x);
    assert Held(Sweep(w, now), x) == Lookup(swept, x);
  }

  lemma SweepRefinesAt(w: State, log: Log, now: int, x: string)
    requires HeldOk(Held(w, x), log, now - w.window, now) && w.lastSweep <= now
    requires now < w.lastSweep + w.window && x in w.data ==> Recent(w.data[x], w.lastSweep - w.window)
    ensures RefinesAt(Sweep(w, now), now, log, x)
    ensures w.window <= 0 ==> x !in Sweep(w, now).data
  {
    if now - w.lastSweep >= w.window {
      DueSweepRefinesAt(w, log, now, x);
    } else {
      assert Sweep(w, now) == w;
    }
  }

  lemma AddRefinesAt(w: State, t: int, log: Log, log': Log, ip: string, key: string, now: int, x: string)
    requires RefinesAt(w, t, log, x) && w.lastSweep <= t <= now
    requires log' == if x == ip then log + [BoundedWindow.Entry(now, key)] else log
    ensures RefinesAt(AddTo(w, ip, key, now), now, log', x)
    ensures w.window <= 0 ==> x !in AddTo(w, ip, key, now).data
  {
    StoredIsOk(w, t, log, ip, key, now, x);
    if now < w.lastSweep + w.window {
      StoredIsRecent(w, ip, key, now, x);
    }
    SweepRefinesAt(w.(data := Stored(w, ip, key, now)), log', now, x);
  }

  lemma AddRefines(w: State, start: int, ops: seq<Op>, ip: string, key: string, now: int)
    requires Refines(w, start, ops) && Clock(start, ops) <= now
    ensures Refines(AddTo(w, ip, key, now), start, ops + [Add(ip, key, now)])
  {
    var w' := AddTo(w, ip, key, now);
    forall x
      ensures RefinesAt(w', now, FullLog(ops + [Add(ip, key, now)], x), x)
      ensures w.window <= 0 ==> x !in w'.data
    {
      assert RefinesAt(w, Clock(start, ops), FullLog(ops, x), x);
      FullLogSnoc(ops, Add(ip, key, now), x);
      AddRefinesAt(w, Clock(start, ops), FullLog(ops, x), FullLog(ops + [Add(ip, key, now)], x), ip, key, now, x);
    }
  }

  lemma StaysOk(held: Log, log: Log, c0: int, t0: int, cutoff: int, t: int)
    requires HeldOk(held, log, c0, t0) && c0 <= cutoff && t0 <= t
    ensures HeldOk(held, log, cutoff, t)
  {
  }

  lemma PruneRefines(w: State, start: int, ops: seq<Op>, now: int)
    requires Refines(w, start, ops) && Clock(start, ops) <= now
    ensures Refines(Step(w, Prune(now)), start, ops + [Prune(now)])
  {
    var t := Clock(start, ops);
    forall x
      ensures RefinesAt(Step(w, Prune(now)), now, FullLog(ops + [Prune(now)], x), x)
    {
      assert RefinesAt(w, t, FullLog(ops, x), x);
      FullLogSnoc(ops, Prune(now), x);
      PruneRefinesAt(w, t, FullLog(ops, x), now, x);
    }
  }

  lemma PruneRefinesAt(w: State, t: int, log: Log, now: int, x: string)
    requires RefinesAt(w, t, log, x) && w.lastSweep <= t <= now
    ensures RefinesAt(Step(w, Prune(now)), now, log, x)
  {
    StaysOk(Held(w, x), log, t - w.window, t, now - w.window, now);
    SweptAt(w.data, log, now - w.window, now, x);
  }

  /** Every run of adds and prunes under a non-decreasing clock refines the full event log. */
  lemma {:induction false} RunRefines(window: int, start: int, ops: seq<Op>)
    requires NonDecreasing(start, ops)
    ensures Run(Fresh(window, start), ops).window == window
    ensures Refines(Run(Fresh(window, start), ops), start, ops)
  {
    if ops != [] {
      var n := |ops| - 1;
      PrefixNonDecreasing(start, ops, n);
      RunRefines(window, start, ops[..n]);
      var w := Run(Fresh(window, start), ops[..n]);
      assert ops == ops[..n] + [ops[n]];
      if ops[n].Add? {
        AddRefines(w, start, ops[..n], ops[n].ip, ops[n].key, ops[n].now);
      } else {
        PruneRefines(w, start, ops[..n], ops[n].now);
      }
    }
  }

  function Min(a: nat, b: nat): nat {
    if a <= b then a else b
  }

  /** At any time from the last operation on, `Count` is the number of all adds of the address inside the window,
      capped, and `DistinctCount` the number of distinct non-empty keys among the newest of those. */
  lemma CountsRefineFullLog(window: int, start: int, ops: seq<Op>, ip: string, now: int)
    requires NonDecreasing(start, ops) && Clock(start, ops) <= now
    ensures var w := Run(Fresh(window, start), ops); var inWindow := Live(FullLog(ops, ip), now - window);
            && CountOf(w, ip, now) == Min(MAX_ENTRIES, |inWindow|)
            && DistinctCountOf(w, ip, now) == |Keys(Last(inWindow, MAX_ENTRIES))|
  {
    RunRefines(window, start, ops);
    var w := Run(Fresh(window, start), ops);
    var t := Clock(start, ops);
    assert RefinesAt(w, t, FullLog(ops, ip), ip);
    CountsOfHeld(w, t, FullLog(ops, ip), ip, now);
  }

  lemma CountsOfHeld(w: State, t: int, log: Log, ip: string, now: int)
    requires RefinesAt(w, t, log, ip) && t <= now
    ensures var inWindow := Live(log, now - w.window);
            && CountOf(w, ip, now) == Min(MAX_ENTRIES, |inWindow|)
            && DistinctCountOf(w, ip, now) == |Keys(Last(inWindow, MAX_ENTRIES))|
  {
    HeldShows(Held(w, ip), log, t - w.window, t, now - w.window);
  }

  lemma HeldShows(held: Log, log: Log, c0: int, t: int, cutoff: int)
    requires HeldOk(held, log, c0, t) && c0 <= cutoff
    ensures Live(held, cutoff) == Last(Live(log, cutoff), MAX_ENTRIES)
    ensures |Live(held, cutoff)| == Min(MAX_ENTRIES, |Live(log, cutoff)|)
  {
    assert SameAt(held, log, cutoff);
  }

  // ---- counts, in terms of operations ----

  function AddsOf(ip: string, cutoff: int): Op -> bool {
    (op: Op) => op.Add? && op.ip == ip && op.now > cutoff
  }

  function Added(): Op -> BoundedWindow.Entry<string> {
    (op: Op) => BoundedWindow.Entry(op.now, if op.Add? then op.key else "")
  }

  lemma {:induction false} LiveLogIsSelection(ops: seq<Op>, ip: string, cutoff: int)
    ensures Live(FullLog(ops, ip), cutoff) == Select(ops, AddsOf(ip, cutoff), Added())
  {
    if ops != [] {
      var n := |ops| - 1;
      var log, op := FullLog(ops[..n], ip), ops[n];
      LiveLogIsSelection(ops[..n], ip, cutoff);
      if op.Add? && op.ip == ip {
        var e := BoundedWindow.Entry(op.now, op.key);
        assert FullLog(ops, ip) == log + [e];
        LiveSnoc(log, e, cutoff);
        assert Added()(op) == e;
      } else {
        assert FullLog(ops, ip) == log;
      }
      assert AddsOf(ip, cutoff)(op) <==> op.Add? && op.ip == ip && op.now > cutoff;
    }
  }

  lemma KeysOfNewest(ops: seq<Op>, ip: string, cutoff: int)
    ensures Keys(Last(Live(FullLog(ops, ip), cutoff), MAX_ENTRIES)) == NewestKeys(ops, ip, cutoff)
  {
    var p := AddsOf(ip, cutoff);
    var newest := Last(Live(FullLog(ops, ip), cutoff), MAX_ENTRIES);
    LiveLogIsSelection(ops, ip, cutoff);
    forall e
      ensures e in newest <==> Shown(ops, p, Added(), MAX_ENTRIES, e)
    {
      LastHasNewest(ops, p, Added(), MAX_ENTRIES, e);
    }
    forall i | i in Newest(ops, p, MAX_ENTRIES)
      ensures Added()(ops[i]) in newest && Added()(ops[i]).val == ops[i].key
    {
      assert Shown(ops, p, Added(), MAX_ENTRIES, Added()(ops[i]));
    }
  }

  /** The adds of an address newer than a cutoff, by position. */
  ghost function AddsAt(ops: seq<Op>, ip: string, cutoff: int): set<nat> {
    set i: nat | i < |ops| && ops[i].Add? && ops[i].ip == ip && ops[i].now > cutoff
  }

  /** The different non-empty keys of the newest 10 000 of them. */
  ghost function NewestKeys(ops: seq<Op>, ip: string, cutoff: int): set<string> {
    set i | i in Newest(ops, AddsOf(ip, cutoff), 10_000) && ops[i].Add? && ops[i].key != "" :: ops[i].key
  }

  lemma LoggedAdds(ops: seq<Op>, ip: string, cutoff: int)
    ensures |Live(FullLog(ops, ip), cutoff)| == |AddsAt(ops, ip, cutoff)|
  {
    LiveLogIsSelection(ops, ip, cutoff);
    SelectSize(ops, AddsOf(ip, cutoff), Added());
    assert Positions(ops, AddsOf(ip, cutoff)) == AddsAt(ops, ip, cutoff);
  }

  lemma DistinctAdds(ops: seq<Op>, ip: string, cutoff: int)
    ensures |Keys(Last(Live(FullLog(ops, ip), cutoff), MAX_ENTRIES))| == |NewestKeys(ops, ip, cutoff)|
  {
    KeysOfNewest(ops, ip, cutoff);
  }

  lemma CountsFromLog(window: int, start: int, ops: seq<Op>, ip: string, now: int, n: nat, keys: nat)
    requires NonDecreasing(start, ops) && Clock(start, ops) <= now
    requires |Live(FullLog(ops, ip), now - window)| == n
    requires |Keys(Last(Live(FullLog(ops, ip), now - window), MAX_ENTRIES))| == keys
    ensures CountOf(Run(Fresh(window, start), ops), ip, now) == if n <= 10_000 then n else 10_000
    ensures DistinctCountOf(Run(Fresh(window, start), ops), ip, now) == keys
  {
    CountsRefineFullLog(window, start, ops, ip, now);
  }

  /** What the counts mean in any run: the adds of that address newer than `now` less the window, up to 10 000; and the
      different non-empty keys of the newest 10 000 of those adds. */
  lemma CountsMean(window: int, start: int, ops: seq<Op>, ip: string, now: int)
    requires NonDecreasing(start, ops) && Clock(start, ops) <= now
    ensures CountOf(Run(Fresh(window, start), ops), ip, now) ==
            if |AddsAt(ops, ip, now - window)| <= 10_000 then |AddsAt(ops, ip, now - window)| else 10_000
    ensures DistinctCountOf(Run(Fresh(window, start), ops), ip, now) == |NewestKeys(ops, ip, now - window)|
  {
    LoggedAdds(ops, ip, now - window);
    DistinctAdds(ops, ip, now - window);
    CountsFromLog(window, start, ops, ip, now, |AddsAt(ops, ip, now - window)|, |NewestKeys(ops, ip, now - window)|);
  }

  /** Right after a prune at time `t`, every address still held has entries, all of them newer than `t` less the
      window. */
  lemma PruneBound(window: int, start: int, ops: seq<Op>, ip: string)
    requires ops != [] && ops[|ops| - 1].Prune? && ip in Run(Fresh(window, start), ops).data
    ensures var held := Run(Fresh(window, start), ops).data[ip]; var t := ops[|ops| - 1].now;
            held != [] && forall i | 0 <= i < |held| :: held[i].time > t - window
  {
    WindowIsFixed(Fresh(window, start), ops[..|ops| - 1]);
    PrunedIsLive(Run(Fresh(window, start), ops[..|ops| - 1]).data, ops[|ops| - 1].now - window, ip);
  }

  lemma PrunedIsLive(data: map<string, Log>, cutoff: int, ip: string)
    requires ip in PruneData(data, cutoff)
    ensures var held := PruneData(data, cutoff)[ip]; held != [] && forall i | 0 <= i < |held| :: held[i].time > cutoff
  {
    var held := Live(data[ip], cutoff);
    forall i | 0 <= i < |held|
      ensures held[i].time > cutoff
    {
      LiveMembers(data[ip], cutoff, i);
    }
  }

  lemma {:induction false} WindowIsFixed(w: State, ops: seq<Op>)
    ensures Run(w, ops).window == w.window
  {
    if ops != [] {
      WindowIsFixed(w, ops[..|ops| - 1]);
    }
  }

  /** Right after an add at time `t`, every address still held has an entry newer than `t` less two windows, and at
      most the cap. */
  lemma SweepBound(window: int, start: int, ops: seq<Op>, ip: string)
    requires NonDecreasing(start, ops) && ops != [] && ops[|ops| - 1].Add?
    requires ip in Run(Fresh(window, start), ops).data
    ensures var held := Run(Fresh(window, start), ops).data[ip]; var t := ops[|ops| - 1].now;
            && |held| <= 10_000
            && exists e :: e in held && e.time > t - 2 * window
  {
    RunRefines(window, start, ops);
    var w := Run(Fresh(window, start), ops);
    var held := w.data[ip];
    assert RefinesAt(w, Clock(start, ops), FullLog(ops, ip), ip);
    assert held[|held| - 1] in held;
  }

  // ---- the window, edited in place ----

  class SlidingWindow {
    const window: int
    var data: map<string, Log>
    var lastSweep: int

    constructor (window: int, now: int)
      ensures View() == Fresh(window, now)
    {
      this.window, data, lastSweep := window, map[], now;
    }

    function View(): State
      reads this
    {
      State(window, data, lastSweep)
    }

    method AddKeyed(ip: string, key: string, now: int)
      requires AllOrdered(data, now)
      modifies `data, `lastSweep
      ensures View() == AddTo(old(View()), ip, key, now)
      ensures AllOrdered(data, now)
    {
      AppendTrimmed(ip, key, now);
      SweepIfDue(now);
    }

    method SweepIfDue(now: int)
      requires AllOrdered(data, now)
      modifies `data, `lastSweep
      ensures View() == Sweep(old(View()), now) && AllOrdered(data, now)
    {
      if now - lastSweep >= window {
        PruneLocked(now - window, now);
        lastSweep := now;
      }
    }

    method AppendTrimmed(ip: string, key: string, now: int)
      requires AllOrdered(data, now)
      modifies `data
      ensures View() == old(View()).(data := Stored(old(View()), ip, key, now)) && AllOrdered(data, now)
    {
      StoredIsOrdered(View(), ip, key, now);
      var entries := TrimEntries(Lookup(data, ip) + [BoundedWindow.Entry(now, key)], now - window);
      data := data[ip := entries];
    }

    /** Expired entries go from the front, then the overflow; the rest is copied down. */
    method TrimEntries(entries: Log, cutoff: int) returns (r: Log)
      requires Sorted(entries)
      ensures r == Trimmed(entries, cutoff)
    {
      var drop := DropExpired(entries, cutoff);
      DropIsTrim(entries, cutoff, drop);
      var over := |entries| - drop - MAX_ENTRIES;
      if over > 0 {
        drop := drop + over;
      }
      r := entries[drop..];
    }

    /** Entries are appended in time order, so the expired ones are a prefix. */
    method DropExpired(entries: Log, cutoff: int) returns (drop: nat)
      requires Sorted(entries)
      ensures Splits(entries, cutoff, drop)
    {
      drop := 0;
      while drop < |entries| && entries[drop].time <= cutoff
        invariant drop <= |entries|
        invariant forall i | 0 <= i < drop :: entries[i].time <= cutoff
      {
        drop := drop + 1;
      }
      ghost var k := SortedSplits(entries, cutoff);
      FirstLiveSplits(entries, cutoff, k, drop);
    }

    method Count(ip: string, now: int) returns (count: nat)
      ensures count == CountOf(View(), ip, now)
    {
      var cutoff := now - window;
      var entries := Lookup(data, ip);
      count := 0;
      for i := 0 to |entries|
        invariant count == |Live(entries[..i], cutoff)|
      {
        assert entries[..i + 1][..i] == entries[..i];
        if entries[i].time > cutoff {
          count := count + 1;
        }
      }
      assert entries[..|entries|] == entries;
    }

    method DistinctCount(ip: string, now: int) returns (count: nat)
      ensures count == DistinctCountOf(View(), ip, now)
    {
      var cutoff := now - window;
      var entries := Lookup(data, ip);
      var seen: set<string> := {};
      for i := 0 to |entries|
        invariant seen == Keys(Live(entries[..i], cutoff))
      {
        assert entries[..i + 1][..i] == entries[..i];
        if entries[i].time > cutoff && entries[i].val != "" {
          seen := seen + {entries[i].val};
        }
      }
      assert entries[..|entries|] == entries;
      return |seen|;
    }

    method Prune(now: int)
      requires AllOrdered(data, now)
      modifies `data
      ensures View() == Step(old(View()), Op.Prune(now)) && AllOrdered(data, now)
    {
      PruneLocked(now - window, now);
    }

    method PruneLocked(cutoff: int, ghost now: int)
      requires AllOrdered(data, now)
      modifies `data
      ensures data == PruneData(old(data), cutoff) && AllOrdered(data, now)
    {
      PruneIsOrdered(data, cutoff, now);
      PruneEach(cutoff);
    }

    method PruneEach(cutoff: int)
      modifies `data
      ensures data == PruneData(old(data), cutoff)
    {
      var todo := data.Keys;
      while todo != {}
        invariant todo <= old(data).Keys && data.Keys <= old(data).Keys
        invariant forall ip | ip in todo :: ip in data && data[ip] == old(data)[ip]
        invariant forall ip | ip in old(data) && ip !in todo :: ip in data <==> Live(old(data)[ip], cutoff) != []
        invariant forall ip | ip in data && ip !in todo :: data[ip] == Live(old(data)[ip], cutoff)
        decreases |todo|
      {
        var ip :| ip in todo;
        todo := todo - {ip};
        var kept := Kept(data[ip], cutoff);
        if kept == [] {
          data := data - {ip};
        } else {
          data := data[ip := kept];
        }
      }
    }

    method Kept(entries: Log, cutoff: int) returns (kept: Log)
      ensures kept == Live(entries, cutoff)
    {
      kept := [];
      for i := 0 to |entries|
        invariant kept == Live(entries[..i], cutoff)
      {
        assert entries[..i + 1][..i] == entries[..i];
        if entries[i].time > cutoff {
          kept := kept + [entries[i]];
        }
      }
      assert entries[..|entries|] == entries;
    }
  }

  /** Every log is in time order and none of it is newer than the clock. */
  ghost predicate AllOrdered(data: map<string, Log>, now: int) {
    forall ip | ip in data :: Ordered(data[ip], now)
  }

  lemma StoredIsOrdered(w: State, ip: string, key: string, now: int)
    requires AllOrdered(w.data, now)
    ensures AllOrdered(Stored(w, ip, key, now), now)
    ensures Sorted(Held(w, ip) + [BoundedWindow.Entry(now, key)])
  {
    var e := BoundedWindow.Entry(now, key);
    assert ip in w.data ==> Ordered(w.data[ip], now);
    OrderedSnoc(Held(w, ip), e, now);
    TrimKeepsView(Held(w, ip) + [e], now - w.window, now);
  }

  lemma PruneIsOrdered(data: map<string, Log>, cutoff: int, now: int)
    requires AllOrdered(data, now)
    ensures AllOrdered(PruneData(data, cutoff), now)
  {
    forall ip | ip in data
      ensures Ordered(Live(data[ip], cutoff), now)
    {
      TrimKeepsView(data[ip], cutoff, now);
    }
  }

  lemma FirstLiveSplits(s: Log, cutoff: int, k: nat, drop: nat)
    requires Splits(s, cutoff, k) && drop <= |s|
    requires forall i | 0 <= i < drop :: s[i].time <= cutoff
    requires drop < |s| ==> s[drop].time > cutoff
    ensures Splits(s, cutoff, drop)
  {
    if k < |s| {
      var e := s[k];
    }
  }
}
