/** The failed-call-ratio detector: per-address buckets filtered and compacted in place, quiet addresses forgotten. */
module FailedCallRatio {
  import opened Addresses
  import opened BoundedWindow
  import opened Detectors
  import opened Selections

  type Bucket = seq<BoundedWindow.Entry<bool>>

  /** `minRatio` is `num / den`. */
  datatype Config = Config(minCalls: nat, num: nat, den: nat, window: int)

  predicate ValidConfig(c: Config) {
    c.minCalls >= 1 && 0 < c.num <= c.den && c.window > 0
  }

  predicate Counted(e: SIPEvent) {
    e.method_ == "INVITE" && e.source.Some?
  }

  predicate Failed(e: SIPEvent) {
    e.rejected || (e.responseCode >= 400 && e.responseCode < 600)
  }

  /** A bucket whose newest event has expired. */
  predicate Quiet(b: Bucket, cutoff: int) {
    b == [] || b[|b| - 1].time <= cutoff
  }

  function SweepQuiet(data: map<string, Bucket>, cutoff: int): map<string, Bucket> {
    map ip | ip in data && !Quiet(data[ip], cutoff) :: data[ip]
  }

  function Compacted(b: Bucket, cutoff: int): Bucket {
    Last(Live(b, cutoff), MAX_ENTRIES)
  }

  /** The map a new event is appended to. */
  function MaybeSwept(data: map<string, Bucket>, cutoff: int, sweep: bool): map<string, Bucket> {
    if sweep then SweepQuiet(data, cutoff) else data
  }

  function Appended(data: map<string, Bucket>, window: int, ip: string, failed: bool, now: int): map<string, Bucket> {
    data[ip := Compacted(Lookup(data, ip) + [BoundedWindow.Entry(now, failed)], now - window)]
  }

  /** One counted event; whether quiet buckets are swept first is left open. */
  function Store(data: map<string, Bucket>, window: int, ip: string, failed: bool, now: int, sweep: bool)
    : map<string, Bucket>
  {
    Appended(MaybeSwept(data, now - window, sweep), window, ip, failed, now)
  }

  function FailedCount(b: Bucket): nat {
    if b == [] then 0 else FailedCount(b[..|b| - 1]) + if b[|b| - 1].val then 1 else 0
  }

  /** The threat's event count, when the sample is large enough and the failed share reaches the ratio. */
  function Judge(c: Config, b: Bucket): Option<nat> {
    if |b| >= c.minCalls && FailedCount(b) * c.den >= c.num * |b| then Some(|b|) else None
  }

  /** What `Detect` answers. */
  function Answer(c: Config, data: map<string, Bucket>, e: SIPEvent, now: int, sweep: bool): Option<nat> {
    if !Counted(e) then None
    else Judge(c, Store(data, c.window, e.source.value, Failed(e), now, sweep)[e.source.value])
  }

  // ---- runs ----

  /** One event, the time, and whether a sweep runs. */
  type History = seq<(SIPEvent, int, bool)>

  function Run(window: int, h: History): map<string, Bucket> {
    if h == [] then map[]
    else
      var (e, now, sweep) := h[|h| - 1];
      var before := Run(window, h[..|h| - 1]);
      if Counted(e) then Store(before, window, e.source.value, Failed(e), now, sweep) else before
  }

  /** Every counted event of one address. */
  function FullLog(h: History, ip: string): Bucket {
    if h == [] then []
    else
      var (e, now, _) := h[|h| - 1];
      FullLog(h[..|h| - 1], ip) +
      if Counted(e) && e.source.value == ip then [BoundedWindow.Entry(now, Failed(e))] else []
  }

  function Time(h: History, i: nat): int
    requires i < |h|
  {
    h[i].1
  }

  ghost predicate NonDecreasing(h: History) {
    forall i, j | 0 <= i < j < |h| :: Time(h, i) <= Time(h, j)
  }

  lemma PrefixNonDecreasing(h: History, n: nat)
    requires NonDecreasing(h) && n < |h|
    ensures NonDecreasing(h[..n])
    ensures n > 0 ==> h[..n][n - 1].1 <= h[n].1
  {
    forall i, j | 0 <= i < j <= n
      ensures h[i].1 <= h[j].1
    {
      assert Time(h, i) <= Time(h, j);
    }
  }

  ghost predicate BucketOk(b: Bucket, log: Bucket, cutoff: int, now: int) {
    SameView(b, log, cutoff) && Ordered(b, now)
  }

  lemma BucketStays(b: Bucket, log: Bucket, c0: int, t0: int, cutoff: int, now: int)
    requires BucketOk(b, log, c0, t0) && c0 <= cutoff && t0 <= now
    ensures BucketOk(b, log, cutoff, now)
  {
  }

  lemma SweepKeeps(data: map<string, Bucket>, log: Bucket, cutoff: int, now: int, x: string)
    requires BucketOk(Lookup(data, x), log, cutoff, now)
    ensures BucketOk(Lookup(SweepQuiet(data, cutoff), x), log, cutoff, now)
  {
    var b := Lookup(data, x);
    if Quiet(b, cutoff) {
      ForgetKeepsView(b, cutoff);
      ViewTransitive([], b, log, cutoff, cutoff);
      assert Lookup(SweepQuiet(data, cutoff), x) == [];
    }
  }

  lemma AppendCompacted(b: Bucket, log: Bucket, e: BoundedWindow.Entry<bool>, cutoff: int)
    requires BucketOk(b, log, cutoff, e.time)
    ensures BucketOk(Compacted(b + [e], cutoff), log + [e], cutoff, e.time)
    ensures Compacted(b + [e], cutoff) == Compacted(log + [e], cutoff)
  {
    assert (b + [e])[..|b|] == b;
    AppendKeepsView(b, log, e, cutoff);
    assert SameAt(b + [e], log + [e], cutoff);
    TrimKeepsView(b + [e], cutoff, e.time);
    ViewTransitive(Compacted(b + [e], cutoff), b + [e], log + [e], cutoff, cutoff);
  }

  lemma SweptKeeps(data: map<string, Bucket>, log: Bucket, window: int, t0: int, now: int, sweep: bool, x: string)
    requires BucketOk(Lookup(data, x), log, t0 - window, t0) && t0 <= now
    ensures BucketOk(Lookup(MaybeSwept(data, now - window, sweep), x), log, now - window, now)
  {
    BucketStays(Lookup(data, x), log, t0 - window, t0, now - window, now);
    if sweep {
      SweepKeeps(data, log, now - window, now, x);
    }
  }

  lemma StoreKeepsOthers(data: map<string, Bucket>, log: Bucket, window: int, ip: string, failed: bool, t0: int,
                         now: int, sweep: bool, x: string)
    requires BucketOk(Lookup(data, x), log, t0 - window, t0) && t0 <= now && x != ip
    ensures BucketOk(Lookup(Store(data, window, ip, failed, now, sweep), x), log, now - window, now)
  {
    SweptKeeps(data, log, window, t0, now, sweep, x);
    assert Lookup(Store(data, window, ip, failed, now, sweep), x) == Lookup(MaybeSwept(data, now - window, sweep), x);
  }

  lemma StoreKeepsOwn(data: map<string, Bucket>, log: Bucket, window: int, ip: string, failed: bool, t0: int, now: int,
                      sweep: bool)
    requires BucketOk(Lookup(data, ip), log, t0 - window, t0) && t0 <= now
    ensures var data' := Store(data, window, ip, failed, now, sweep);
            var log' := log + [BoundedWindow.Entry(now, failed)];
            BucketOk(Lookup(data', ip), log', now - window, now) && data'[ip] == Compacted(log', now - window)
  {
    SweptKeeps(data, log, window, t0, now, sweep, ip);
    var b := Lookup(MaybeSwept(data, now - window, sweep), ip);
    AppendCompacted(b, log, BoundedWindow.Entry(now, failed), now - window);
    assert Lookup(Store(data, window, ip, failed, now, sweep), ip) ==
           Compacted(b + [BoundedWindow.Entry(now, failed)], now - window);
  }

  lemma {:induction false} RunKeeps(window: int, h: History, now: int, x: string)
    requires NonDecreasing(h) && (h != [] ==> h[|h| - 1].1 <= now)
    ensures BucketOk(Lookup(Run(window, h), x), FullLog(h, x), now - window, now)
  {
    if h != [] {
      var n := |h| - 1;
      var (e, t, sweep) := h[n];
      PrefixNonDecreasing(h, n);
      RunKeeps(window, h[..n], t, x);
      if Counted(e) {
        if e.source.value == x {
          StoreKeepsOwn(Run(window, h[..n]), FullLog(h[..n], x), window, x, Failed(e), t, t, sweep);
        } else {
          StoreKeepsOthers(Run(window, h[..n]), FullLog(h[..n], x), window, e.source.value, Failed(e), t, t, sweep, x);
          assert FullLog(h, x) == FullLog(h[..n], x);
        }
      } else {
        assert FullLog(h, x) == FullLog(h[..n], x);
      }
      BucketStays(Lookup(Run(window, h), x), FullLog(h, x), t - window, t, now - window, now);
    } else {
      assert Lookup(Run(window, h), x) == [] && FullLog(h, x) == [];
    }
  }

  /** For every history, and whenever quiet buckets are swept: after a counted event the bucket of its source is the
      newest in-window events of the full log up to the cap, and the verdict is the one the full log gives. */
  lemma BucketRefinesFullLog(c: Config, h: History, e: SIPEvent, now: int, sweep: bool)
    requires Counted(e) && NonDecreasing(h + [(e, now, sweep)])
    ensures var h' := h + [(e, now, sweep)]; var ip := e.source.value;
            var inWindow := Last(Live(FullLog(h', ip), now - c.window), MAX_ENTRIES);
            && ip in Run(c.window, h') && Run(c.window, h')[ip] == inWindow
            && Judge(c, Run(c.window, h')[ip]) == Judge(c, inWindow)
  {
    var h', ip := h + [(e, now, sweep)], e.source.value;
    assert h'[..|h|] == h && h'[|h|] == (e, now, sweep);
    PrefixNonDecreasing(h', |h|);
    RunKeeps(c.window, h, now, ip);
    StoreKeepsOwn(Run(c.window, h), FullLog(h, ip), c.window, ip, Failed(e), now, now, sweep);
  }

  ghost predicate SameEvents(h: History, g: History) {
    |h| == |g| && forall i | 0 <= i < |h| :: h[i].0 == g[i].0 && h[i].1 == g[i].1
  }

  lemma {:induction false} FullLogIgnoresSweeps(h: History, g: History, ip: string)
    requires SameEvents(h, g)
    ensures FullLog(h, ip) == FullLog(g, ip)
  {
    if h != [] {
      FullLogIgnoresSweeps(h[..|h| - 1], g[..|g| - 1], ip);
    }
  }

  // ---- the verdict, in terms of events ----

  function InvitesOf(ip: string, cutoff: int): ((SIPEvent, int, bool)) -> bool {
    (x: (SIPEvent, int, bool)) => x.0.method_ == "INVITE" && x.0.source == Some(ip) && x.1 > cutoff
  }

  predicate CallFailed(e: SIPEvent) {
    e.rejected || 400 <= e.responseCode < 600
  }

  function Outcome(): ((SIPEvent, int, bool)) -> BoundedWindow.Entry<bool> {
    (x: (SIPEvent, int, bool)) => BoundedWindow.Entry(x.1, CallFailed(x.0))
  }

  lemma {:induction false} LiveLogIsSelection(h: History, ip: string, cutoff: int)
    ensures Live(FullLog(h, ip), cutoff) == Select(h, InvitesOf(ip, cutoff), Outcome())
  {
    if h != [] {
      var n := |h| - 1;
      LiveLogIsSelection(h[..n], ip, cutoff);
      var log, e := FullLog(h[..n], ip), BoundedWindow.Entry(h[n].1, Failed(h[n].0));
      if Counted(h[n].0) && h[n].0.source.value == ip {
        assert FullLog(h, ip) == log + [e];
        LiveSnoc(log, e, cutoff);
        assert Outcome()(h[n]) == e;
      } else {
        assert FullLog(h, ip) == log;
      }
      assert InvitesOf(ip, cutoff)(h[n]) <==> Counted(h[n].0) && h[n].0.source.value == ip && h[n].1 > cutoff;
    }
  }

  lemma {:induction false} FailedCountIsCountIf(b: Bucket)
    ensures FailedCount(b) == CountIf(b, (v: bool) => v)
  {
    if b != [] {
      FailedCountIsCountIf(b[..|b| - 1]);
    }
  }

  /** The calls judged, by position: the newest 10 000 INVITEs of a source newer than a cutoff. */
  ghost function CallsAt(h: History, ip: string, cutoff: int): set<nat> {
    Newest(h, InvitesOf(ip, cutoff), 10_000)
  }

  ghost function FailedAt(h: History, ip: string, cutoff: int): set<nat> {
    set i | i in CallsAt(h, ip, cutoff) && CallFailed(h[i].0)
  }

  lemma LoggedCalls(h: History, ip: string, cutoff: int)
    ensures var log := Last(Live(FullLog(h, ip), cutoff), MAX_ENTRIES);
            |log| == |CallsAt(h, ip, cutoff)| && FailedCount(log) == |FailedAt(h, ip, cutoff)|
  {
    var p, id := InvitesOf(ip, cutoff), (v: bool) => v;
    LiveLogIsSelection(h, ip, cutoff);
    LastIsNewest(h, p, Outcome(), MAX_ENTRIES, id);
    FailedCountIsCountIf(Last(Live(FullLog(h, ip), cutoff), MAX_ENTRIES));
    assert Those(h, CallsAt(h, ip, cutoff), Outcome(), id) == FailedAt(h, ip, cutoff);
  }

  lemma JudgeOfSize(c: Config, b: Bucket, size: nat, failed: nat)
    requires |b| == size && FailedCount(b) == failed
    ensures Judge(c, b) == Sentence(c, size, failed)
  {
  }

  /** The verdict on calls by how many there are and how many of them failed. */
  function Sentence(c: Config, calls: nat, failed: nat): Option<nat> {
    if calls >= c.minCalls && failed * c.den >= c.num * calls then Some(calls) else None
  }

  lemma LogVerdict(c: Config, h: History, ip: string, cutoff: int)
    ensures Judge(c, Last(Live(FullLog(h, ip), cutoff), MAX_ENTRIES)) ==
            Sentence(c, |CallsAt(h, ip, cutoff)|, |FailedAt(h, ip, cutoff)|)
  {
    LoggedCalls(h, ip, cutoff);
    JudgeOfSize(c, Last(Live(FullLog(h, ip), cutoff), MAX_ENTRIES), |CallsAt(h, ip, cutoff)|,
                |FailedAt(h, ip, cutoff)|);
  }

  lemma AnswerFromLog(c: Config, h: History, e: SIPEvent, now: int, sweep: bool)
    requires NonDecreasing(h + [(e, now, sweep)]) && Counted(e)
    ensures Answer(c, Run(c.window, h), e, now, sweep) ==
            Judge(c, Last(Live(FullLog(h + [(e, now, sweep)], e.source.value), now - c.window), MAX_ENTRIES))
  {
    BucketRefinesFullLog(c, h, e, now, sweep);
    assert (h + [(e, now, sweep)])[..|h|] == h;
  }

  lemma AnswerOnLog(c: Config, h: History, e: SIPEvent, now: int, sweep: bool, log: Bucket)
    requires NonDecreasing(h + [(e, now, sweep)]) && Counted(e)
    requires FullLog(h + [(e, now, sweep)], e.source.value) == log
    ensures Answer(c, Run(c.window, h), e, now, sweep) == Judge(c, Last(Live(log, now - c.window), MAX_ENTRIES))
  {
    AnswerFromLog(c, h, e, now, sweep);
  }

  /** Sweeping quiet addresses never changes a verdict: any two schedules of sweeps over the same events answer the
      same. */
  lemma SweepsNeverChangeVerdicts(c: Config, h: History, g: History, e: SIPEvent, now: int, s1: bool, s2: bool)
    requires SameEvents(h, g)
    requires NonDecreasing(h + [(e, now, s1)]) && NonDecreasing(g + [(e, now, s2)])
    ensures Answer(c, Run(c.window, h), e, now, s1) == Answer(c, Run(c.window, g), e, now, s2)
  {
    if Counted(e) {
      FullLogIgnoresSweeps(h + [(e, now, s1)], g + [(e, now, s2)], e.source.value);
      var log := FullLog(h + [(e, now, s1)], e.source.value);
      AnswerOnLog(c, h, e, now, s1, log);
      AnswerOnLog(c, g, e, now, s2, log);
    }
  }

  lemma AnswerOfSizes(c: Config, h: History, e: SIPEvent, now: int, sweep: bool, calls: nat, failed: nat)
    requires NonDecreasing(h + [(e, now, sweep)]) && Counted(e)
    requires var log := Last(Live(FullLog(h + [(e, now, sweep)], e.source.value), now - c.window), MAX_ENTRIES);
             |log| == calls && FailedCount(log) == failed
    ensures Answer(c, Run(c.window, h), e, now, sweep) == Sentence(c, calls, failed)
  {
    AnswerFromLog(c, h, e, now, sweep);
  }

  lemma AnswerToCounted(c: Config, h: History, e: SIPEvent, now: int, sweep: bool)
    requires NonDecreasing(h + [(e, now, sweep)]) && Counted(e)
    ensures Answer(c, Run(c.window, h), e, now, sweep) ==
            Sentence(c, |CallsAt(h + [(e, now, sweep)], e.source.value, now - c.window)|,
                     |FailedAt(h + [(e, now, sweep)], e.source.value, now - c.window)|)
  {
    var h', ip, cutoff := h + [(e, now, sweep)], e.source.value, now - c.window;
    LoggedCalls(h', ip, cutoff);
    AnswerOfSizes(c, h, e, now, sweep, |CallsAt(h', ip, cutoff)|, |FailedAt(h', ip, cutoff)|);
  }

  /** The answer to an event after any history, however quiet buckets were swept: a threat is raised exactly for an
      INVITE with a source, when of the calls of that source inside the window (the newest 10 000 of them) there are
      at least the minimum, and the rejected or 4xx/5xx ones among them reach the ratio; it reports how many calls. */
  lemma VerdictMeans(c: Config, h: History, e: SIPEvent, now: int, sweep: bool)
    requires NonDecreasing(h + [(e, now, sweep)])
    ensures Answer(c, Run(c.window, h), e, now, sweep) ==
            if e.method_ != "INVITE" || e.source.None? then None
            else
              Sentence(c, |CallsAt(h + [(e, now, sweep)], e.source.value, now - c.window)|,
                       |FailedAt(h + [(e, now, sweep)], e.source.value, now - c.window)|)
  {
    if Counted(e) {
      AnswerToCounted(c, h, e, now, sweep);
    }
  }

  /** Right after an event that swept, every address still held has a call inside the window (its newest), and at most
      10 000 calls are kept of the source of the event. */
  lemma SweepForgetsQuiet(c: Config, h: History, e: SIPEvent, now: int, ip: string)
    requires ValidConfig(c) && Counted(e) && ip in Run(c.window, h + [(e, now, true)])
    ensures var b := Run(c.window, h + [(e, now, true)])[ip];
            && b != [] && b[|b| - 1].time > now - c.window
            && (ip == e.source.value ==> |b| <= 10_000)
  {
    var data := Run(c.window, h);
    assert (h + [(e, now, true)])[..|h|] == h;
    var x := BoundedWindow.Entry(now, Failed(e));
    LiveSnoc(Lookup(SweepQuiet(data, now - c.window), e.source.value), x, now - c.window);
  }

  // ---- the detector, edited in place ----

  /** `kept := events[:0]` and append: survivors move to the front of the same array. */
  method FilterInPlace(a: array<BoundedWindow.Entry<bool>>, cutoff: int) returns (k: nat)
    modifies a
    ensures k <= a.Length && a[..k] == Live(old(a[..]), cutoff)
  {
    ghost var was := a[..];
    k := 0;
    for i := 0 to a.Length
      invariant k <= i
      invariant a[..k] == Live(was[..i], cutoff)
      invariant forall j | i <= j < a.Length :: a[j] == was[j]
    {
      ghost var before := a[..];
      FilterStep(before, was, i, k, cutoff);
      if a[i].time > cutoff {
        a[k] := a[i];
        assert a[..] == before[k := before[i]];
        k := k + 1;
      }
      assert a[..k] == a[..][..k];
    }
    assert was[..a.Length] == was;
  }

  /** One event more: it is kept at position `k` if it is live. */
  lemma FilterStep(now: Bucket, was: Bucket, i: nat, k: nat, cutoff: int)
    requires k <= i < |was| == |now| && now[i] == was[i] && now[..k] == Live(was[..i], cutoff)
    ensures Live(was[..i + 1], cutoff) ==
            if now[i].time > cutoff then now[k := now[i]][..k + 1] else now[..k]
  {
    assert was[..i + 1] == was[..i] + [was[i]];
    LiveSnoc(was[..i], was[i], cutoff);
    assert now[k := now[i]][..k + 1] == now[..k] + [now[i]];
  }

  /** The overlapping copy of the newest entries onto the front. */
  method CopyDown(a: array<BoundedWindow.Entry<bool>>, k: nat, over: nat)
    requires over <= k <= a.Length
    modifies a
    ensures a[..k - over] == old(a[over..k])
  {
    ghost var was := a[..];
    for i := 0 to k - over
      invariant a[..i] == was[over..over + i]
      invariant a[i..] == was[i..]
    {
      assert a[i + over] == a[i..][over] == was[i..][over];
      a[i] := a[i + over];
      assert a[i + 1..] == was[i..][1..];
    }
  }

  class Detector {
    const cfg: Config
    var data: map<string, Bucket>
    var lastSweep: int

    constructor (minCalls: int, num: int, den: nat, window: int, now: int)
      requires den > 0
      ensures ValidConfig(cfg) && data == map[] && lastSweep == now
      ensures cfg.minCalls == if minCalls < 1 then 20 else minCalls
      ensures if 0 < num <= den then cfg.num == num && cfg.den == den else cfg.num == 4 && cfg.den == 5
      ensures cfg.window == if window <= 0 then 300 else window
    {
      var ratioOk := 0 < num <= den;
      cfg := Config(if minCalls < 1 then 20 else minCalls, if ratioOk then num else 4, if ratioOk then den else 5,
                    if window <= 0 then 300 else window);
      data, lastSweep := map[], now;
    }

    method SweepQuietBuckets(cutoff: int)
      modifies `data
      ensures data == SweepQuiet(old(data), cutoff)
    {
      var todo := data.Keys;
      while todo != {}
        invariant todo <= old(data).Keys && data.Keys <= old(data).Keys
        invariant forall ip | ip in data :: data[ip] == old(data)[ip]
        invariant forall ip | ip in old(data) :: ip in data <==> ip in todo || !Quiet(old(data)[ip], cutoff)
        decreases |todo|
      {
        var ip :| ip in todo;
        todo := todo - {ip};
        if Quiet(data[ip], cutoff) {
          data := data - {ip};
        }
      }
    }

    method Detect(e: SIPEvent, now: int) returns (threat: Option<nat>)
      modifies this
      ensures !Counted(e) ==> data == old(data) && lastSweep == old(lastSweep)
      ensures Counted(e) ==>
                var sweep := now - old(lastSweep) >= cfg.window;
                && data == Store(old(data), cfg.window, e.source.value, Failed(e), now, sweep)
                && lastSweep == (if sweep then now else old(lastSweep))
      ensures threat == Answer(cfg, old(data), e, now, now - old(lastSweep) >= cfg.window)
    {
      if e.method_ != "INVITE" || e.source.None? {
        return None;
      }
      var failed := e.rejected || (e.responseCode >= 400 && e.responseCode < 600);
      Record(e.source.value, failed, now);
      threat := JudgeKept(data[e.source.value]);
    }

    method Record(ip: string, failed: bool, now: int)
      modifies this
      ensures var sweep := now - old(lastSweep) >= cfg.window;
              && data == Store(old(data), cfg.window, ip, failed, now, sweep) && ip in data
              && lastSweep == if sweep then now else old(lastSweep)
    {
      SweepIfDue(now);
      Append(ip, failed, now);
    }

    method SweepIfDue(now: int)
      modifies this
      ensures var due := now - old(lastSweep) >= cfg.window;
              && data == MaybeSwept(old(data), now - cfg.window, due)
              && lastSweep == if due then now else old(lastSweep)
    {
      if now - lastSweep >= cfg.window {
        SweepQuietBuckets(now - cfg.window);
        lastSweep := now;
      }
    }

    method Append(ip: string, failed: bool, now: int)
      modifies `data
      ensures data == Appended(old(data), cfg.window, ip, failed, now)
    {
      var kept := Compact(Lookup(data, ip) + [BoundedWindow.Entry(now, failed)], now - cfg.window);
      data := data[ip := kept];
    }

    method JudgeKept(kept: Bucket) returns (threat: Option<nat>)
      ensures threat == Judge(cfg, kept)
    {
      if |kept| < cfg.minCalls {
        return None;
      }
      var failedCount := CountFailed(kept);
      if failedCount * cfg.den < cfg.num * |kept| {
        return None;
      }
      return Some(|kept|);
    }

    method CountFailed(kept: Bucket) returns (failedCount: nat)
      ensures failedCount == FailedCount(kept)
    {
      failedCount := 0;
      for i := 0 to |kept|
        invariant failedCount == FailedCount(kept[..i])
      {
        assert kept[..i + 1][..i] == kept[..i];
        if kept[i].val {
          failedCount := failedCount + 1;
        }
      }
      assert kept[..|kept|] == kept;
    }

    /** The bucket's backing array is filtered and compacted in place. */
    method Compact(events: Bucket, cutoff: int) returns (kept: Bucket)
      ensures kept == Compacted(events, cutoff)
    {
      var a := new BoundedWindow.Entry<bool>[|events|](i requires 0 <= i < |events| => events[i]);
      assert a[..] == events;
      var k := FilterInPlace(a, cutoff);
      ghost var live := Live(events, cutoff);
      assert a[..k] == live;
      var over := k - MAX_ENTRIES;
      if over > 0 {
        assert a[over..k] == a[..k][over..];
        CopyDown(a, k, over);
        k := k - over;
      }
      kept := a[..k];
    }
  }
}
