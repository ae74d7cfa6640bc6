/** Threshold detectors over the shared sliding window: `brute_force` counts failed REGISTERs, `did_scanner` counts
    distinct dialled numbers. */
module Detectors {
  import opened Addresses
  import opened BoundedWindow
  import opened SlidingWindows
  import opened Selections

  /** No address prints as a nil one does. */
  type SourceAddr = s: string | s != "<nil>" witness ""

  /** `source` is the text of the source address, `None` for a nil address. */
  datatype SIPEvent = SIPEvent(source: Option<SourceAddr>, method_: string, toUser: string, responseCode: int,
                               isResponse: bool, rejected: bool)

  function SourceText(e: SIPEvent): string {
    match e.source
    case Some(t) => t
    case None => "<nil>"
  }

  datatype Kind = FailedRegisters | DialledNumbers

  predicate Relevant(kind: Kind, e: SIPEvent) {
    match kind
    case FailedRegisters => e.method_ == "REGISTER" && (e.responseCode == 401 || e.responseCode == 403)
    case DialledNumbers => !e.isResponse && e.method_ == "INVITE" && e.source.Some? && e.toUser != ""
  }

  function SubKey(kind: Kind, e: SIPEvent): string {
    if kind.FailedRegisters? then "" else e.toUser
  }

  /** What a detector answers: the event count of the threat it raises, if it raises one. */
  function Measure(kind: Kind, w: State, ip: string, now: int): nat {
    if kind.FailedRegisters? then CountOf(w, ip, now) else DistinctCountOf(w, ip, now)
  }

  function After(kind: Kind, w: State, e: SIPEvent, now: int): State {
    if Relevant(kind, e) then AddTo(w, SourceText(e), SubKey(kind, e), now) else w
  }

  function Verdict(kind: Kind, w: State, threshold: int, e: SIPEvent, now: int): Option<nat> {
    if !Relevant(kind, e) then None
    else
      var n := Measure(kind, After(kind, w, e, now), SourceText(e), now);
      if n >= threshold then Some(n) else None
  }

  // ---- the whole history ----

  type History = seq<(SIPEvent, int)>

  function Now(start: int, h: History): int {
    if h == [] then start else h[|h| - 1].1
  }

  function Time(h: History, i: nat): int
    requires i < |h|
  {
    h[i].1
  }

  ghost predicate Clocked(start: int, h: History) {
    && (forall i | 0 <= i < |h| :: start <= Time(h, i))
    && forall i, j | 0 <= i < j < |h| :: Time(h, i) <= Time(h, j)
  }

  lemma PrefixClocked(start: int, h: History, n: nat)
    requires Clocked(start, h) && n < |h|
    ensures Clocked(start, h[..n]) && Now(start, h[..n]) <= h[n].1
  {
    forall i, j | 0 <= i <= j <= n
      ensures start <= h[i].1 <= h[j].1
    {
      assert start <= Time(h, i) && (i < j ==> Time(h, i) <= Time(h, j));
    }
  }

  function AfterAll(kind: Kind, window: int, start: int, h: History): State {
    if h == [] then Fresh(window, start)
    else After(kind, AfterAll(kind, window, start, h[..|h| - 1]), h[|h| - 1].0, h[|h| - 1].1)
  }

  /** Every relevant event of one address ever seen, with its time and sub-key. */
  function Matching(kind: Kind, h: History, ip: string): Log {
    if h == [] then []
    else
      var (e, t) := h[|h| - 1];
      Matching(kind, h[..|h| - 1], ip) +
      if Relevant(kind, e) && SourceText(e) == ip then [BoundedWindow.Entry(t, SubKey(kind, e))] else []
  }

  function Ops(kind: Kind, h: History): seq<Op> {
    if h == [] then []
    else
      var (e, t) := h[|h| - 1];
      Ops(kind, h[..|h| - 1]) + if Relevant(kind, e) then [Add(SourceText(e), SubKey(kind, e), t)] else []
  }

  lemma OneMoreAdd(w: State, start: int, ops: seq<Op>, op: Op, ip: string)
    requires op.Add? && NonDecreasing(start, ops) && Clock(start, ops) <= op.now
    ensures Run(w, ops + [op]) == AddTo(Run(w, ops), op.ip, op.key, op.now)
    ensures FullLog(ops + [op], ip) ==
            FullLog(ops, ip) + if op.ip == ip then [BoundedWindow.Entry(op.now, op.key)] else []
    ensures NonDecreasing(start, ops + [op]) && Clock(start, ops + [op]) == op.now
  {
    assert (ops + [op])[..|ops|] == ops;
    NonDecreasingSnoc(start, ops, op);
  }

  lemma {:induction false} OpsTellHistory(kind: Kind, window: int, start: int, h: History, ip: string)
    requires Clocked(start, h)
    ensures AfterAll(kind, window, start, h) == Run(Fresh(window, start), Ops(kind, h))
    ensures FullLog(Ops(kind, h), ip) == Matching(kind, h, ip)
    ensures NonDecreasing(start, Ops(kind, h)) && Clock(start, Ops(kind, h)) <= Now(start, h)
  {
    if h != [] {
      var n := |h| - 1;
      PrefixClocked(start, h, n);
      OpsTellHistory(kind, window, start, h[..n], ip);
      var ops := Ops(kind, h[..n]);
      if Relevant(kind, h[n].0) {
        var op := Add(SourceText(h[n].0), SubKey(kind, h[n].0), h[n].1);
        OneMoreAdd(Fresh(window, start), start, ops, op, ip);
        assert Ops(kind, h) == ops + [op];
      } else {
        assert Ops(kind, h) == ops;
      }
    }
  }

  /** The measure the full history gives for an address at a time: its relevant events inside the window, or their
      distinct sub-keys, both after the cap. */
  function FullMeasure(kind: Kind, window: int, h: History, ip: string, now: int): nat {
    var inWindow := Live(Matching(kind, h, ip), now - window);
    if kind.FailedRegisters? then Min(MAX_ENTRIES, |inWindow|) else |Keys(Last(inWindow, MAX_ENTRIES))|
  }

  lemma MeasureRefinesHistory(kind: Kind, window: int, start: int, h: History, ip: string, now: int)
    requires Clocked(start, h) && Now(start, h) <= now
    ensures Measure(kind, AfterAll(kind, window, start, h), ip, now) == FullMeasure(kind, window, h, ip, now)
  {
    OpsTellHistory(kind, window, start, h, ip);
    CountsRefineFullLog(window, start, Ops(kind, h), ip, now);
  }

  /** For every history and every threshold, trimmed and swept state included, a detector raises a threat for an event
      exactly when the event is relevant and the full history up to it meets the threshold; the count it reports is
      that of the full history. A threshold above the cap is never met by either. */
  lemma VerdictRefinesHistory(kind: Kind, window: int, start: int, threshold: int, h: History, e: SIPEvent, now: int)
    requires Clocked(start, h + [(e, now)])
    ensures var n := FullMeasure(kind, window, h + [(e, now)], SourceText(e), now);
            Verdict(kind, AfterAll(kind, window, start, h), threshold, e, now) ==
            if Relevant(kind, e) && n >= threshold then Some(n) else None
  {
    var h' := h + [(e, now)];
    assert h'[..|h|] == h && h'[|h|] == (e, now);
    MeasureRefinesHistory(kind, window, start, h', SourceText(e), now);
    assert AfterAll(kind, window, start, h') == After(kind, AfterAll(kind, window, start, h), e, now);
  }

  // ---- the verdicts, in terms of events ----

  function FailedRegistersOf(source: Option<SourceAddr>, cutoff: int): ((SIPEvent, int)) -> bool {
    (x: (SIPEvent, int)) =>
      x.0.method_ == "REGISTER" && x.0.responseCode in {401, 403} && x.0.source == source && x.1 > cutoff
  }

  function InvitesOf(source: Option<SourceAddr>, cutoff: int): ((SIPEvent, int)) -> bool {
    (x: (SIPEvent, int)) =>
      x.0.method_ == "INVITE" && !x.0.isResponse && x.0.toUser != "" && x.0.source == source && x.1 > cutoff
  }

  function Dialled(): ((SIPEvent, int)) -> BoundedWindow.Entry<string> {
    (x: (SIPEvent, int)) => BoundedWindow.Entry(x.1, x.0.toUser)
  }

  function Untitled(): ((SIPEvent, int)) -> BoundedWindow.Entry<string> {
    (x: (SIPEvent, int)) => BoundedWindow.Entry(x.1, "")
  }

  lemma {:induction false} FailedRegistersLogged(h: History, source: Option<SourceAddr>, cutoff: int)
    ensures var ip := match source case Some(t) => t case None => "<nil>";
            Live(Matching(FailedRegisters, h, ip), cutoff) == Select(h, FailedRegistersOf(source, cutoff), Untitled())
  {
    if h != [] {
      var n := |h| - 1;
      var ip := match source case Some(t) => t case None => "<nil>";
      FailedRegistersLogged(h[..n], source, cutoff);
      var log, e := Matching(FailedRegisters, h[..n], ip), BoundedWindow.Entry(h[n].1, "");
      if Relevant(FailedRegisters, h[n].0) && h[n].0.source == source {
        assert Matching(FailedRegisters, h, ip) == log + [e];
        LiveSnoc(log, e, cutoff);
        assert Untitled()(h[n]) == e;
      } else {
        assert Matching(FailedRegisters, h, ip) == log;
      }
      assert FailedRegistersOf(source, cutoff)(h[n]) <==>
             Relevant(FailedRegisters, h[n].0) && h[n].0.source == source && h[n].1 > cutoff;
    }
  }

  lemma {:induction false} InvitesLogged(h: History, source: SourceAddr, cutoff: int)
    ensures Live(Matching(DialledNumbers, h, source), cutoff) == Select(h, InvitesOf(Some(source), cutoff), Dialled())
  {
    if h != [] {
      var n := |h| - 1;
      InvitesLogged(h[..n], source, cutoff);
      var log, e := Matching(DialledNumbers, h[..n], source), BoundedWindow.Entry(h[n].1, h[n].0.toUser);
      if Relevant(DialledNumbers, h[n].0) && h[n].0.source == Some(source) {
        assert Matching(DialledNumbers, h, source) == log + [e];
        LiveSnoc(log, e, cutoff);
        assert Dialled()(h[n]) == e;
      } else {
        assert Matching(DialledNumbers, h, source) == log;
      }
      assert InvitesOf(Some(source), cutoff)(h[n]) <==>
             Relevant(DialledNumbers, h[n].0) && h[n].0.source == Some(source) && h[n].1 > cutoff;
    }
  }

  /** The failed registrations of a source newer than a cutoff, by position. */
  ghost function FailedAt(h: History, source: Option<SourceAddr>, cutoff: int): set<nat> {
    set i: nat | i < |h| && h[i].0.method_ == "REGISTER" && h[i].0.responseCode in {401, 403} &&
                 h[i].0.source == source && h[i].1 > cutoff
  }

  /** The different users dialled by the newest 10 000 INVITE requests of a source newer than a cutoff. */
  ghost function DialledUsers(h: History, source: Option<SourceAddr>, cutoff: int): set<string> {
    set i | i in Newest(h, InvitesOf(source, cutoff), 10_000) :: h[i].0.toUser
  }

  lemma FailedRegistersCounted(h: History, source: Option<SourceAddr>, cutoff: int)
    ensures var ip := match source case Some(t) => t case None => "<nil>";
            |Live(Matching(FailedRegisters, h, ip), cutoff)| == |FailedAt(h, source, cutoff)|
  {
    FailedRegistersLogged(h, source, cutoff);
    SelectSize(h, FailedRegistersOf(source, cutoff), Untitled());
    assert Positions(h, FailedRegistersOf(source, cutoff)) == FailedAt(h, source, cutoff);
  }

  /** `brute_force` after any history: a threat is raised exactly for a REGISTER answered 401 or 403, when its source
      has at least `threshold` of those inside the window; it reports how many, up to 10 000. */
  lemma BruteForceMeans(window: int, start: int, threshold: int, h: History, e: SIPEvent, now: int)
    requires Clocked(start, h + [(e, now)])
    ensures var failed := |FailedAt(h + [(e, now)], e.source, now - window)|;
            var n := if failed <= 10_000 then failed else 10_000;
            Verdict(FailedRegisters, AfterAll(FailedRegisters, window, start, h), threshold, e, now) ==
            if e.method_ == "REGISTER" && e.responseCode in {401, 403} && n >= threshold then Some(n) else None
  {
    if Relevant(FailedRegisters, e) {
      var h', cutoff := h + [(e, now)], now - window;
      var n := |FailedAt(h', e.source, cutoff)|;
      FailedRegistersCounted(h', e.source, cutoff);
      VerdictOfSize(FailedRegisters, window, start, threshold, h, e, now, if n <= 10_000 then n else 10_000);
    }
  }

  lemma DialledCounted(h: History, source: SourceAddr, cutoff: int)
    ensures |Keys(Last(Live(Matching(DialledNumbers, h, source), cutoff), MAX_ENTRIES))| ==
            |DialledUsers(h, Some(source), cutoff)|
  {
    DialledByNewest(h, source, cutoff);
  }

  /** The verdict once the size of the full measure is known. */
  lemma VerdictOfSize(kind: Kind, window: int, start: int, threshold: int, h: History, e: SIPEvent, now: int, n: nat)
    requires Clocked(start, h + [(e, now)]) && Relevant(kind, e)
    requires FullMeasure(kind, window, h + [(e, now)], SourceText(e), now) == n
    ensures Verdict(kind, AfterAll(kind, window, start, h), threshold, e, now) ==
            if n >= threshold then Some(n) else None
  {
    VerdictRefinesHistory(kind, window, start, threshold, h, e, now);
  }

  lemma DialledByNewest(h: History, source: SourceAddr, cutoff: int)
    ensures Keys(Last(Live(Matching(DialledNumbers, h, source), cutoff), MAX_ENTRIES)) ==
            DialledUsers(h, Some(source), cutoff)
  {
    var p := InvitesOf(Some(source), cutoff);
    var newest := Last(Live(Matching(DialledNumbers, h, source), cutoff), MAX_ENTRIES);
    InvitesLogged(h, source, cutoff);
    forall e
      ensures e in newest <==> Shown(h, p, Dialled(), MAX_ENTRIES, e)
    {
      LastHasNewest(h, p, Dialled(), MAX_ENTRIES, e);
    }
    forall i | i in Newest(h, p, MAX_ENTRIES)
      ensures Dialled()(h[i]) in newest && Dialled()(h[i]).val == h[i].0.toUser != ""
    {
      assert Shown(h, p, Dialled(), MAX_ENTRIES, Dialled()(h[i]));
    }
  }

  /** `did_scanner` after any history: a threat is raised exactly for an INVITE request with a source and a dialled
      user, when the newest 10 000 such requests of that source inside the window dial at least `threshold` different
      users; it reports how many. */
  lemma DIDScannerMeans(window: int, start: int, threshold: int, h: History, e: SIPEvent, now: int)
    requires Clocked(start, h + [(e, now)])
    ensures Verdict(DialledNumbers, AfterAll(DialledNumbers, window, start, h), threshold, e, now) ==
            if e.method_ != "INVITE" || e.isResponse || e.source.None? || e.toUser == "" then None
            else
              var n := |DialledUsers(h + [(e, now)], e.source, now - window)|;
              if n >= threshold then Some(n) else None
  {
    if Relevant(DialledNumbers, e) {
      var h', cutoff := h + [(e, now)], now - window;
      DialledCounted(h', e.source.value, cutoff);
      VerdictOfSize(DialledNumbers, window, start, threshold, h, e, now, |DialledUsers(h', e.source, cutoff)|);
    }
  }

  class BruteForce {
    const maxAttempts: int
    const sw: SlidingWindow

    constructor (maxAttempts: int, window: int, now: int)
      ensures this.maxAttempts == maxAttempts && sw.View() == Fresh(window, now) && fresh(sw)
    {
      this.maxAttempts := maxAttempts;
      sw := new SlidingWindow(window, now);
    }

    method Detect(e: SIPEvent, now: int) returns (threat: Option<nat>)
      requires AllOrdered(sw.data, now)
      modifies sw
      ensures sw.View() == After(FailedRegisters, old(sw.View()), e, now) && AllOrdered(sw.data, now)
      ensures threat == Verdict(FailedRegisters, old(sw.View()), maxAttempts, e, now)
    {
      if e.method_ != "REGISTER" {
        return None;
      }
      if e.responseCode != 401 && e.responseCode != 403 {
        return None;
      }
      sw.AddKeyed(SourceText(e), "", now);
      var count := sw.Count(SourceText(e), now);
      return if count >= maxAttempts then Some(count) else None;
    }
  }

  class DIDScanner {
    const maxDIDs: int
    const sw: SlidingWindow

    constructor (maxDIDs: int, window: int, now: int)
      ensures this.maxDIDs == (if maxDIDs < 1 then 20 else maxDIDs) && fresh(sw)
      ensures sw.View() == Fresh(if window <= 0 then 300 else window, now)
    {
      this.maxDIDs := if maxDIDs < 1 then 20 else maxDIDs;
      sw := new SlidingWindow(if window <= 0 then 300 else window, now);
    }

    method Detect(e: SIPEvent, now: int) returns (threat: Option<nat>)
      requires AllOrdered(sw.data, now)
      modifies sw
      ensures sw.View() == After(DialledNumbers, old(sw.View()), e, now) && AllOrdered(sw.data, now)
      ensures threat == Verdict(DialledNumbers, old(sw.View()), maxDIDs, e, now)
    {
      if e.isResponse || e.method_ != "INVITE" || e.source.None? || e.toUser == "" {
        return None;
      }
      sw.AddKeyed(SourceText(e), e.toUser, now);
      var count := sw.DistinctCount(SourceText(e), now);
      if count < maxDIDs {
        return None;
      }
      return Some(count);
    }
  }
}
