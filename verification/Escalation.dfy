/** The history of bans over whole runs: rows are only ever added or ended, what a row records, and escalation. */
module Escalation {
  import opened Addresses
  import opened Backends
  import opened BanStore
  import opened Lifecycle
  import opened LifecycleInvariant
  import LifecycleTheorems

  /** `later` extends `earlier`: rows stay where they are, keep everything they recorded, and can only end. */
  ghost predicate Extends(later: seq<BanEntry>, earlier: seq<BanEntry>) {
    && |earlier| <= |later|
    && forall i | 0 <= i < |earlier| :: later[i] == earlier[i] || later[i] == earlier[i].(status := Expired)
  }

  lemma ExtendsTransitive(x: seq<BanEntry>, y: seq<BanEntry>, z: seq<BanEntry>)
    requires Extends(z, y) && Extends(y, x)
    ensures Extends(z, x)
  {
    forall i | 0 <= i < |x|
      ensures z[i] == x[i] || z[i] == x[i].(status := Expired)
    {
      assert y[i] == x[i] || y[i] == x[i].(status := Expired);
    }
  }

  /** The tick ends the rows it selected and no other. */
  lemma {:induction false} ExpireLoopRows(s: Sys, ids: seq<nat>, f: Faults)
    requires ValidIds(s, ids)
    ensures var s' := ExpireLoop(s, ids, f);
            && |s'.bans| == |s.bans|
            && forall i | 0 <= i < |s.bans| ::
                 s'.bans[i] == if i in ids then s.bans[i].(status := Expired) else s.bans[i]
    decreases |ids|
  {
    if ids != [] {
      ExpireLoopRows(ExpireOne(s, ids[0], f), ids[1..], f);
    }
  }

  /** The expiry tick ends exactly the live rows whose time has come; a permanent row is never ended by it. */
  lemma TickEndsExactlyDueRows(s: Sys, now: int, f: Faults, i: nat)
    requires i < |s.bans|
    ensures var b' := ExpiryTick(s, now, f).bans;
            && |b'| == |s.bans|
            && b'[i] == (if s.bans[i].status != Expired && s.bans[i].expiresAt.Some? &&
                            s.bans[i].expiresAt.value <= now
                         then s.bans[i].(status := Expired) else s.bans[i])
            && (s.bans[i].expiresAt.None? ==> b'[i] == s.bans[i])
  {
    ExpireLoopRows(s, DueIds(s.bans, now, |s.bans|), f);
  }

  /** The tick takes only those addresses off the backends for which an active or manual row is due; dry-run rows end
      without touching them. */
  lemma TickTouchesOnlyEnded(s: Sys, now: int, f: Faults, a: Address)
    requires WellFormed(s.kernel) && s.enforcer in {IPTables, Xdp, BOTH}
    requires forall i | 0 <= i < |s.bans| && s.bans[i].ip == Of(a) && s.bans[i].status in {Active, Manual} ::
               s.bans[i].expiresAt.None? || s.bans[i].expiresAt.value > now
    ensures var k' := ExpiryTick(s, now, f).kernel;
            Count(k'.chain, a) == Count(s.kernel.chain, a) && (InXdp(k', a) <==> InXdp(s.kernel, a))
  {
    ExpireLoopTouches(s, DueIds(s.bans, now, |s.bans|), f, a);
  }

  lemma ExpireOneTouches(s: Sys, id: nat, f: Faults, a: Address)
    requires WellFormed(s.kernel) && s.enforcer in {IPTables, Xdp, BOTH} && id < |s.bans|
    requires s.bans[id].ip == Of(a) ==> s.bans[id].status == DryRun
    ensures var s' := ExpireOne(s, id, f);
            && WellFormed(s'.kernel) && s'.enforcer == s.enforcer && s'.bans == Expire(s.bans, id)
            && Count(s'.kernel.chain, a) == Count(s.kernel.chain, a) && (InXdp(s'.kernel, a) <==> InXdp(s.kernel, a))
  {
    StoredTextSpells(s.bans[id].ip);
    UnbanEffect(s.kernel, s.enforcer, ParseIP(s.bans[id].ip), f, a);
  }

  lemma {:induction false} ExpireLoopTouches(s: Sys, ids: seq<nat>, f: Faults, a: Address)
    requires WellFormed(s.kernel) && s.enforcer in {IPTables, Xdp, BOTH} && ValidIds(s, ids)
    requires forall j | 0 <= j < |ids| :: s.bans[ids[j]].ip == Of(a) ==> s.bans[ids[j]].status == DryRun
    requires forall i, j | 0 <= i < j < |ids| :: ids[i] != ids[j]
    ensures var k' := ExpireLoop(s, ids, f).kernel;
            Count(k'.chain, a) == Count(s.kernel.chain, a) && (InXdp(k', a) <==> InXdp(s.kernel, a))
    decreases |ids|
  {
    if ids != [] {
      ExpireOneTouches(s, ids[0], f, a);
      ExpireLoopTouches(ExpireOne(s, ids[0], f), ids[1..], f, a);
    }
  }

  lemma AddWhitelistExtends(s: Sys, e: Entry, clear: bool, f: Faults)
    ensures var b' := AddWhitelist(s, e, clear, f).0.bans; |b'| == |s.bans| && Extends(b', s.bans)
  {
    if ValidEntry(e) {
      ClearLoopRows(s, CoveredIds(s.bans, e), f);
    }
  }

  lemma StartExtends(s: Sys, cfg: Config, fixed: seq<IPNet>, local: set<Address>, attached: bool, f: Faults)
    ensures var b' := Start(s, cfg, fixed, local, attached, f).bans; |b'| == |s.bans| && Extends(b', s.bans)
  {
    var s1 := s.(fixed := fixed, dynamic := Nets(s.table), local := local,
                 enforcer := EnforcerFor(cfg, attached), attached := attached);
    RestoreRows(Reconcile(s1, f), |s1.bans|, f);
  }

  lemma StepExtends(s: Sys, cfg: Config, ev: Event, f: Faults)
    ensures Extends(Step(s, cfg, ev, f).bans, s.bans)
    ensures !ev.Threat? && !ev.ManualBan? ==> |Step(s, cfg, ev, f).bans| == |s.bans|
  {
    match ev
    case WhitelistAdd(e, clear) => AddWhitelistExtends(s, e, clear, f);
    case Tick(now) => ExpireLoopRows(s, DueIds(s.bans, now, |s.bans|), f);
    case Restart(fixed, local, attached) => StartExtends(s, cfg, fixed, local, attached, f);
    case _ =>
  }

  /** A row once written stays, with everything it recorded; it can end, and then it stays ended. */
  lemma RunExtends(s: Sys, cfg: Config, tr: Trace, n: nat)
    requires n <= |tr|
    ensures Extends(Run(s, cfg, tr).bans, Run(s, cfg, tr[..n]).bans)
  {
    var tables := seq(|tr| + 1, i requires 0 <= i <= |tr| => Run(s, cfg, tr[..i]).bans);
    forall i | 0 <= i < |tr|
      ensures Extends(tables[i + 1], tables[i])
    {
      PrefixStep(s, cfg, tr, i);
    }
    ChainExtends(tables, n, |tr|);
    assert tr[..|tr|] == tr;
  }

  lemma {:induction false} ChainExtends(tables: seq<seq<BanEntry>>, n: nat, m: nat)
    requires n <= m < |tables| && forall i | 0 <= i < |tables| - 1 :: Extends(tables[i + 1], tables[i])
    ensures Extends(tables[m], tables[n])
    decreases m - n
  {
    if n < m {
      ChainExtends(tables, n, m - 1);
      assert Extends(tables[m - 1 + 1], tables[m - 1]);
      ExtendsTransitive(tables[n], tables[m - 1], tables[m]);
    }
  }

  lemma PrefixStep(s: Sys, cfg: Config, tr: Trace, n: nat)
    requires n < |tr|
    ensures Extends(Run(s, cfg, tr[..n + 1]).bans, Run(s, cfg, tr[..n]).bans)
  {
    assert tr[..n + 1][..n] == tr[..n];
    StepExtends(Run(s, cfg, tr[..n]), cfg, tr[n].0, tr[n].1);
  }

  /** The live intervals of one address never overlap: in a run, whenever a later row of an address exists, the earlier
      one has ended, in that state and in every later one. */
  lemma LiveIntervalsNeverOverlap(s: Sys, cfg: Config, d: Drift, tr: Trace, n: nat, i: nat, j: nat)
    requires Inv(s, cfg, d) && n <= |tr|
    requires i < j < |Run(s, cfg, tr[..n]).bans|
    requires Run(s, cfg, tr[..n]).bans[i].ip == Run(s, cfg, tr[..n]).bans[j].ip
    ensures Run(s, cfg, tr[..n]).bans[i].status == Expired
    ensures i < |Run(s, cfg, tr).bans| && Run(s, cfg, tr).bans[i].status == Expired
  {
    LifecycleTheorems.RunKeepsInv(s, cfg, tr[..n], d);
    RunExtends(s, cfg, tr, n);
  }

  // ---- what rows record ----

  /** How many rows of an address come before row `j`. */
  function RowsBefore(bans: seq<BanEntry>, j: nat, ip: Text): nat
    requires j <= |bans|
  {
    if j == 0 then 0 else RowsBefore(bans, j - 1, ip) + if bans[j - 1].ip == ip then 1 else 0
  }

  /** The end follows from the duration; an engine row counts itself and the rows of its address from one cooldown
      before it on, and takes the duration of that level. */
  ghost predicate Accounted(cfg: Config, bans: seq<BanEntry>, j: nat)
    requires j < |bans|
  {
    var b := bans[j];
    && b.expiresAt == (if b.duration > 0 then Some(b.bannedAt + b.duration) else None)
    && (b.detector != "manual" ==>
          && b.banCount == 1 + CountSince(bans[..j], b.ip, b.bannedAt - cfg.cooldown)
          && b.duration == DurationFor(cfg.durations, b.banCount - 1))
  }

  ghost predicate AllAccounted(cfg: Config, bans: seq<BanEntry>) {
    forall j | 0 <= j < |bans| :: Accounted(cfg, bans, j)
  }

  lemma {:induction false} CountIgnoresStatus(x: seq<BanEntry>, y: seq<BanEntry>, ip: Text, since: int)
    requires |x| == |y| && Extends(y, x)
    ensures CountSince(x, ip, since) == CountSince(y, ip, since)
  {
    if x != [] {
      var n := |x| - 1;
      assert y[n] == x[n] || y[n] == x[n].(status := Expired);
      assert Extends(y[..n], x[..n]);
      CountIgnoresStatus(x[..n], y[..n], ip, since);
    }
  }

  lemma ExtensionStaysAccounted(cfg: Config, x: seq<BanEntry>, y: seq<BanEntry>, j: nat)
    requires Extends(y, x) && j < |x| && Accounted(cfg, x, j)
    ensures Accounted(cfg, y, j)
  {
    assert y[j] == x[j] || y[j] == x[j].(status := Expired);
    assert Extends(y[..j], x[..j]);
    CountIgnoresStatus(x[..j], y[..j], x[j].ip, x[j].bannedAt - cfg.cooldown);
  }

  lemma AppendedRowAccounted(s: Sys, cfg: Config, ev: Event, f: Faults)
    requires |s.bans| < |Step(s, cfg, ev, f).bans|
    ensures var bans' := Step(s, cfg, ev, f).bans; |bans'| == |s.bans| + 1 && Accounted(cfg, bans', |s.bans|)
  {
    StepExtends(s, cfg, ev, f);
    StepAppends(s, cfg, ev, f);
  }

  /** What the two events that add a row record. */
  lemma StepAppends(s: Sys, cfg: Config, ev: Event, f: Faults)
    requires ev.Threat? || ev.ManualBan?
    requires |s.bans| < |Step(s, cfg, ev, f).bans|
    ensures var bans' := Step(s, cfg, ev, f).bans; |bans'| == |s.bans| + 1 && Accounted(cfg, bans', |s.bans|)
  {
    var bans' := Step(s, cfg, ev, f).bans;
    assert bans'[..|s.bans|] == s.bans;
  }

  lemma StepKeepsAccounts(s: Sys, cfg: Config, ev: Event, f: Faults)
    requires AllAccounted(cfg, s.bans)
    ensures AllAccounted(cfg, Step(s, cfg, ev, f).bans)
  {
    var bans' := Step(s, cfg, ev, f).bans;
    StepExtends(s, cfg, ev, f);
    forall j | 0 <= j < |bans'|
      ensures Accounted(cfg, bans', j)
    {
      if j < |s.bans| {
        ExtensionStaysAccounted(cfg, s.bans, bans', j);
      } else {
        AppendedRowAccounted(s, cfg, ev, f);
      }
    }
  }

  /** In every run, every row accounts for itself. */
  lemma {:induction false} RunKeepsAccounts(s: Sys, cfg: Config, tr: Trace)
    requires AllAccounted(cfg, s.bans)
    ensures AllAccounted(cfg, Run(s, cfg, tr).bans)
  {
    if tr != [] {
      var n := |tr| - 1;
      RunKeepsAccounts(s, cfg, tr[..n]);
      StepKeepsAccounts(Run(s, cfg, tr[..n]), cfg, tr[n].0, tr[n].1);
    }
  }

  lemma {:induction false} CountOfRecentRows(bans: seq<BanEntry>, j: nat, ip: Text, since: int)
    requires j <= |bans| && forall i | 0 <= i < j && bans[i].ip == ip :: bans[i].bannedAt >= since
    ensures CountSince(bans[..j], ip, since) == RowsBefore(bans, j, ip)
  {
    if j > 0 {
      assert bans[..j][..j - 1] == bans[..j - 1];
      CountOfRecentRows(bans, j - 1, ip, since);
    }
  }

  lemma KthRow(cfg: Config, bans: seq<BanEntry>, j: nat)
    requires j < |bans| && Accounted(cfg, bans, j) && bans[j].detector != "manual"
    requires forall i | 0 <= i < j && bans[i].ip == bans[j].ip :: bans[i].bannedAt >= bans[j].bannedAt - cfg.cooldown
    ensures var k := RowsBefore(bans, j, bans[j].ip) + 1;
            && bans[j].banCount == k
            && (cfg.durations != [] ==>
                  bans[j].duration == cfg.durations[if k <= |cfg.durations| then k - 1 else |cfg.durations| - 1])
            && (cfg.durations == [] ==> bans[j].duration == DEFAULT_DURATION)
  {
    CountOfRecentRows(bans, j, bans[j].ip, bans[j].bannedAt - cfg.cooldown);
  }

  /** Escalation over runs: when all earlier rows of its address lie within one cooldown of it, the engine's k-th ban
      of an address has count k and the k-th configured duration, or the last one beyond the list. */
  lemma KthBanEscalates(s: Sys, cfg: Config, tr: Trace, bans: seq<BanEntry>, j: nat)
    requires AllAccounted(cfg, s.bans) && bans == Run(s, cfg, tr).bans
    requires j < |bans| && bans[j].detector != "manual"
    requires forall i | 0 <= i < j && bans[i].ip == bans[j].ip :: bans[i].bannedAt >= bans[j].bannedAt - cfg.cooldown
    ensures var k := RowsBefore(bans, j, bans[j].ip) + 1;
            && bans[j].banCount == k
            && (cfg.durations != [] ==>
                  bans[j].duration == cfg.durations[if k <= |cfg.durations| then k - 1 else |cfg.durations| - 1])
            && (cfg.durations == [] ==> bans[j].duration == DEFAULT_DURATION)
  {
    RunKeepsAccounts(s, cfg, tr);
    KthRow(cfg, bans, j);
  }
}
