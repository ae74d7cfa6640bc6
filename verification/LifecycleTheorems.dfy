/** The main results about the ban lifecycle. */
module LifecycleTheorems {
  import opened Addresses
  import opened Backends
  import opened BanStore
  import opened Lifecycle
  import opened LifecycleInvariant

  // ---- restart ----

  lemma EndingRowsKeepsOneLiveRow(bans: seq<BanEntry>, bans': seq<BanEntry>)
    requires OneLiveRow(bans) && |bans'| == |bans|
    requires forall i | 0 <= i < |bans| :: bans'[i] == bans[i] || bans'[i] == bans[i].(status := Expired)
    ensures OneLiveRow(bans')
  {
    forall i, j | 0 <= i < j < |bans'| && bans'[i].ip == bans'[j].ip
      ensures !Live(bans'[i])
    {
      assert bans[i].ip == bans[j].ip;
    }
  }

  /** Startup from any table and any pinned maps (whose IPv6 keys are not IPv4-mapped): the rows left are those not
      whitelisted, and at every address where no map operation fails the XDP maps hold exactly those rows (and, if
      they could not be listed, whatever they held). The chain gains the rules it lacked and loses none, so it keeps
      the rules of the rows that were ended. */
  lemma StartRepairs(s: Sys, cfg: Config, fixed: seq<IPNet>, local: set<Address>, attached: bool, f: Faults, a: Address)
    requires WellFormed(s.kernel)
    ensures var s' := Start(s, cfg, fixed, local, attached, f);
            && Shape(s', cfg) && s'.attached == attached
            && (HasRow(s'.bans, a) <==> HasRow(s.bans, a) && !Whitelisted(s', a))
            && (attached && a !in f.xdp ==>
                  (InXdp(s'.kernel, a) <==> HasRow(s'.bans, a) || (f.list && InXdp(s.kernel, a))))
            && (a !in f.check + f.edit && |a| == 4 ==>
                  Count(s'.kernel.chain, a) ==
                  if UsesBase(s'.enforcer) && HasRow(s'.bans, a) && Count(s.kernel.chain, a) == 0 then 1
                  else Count(s.kernel.chain, a))
            && (OneLiveRow(s.bans) ==> OneLiveRow(s'.bans))
  {
    var s1 := s.(fixed := fixed, dynamic := Nets(s.table), local := local,
                 enforcer := EnforcerFor(cfg, attached), attached := attached);
    if attached {
      ReconcileEffect(s1, f, a);
    }
    var s2 := Reconcile(s1, f);
    var n := |s2.bans|;
    RestoreRows(s2, n, f);
    RestoreBackends(s2, n, f, a);
    var s' := Restore(s2, f);
    assert s2.bans[..n] == s2.bans;
    assert Whitelisted(s', a) == Whitelisted(s2, a) == Whitelisted(s1, a);
    RestoredRows(s2, s', a);
    if OneLiveRow(s.bans) {
      EndingRowsKeepsOneLiveRow(s.bans, s'.bans);
    }
  }

  lemma RestoredRows(s: Sys, s': Sys, a: Address)
    requires |s'.bans| == |s.bans| && forall i | 0 <= i < |s.bans| :: s'.bans[i] == RestoredRow(s, s.bans[i])
    ensures HasRow(s'.bans, a) <==> HasRow(s.bans, a) && !Whitelisted(s, a)
  {
    if HasRow(s'.bans, a) {
      var i :| 0 <= i < |s'.bans| && InForce(s'.bans[i]) && s'.bans[i].ip == Of(a);
      assert InForce(s.bans[i]) && s.bans[i].ip == Of(a);
    }
    if HasRow(s.bans, a) && !Whitelisted(s, a) {
      var i :| 0 <= i < |s.bans| && InForce(s.bans[i]) && s.bans[i].ip == Of(a);
      assert s'.bans[i] == s.bans[i];
    }
  }

  lemma RestartAgreesAt(s: Sys, s': Sys, cfg: Config, d: Drift, d': Drift, f: Faults, a: Address)
    requires AgreesAt(s, cfg, d, a)
    requires s'.enforcer == EnforcerFor(cfg, s'.attached)
    requires HasRow(s'.bans, a) <==> HasRow(s.bans, a) && !Whitelisted(s', a)
    requires s'.attached && a !in f.xdp ==>
               (InXdp(s'.kernel, a) <==> HasRow(s'.bans, a) || (f.list && InXdp(s.kernel, a)))
    requires a !in f.check + f.edit && |a| == 4 ==>
               Count(s'.kernel.chain, a) ==
               if UsesBase(s'.enforcer) && HasRow(s'.bans, a) && Count(s.kernel.chain, a) == 0 then 1
               else Count(s.kernel.chain, a)
    requires d.base + f.check + f.edit <= d'.base && d'.missing == f.xdp && f.xdp <= d'.extra
    requires f.list && InXdp(s.kernel, a) ==> a in d'.extra
    requires HasRow(s.bans, a) && Whitelisted(s', a) ==> a in d'.base
    ensures AgreesAt(s', cfg, d', a)
  {
  }

  lemma RestartKeeps(s: Sys, cfg: Config, d: Drift, fixed: seq<IPNet>, local: set<Address>, attached: bool, f: Faults)
    requires Inv(s, cfg, d)
    ensures Inv(Start(s, cfg, fixed, local, attached, f), cfg,
                DriftStep(s, cfg, Restart(fixed, local, attached), f, d))
  {
    var s' := Start(s, cfg, fixed, local, attached, f);
    var d' := DriftStep(s, cfg, Restart(fixed, local, attached), f, d);
    StartWhitelist(s, cfg, fixed, local, attached, f);
    forall a: Address
      ensures AgreesAt(s', cfg, d', a) && Shape(s', cfg) && OneLiveRow(s'.bans)
    {
      assert AgreesAt(s, cfg, d, a);
      StartRepairs(s, cfg, fixed, local, attached, f, a);
      InOverlap(s.(fixed := fixed, dynamic := Nets(s.table), local := local), s.bans, a);
      RestartAgreesAt(s, s', cfg, d, d', f, a);
    }
    assert AgreesAt(s', cfg, d', [0, 0, 0, 0]);
  }

  lemma StartWhitelist(s: Sys, cfg: Config, fixed: seq<IPNet>, local: set<Address>, attached: bool, f: Faults)
    ensures var s' := Start(s, cfg, fixed, local, attached, f);
            s'.fixed == fixed && s'.dynamic == Nets(s.table) && s'.local == local && s'.table == s.table
  {
    var s1 := s.(fixed := fixed, dynamic := Nets(s.table), local := local,
                 enforcer := EnforcerFor(cfg, attached), attached := attached);
    RestoreRows(Reconcile(s1, f), |s1.bans|, f);
  }

  lemma InOverlap(s: Sys, bans: seq<BanEntry>, a: Address)
    ensures a in Overlap(s, bans) <==> HasRow(bans, a) && Whitelisted(s, a)
  {
    if HasRow(bans, a) && Whitelisted(s, a) {
      var i :| 0 <= i < |bans| && InForce(bans[i]) && bans[i].ip == Of(a);
      assert bans[i].ip.addr in Overlap(s, bans);
    }
  }

  // ---- every step, every run ----

  lemma HandleThreatKeeps(s: Sys, cfg: Config, d: Drift, ip: IP, detector: string, now: int, f: Faults)
    requires Inv(s, cfg, d)
    ensures Inv(HandleThreat(s, cfg, ip, detector, now, f), cfg, Spread(d, FaultSet(s, f)))
  {
    var d1, hit := Spread(d, FaultSet(s, f)), FaultSet(s, f);
    ReadyAtStep(s, cfg, d, f);
    var decision := Evaluate(s.bans, cfg, Whitelisted(s, ip), ip, detector, now);
    if decision.Some? {
      if cfg.dryRun {
        var s1 := HandleThreat(s, cfg, ip, detector, now, f);
        forall a: Address
          ensures AgreesAt(s1, cfg, d1, a) && OneLiveRow(s1.bans)
        {
          assert AgreesAt(s, cfg, d1, a);
          AppendRow(s.bans, decision.value, a);
          assert Whitelisted(s1, a) == Whitelisted(s, a);
        }
        assert AgreesAt(s1, cfg, d1, [0, 0, 0, 0]);
      } else {
        RecordAndBan(s, cfg, d1, f, hit, ip, decision.value);
      }
    }
  }

  /** A refused manual ban: the new row is ended, and the address may stay on the maps beside iptables. */
  lemma RefusedBanKeeps(s: Sys, cfg: Config, d1: Drift, d': Drift, f: Faults, hit: set<Address>, ip: IP, row: BanEntry)
    requires Ready(s, cfg, d1, f, hit)
    requires InForce(row) && row.ip == String(ip) && !Whitelisted(s, ip) && FindLive(s.bans, row.ip).None?
    requires !EnforceBan(s.(bans := s.bans + [row]), ip, f).1
    requires d' == d1.(extra := d'.extra) && d1.extra <= d'.extra
    requires !cfg.standalone && Valid(ip) && |Canon(ip)| == 16 ==> Canon(ip) in d'.extra
    ensures var s1 := EnforceBan(s.(bans := s.bans + [row]), ip, f).0;
            Inv(s1.(bans := Expire(s1.bans, |s.bans|)), cfg, d')
  {
    RecordAndBan(s, cfg, d1, f, hit, ip, row);
    var s1 := EnforceBan(s.(bans := s.bans + [row]), ip, f).0;
    var s' := s1.(bans := Expire(s1.bans, |s.bans|));
    forall a: Address
      ensures AgreesAt(s', cfg, d', a) && OneLiveRow(s'.bans)
    {
      assert AgreesAt(s1, cfg, d1, a);
      ExpireRow(s1.bans, |s.bans|, a);
      if row.ip == Of(a) {
        RefusedAgreesAt(s, cfg, d1, d', f, hit, ip, row, a);
      } else {
        assert Whitelisted(s', a) == Whitelisted(s1, a);
      }
    }
    assert AgreesAt(s', cfg, d', [0, 0, 0, 0]);
  }

  lemma RefusedAgreesAt(s: Sys, cfg: Config, d1: Drift, d': Drift, f: Faults, hit: set<Address>, ip: IP, row: BanEntry,
                        a: Address)
    requires Ready(s, cfg, d1, f, hit) && InForce(row) && row.ip == String(ip) == Of(a)
    requires FindLive(s.bans, row.ip).None? && !EnforceBan(s.(bans := s.bans + [row]), ip, f).1
    requires d' == d1.(extra := d'.extra) && d1.extra <= d'.extra
    requires !cfg.standalone && |a| == 16 ==> a in d'.extra
    ensures var s1 := EnforceBan(s.(bans := s.bans + [row]), ip, f).0;
            AgreesAt(s1.(bans := Expire(s1.bans, |s.bans|)), cfg, d', a)
  {
    AppendRow(s.bans, row, a);
    ExpireRow(s.bans + [row], |s.bans|, a);
    BanEffect(s.kernel, s.enforcer, ip, f, a);
    assert AgreesAt(s, cfg, d1, a);
  }

  lemma WiderExtra(s: Sys, cfg: Config, d: Drift, d': Drift)
    requires Inv(s, cfg, d) && d' == d.(extra := d'.extra) && d.extra <= d'.extra
    ensures Inv(s, cfg, d')
  {
    forall a: Address
      ensures AgreesAt(s, cfg, d', a)
    {
      assert AgreesAt(s, cfg, d, a);
    }
  }

  lemma CreateBanKeeps(s: Sys, cfg: Config, d: Drift, ip: IP, dur: Option<int>, now: int, f: Faults)
    requires Inv(s, cfg, d)
    ensures Inv(CreateBan(s, ip, dur, now, f).0, cfg, DriftStep(s, cfg, ManualBan(ip, dur, now), f, d))
  {
    var hit := FaultSet(s, f);
    var d1, d' := Spread(d, hit), DriftStep(s, cfg, ManualBan(ip, dur, now), f, d);
    ReadyAtStep(s, cfg, d, f);
    var (s', reply) := CreateBan(s, ip, dur, now, f);
    if reply == Created || reply == ServerError {
      var row := NewBan(String(ip), "manual", now, dur.value, 1, Manual);
      if reply == Created {
        RecordAndBan(s, cfg, d1, f, hit, ip, row);
        WiderExtra(s', cfg, d1, d');
      } else {
        RefusedBanKeeps(s, cfg, d1, d', f, hit, ip, row);
      }
    } else {
      WiderExtra(s, cfg, d1, d');
    }
  }

  lemma DeleteBanKeeps(s: Sys, cfg: Config, d: Drift, ip: IP, f: Faults)
    requires Inv(s, cfg, d)
    ensures Inv(DeleteBan(s, ip, f).0, cfg, Spread(d, FaultSet(s, f)))
  {
    var d1, hit := Spread(d, FaultSet(s, f)), FaultSet(s, f);
    ReadyAtStep(s, cfg, d, f);
    var found := FindLive(s.bans, String(ip));
    if ip != [] && found.Some? {
      ReleaseKeeps(s, cfg, d1, f, hit, found.value, ip);
    }
  }

  /** Removing an entry, reloading the static list or learning local addresses only changes who is whitelisted. */
  lemma WhitelistChangeKeeps(s: Sys, s': Sys, cfg: Config, d: Drift, d': Drift)
    requires Inv(s, cfg, d) && Shape(s', cfg)
    requires s'.bans == s.bans && s'.kernel == s.kernel && s'.attached == s.attached
    requires d' == d.(exposed := d'.exposed) && d.exposed <= d'.exposed
    requires forall a: Address | HasRow(s.bans, a) && Whitelisted(s', a) :: Whitelisted(s, a) || a in d'.exposed
    ensures Inv(s', cfg, d')
  {
    forall a: Address
      ensures AgreesAt(s', cfg, d', a)
    {
      assert AgreesAt(s, cfg, d, a);
    }
  }

  lemma StepKeepsInv(s: Sys, cfg: Config, d: Drift, ev: Event, f: Faults)
    requires Inv(s, cfg, d)
    ensures Inv(Step(s, cfg, ev, f), cfg, DriftStep(s, cfg, ev, f, d))
  {
    var s', d' := Step(s, cfg, ev, f), DriftStep(s, cfg, ev, f, d);
    match ev
    case Threat(ip, detector, now) => HandleThreatKeeps(s, cfg, d, ip, detector, now, f);
    case ManualBan(ip, dur, now) => CreateBanKeeps(s, cfg, d, ip, dur, now, f);
    case ManualUnban(ip) => DeleteBanKeeps(s, cfg, d, ip, f);
    case WhitelistAdd(e, clear) => AddWhitelistKeeps(s, cfg, d, e, clear, f);
    case WhitelistRemove(e) =>
      forall a: Address | Whitelisted(s', a)
        ensures Whitelisted(s, a)
      {
        if Covers(s'.dynamic, a) {
          NetsWithout(s.table, e, a);
        }
      }
      WhitelistChangeKeeps(s, s', cfg, d, d');
    case Tick(now) =>
      ReadyAtStep(s, cfg, d, f);
      ExpireLoopKeeps(s, cfg, d', f, FaultSet(s, f), DueIds(s.bans, now, |s.bans|));
    case ReconcileTick => ReconcileKeeps(s, cfg, d, f);
    case KillSwitch =>
      forall a: Address
        ensures AgreesAt(s', cfg, d', a)
      {
        assert AgreesAt(s, cfg, d, a);
        assert Whitelisted(s', a) == Whitelisted(s, a);
      }
    case Restart(fixed, local, attached) => RestartKeeps(s, cfg, d, fixed, local, attached, f);
    case ReloadStatic(_) =>
      forall a: Address { InOverlap(s', s.bans, a); }
      WhitelistChangeKeeps(s, s', cfg, d, d');
    case RefreshLocal(_) =>
      forall a: Address { InOverlap(s', s.bans, a); }
      WhitelistChangeKeeps(s, s', cfg, d, d');
  }

  /** Whole runs, under any failures, configuration reloads, detaches and restarts: one live row per address, and the
      rows, the chain, the maps and the whitelist agree at every address outside the ledger. */
  lemma {:induction false} RunKeepsInv(s: Sys, cfg: Config, tr: Trace, d: Drift)
    requires Inv(s, cfg, d)
    ensures Inv(Run(s, cfg, tr), cfg, DriftRun(s, cfg, tr, d))
  {
    if tr != [] {
      var n := |tr| - 1;
      RunKeepsInv(s, cfg, tr[..n], d);
      StepKeepsInv(Run(s, cfg, tr[..n]), cfg, DriftRun(s, cfg, tr[..n], d), tr[n].0, tr[n].1);
    }
  }

  /** A step the ledger has nothing to record for: no failure, no manual ban of an IPv6 address beside iptables, no
      bare IPv4-mapped whitelist entry, and no reload that covers a current row. */
  predicate Quiet(s: Sys, cfg: Config, ev: Event, f: Faults) {
    && f == NO_FAULTS
    && match ev
       case ManualBan(ip, _, _) => !(Valid(ip) && |Canon(ip)| == 16)
       case WhitelistAdd(e, _) => !(ValidEntry(e) && MappedBare(e))
       case Restart(fixed, local, _) =>
         Overlap(s.(fixed := fixed, dynamic := Nets(s.table), local := local), s.bans) == {}
       case ReloadStatic(_) => Overlap(Step(s, cfg, ev, f), s.bans) == {}
       case RefreshLocal(_) => Overlap(Step(s, cfg, ev, f), s.bans) == {}
       case _ => true
  }

  predicate QuietRun(s: Sys, cfg: Config, tr: Trace) {
    forall i | 0 <= i < |tr| :: Quiet(Run(s, cfg, tr[..i]), cfg, tr[i].0, tr[i].1)
  }

  /** Everything agrees: one live row per address, exactly one rule per current IPv4 row and none besides, while
      attached the maps equal the current rows, and none of those is whitelisted. */
  ghost predicate InAgreement(s: Sys) {
    && OneLiveRow(s.bans)
    && forall a: Address ::
         && !(HasRow(s.bans, a) && Whitelisted(s, a))
         && (|a| == 4 ==> Count(s.kernel.chain, a) == if HasRow(s.bans, a) then 1 else 0)
         && (s.attached ==> (InXdp(s.kernel, a) <==> HasRow(s.bans, a)))
  }

  lemma NoDriftIsAgreement(s: Sys, cfg: Config)
    requires Inv(s, cfg, NO_DRIFT) && !cfg.standalone
    ensures InAgreement(s) && FaultSet(s, NO_FAULTS) == {}
  {
    forall a: Address
      ensures !(HasRow(s.bans, a) && Whitelisted(s, a))
      ensures |a| == 4 ==> Count(s.kernel.chain, a) == if HasRow(s.bans, a) then 1 else 0
      ensures s.attached ==> (InXdp(s.kernel, a) <==> HasRow(s.bans, a))
    {
      assert AgreesAt(s, cfg, NO_DRIFT, a);
    }
  }

  /** In every quiet run of the composite set-up, through detaches and restarts, every state is in agreement. */
  lemma {:induction false} QuietRunStaysInAgreement(s: Sys, cfg: Config, tr: Trace)
    requires Inv(s, cfg, NO_DRIFT) && !cfg.standalone && QuietRun(s, cfg, tr)
    ensures DriftRun(s, cfg, tr, NO_DRIFT) == NO_DRIFT
    ensures InAgreement(Run(s, cfg, tr))
  {
    RunKeepsInv(s, cfg, tr, NO_DRIFT);
    if tr != [] {
      var n := |tr| - 1;
      assert QuietRun(s, cfg, tr[..n]) by {
        forall i | 0 <= i < n
          ensures Quiet(Run(s, cfg, tr[..n][..i]), cfg, tr[..n][i].0, tr[..n][i].1)
        {
          assert tr[..n][..i] == tr[..i];
        }
      }
      QuietRunStaysInAgreement(s, cfg, tr[..n]);
      RunKeepsInv(s, cfg, tr[..n], NO_DRIFT);
      var before := Run(s, cfg, tr[..n]);
      NoDriftIsAgreement(before, cfg);
      QuietStepRecordsNothing(before, cfg, tr[n].0, tr[n].1);
    }
    NoDriftIsAgreement(Run(s, cfg, tr), cfg);
  }

  lemma QuietStepRecordsNothing(s: Sys, cfg: Config, ev: Event, f: Faults)
    requires Quiet(s, cfg, ev, f) && FaultSet(s, NO_FAULTS) == {}
    ensures DriftStep(s, cfg, ev, f, NO_DRIFT) == NO_DRIFT
  {
  }

  /** After any run with any failures, a detach and whatever followed it included, a restart that attaches and can list
      the maps makes them equal the remaining current rows wherever its own map operations succeed; in any case none of
      those rows is whitelisted. */
  lemma RestartResynchronises(s: Sys, cfg: Config, d: Drift, tr: Trace, fixed: seq<IPNet>, local: set<Address>,
                              f: Faults, a: Address)
    requires Inv(s, cfg, d)
    ensures var s' := Run(s, cfg, tr + [(Restart(fixed, local, true), f)]);
            && s'.attached && OneLiveRow(s'.bans)
            && (a !in f.xdp && !f.list ==> (InXdp(s'.kernel, a) <==> HasRow(s'.bans, a)))
            && !(HasRow(s'.bans, a) && Whitelisted(s', a))
  {
    RunSnoc(s, cfg, tr, Restart(fixed, local, true), f);
    RunKeepsInv(s, cfg, tr, d);
    RestartFrom(Run(s, cfg, tr), cfg, fixed, local, f, a);
  }

  lemma RestartFrom(s: Sys, cfg: Config, fixed: seq<IPNet>, local: set<Address>, f: Faults, a: Address)
    requires OneLiveRow(s.bans) && WellFormed(s.kernel)
    ensures var s' := Step(s, cfg, Restart(fixed, local, true), f);
            && s'.attached && OneLiveRow(s'.bans)
            && (a !in f.xdp && !f.list ==> (InXdp(s'.kernel, a) <==> HasRow(s'.bans, a)))
            && !(HasRow(s'.bans, a) && Whitelisted(s', a))
  {
    StartRepairs(s, cfg, fixed, local, true, f, a);
  }

  lemma RunSnoc(s: Sys, cfg: Config, tr: Trace, ev: Event, f: Faults)
    ensures Run(s, cfg, tr + [(ev, f)]) == Step(Run(s, cfg, tr), cfg, ev, f)
  {
    assert (tr + [(ev, f)])[..|tr|] == tr;
  }

  /** A fresh installation starts without drift. */
  lemma FreshStartAgrees(cfg: Config, fixed: seq<IPNet>, local: set<Address>, attached: bool)
    ensures Inv(Sys([], [], fixed, [], local, KernelState([], {}, {}), EnforcerFor(cfg, attached), attached), cfg,
                NO_DRIFT)
  {
    assert Nets([]) == [];
  }

  // ---- where agreement fails, exactly ----

  /** A manual ban in composite mode is accepted exactly for IPv4 addresses; for an IPv6 address iptables refuses, the
      row is ended, and XDP keeps the address: rows and maps agree afterwards exactly when the address is IPv4. */
  lemma ManualBanAgreesIffIPv4(s: Sys, cfg: Config, ip: IP, dur: int, now: int)
    requires Inv(s, cfg, NO_DRIFT) && s.attached && !cfg.standalone
    requires Valid(ip) && !Whitelisted(s, ip) && FindLive(s.bans, String(ip)).None?
    ensures var (s', reply) := CreateBan(s, ip, Some(dur), now, NO_FAULTS);
            && (reply == if |Canon(ip)| == 4 then Created else ServerError)
            && ((forall a: Address :: InXdp(s'.kernel, a) <==> HasRow(s'.bans, a)) <==> |Canon(ip)| == 4)
  {
    ManualBanReply(s, cfg, ip, dur, now);
    if |Canon(ip)| == 4 {
      var s' := CreateBan(s, ip, Some(dur), now, NO_FAULTS).0;
      NoDriftIsAgreement(s, cfg);
      CreateBanKeeps(s, cfg, NO_DRIFT, ip, Some(dur), now, NO_FAULTS);
      QuietStepRecordsNothing(s, cfg, ManualBan(ip, Some(dur), now), NO_FAULTS);
      NoDriftIsAgreement(s', cfg);
    }
  }

  lemma ManualBanReply(s: Sys, cfg: Config, ip: IP, dur: int, now: int)
    requires Inv(s, cfg, NO_DRIFT) && s.attached && !cfg.standalone
    requires Valid(ip) && !Whitelisted(s, ip) && FindLive(s.bans, String(ip)).None?
    ensures var (s', reply) := CreateBan(s, ip, Some(dur), now, NO_FAULTS); var c := Canon(ip);
            && (reply == if |c| == 4 then Created else ServerError)
            && s'.attached
            && (|c| == 16 ==> InXdp(s'.kernel, c) && !HasRow(s'.bans, c))
  {
    var c := Canon(ip);
    var row := NewBan(String(ip), "manual", now, dur, 1, Manual);
    BanEffect(s.kernel, s.enforcer, ip, NO_FAULTS, c);
    AppendRow(s.bans, row, c);
    ExpireRow(s.bans + [row], |s.bans|, c);
  }

  /** On a fresh installation, every IPv6 address but loopback. */
  lemma FreshIPv6BanLeavesMapEntry(cfg: Config, ip: Address)
    requires !cfg.standalone && |ip| == 16 && !IsLoopback(ip)
    ensures var s := Sys([], [], [], [], {}, KernelState([], {}, {}), EnforcerFor(cfg, true), true);
            var (s', reply) := CreateBan(s, ip, Some(3600), 0, NO_FAULTS);
            reply == ServerError && InXdp(s'.kernel, ip) && !HasRow(s'.bans, ip)
  {
    var s := Sys([], [], [], [], {}, KernelState([], {}, {}), EnforcerFor(cfg, true), true);
    FreshStartAgrees(cfg, [], {}, true);
    ManualBanReply(s, cfg, ip, 3600, 0);
  }

  /** 2001:db8::1 is such an address. */
  lemma DocumentationAddress()
    ensures var ip: IP := [32, 1, 13, 184, 0, 0, 0, 0, 0, 0, 0, 0, 0, 0, 0, 1]; Canonical(ip) && !IsLoopback(ip)
  {
    var ip: IP := [32, 1, 13, 184, 0, 0, 0, 0, 0, 0, 0, 0, 0, 0, 0, 1];
    assert ip[0] == 32;
  }

  /** A property of the addresses of current rows, address by address and row by row. */
  lemma RowByRow(bans: seq<BanEntry>, p: Address -> bool)
    ensures (forall a: Address | HasRow(bans, a) :: p(a)) <==>
            forall i | 0 <= i < |bans| && InForce(bans[i]) && bans[i].ip.Of? :: p(bans[i].ip.addr)
  {
    forall i | 0 <= i < |bans| && InForce(bans[i]) && bans[i].ip.Of?
      ensures HasRow(bans, bans[i].ip.addr)
    {
      assert bans[i].ip == Of(bans[i].ip.addr);
    }
  }

  /** New lists keep the current rows off the whitelist exactly when none is in what is new. */
  lemma NewListDisjointIff(s: Sys, s': Sys, cfg: Config, d: Drift, free: Address -> bool)
    requires Inv(s, cfg, d) && d.exposed == {} && s' == s.(fixed := s'.fixed, local := s'.local)
    requires forall a: Address | !Whitelisted(s, a) :: free(a) <==> !Whitelisted(s', a)
    ensures (forall a: Address :: !(HasRow(s'.bans, a) && Whitelisted(s', a))) <==>
            forall i | 0 <= i < |s.bans| && InForce(s.bans[i]) && s.bans[i].ip.Of? :: free(s.bans[i].ip.addr)
  {
    forall a: Address | HasRow(s.bans, a)
      ensures free(a) <==> !Whitelisted(s', a)
    {
      assert AgreesAt(s, cfg, d, a);
    }
    RowByRow(s.bans, free);
  }

  /** While no current row is whitelisted, reloading the static whitelist keeps it so exactly when the new list covers
      no current row: nothing is cleared. */
  lemma ReloadStaticDisjointIff(s: Sys, cfg: Config, d: Drift, fixed: seq<IPNet>)
    requires Inv(s, cfg, d) && d.exposed == {}
    ensures var s' := LoadStatic(s, fixed);
            (forall a: Address :: !(HasRow(s'.bans, a) && Whitelisted(s', a))) <==>
            forall i | 0 <= i < |s.bans| && InForce(s.bans[i]) && s.bans[i].ip.Of? ::
              !Covers(fixed, s.bans[i].ip.addr)
  {
    NewListDisjointIff(s, LoadStatic(s, fixed), cfg, d, a => !Covers(fixed, a));
  }

  /** Likewise a refresh of the local addresses: exactly when none of them has a current row. */
  lemma RefreshLocalDisjointIff(s: Sys, cfg: Config, d: Drift, local: set<Address>)
    requires Inv(s, cfg, d) && d.exposed == {}
    ensures var s' := SetLocal(s, local);
            (forall a: Address :: !(HasRow(s'.bans, a) && Whitelisted(s', a))) <==>
            forall i | 0 <= i < |s.bans| && InForce(s.bans[i]) && s.bans[i].ip.Of? :: s.bans[i].ip.addr !in local
  {
    NewListDisjointIff(s, SetLocal(s, local), cfg, d, a => a !in local);
  }

  /** Concretely: 1.2.3.4 is banned, and a reload whitelists it. */
  lemma ReloadStaticCanCoverARow()
    ensures exists s: Sys, cfg, fixed ::
              Inv(s, cfg, NO_DRIFT) && HasRow(LoadStatic(s, fixed).bans, [1, 2, 3, 4]) &&
              Whitelisted(LoadStatic(s, fixed), [1, 2, 3, 4])
  {
    var a: Address, cfg, e := [1, 2, 3, 4], Config([], 0, false, false), Bare([1, 2, 3, 4], "");
    var s := OneRow(a, [a]);
    OneRowAgrees(cfg, a, [a]);
    ReloadedEntryWhitelists(s, cfg, e, a);
  }

  /** Concretely: 1.2.3.4 is banned, and the host takes that address. */
  lemma RefreshLocalCanCoverARow()
    ensures exists s: Sys, cfg, local ::
              Inv(s, cfg, NO_DRIFT) && HasRow(SetLocal(s, local).bans, [1, 2, 3, 4]) &&
              Whitelisted(SetLocal(s, local), [1, 2, 3, 4])
  {
    var a: Address, cfg := [1, 2, 3, 4], Config([], 0, false, false);
    var s := OneRow(a, [a]);
    OneRowAgrees(cfg, a, [a]);
    var s' := SetLocal(s, {a});
    assert HasRow(s'.bans, a) && Whitelisted(s', a);
  }

  /** While the chain matches the rows, a restart keeps it so exactly when the whitelist it loads covers no current
      IPv4 row: the rules of the rows it ends stay. */
  lemma RestartChainAgreesIff(s: Sys, cfg: Config, d: Drift, fixed: seq<IPNet>, local: set<Address>, attached: bool,
                              f: Faults)
    requires Inv(s, cfg, d) && d.base == {} && !cfg.standalone && f.check == f.edit == {}
    ensures var s' := Start(s, cfg, fixed, local, attached, f);
            (forall a: Address | |a| == 4 :: Count(s'.kernel.chain, a) == if HasRow(s'.bans, a) then 1 else 0) <==>
            forall i | 0 <= i < |s.bans| && InForce(s.bans[i]) && s.bans[i].ip.Of? && |s.bans[i].ip.addr| == 4 ::
              !Listed(local, fixed, s.dynamic, s.bans[i].ip.addr)
  {
    var s' := Start(s, cfg, fixed, local, attached, f);
    StartWhitelist(s, cfg, fixed, local, attached, f);
    forall a: Address | |a| == 4
      ensures Count(s'.kernel.chain, a) == (if HasRow(s'.bans, a) then 1 else 0) <==>
              !(HasRow(s.bans, a) && Listed(local, fixed, s.dynamic, a))
    {
      assert AgreesAt(s, cfg, d, a);
      StartRepairs(s, cfg, fixed, local, attached, f, a);
    }
    RowByRow(s.bans, a => |a| == 4 ==> !Listed(local, fixed, s.dynamic, a));
  }

  /** Concretely: 1.2.3.4 is banned, and the daemon restarts with a static whitelist that has it. */
  lemma RestartCanLeaveARule()
    ensures exists s: Sys, cfg, fixed :: var s' := Start(s, cfg, fixed, {}, true, NO_FAULTS);
              Inv(s, cfg, NO_DRIFT) && !cfg.standalone && !HasRow(s'.bans, [1, 2, 3, 4]) &&
              Count(s'.kernel.chain, [1, 2, 3, 4]) == 1
  {
    var a: Address, cfg, e := [1, 2, 3, 4], Config([], 0, false, false), Bare([1, 2, 3, 4], "");
    var s, fixed := OneRow(a, [a]), [ParseCIDR(e)];
    OneRowAgrees(cfg, a, [a]);
    ReloadedEntryWhitelists(s, cfg, e, a);
    StartWhitelist(s, cfg, fixed, {}, true, NO_FAULTS);
    assert AgreesAt(s, cfg, NO_DRIFT, a);
    StartRepairs(s, cfg, fixed, {}, true, NO_FAULTS, a);
  }

  lemma ReloadedEntryWhitelists(s: Sys, cfg: Config, e: Entry, a: Address)
    requires ValidEntry(e) && e.Bare? && !MappedBare(e) && Canon(e.lit) == a
    ensures Covers([ParseCIDR(e)], a)
    ensures var s' := LoadStatic(s, [ParseCIDR(e)]); s'.bans == s.bans && Whitelisted(s', a)
  {
    BareEntryCovers(e, a);
    var nets := [ParseCIDR(e)];
    assert nets[..0] == [] && Covers(nets, a);
  }

  /** One manual ban, iptables only. */
  function OneRow(a: Address, chain: seq<Address>): Sys {
    Sys([BanEntry(Of(a), "manual", 0, 0, None, 1, Manual)], [], [], [], {}, KernelState(chain, {}, {}), IPTables,
        false)
  }

  lemma OneRowAgrees(cfg: Config, a: Address, chain: seq<Address>)
    requires !IsLoopback(a) && chain == (if |a| == 4 then [a] else [])
    ensures Inv(OneRow(a, chain), cfg, NO_DRIFT) && HasRow(OneRow(a, chain).bans, a)
  {
    var s := OneRow(a, chain);
    assert InForce(s.bans[0]) && s.bans[0].ip == Of(a);
    assert Nets([]) == [];
    forall b: Address
      ensures AgreesAt(s, cfg, NO_DRIFT, b)
    {
      assert HasRow(s.bans, b) <==> b == a;
      assert |a| == 4 ==> chain[1..] == [];
      assert Count(chain, b) == if b == a && |a| == 4 then 1 else 0;
      assert !Whitelisted(s, a);
    }
  }

  /** A successful whitelist addition leaves nothing inside the new entry, whether the entry is a CIDR, a dotted quad
      or a plain IPv6 address: no current row, whatever drifted before and whatever fails now; and no rule and no map
      key, at every address whose rule or key had not drifted and at which nothing fails. */
  lemma WhitelistAddClears(s: Sys, cfg: Config, d: Drift, e: Entry, clear: bool, f: Faults, a: Address)
    requires Inv(s, cfg, d) && AddWhitelist(s, e, clear, f).1 == Created
    requires !MappedBare(e) && Contains(ParseCIDR(e), a)
    ensures var s' := AddWhitelist(s, e, clear, f).0; var hit := FaultSet(s, f);
            && Whitelisted(s', a) && !HasRow(s'.bans, a)
            && (!cfg.standalone && |a| == 4 && a !in hit + d.base ==> Count(s'.kernel.chain, a) == 0)
            && (s'.attached && a !in hit + d.extra ==> !InXdp(s'.kernel, a))
  {
    var s', d' := AddWhitelist(s, e, clear, f).0, Spread(d, FaultSet(s, f));
    AddedEntryHasNoRow(s, e, clear, f, a);
    EntryWhitelists(s, e, clear, f, a);
    AddedPlainEntryKeeps(s, cfg, d, e, clear, f);
    RowlessAddressIsFree(s', cfg, d', a);
  }

  lemma AddedPlainEntryKeeps(s: Sys, cfg: Config, d: Drift, e: Entry, clear: bool, f: Faults)
    requires Inv(s, cfg, d) && !MappedBare(e)
    ensures Inv(AddWhitelist(s, e, clear, f).0, cfg, Spread(d, FaultSet(s, f)))
  {
    AddWhitelistKeeps(s, cfg, d, e, clear, f);
  }

  /** Where there is no row, and no drift, there is no rule and no key. */
  lemma RowlessAddressIsFree(s: Sys, cfg: Config, d: Drift, a: Address)
    requires Inv(s, cfg, d) && !HasRow(s.bans, a)
    ensures !cfg.standalone && |a| == 4 && a !in d.base ==> Count(s.kernel.chain, a) == 0
    ensures s.attached && a !in d.extra ==> !InXdp(s.kernel, a)
  {
    assert AgreesAt(s, cfg, d, a);
  }

  lemma AddedEntryHasNoRow(s: Sys, e: Entry, clear: bool, f: Faults, a: Address)
    requires OneLiveRow(s.bans) && AddWhitelist(s, e, clear, f).1 == Created
    requires !MappedBare(e) && Contains(ParseCIDR(e), a)
    ensures !HasRow(AddWhitelist(s, e, clear, f).0.bans, a)
  {
    var ids := CoveredIds(s.bans, e);
    ClearLoopRows(s, ids, f);
    NoRowsLeftInside(s.bans, ClearLoop(s, ids, f).0.bans, e, a);
  }

  /** What an entry covers: for a CIDR the current rows inside it, for a bare address the live rows of it. */
  predicate CoversRow(e: Entry, b: BanEntry)
    requires ValidEntry(e)
  {
    if e.Bare? then Live(b) && b.ip == String(e.lit) else InForce(b) && RowInside(b, ParseCIDR(e))
  }

  lemma CoveredIff(bans: seq<BanEntry>, e: Entry)
    requires ValidEntry(e)
    ensures CoveredIds(bans, e) != [] <==> exists i :: 0 <= i < |bans| && CoversRow(e, bans[i])
  {
    var ids := CoveredIds(bans, e);
    if ids != [] {
      assert CoversRow(e, bans[ids[0]]);
    } else if e.Cidr? {
      forall i | 0 <= i < |bans| && InForce(bans[i])
        ensures !RowInside(bans[i], ParseCIDR(e))
      {
        CurrentIdsComplete(bans, |bans|, i);
      }
    }
  }

  /** When the answer is 409 or 400 nothing changed; 409 is exactly the case of a covered row without `clear_ban`. */
  lemma WhitelistAddRefusals(s: Sys, e: Entry, clear: bool, f: Faults)
    ensures var (s', reply) := AddWhitelist(s, e, clear, f);
            && (reply == Conflict || reply == BadRequest ==> s' == s)
            && (reply == BadRequest <==> !ValidEntry(e))
            && (reply == Conflict <==>
                ValidEntry(e) && !clear && exists i :: 0 <= i < |s.bans| && CoversRow(e, s.bans[i]))
  {
    if ValidEntry(e) {
      CoveredIff(s.bans, e);
    }
  }

  /** The clearing that goes with a bare IPv4-mapped entry ends one IPv4 row at most; rows in `::/32` stay. */
  lemma MappedEntryClearsNoIPv6Row(bans: seq<BanEntry>, e: Entry, i: nat)
    requires MappedBare(e) && i in CoveredIds(bans, e)
    ensures i < |bans| && bans[i].ip == Of(Canon(e.lit)) && |Canon(e.lit)| == 4
  {
    assert String(e.lit) == Of(Canon(e.lit));
  }

  lemma MappedEntryKeepsRow(s: Sys, e: Entry, f: Faults, a: Address)
    requires MappedBare(e) && a in OverlapNet(ParseCIDR(e), s.bans)
    ensures HasRow(ClearLoop(s, CoveredIds(s.bans, e), f).0.bans, a)
  {
    ClearLoopRows(s, CoveredIds(s.bans, e), f);
    BareEntryCovers(e, a);
    var i :| 0 <= i < |s.bans| && InForce(s.bans[i]) && s.bans[i].ip.Of? && s.bans[i].ip.addr == a;
    if i in CoveredIds(s.bans, e) {
      MappedEntryClearsNoIPv6Row(s.bans, e, i);
    }
    var bans' := ClearLoop(s, CoveredIds(s.bans, e), f).0.bans;
    assert bans'[i] == s.bans[i];
  }

  lemma EntryWhitelists(s: Sys, e: Entry, clear: bool, f: Faults, a: Address)
    requires ValidEntry(e) && AddWhitelist(s, e, clear, f).1 == Created && s.dynamic == Nets(s.table)
    ensures Whitelisted(AddWhitelist(s, e, clear, f).0, a) <==> Whitelisted(s, a) || Contains(ParseCIDR(e), a)
  {
    ClearLoopRows(s, CoveredIds(s.bans, e), f);
    NetsAppend(s.table, e, a);
  }

  lemma MappedEntryExposes(s: Sys, cfg: Config, d: Drift, e: Entry, clear: bool, a: Address)
    requires Inv(s, cfg, d) && d.exposed == {} && MappedBare(e) && AddWhitelist(s, e, clear, NO_FAULTS).1 == Created
    ensures var s' := AddWhitelist(s, e, clear, NO_FAULTS).0;
            && (HasRow(s'.bans, a) && Whitelisted(s', a) <==> a in OverlapNet(ParseCIDR(e), s.bans))
            && (Whitelisted(s', Canon(e.lit)) <==> Whitelisted(s, Canon(e.lit)))
  {
    var s' := AddWhitelist(s, e, clear, NO_FAULTS).0;
    var d' := DriftStep(s, cfg, WhitelistAdd(e, clear), NO_FAULTS, d);
    AddWhitelistKeeps(s, cfg, d, e, clear, NO_FAULTS);
    assert AgreesAt(s', cfg, d', a);
    BareEntryCovers(e, Canon(e.lit));
    EntryWhitelists(s, e, clear, NO_FAULTS, Canon(e.lit));
    EntryWhitelists(s, e, clear, NO_FAULTS, a);
    if a in OverlapNet(ParseCIDR(e), s.bans) {
      MappedEntryKeepsRow(s, e, NO_FAULTS, a);
    }
  }

  /** A bare IPv4-mapped entry in colon form: after it is accepted while no current row is whitelisted, none is
      exactly when none had an IPv6 address in `::/32`; and the address it names is whitelisted only if
      it already was. */
  lemma MappedEntryDisjointIff(s: Sys, cfg: Config, d: Drift, e: Entry, clear: bool)
    requires Inv(s, cfg, d) && d.exposed == {} && MappedBare(e) && AddWhitelist(s, e, clear, NO_FAULTS).1 == Created
    ensures var s' := AddWhitelist(s, e, clear, NO_FAULTS).0;
            && ((forall a: Address :: !(HasRow(s'.bans, a) && Whitelisted(s', a))) <==>
                OverlapNet(ParseCIDR(e), s.bans) == {})
            && (Whitelisted(s', Canon(e.lit)) <==> Whitelisted(s, Canon(e.lit)))
  {
    var s' := AddWhitelist(s, e, clear, NO_FAULTS).0;
    var overlap := OverlapNet(ParseCIDR(e), s.bans);
    MappedEntryExposes(s, cfg, d, e, clear, Canon(e.lit));
    forall a: Address
      ensures HasRow(s'.bans, a) && Whitelisted(s', a) <==> a in overlap
    {
      MappedEntryExposes(s, cfg, d, e, clear, a);
    }
    if overlap != {} {
      var a: Address :| a in overlap;
      assert HasRow(s'.bans, a) && Whitelisted(s', a);
    }
  }

  /** Concretely: ::2 is banned, and whitelisting ::ffff:1.2.3.4 covers it. */
  lemma MappedEntryCanCoverARow()
    ensures exists s: Sys, cfg, e, a: Address ::
              Inv(s, cfg, NO_DRIFT) && MappedBare(e) && AddWhitelist(s, e, true, NO_FAULTS).1 == Created &&
              HasRow(AddWhitelist(s, e, true, NO_FAULTS).0.bans, a) &&
              Whitelisted(AddWhitelist(s, e, true, NO_FAULTS).0, a)
  {
    var cfg, e := Config([], 0, false, false), Bare([0, 0, 0, 0, 0, 0, 0, 0, 0, 0, 255, 255, 1, 2, 3, 4], "");
    var raw: IP := [0, 0, 0, 0, 0, 0, 0, 0, 0, 0, 0, 0, 0, 0, 0, 2];
    assert raw[10] == 0 && raw[15] == 2;
    var a: Address := raw;
    var s := OneRow(a, []);
    OneRowAgrees(cfg, a, []);
    assert e.lit[10] == 255 && e.lit[11] == 255 && MappedBare(e);
    assert raw[..4] == [0, 0, 0, 0];
    MappedEntryOverOneRow(e, a);
  }

  lemma MappedEntryOverOneRow(e: Entry, a: Address)
    requires MappedBare(e) && |a| == 16 && a[..4] == [0, 0, 0, 0]
    ensures var (s', reply) := AddWhitelist(OneRow(a, []), e, true, NO_FAULTS);
            reply == Created && HasRow(s'.bans, a) && Whitelisted(s', a)
  {
    var s := OneRow(a, []);
    assert |Canon(e.lit)| == 4;
    assert CoveredIds(s.bans, e) == [];
    var s' := AddWhitelist(s, e, true, NO_FAULTS).0;
    assert InForce(s'.bans[0]) && s'.bans[0].ip == Of(a);
    BareEntryCovers(e, a);
    NetsAppend([], e, a);
  }

  /** The bare-address path clears one row, so without the one-live-row clause it can leave another behind. */
  lemma BarePathNeedsOneLiveRow()
    ensures exists s, e, f :: AddWhitelist(s, e, true, f).1 == Created && e == Bare([1, 2, 3, 4], "") &&
                              HasRow(AddWhitelist(s, e, true, f).0.bans, [1, 2, 3, 4])
  {
    var row := BanEntry(Of([1, 2, 3, 4]), "manual", 0, 0, None, 1, Manual);
    var s := Sys([row, row], [], [], [], {}, KernelState([], {}, {}), IPTables, false);
    var e := Bare([1, 2, 3, 4], "");
    var id := FindLive(s.bans, row.ip);
    assert id == Some(1);
    assert CoveredIds(s.bans, e) == [1];
    assert ParseIP(row.ip)[10..] == [255, 255, 1, 2, 3, 4];
    ParsePrint([1, 2, 3, 4]);
    var (s1, ok) := Release(s, 1, ParseIP(row.ip), NO_FAULTS);
    assert ok && s1.bans[0] == row;
    assert ClearLoop(s, [1], NO_FAULTS) == (s1, true) by {
      assert [1][1..] == [];
      assert ClearLoop(s1, [], NO_FAULTS) == (s1, true);
    }
    var r := AddWhitelist(s, e, true, NO_FAULTS);
    assert r.1 == Created && InForce(r.0.bans[0]);
    assert HasRow(r.0.bans, [1, 2, 3, 4]);
  }

  // ---- reconcile ----

  /** Reconcile under arbitrary delete failures, on well-formed maps: it keeps every key a current, not whitelisted row
      needs, adds nothing, removes every other key whose delete succeeds, and repeating it changes nothing more. */
  lemma ReconcileBounds(s: Sys, f: Faults, a: Address)
    requires s.attached && WellFormed(s.kernel)
    ensures var s' := Reconcile(s, f); var wanted := HasRow(s.bans, a) && !Whitelisted(s, a);
            && (InXdp(s.kernel, a) && wanted ==> InXdp(s'.kernel, a))
            && (InXdp(s'.kernel, a) ==> InXdp(s.kernel, a))
            && (a !in f.xdp && !f.list ==> (InXdp(s'.kernel, a) <==> InXdp(s.kernel, a) && wanted))
            && (f.list ==> s' == s)
            && (InXdp(Reconcile(s', f).kernel, a) <==> InXdp(s'.kernel, a))
            && s' == s.(kernel := s'.kernel) && s'.kernel.chain == s.kernel.chain
  {
    ReconcileEffect(s, f, a);
    var s' := Reconcile(s, f);
    ReconcileEffect(s', f, a);
    assert Whitelisted(s', a) == Whitelisted(s, a);
  }

  /** Texts are compared, not keys. With no failures the pass keeps exactly the keys of current, not whitelisted rows
      when, and only when, the IPv6 map held no IPv4-mapped key: such a key prints as an IPv4 address, so it passes
      for a wanted one or is un-banned in the other map. */
  lemma ReconcileComparesKeysIff(s: Sys)
    requires s.attached && KeyWidths(s.kernel)
    ensures var k := Reconcile(s, NO_FAULTS).kernel;
            (forall x :: x in k.v4 + k.v6 <==>
               x in s.kernel.v4 + s.kernel.v6 && Canonical(x) && HasRow(s.bans, x) && !Whitelisted(s, x)) <==>
            !exists x :: x in s.kernel.v6 && Mapped(x)
  {
    var k := Reconcile(s, NO_FAULTS).kernel;
    forall x: Address
      ensures String(x) in Want(s) <==> HasRow(s.bans, x) && !Whitelisted(s, x)
    {
      WantedAddress(s, x);
    }
    if x :| x in s.kernel.v6 && Mapped(x) {
      assert x in k.v4 + k.v6 && !Canonical(x);
    }
  }

  lemma WantedAddress(s: Sys, a: Address)
    ensures String(a) in Want(s) <==> HasRow(s.bans, a) && !Whitelisted(s, a)
  {
    WhitelistSeesAddress(s, a);
    if HasRow(s.bans, a) && !Whitelisted(s, a) {
      var i :| 0 <= i < |s.bans| && InForce(s.bans[i]) && s.bans[i].ip == Of(a);
      assert s.bans[i].ip in Want(s);
    }
  }

  /** Concretely: a map that holds ::ffff:1.2.3.4 keeps it, with no row at all. */
  lemma MappedKeySurvives()
    ensures exists s: Sys, x: IP :: s.attached && KeyWidths(s.kernel) && s.bans == [] && x in s.kernel.v6 &&
                                    x in Reconcile(s, NO_FAULTS).kernel.v6
  {
    var x: IP := [0, 0, 0, 0, 0, 0, 0, 0, 0, 0, 255, 255, 1, 2, 3, 4];
    assert x[10] == 255 && x[11] == 255;
    var s := Sys([], [], [], [], {}, KernelState([], {}, {x}), BOTH, true);
    assert x in Reconcile(s, NO_FAULTS).kernel.v6;
  }

  /** With no failures, everything reconcile leaves is wanted exactly when the IPv6 map held no unwanted IPv4-mapped
      key: the text of such a key parses back to an IPv4 address, and the delete goes to the other map. */
  lemma ReconcileCompleteIffNoMappedKey(s: Sys)
    requires s.attached
    ensures var k := Reconcile(s, NO_FAULTS).kernel;
            (forall x | x in k.v4 + k.v6 :: String(x) in Want(s)) <==>
            !exists x :: x in s.kernel.v6 && Mapped(x) && String(x) !in Want(s)
  {
    var k := Reconcile(s, NO_FAULTS).kernel;
    if x :| x in s.kernel.v6 && Mapped(x) && String(x) !in Want(s) {
      assert x in k.v6;
    }
  }
}
