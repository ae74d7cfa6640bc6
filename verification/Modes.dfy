/** Which backend a step can touch in which mode. */
module Modes {
  import opened Addresses
  import opened Backends
  import opened BanStore
  import opened Lifecycle
  import opened LifecycleInvariant
  import opened LifecycleTheorems

  /** The kill switch drops the XDP handle and falls back to iptables; tables, whitelist, chain and maps stay. */
  lemma KillSwitchMeans(s: Sys, cfg: Config, f: Faults)
    requires Shape(s, cfg)
    ensures Step(s, cfg, KillSwitch, f) == s.(attached := false, enforcer := IPTables)
  {
  }

  lemma IptablesLeavesMaps(k: KernelState, ip: IP, f: Faults)
    ensures var b, u := Ban(k, IPTables, ip, f).0, Unban(k, IPTables, ip, f).0;
            b.v4 == u.v4 == k.v4 && b.v6 == u.v6 == k.v6
  {
  }

  lemma XdpLeavesChain(k: KernelState, ip: IP, f: Faults)
    ensures Ban(k, Xdp, ip, f).0.chain == k.chain && Unban(k, Xdp, ip, f).0.chain == k.chain
  {
  }

  /** The mode stays, and the backend that is not in use stays as it is. */
  ghost predicate LeavesOther(s: Sys, s': Sys) {
    && s'.enforcer == s.enforcer && s'.attached == s.attached
    && (s.enforcer == IPTables ==> s'.kernel.v4 == s.kernel.v4 && s'.kernel.v6 == s.kernel.v6)
    && (s.enforcer == Xdp ==> s'.kernel.chain == s.kernel.chain)
  }

  lemma {:induction false} ExpireLoopLeavesOther(s: Sys, ids: seq<nat>, f: Faults)
    requires ValidIds(s, ids)
    ensures LeavesOther(s, ExpireLoop(s, ids, f))
    decreases |ids|
  {
    if ids != [] {
      ExpireLoopLeavesOther(ExpireOne(s, ids[0], f), ids[1..], f);
    }
  }

  lemma {:induction false} ClearLoopLeavesOther(s: Sys, ids: seq<nat>, f: Faults)
    requires ValidIds(s, ids)
    ensures LeavesOther(s, ClearLoop(s, ids, f).0)
    decreases |ids|
  {
    if ids != [] {
      if s.bans[ids[0]].ip.Other? {
        ClearLoopLeavesOther(s, ids[1..], f);
      } else {
        var (s1, ok) := Release(s, ids[0], ParseIP(s.bans[ids[0]].ip), f);
        if ok {
          ClearLoopLeavesOther(s1, ids[1..], f);
        }
      }
    }
  }

  lemma ThreatLeavesOther(s: Sys, cfg: Config, ip: IP, detector: string, now: int, f: Faults)
    ensures LeavesOther(s, HandleThreat(s, cfg, ip, detector, now, f))
  {
    IptablesLeavesMaps(s.kernel, ip, f);
    XdpLeavesChain(s.kernel, ip, f);
  }

  lemma CreateLeavesOther(s: Sys, ip: IP, dur: Option<int>, now: int, f: Faults)
    ensures LeavesOther(s, CreateBan(s, ip, dur, now, f).0)
  {
    IptablesLeavesMaps(s.kernel, ip, f);
    XdpLeavesChain(s.kernel, ip, f);
  }

  lemma DeleteLeavesOther(s: Sys, ip: IP, f: Faults)
    ensures LeavesOther(s, DeleteBan(s, ip, f).0)
  {
    IptablesLeavesMaps(s.kernel, ip, f);
    XdpLeavesChain(s.kernel, ip, f);
  }

  lemma AddLeavesOther(s: Sys, e: Entry, clear: bool, f: Faults)
    ensures LeavesOther(s, AddWhitelist(s, e, clear, f).0)
  {
    if ValidEntry(e) {
      ClearLoopLeavesOther(s, CoveredIds(s.bans, e), f);
    }
  }

  /** Between restarts and kill switches: on iptables alone no step touches the maps, standalone on XDP no step touches
      the chain. */
  lemma StepLeavesOther(s: Sys, cfg: Config, ev: Event, f: Faults)
    requires Shape(s, cfg) && !ev.Restart? && !ev.KillSwitch?
    ensures LeavesOther(s, Step(s, cfg, ev, f))
  {
    match ev
    case Threat(ip, detector, now) => ThreatLeavesOther(s, cfg, ip, detector, now, f);
    case ManualBan(ip, dur, now) => CreateLeavesOther(s, ip, dur, now, f);
    case ManualUnban(ip) => DeleteLeavesOther(s, ip, f);
    case WhitelistAdd(e, clear) => AddLeavesOther(s, e, clear, f);
    case Tick(now) => ExpireLoopLeavesOther(s, DueIds(s.bans, now, |s.bans|), f);
    case _ =>
  }

  ghost predicate Between(tr: Trace) {
    forall i | 0 <= i < |tr| :: !tr[i].0.Restart? && !tr[i].0.KillSwitch?
  }

  lemma {:induction false} RunLeavesOther(s: Sys, cfg: Config, d: Drift, tr: Trace)
    requires Inv(s, cfg, d) && Between(tr)
    ensures LeavesOther(s, Run(s, cfg, tr))
  {
    if tr != [] {
      var n := |tr| - 1;
      RunLeavesOther(s, cfg, d, tr[..n]);
      RunKeepsInv(s, cfg, tr[..n], d);
      StepLeavesOther(Run(s, cfg, tr[..n]), cfg, tr[n].0, tr[n].1);
    }
  }

  /** After the kill switch, whatever follows until the next restart: the pinned maps stay as they were, and the chain
      follows the current rows at every address outside the ledger. */
  lemma KillSwitchFreezesMaps(s: Sys, cfg: Config, d: Drift, tr: Trace, f: Faults, a: Address)
    requires Inv(s, cfg, d) && Between(tr)
    ensures var s0 := Step(s, cfg, KillSwitch, f); var s' := Run(s0, cfg, tr);
            && !s'.attached && s'.enforcer == IPTables
            && s'.kernel.v4 == s.kernel.v4 && s'.kernel.v6 == s.kernel.v6
            && (!cfg.standalone && |a| == 4 && a !in DriftRun(s0, cfg, tr, d).base ==>
                  Count(s'.kernel.chain, a) == if HasRow(s'.bans, a) then 1 else 0)
  {
    var s0 := Step(s, cfg, KillSwitch, f);
    StepKeepsInv(s, cfg, d, KillSwitch, f);
    KillSwitchMeans(s, cfg, f);
    RunLeavesOther(s0, cfg, d, tr);
    RunKeepsInv(s0, cfg, tr, d);
    assert AgreesAt(Run(s0, cfg, tr), cfg, DriftRun(s0, cfg, tr, d), a);
  }

  /** Standalone on XDP, the iptables chain is never touched between restarts and kill switches. */
  lemma StandaloneLeavesChain(s: Sys, cfg: Config, d: Drift, tr: Trace)
    requires Inv(s, cfg, d) && cfg.standalone && s.attached && Between(tr)
    ensures Run(s, cfg, tr).kernel.chain == s.kernel.chain
  {
    RunLeavesOther(s, cfg, d, tr);
  }
}
