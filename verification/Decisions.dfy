/** What a threat leads to, told from the table and the configuration alone. */
module Decisions {
  import opened Addresses
  import opened Backends
  import opened BanStore
  import opened Lifecycle
  import opened LifecycleInvariant
  import opened Selections

  /** The address has a row that has not ended: active, manual or dry-run. */
  ghost predicate HasLiveRow(bans: seq<BanEntry>, t: Text) {
    exists i :: 0 <= i < |bans| && bans[i].ip == t && bans[i].status != Expired
  }

  /** The rows of an address from `since` on, ended or not, by position. */
  ghost function RowsSince(bans: seq<BanEntry>, t: Text, since: int): set<nat> {
    set i: nat | i < |bans| && bans[i].ip == t && bans[i].bannedAt >= since
  }

  function RowOf(t: Text, since: int): BanEntry -> bool {
    (b: BanEntry) => b.ip == t && b.bannedAt >= since
  }

  lemma {:induction false} CountSinceIsTally(bans: seq<BanEntry>, t: Text, since: int)
    ensures CountSince(bans, t, since) == Tally(bans, RowOf(t, since))
  {
    if bans != [] {
      CountSinceIsTally(bans[..|bans| - 1], t, since);
    }
  }

  lemma CountSinceIsCardinality(bans: seq<BanEntry>, t: Text, since: int)
    ensures CountSince(bans, t, since) == |RowsSince(bans, t, since)|
  {
    CountSinceIsTally(bans, t, since);
    TallyIsSize(bans, RowOf(t, since));
    assert Positions(bans, RowOf(t, since)) == RowsSince(bans, t, since);
  }

  lemma FindLiveMeans(bans: seq<BanEntry>, t: Text)
    ensures FindLive(bans, t).Some? <==> HasLiveRow(bans, t)
  {
  }

  /** The row a threat is recorded in: it counts the rows of its address within the cooldown, and itself, and lasts as
      long as the configuration says for that many. */
  ghost predicate RecordedFor(b: BanEntry, bans: seq<BanEntry>, cfg: Config, ip: IP, detector: string, now: int) {
    var n := |RowsSince(bans, String(ip), now - cfg.cooldown)|;
    && b.ip == String(ip) && b.detector == detector && b.bannedAt == now
    && b.status == (if cfg.dryRun then DryRun else Active)
    && b.banCount == n + 1
    && b.duration == (if cfg.durations == [] then 300
                      else if n < |cfg.durations| then cfg.durations[n] else cfg.durations[|cfg.durations| - 1])
    && b.expiresAt == (if b.duration > 0 then Some(now + b.duration) else None)
  }

  /** A threat from a whitelisted address, or from one with a live row, changes nothing. Any other is recorded in
      exactly one new row, repeat offenders included; in dry-run mode that is all. */
  lemma ThreatIsRecorded(s: Sys, cfg: Config, ip: IP, detector: string, now: int, f: Faults)
    ensures var s' := HandleThreat(s, cfg, ip, detector, now, f); var n := |s.bans|;
            if Whitelisted(s, ip) || HasLiveRow(s.bans, String(ip)) then s' == s
            else
              && |s'.bans| == n + 1 && s'.bans[..n] == s.bans
              && RecordedFor(s'.bans[n], s.bans, cfg, ip, detector, now)
              && s' == s.(bans := s'.bans, kernel := s'.kernel)
              && (cfg.dryRun ==> s'.kernel == s.kernel)
  {
    FindLiveMeans(s.bans, String(ip));
    CountSinceIsCardinality(s.bans, String(ip), now - cfg.cooldown);
  }

  /** Outside dry-run mode, the address is then on every backend in use that does not fail there (iptables holds IPv4
      only), and nothing changes for any other address. */
  lemma ThreatIsEnforced(s: Sys, cfg: Config, ip: IP, detector: string, now: int, f: Faults, a: Address)
    requires Shape(s, cfg) && Valid(ip) && !cfg.dryRun
    requires !Whitelisted(s, ip) && !HasLiveRow(s.bans, String(ip))
    ensures var k' := HandleThreat(s, cfg, ip, detector, now, f).kernel;
            && (a == Canon(ip) && a !in f.xdp && s.attached ==> InXdp(k', a))
            && (a == Canon(ip) && a !in f.check + f.edit && |a| == 4 && !(s.attached && cfg.standalone) ==>
                  a in k'.chain)
            && (a != Canon(ip) ==>
                  Count(k'.chain, a) == Count(s.kernel.chain, a) && (InXdp(k', a) <==> InXdp(s.kernel, a)))
  {
    FindLiveMeans(s.bans, String(ip));
    var k' := HandleThreat(s, cfg, ip, detector, now, f).kernel;
    BanEffect(s.kernel, s.enforcer, ip, f, a);
    CountMember(k'.chain, a);
  }
}
