/** The objects that carry out the lifecycle: whitelist, decision engine, daemon and API server. Each method is proved
    to be the step of the same name in `Lifecycle`. */
module Daemon {
  import opened Addresses
  import opened Backends
  import opened BanStore
  import Lifecycle

  class Whitelist {
    const store: Store
    var fixed: seq<IPNet>
    var dynamic: seq<IPNet>
    var local: set<Address>

    constructor (store: Store, fixed: seq<IPNet>, local: set<Address>)
      ensures this.store == store && this.fixed == fixed && this.local == local
      ensures dynamic == Lifecycle.Nets(store.whitelist)
    {
      this.store, this.fixed, this.dynamic, this.local := store, fixed, [], local;
      new;
      ReloadDynamic();
    }

    method ContainsIP(ip: IP) returns (found: bool)
      ensures found <==> Lifecycle.Listed(local, fixed, dynamic, ip)
    {
      if Lifecycle.IsLocal(local, ip) {
        return true;
      }
      for i := 0 to |fixed|
        invariant !Lifecycle.Covers(fixed[..i], ip)
      {
        assert fixed[..i + 1][..i] == fixed[..i];
        if Contains(fixed[i], ip) {
          CoversPrefix(fixed, i + 1, ip);
          return true;
        }
      }
      for i := 0 to |dynamic|
        invariant !Lifecycle.Covers(dynamic[..i], ip)
      {
        assert dynamic[..i + 1][..i] == dynamic[..i];
        if Contains(dynamic[i], ip) {
          CoversPrefix(dynamic, i + 1, ip);
          return true;
        }
      }
      assert fixed[..|fixed|] == fixed && dynamic[..|dynamic|] == dynamic;
      return false;
    }

    method ReloadStatic(nets: seq<IPNet>)
      modifies `fixed
      ensures fixed == nets
    {
      fixed := nets;
    }

    method ReloadDynamic()
      modifies `dynamic
      ensures dynamic == Lifecycle.Nets(store.whitelist)
    {
      var nets := [];
      for i := 0 to |store.whitelist|
        invariant nets == Lifecycle.Nets(store.whitelist[..i])
      {
        nets := nets + [ParseCIDR(store.whitelist[i])];
      }
      assert store.whitelist[..|store.whitelist|] == store.whitelist;
      dynamic := nets;
    }

    method SetLocal(addrs: set<Address>)
      modifies `local
      ensures local == addrs
    {
      local := addrs;
    }
  }

  lemma {:induction false} CoversPrefix(nets: seq<IPNet>, k: nat, ip: IP)
    requires k <= |nets| && Lifecycle.Covers(nets[..k], ip)
    ensures Lifecycle.Covers(nets, ip)
    decreases |nets| - k
  {
    if k == |nets| {
      assert nets[..k] == nets;
    } else {
      assert nets[..k + 1][..k] == nets[..k];
      CoversPrefix(nets, k + 1, ip);
    }
  }

  datatype BanAction = BanAction(ip: IP, duration: int, banCount: nat)

  class Engine {
    const store: Store
    const whitelist: Whitelist
    const durations: seq<int>
    const cooldown: int
    var dryRun: bool

    constructor (store: Store, whitelist: Whitelist, cfg: Lifecycle.Config)
      ensures this.store == store && this.whitelist == whitelist && Configured(cfg)
    {
      this.store, this.whitelist := store, whitelist;
      durations, cooldown, dryRun := cfg.durations, cfg.cooldown, cfg.dryRun;
    }

    predicate Configured(cfg: Lifecycle.Config)
      reads this
    {
      durations == cfg.durations && cooldown == cfg.cooldown && dryRun == cfg.dryRun
    }

    method Evaluate(cfg: Lifecycle.Config, ip: IP, detector: string, now: int) returns (r: Option<BanAction>)
      requires Configured(cfg)
      modifies store`bans
      ensures var white := Lifecycle.Listed(whitelist.local, whitelist.fixed, whitelist.dynamic, ip);
              match Lifecycle.Evaluate(old(store.bans), cfg, white, ip, detector, now)
              case None => r.None? && store.bans == old(store.bans)
              case Some(row) =>
                r == Some(BanAction(ip, row.duration, row.banCount)) && store.bans == old(store.bans) + [row]
    {
      var white := whitelist.ContainsIP(ip);
      if white {
        return None;
      }
      var existing := FindLive(store.bans, String(ip));
      if existing.Some? {
        return None;
      }
      var prior := CountSince(store.bans, String(ip), now - cooldown);
      var duration := Lifecycle.DurationFor(durations, prior);
      var expiresAt := if duration > 0 then Some(now + duration) else None;
      var status := if dryRun then DryRun else Active;
      var _ := store.CreateBan(BanEntry(String(ip), detector, now, duration, expiresAt, prior + 1, status));
      return Some(BanAction(ip, duration, prior + 1));
    }
  }

  class Daemon {
    const cfg: Lifecycle.Config
    const store: Store
    const kernel: Kernel
    const whitelist: Whitelist
    const engine: Engine
    var enforcer: Enforcer
    var attached: bool
    var lastReconcileRemoved: nat

    function View(): Lifecycle.Sys
      reads this, store, whitelist, kernel
    {
      Lifecycle.Sys(store.bans, store.whitelist, whitelist.fixed, whitelist.dynamic, whitelist.local, kernel.State(),
                    enforcer, attached)
    }

    predicate Valid()
      reads this, engine
    {
      whitelist.store == store && engine.store == store && engine.whitelist == whitelist && engine.Configured(cfg)
    }

    /** Startup over the tables and kernel state a previous run left behind. */
    constructor Start(cfg: Lifecycle.Config, store: Store, kernel: Kernel, fixed: seq<IPNet>, local: set<Address>,
                      attached: bool, f: Faults)
      requires KeyWidths(kernel.State())
      modifies store, kernel
      ensures Valid() && this.store == store && this.kernel == kernel && fresh(whitelist) && fresh(engine)
      ensures var left := Lifecycle.Sys(old(store.bans), old(store.whitelist), [], [], {}, old(kernel.State()),
                                        IPTables, false);
              View() == Lifecycle.Start(left, cfg, fixed, local, attached, f)
    {
      var wl := new Whitelist(store, fixed, local);
      var eng := new Engine(store, wl, cfg);
      this.cfg, this.store, this.kernel, this.whitelist, this.engine := cfg, store, kernel, wl, eng;
      enforcer := Lifecycle.EnforcerFor(cfg, attached);
      this.attached := attached;
      lastReconcileRemoved := 0;
      new;
      ReconcileXdp(f);
      RestoreBans(f);
    }

    method HandleThreat(ip: IP, detector: string, now: int, f: Faults)
      requires Valid()
      modifies store`bans, kernel
      ensures View() == Lifecycle.HandleThreat(old(View()), cfg, ip, detector, now, f)
    {
      var action := engine.Evaluate(cfg, ip, detector, now);
      if action.Some? && !engine.dryRun {
        var _ := kernel.BanWith(enforcer, action.value.ip, f);
      }
    }

    /** One tick over a snapshot of the due rows: the row is marked whatever the enforcer answers. */
    method ExpiryTick(now: int, f: Faults)
      modifies store`bans, kernel
      ensures View() == Lifecycle.ExpiryTick(old(View()), now, f)
    {
      var rows := store.bans;
      var ids := DueIds(rows, now, |rows|);
      for i := 0 to |ids|
        invariant |store.bans| == |rows|
        invariant forall j | i <= j < |ids| :: store.bans[ids[j]] == rows[ids[j]]
        invariant Lifecycle.ExpireLoop(View(), ids[i..], f) == Lifecycle.ExpireLoop(old(View()), ids, f)
        invariant enforcer == old(enforcer)
      {
        ghost var before := View();
        var ban := rows[ids[i]];
        store.UpdateBanStatusExpired(ids[i]);
        if ban.status != DryRun {
          var _ := kernel.UnbanWith(enforcer, ParseIP(ban.ip), f);
        }
        assert View() == Lifecycle.ExpireOne(before, ids[i], f);
        assert ids[i..][1..] == ids[i + 1..];
      }
    }

    method WantedTexts() returns (want: set<Text>)
      ensures want == Lifecycle.Want(View())
    {
      var ids := CurrentIds(store.bans, |store.bans|);
      want := {};
      for i := 0 to |ids|
        invariant want == Lifecycle.WantAmong(View(), ids[..i])
      {
        assert ids[..i + 1][..i] == ids[..i];
        var t := store.bans[ids[i]].ip;
        if t.Of? {
          var white := whitelist.ContainsIP(ParseIP(t));
          if !white {
            want := want + {String(ParseIP(t))};
            ParsePrint(t.addr);
            assert String(t.addr) == t;
          }
        }
      }
      assert ids[..|ids|] == ids;
      Lifecycle.WantFromIds(View());
    }

    /** Un-ban what a listed text parses to. */
    method DeleteListed(t: Text, f: Faults)
      requires KeyWidths(kernel.State())
      modifies kernel
      ensures kernel.chain == old(kernel.chain) && KeyWidths(kernel.State())
      ensures kernel.v4 == Without(old(kernel.v4), t, f) && kernel.v6 == Without(old(kernel.v6), t, f)
    {
      ListedKey(t);
      var _ := kernel.XdpUnbanOne(ParseIP(t), f);
    }

    /** Delete every listed key that is not wanted. */
    method RemoveUnwanted(have: seq<Text>, want: set<Text>, f: Faults) returns (removed: nat)
      requires KeyWidths(kernel.State())
      modifies kernel
      ensures kernel.chain == old(kernel.chain)
      ensures kernel.v4 == Kept(old(kernel.v4), have, want, f) && kernel.v6 == Kept(old(kernel.v6), have, want, f)
      ensures removed == 0 <==> forall j | 0 <= j < |have| :: have[j] in want
    {
      removed := 0;
      ghost var v4, v6 := kernel.v4, kernel.v6;
      KeptOfNothing(v4, want, f);
      KeptOfNothing(v6, want, f);
      for i := 0 to |have|
        invariant kernel.chain == old(kernel.chain) && KeyWidths(kernel.State())
        invariant kernel.v4 == Kept(v4, have[..i], want, f) && kernel.v6 == Kept(v6, have[..i], want, f)
        invariant removed == 0 <==> forall j | 0 <= j < i :: have[j] in want
      {
        assert have[..i + 1] == have[..i] + [have[i]];
        KeptSnoc(v4, have[..i], have[i], want, f);
        KeptSnoc(v6, have[..i], have[i], want, f);
        if have[i] !in want {
          DeleteListed(have[i], f);
          removed := removed + 1;
        }
      }
      assert have[..|have|] == have;
    }

    /** Reads the wanted texts, lists the maps, deletes what is listed and not wanted; an error of the listing ends the
        pass. */
    method ReconcileXdp(f: Faults)
      requires KeyWidths(kernel.State())
      modifies kernel, `lastReconcileRemoved
      ensures View() == Lifecycle.Reconcile(old(View()), f)
      ensures !attached || f.list ==> lastReconcileRemoved == old(lastReconcileRemoved)
      ensures attached && !f.list ==>
                (lastReconcileRemoved == 0 <==>
                 forall x | x in old(kernel.v4) + old(kernel.v6) :: String(x) in Lifecycle.Want(old(View())))
    {
      if !attached {
        return;
      }
      var want := WantedTexts();
      var listed := kernel.List(f);
      if listed.None? {
        return;
      }
      var have := listed.value;
      ghost var k := kernel.State();
      var removed := RemoveUnwanted(have, want, f);
      lastReconcileRemoved := removed;
      KeptOfAll(k, have, want, f);
      assert removed == 0 <==> forall t | t in have :: t in want;
    }

    /** One restored row: ended if whitelisted by now, otherwise banned again, whatever the enforcer answers. */
    method RestoreRow(id: nat, ban: BanEntry, f: Faults)
      requires Valid() && id < |store.bans| && store.bans[id] == ban
      modifies store`bans, kernel
      ensures View() == Lifecycle.RestoreOne(old(View()), id, f)
      ensures |store.bans| == |old(store.bans)|
      ensures forall k | 0 <= k < |store.bans| && k != id :: store.bans[k] == old(store.bans)[k]
    {
      var ip := ParseIP(ban.ip);
      if ip == [] {
        return;
      }
      var white := whitelist.ContainsIP(ip);
      if white {
        store.UpdateBanStatusExpired(id);
      } else {
        var _ := kernel.BanWith(enforcer, ip, f);
      }
    }

    method RestoreBans(f: Faults)
      requires Valid()
      modifies store`bans, kernel
      ensures View() == Lifecycle.Restore(old(View()), f)
    {
      var rows := store.bans;
      var ids := CurrentIds(rows, |rows|);
      for i := 0 to |ids|
        invariant |store.bans| == |rows|
        invariant forall j | i <= j < |ids| :: store.bans[ids[j]] == rows[ids[j]]
        invariant Lifecycle.RestoreLoop(View(), ids[i..], f) == Lifecycle.RestoreLoop(old(View()), ids, f)
      {
        assert ids[i..][1..] == ids[i + 1..];
        RestoreRow(ids[i], rows[ids[i]], f);
      }
    }

    method DetachXdp()
      modifies `enforcer, `attached
      ensures View() == Lifecycle.DetachXdp(old(View()))
    {
      if attached {
        attached, enforcer := false, IPTables;
      }
    }
  }

  /** The keys left once a text has been un-banned: it reaches no IPv4-mapped key. */
  function Without(keys: set<IP>, t: Text, f: Faults): set<IP> {
    set x | x in keys && (String(x) != t || x in f.xdp || Mapped(x))
  }

  /** The keys left once every unwanted text listed has been un-banned. */
  function Kept(keys: set<IP>, have: seq<Text>, want: set<Text>, f: Faults): set<IP> {
    set x | x in keys && (String(x) in want || String(x) !in have || x in f.xdp || Mapped(x))
  }

  lemma KeptOfNothing(keys: set<IP>, want: set<Text>, f: Faults)
    ensures Kept(keys, [], want, f) == keys
  {
  }

  lemma KeptSnoc(keys: set<IP>, have: seq<Text>, t: Text, want: set<Text>, f: Faults)
    ensures Kept(keys, have + [t], want, f) ==
            if t in want then Kept(keys, have, want, f) else Without(Kept(keys, have, want, f), t, f)
  {
    forall x: IP
      ensures String(x) in have + [t] <==> String(x) in have || String(x) == t
    {
    }
  }

  /** After the whole listing, what is left is what reconcile leaves. */
  lemma KeptOfAll(k: KernelState, have: seq<Text>, want: set<Text>, f: Faults)
    requires KeyWidths(k) && forall t :: t in have <==> exists x | x in k.v4 + k.v6 :: String(x) == t
    ensures Kept(k.v4, have, want, f) == set x | x in k.v4 && (String(x) in want || x in f.xdp)
    ensures Kept(k.v6, have, want, f) == set x | x in k.v6 && (String(x) in want || x in f.xdp || Mapped(x))
    ensures (forall t | t in have :: t in want) <==> forall x | x in k.v4 + k.v6 :: String(x) in want
  {
    assert forall x | x in k.v4 + k.v6 :: String(x) in have;
  }

  /** A listed text names one key: an IPv4 address its four bytes, an IPv6 address its sixteen. */
  lemma ListedKey(t: Text)
    ensures t.Of? ==> V4Key(ParseIP(t)) == (if |t.addr| == 4 then Some(t.addr) else None)
    ensures t.Of? ==> V6Key(ParseIP(t)) == (if |t.addr| == 16 then Some(t.addr) else None)
    ensures forall x: IP | |x| == 4 :: String(x) == Of(x)
    ensures forall x: IP | |x| == 16 && !Mapped(x) :: String(x) == Of(x)
    ensures forall x: IP | Mapped(x) :: String(x).Of? && |String(x).addr| == 4
  {
    if t.Of? {
      ParsePrint(t.addr);
      assert String(t.addr) == t;
      KeysRouteEachAddressOnce(t.addr);
    }
  }
}
