/** The management API's handlers for bans and the dynamic whitelist. */
module Api {
  import opened Addresses
  import opened Backends
  import opened BanStore
  import Lifecycle
  import Daemon

  class Server {
    const daemon: Daemon.Daemon

    constructor (daemon: Daemon.Daemon)
      ensures this.daemon == daemon
    {
      this.daemon := daemon;
    }

    method HandleCreateBan(ip: IP, dur: Option<int>, now: int, f: Faults) returns (reply: Lifecycle.Reply)
      requires daemon.Valid()
      modifies daemon.store`bans, daemon.kernel
      ensures (daemon.View(), reply) == Lifecycle.CreateBan(old(daemon.View()), ip, dur, now, f)
    {
      if ip == [] {
        return Lifecycle.BadRequest;
      }
      var white := daemon.whitelist.ContainsIP(ip);
      if white {
        return Lifecycle.Conflict;
      }
      var existing := FindLive(daemon.store.bans, String(ip));
      if existing.Some? {
        return Lifecycle.Conflict;
      }
      if dur.None? {
        return Lifecycle.BadRequest;
      }
      var expiresAt := if dur.value > 0 then Some(now + dur.value) else None;
      var id := daemon.store.CreateBan(BanEntry(String(ip), "manual", now, dur.value, expiresAt, 1, Manual));
      var ok := daemon.kernel.BanWith(daemon.enforcer, ip, f);
      if !ok {
        daemon.store.UpdateBanStatusExpired(id);
        return Lifecycle.ServerError;
      }
      return Lifecycle.Created;
    }

    /** Un-ban first; only then the row. */
    method Release(id: nat, ip: IP, f: Faults) returns (ok: bool)
      requires id < |daemon.store.bans|
      modifies daemon.store`bans, daemon.kernel
      ensures (daemon.View(), ok) == Lifecycle.Release(old(daemon.View()), id, ip, f)
      ensures |daemon.store.bans| == |old(daemon.store.bans)|
      ensures forall k | 0 <= k < |daemon.store.bans| && k != id :: daemon.store.bans[k] == old(daemon.store.bans)[k]
    {
      if daemon.store.bans[id].status != DryRun {
        ok := daemon.kernel.UnbanWith(daemon.enforcer, ip, f);
        if !ok {
          return false;
        }
      }
      daemon.store.UpdateBanStatusExpired(id);
      return true;
    }

    method HandleDeleteBan(ip: IP, f: Faults) returns (reply: Lifecycle.Reply)
      modifies daemon.store`bans, daemon.kernel
      ensures (daemon.View(), reply) == Lifecycle.DeleteBan(old(daemon.View()), ip, f)
    {
      if ip == [] {
        return Lifecycle.BadRequest;
      }
      var ban := FindLive(daemon.store.bans, String(ip));
      if ban.None? {
        return Lifecycle.NotFound;
      }
      var ok := Release(ban.value, ip, f);
      return if ok then Lifecycle.Done else Lifecycle.ServerError;
    }

    /** An exact match for a bare address; for a CIDR, a scan of the current rows, newest first. */
    method CurrentBansCoveredBy(e: Entry) returns (ids: seq<nat>)
      requires ValidEntry(e)
      ensures ids == Lifecycle.CoveredIds(daemon.store.bans, e)
    {
      var bans := daemon.store.bans;
      if e.Bare? {
        var ban := FindLive(bans, String(e.lit));
        return if ban.Some? then [ban.value] else [];
      }
      ids := ScanInside(bans, ParseCIDR(e), CurrentIds(bans, |bans|));
    }

    method ScanInside(bans: seq<BanEntry>, net: IPNet, current: seq<nat>) returns (ids: seq<nat>)
      requires forall j | 0 <= j < |current| :: current[j] < |bans|
      ensures ids == InsideIds(bans, net, current)
    {
      ids := [];
      for i := 0 to |current|
        invariant ids == InsideIds(bans, net, current[..i])
      {
        assert current[..i + 1][..i] == current[..i];
        var t := bans[current[i]].ip;
        if t.Of? && Contains(net, ParseIP(t)) {
          ids := ids + [current[i]];
        }
      }
      assert current[..|current|] == current;
    }

    /** The rows in a snapshot, one by one; the first enforcer error stops. */
    method ClearCovered(ids: seq<nat>, f: Faults) returns (ok: bool)
      requires forall j | 0 <= j < |ids| :: ids[j] < |daemon.store.bans|
      requires forall i, j | 0 <= i < j < |ids| :: ids[i] != ids[j]
      modifies daemon.store`bans, daemon.kernel
      ensures (daemon.View(), ok) == Lifecycle.ClearLoop(old(daemon.View()), ids, f)
    {
      var rows := daemon.store.bans;
      for i := 0 to |ids|
        invariant |daemon.store.bans| == |rows|
        invariant forall j | i <= j < |ids| :: daemon.store.bans[ids[j]] == rows[ids[j]]
        invariant Lifecycle.ClearLoop(daemon.View(), ids[i..], f) == Lifecycle.ClearLoop(old(daemon.View()), ids, f)
      {
        assert ids[i..][1..] == ids[i + 1..];
        var t := rows[ids[i]].ip;
        if t.Of? {
          var one := Release(ids[i], ParseIP(t), f);
          if !one {
            return false;
          }
        }
      }
      return true;
    }

    method HandleAddWhitelist(e: Entry, clear: bool, f: Faults) returns (reply: Lifecycle.Reply)
      requires daemon.Valid()
      modifies daemon.store, daemon.kernel, daemon.whitelist`dynamic
      ensures (daemon.View(), reply) == Lifecycle.AddWhitelist(old(daemon.View()), e, clear, f)
    {
      if !ValidEntry(e) {
        return Lifecycle.BadRequest;
      }
      var ids := CurrentBansCoveredBy(e);
      if |ids| > 0 && !clear {
        return Lifecycle.Conflict;
      }
      var ok := ClearCovered(ids, f);
      if !ok {
        return Lifecycle.ServerError;
      }
      var added := daemon.store.AddWhitelist(e);
      if !added {
        assert daemon.store.whitelist == old(daemon.store.whitelist);
        return Lifecycle.ServerError;
      }
      daemon.whitelist.ReloadDynamic();
      return Lifecycle.Created;
    }

    method HandleRemoveWhitelist(e: Entry)
      requires daemon.Valid()
      modifies daemon.store`whitelist, daemon.whitelist`dynamic
      ensures daemon.View() == Lifecycle.RemoveWhitelist(old(daemon.View()), e)
    {
      daemon.store.RemoveWhitelist(e);
      daemon.whitelist.ReloadDynamic();
    }
  }
}
