/** The ban lifecycle: one value for everything that records who is banned, and every handler as one step on it. */
module Lifecycle {
  import opened Addresses
  import opened Backends
  import opened BanStore

  datatype Config = Config(durations: seq<int>, cooldown: int, dryRun: bool, standalone: bool)

  /** `fixed` and `dynamic` are the parsed static and dynamic whitelists, `table` the stored dynamic entries; `attached`
      says the daemon holds an XDP handle. */
  datatype Sys = Sys(bans: seq<BanEntry>, table: seq<TableEntry>, fixed: seq<IPNet>, dynamic: seq<IPNet>,
                     local: set<Address>, kernel: KernelState, enforcer: Enforcer, attached: bool)

  datatype Reply = Created | Done | BadRequest | NotFound | Conflict | ServerError

  // ---- whitelist ----

  predicate IsLocal(local: set<Address>, ip: IP) {
    IsLoopback(ip) || (Valid(ip) && Canon(ip) in local)
  }

  predicate Covers(nets: seq<IPNet>, ip: IP) {
    var n := |nets| - 1;
    nets != [] && (Covers(nets[..n], ip) || Contains(nets[n], ip))
  }

  predicate Listed(local: set<Address>, fixed: seq<IPNet>, dynamic: seq<IPNet>, ip: IP) {
    IsLocal(local, ip) || Covers(fixed, ip) || Covers(dynamic, ip)
  }

  predicate Whitelisted(s: Sys, ip: IP) {
    Listed(s.local, s.fixed, s.dynamic, ip)
  }

  /** `ReloadDynamic` parses the table. */
  function Nets(table: seq<TableEntry>): seq<IPNet> {
    seq(|table|, i requires 0 <= i < |table| => ParseCIDR(table[i]))
  }

  // ---- enforcer in use ----

  function EnforcerFor(cfg: Config, attached: bool): Enforcer {
    if !attached then IPTables else if cfg.standalone then Xdp else BOTH
  }

  function EnforceBan(s: Sys, ip: IP, f: Faults): (Sys, bool) {
    var (k, ok) := Ban(s.kernel, s.enforcer, ip, f);
    (s.(kernel := k), ok)
  }

  function EnforceUnban(s: Sys, ip: IP, f: Faults): (Sys, bool) {
    var (k, ok) := Unban(s.kernel, s.enforcer, ip, f);
    (s.(kernel := k), ok)
  }

  // ---- decision ----

  const DEFAULT_DURATION := 300

  function DurationFor(durations: seq<int>, prior: nat): int {
    if durations == [] then DEFAULT_DURATION
    else durations[if prior >= |durations| then |durations| - 1 else prior]
  }

  function NewBan(ip: Text, detector: string, now: int, duration: int, banCount: nat, status: Status): BanEntry {
    BanEntry(ip, detector, now, duration, if duration > 0 then Some(now + duration) else None, banCount, status)
  }

  /** `Engine.Evaluate`: the row it records, if it decides to ban. */
  function Evaluate(bans: seq<BanEntry>, cfg: Config, whitelisted: bool, ip: IP, detector: string, now: int)
    : Option<BanEntry>
  {
    if whitelisted || FindLive(bans, String(ip)).Some? then None
    else
      var prior := CountSince(bans, String(ip), now - cfg.cooldown);
      Some(NewBan(String(ip), detector, now, DurationFor(cfg.durations, prior), prior + 1,
                  if cfg.dryRun then DryRun else Active))
  }

  function HandleThreat(s: Sys, cfg: Config, ip: IP, detector: string, now: int, f: Faults): Sys {
    match Evaluate(s.bans, cfg, Whitelisted(s, ip), ip, detector, now)
    case None => s
    case Some(row) =>
      var s1 := s.(bans := s.bans + [row]);
      if cfg.dryRun then s1 else EnforceBan(s1, ip, f).0
  }

  // ---- management API ----

  /** `ip` is the parsed request address, `[]` when it does not parse; `dur` is `None` when it does not parse. */
  function CreateBan(s: Sys, ip: IP, dur: Option<int>, now: int, f: Faults): (Sys, Reply) {
    if ip == [] then (s, BadRequest)
    else if Whitelisted(s, ip) || FindLive(s.bans, String(ip)).Some? then (s, Conflict)
    else if dur.None? then (s, BadRequest)
    else
      var row := NewBan(String(ip), "manual", now, dur.value, 1, Manual);
      var (s1, ok) := EnforceBan(s.(bans := s.bans + [row]), ip, f);
      if ok then (s1, Created) else (s1.(bans := Expire(s1.bans, |s.bans|)), ServerError)
  }

  /** Un-ban on the enforcer (dry-run rows were never there), then mark the row; an enforcer error leaves the row. */
  function Release(s: Sys, id: nat, ip: IP, f: Faults): (Sys, bool)
    requires id < |s.bans|
  {
    var (s1, ok) := if s.bans[id].status == DryRun then (s, true) else EnforceUnban(s, ip, f);
    (if ok then s1.(bans := Expire(s1.bans, id)) else s1, ok)
  }

  function DeleteBan(s: Sys, ip: IP, f: Faults): (Sys, Reply) {
    if ip == [] then (s, BadRequest)
    else
      match FindLive(s.bans, String(ip))
      case None => (s, NotFound)
      case Some(id) => var (s1, ok) := Release(s, id, ip, f); (s1, if ok then Done else ServerError)
  }

  /** `currentBansCoveredBy`: a bare address finds one live row by exact match, a CIDR all current rows inside it. */
  function CoveredIds(bans: seq<BanEntry>, e: Entry): (ids: seq<nat>)
    requires ValidEntry(e)
    ensures forall j | 0 <= j < |ids| :: ids[j] < |bans| && Live(bans[ids[j]])
    ensures forall i, j | 0 <= i < j < |ids| :: ids[i] != ids[j]
  {
    if e.Bare? then
      var found := FindLive(bans, String(e.lit));
      if found.Some? then [found.value] else []
    else
      var current := CurrentIds(bans, |bans|);
      InsideIdsDistinct(bans, ParseCIDR(e), current);
      InsideIds(bans, ParseCIDR(e), current)
  }

  predicate ValidIds(s: Sys, ids: seq<nat>) {
    forall j | 0 <= j < |ids| :: ids[j] < |s.bans|
  }

  /** Rows whose address does not parse are skipped; the first enforcer error stops the loop. */
  function ClearLoop(s: Sys, ids: seq<nat>, f: Faults): (Sys, bool)
    requires ValidIds(s, ids)
    decreases |ids|
  {
    if ids == [] then (s, true)
    else if s.bans[ids[0]].ip.Other? then ClearLoop(s, ids[1..], f)
    else
      var (s1, ok) := Release(s, ids[0], ParseIP(s.bans[ids[0]].ip), f);
      if ok then ClearLoop(s1, ids[1..], f) else (s1, false)
  }

  function AddWhitelist(s: Sys, e: Entry, clear: bool, f: Faults): (Sys, Reply) {
    if !ValidEntry(e) then (s, BadRequest)
    else
      var ids := CoveredIds(s.bans, e);
      if ids != [] && !clear then (s, Conflict)
      else
        var (s1, ok) := ClearLoop(s, ids, f);
        if !ok || e in s1.table then (s1, ServerError)
        else (s1.(table := s1.table + [e], dynamic := Nets(s1.table + [e])), Created)
  }

  function RemoveWhitelist(s: Sys, e: Entry): Sys {
    var table := WithoutEntry(s.table, e);
    s.(table := table, dynamic := Nets(table))
  }

  // ---- maintenance ----

  /** The expiry tick marks the row first and ignores the enforcer's answer. */
  function ExpireOne(s: Sys, id: nat, f: Faults): Sys
    requires id < |s.bans|
  {
    var s1 := s.(bans := Expire(s.bans, id));
    if s.bans[id].status == DryRun then s1 else EnforceUnban(s1, ParseIP(s.bans[id].ip), f).0
  }

  function ExpireLoop(s: Sys, ids: seq<nat>, f: Faults): Sys
    requires ValidIds(s, ids)
    decreases |ids|
  {
    if ids == [] then s else ExpireLoop(ExpireOne(s, ids[0], f), ids[1..], f)
  }

  function ExpiryTick(s: Sys, now: int, f: Faults): Sys {
    ExpireLoop(s, DueIds(s.bans, now, |s.bans|), f)
  }

  /** The texts of the current rows that parse and are not whitelisted. */
  function Want(s: Sys): set<Text> {
    set i | 0 <= i < |s.bans| && InForce(s.bans[i]) && s.bans[i].ip.Of? && !Whitelisted(s, ParseIP(s.bans[i].ip)) ::
      s.bans[i].ip
  }

  predicate Wanted(s: Sys, id: nat)
    requires id < |s.bans|
  {
    s.bans[id].ip.Of? && !Whitelisted(s, ParseIP(s.bans[id].ip))
  }

  function WantAmong(s: Sys, ids: seq<nat>): set<Text>
    requires ValidIds(s, ids)
  {
    if ids == [] then {}
    else
      var id := ids[|ids| - 1];
      WantAmong(s, ids[..|ids| - 1]) + if Wanted(s, id) then {s.bans[id].ip} else {}
  }

  lemma {:induction false} WantAmongHas(s: Sys, ids: seq<nat>, j: nat)
    requires ValidIds(s, ids) && j < |ids| && Wanted(s, ids[j])
    ensures s.bans[ids[j]].ip in WantAmong(s, ids)
  {
    var n := |ids| - 1;
    if j < n {
      WantAmongHas(s, ids[..n], j);
    }
  }

  lemma {:induction false} WantAmongOnly(s: Sys, ids: seq<nat>, t: Text) returns (j: nat)
    requires ValidIds(s, ids) && t in WantAmong(s, ids)
    ensures j < |ids| && Wanted(s, ids[j]) && s.bans[ids[j]].ip == t
  {
    var n := |ids| - 1;
    if t in WantAmong(s, ids[..n]) {
      j := WantAmongOnly(s, ids[..n], t);
    } else {
      j := n;
    }
  }

  lemma WantFromIds(s: Sys)
    ensures Want(s) == WantAmong(s, CurrentIds(s.bans, |s.bans|))
  {
    var ids := CurrentIds(s.bans, |s.bans|);
    forall t | t in WantAmong(s, ids)
      ensures t in Want(s)
    {
      var j := WantAmongOnly(s, ids, t);
    }
    forall t | t in Want(s)
      ensures t in WantAmong(s, ids)
    {
      var i :| 0 <= i < |s.bans| && InForce(s.bans[i]) && s.bans[i].ip == t && t.Of? && !Whitelisted(s, ParseIP(t));
      CurrentIdsComplete(s.bans, |s.bans|, i);
      var j :| 0 <= j < |ids| && ids[j] == i;
      WantAmongHas(s, ids, j);
    }
  }

  /** A listed key is removed unless its text is wanted or the delete fails; the text of an IPv4-mapped IPv6 key
      parses back to an IPv4 address, so such a key is never reached. When the maps cannot be
      listed nothing is done. */
  function Reconcile(s: Sys, f: Faults): Sys {
    if !s.attached || f.list then s
    else
      s.(kernel := s.kernel.(
           v4 := (set x | x in s.kernel.v4 && (String(x) in Want(s) || x in f.xdp)),
           v6 := (set x | x in s.kernel.v6 && (String(x) in Want(s) || x in f.xdp || Mapped(x)))))
  }

  function RestoreOne(s: Sys, id: nat, f: Faults): Sys
    requires id < |s.bans|
  {
    var t := s.bans[id].ip;
    if t.Other? then s
    else if Whitelisted(s, ParseIP(t)) then s.(bans := Expire(s.bans, id))
    else EnforceBan(s, ParseIP(t), f).0
  }

  function RestoreLoop(s: Sys, ids: seq<nat>, f: Faults): Sys
    requires ValidIds(s, ids)
    decreases |ids|
  {
    if ids == [] then s else RestoreLoop(RestoreOne(s, ids[0], f), ids[1..], f)
  }

  function Restore(s: Sys, f: Faults): Sys {
    RestoreLoop(s, CurrentIds(s.bans, |s.bans|), f)
  }

  function DetachXdp(s: Sys): Sys {
    if s.attached then s.(attached := false, enforcer := IPTables) else s
  }

  /** Startup: the whitelist is loaded, the enforcer is set up, then reconcile, then restore. The tables, the chain
      and the pinned maps are what the previous run left. */
  function Start(s: Sys, cfg: Config, fixed: seq<IPNet>, local: set<Address>, attached: bool, f: Faults): Sys {
    var s1 := s.(fixed := fixed, dynamic := Nets(s.table), local := local,
                 enforcer := EnforcerFor(cfg, attached), attached := attached);
    Restore(Reconcile(s1, f), f)
  }

  /** A reload signal: the static list is replaced, the dynamic one re-read, nothing is cleared. */
  function LoadStatic(s: Sys, fixed: seq<IPNet>): Sys {
    s.(fixed := fixed, dynamic := Nets(s.table))
  }

  function SetLocal(s: Sys, local: set<Address>): Sys {
    s.(local := local)
  }

  // ---- steps ----

  datatype Event =
    | Threat(ip: IP, detector: string, now: int)
    | ManualBan(ip: IP, dur: Option<int>, now: int)
    | ManualUnban(ip: IP)
    | WhitelistAdd(e: Entry, clear: bool)
    | WhitelistRemove(e: Entry)
    | Tick(now: int)
    | ReconcileTick
    | KillSwitch
    | Restart(fixed: seq<IPNet>, local: set<Address>, attached: bool)
    | ReloadStatic(fixed: seq<IPNet>)
    | RefreshLocal(local: set<Address>)

  function Step(s: Sys, cfg: Config, ev: Event, f: Faults): Sys {
    match ev
    case Threat(ip, detector, now) => HandleThreat(s, cfg, ip, detector, now, f)
    case ManualBan(ip, dur, now) => CreateBan(s, ip, dur, now, f).0
    case ManualUnban(ip) => DeleteBan(s, ip, f).0
    case WhitelistAdd(e, clear) => AddWhitelist(s, e, clear, f).0
    case WhitelistRemove(e) => RemoveWhitelist(s, e)
    case Tick(now) => ExpiryTick(s, now, f)
    case ReconcileTick => Reconcile(s, f)
    case KillSwitch => DetachXdp(s)
    case Restart(fixed, local, attached) => Start(s, cfg, fixed, local, attached, f)
    case ReloadStatic(fixed) => LoadStatic(s, fixed)
    case RefreshLocal(local) => SetLocal(s, local)
  }

  type Trace = seq<(Event, Faults)>

  function Run(s: Sys, cfg: Config, tr: Trace): Sys {
    if tr == [] then s
    else
      var n := |tr| - 1;
      Step(Run(s, cfg, tr[..n]), cfg, tr[n].0, tr[n].1)
  }
}
