/** What every run of the ban lifecycle keeps, under any enforcer failures. The three records of who is banned (rows,
    iptables chain, XDP maps) and the whitelist are compared address by address; a ledger of drift names the addresses
    at which they may disagree, and why. With an empty ledger they agree everywhere. */
module LifecycleInvariant {
  import opened Addresses
  import opened Backends
  import opened BanStore
  import opened Lifecycle

  /** The address has a row a backend should hold. */
  ghost predicate HasRow(bans: seq<BanEntry>, a: Address) {
    exists i :: 0 <= i < |bans| && InForce(bans[i]) && bans[i].ip == Of(a)
  }

  /** A row has ended before the next row of its address begins. */
  ghost predicate OneLiveRow(bans: seq<BanEntry>) {
    forall i, j | 0 <= i < j < |bans| && bans[i].ip == bans[j].ip :: !Live(bans[i])
  }

  /** Addresses at which the chain may differ from the rows, the maps may lack a row's address, the maps may hold an
      address without a row, and a current row may be whitelisted. */
  datatype Drift = Drift(base: set<Address>, missing: set<Address>, extra: set<Address>, exposed: set<Address>)

  const NO_DRIFT := Drift({}, {}, {}, {})

  ghost predicate AgreesAt(s: Sys, cfg: Config, d: Drift, a: Address) {
    && (HasRow(s.bans, a) && Whitelisted(s, a) ==> a in d.exposed)
    && (!cfg.standalone && |a| == 4 && a !in d.base ==>
          Count(s.kernel.chain, a) == if HasRow(s.bans, a) then 1 else 0)
    && (s.attached && a !in d.missing && HasRow(s.bans, a) ==> InXdp(s.kernel, a))
    && (s.attached && a !in d.extra && InXdp(s.kernel, a) ==> HasRow(s.bans, a))
  }

  ghost predicate Shape(s: Sys, cfg: Config) {
    && WellFormed(s.kernel)
    && s.enforcer == EnforcerFor(cfg, s.attached)
    && s.dynamic == Nets(s.table)
  }

  ghost predicate Inv(s: Sys, cfg: Config, d: Drift) {
    OneLiveRow(s.bans) && Shape(s, cfg) && forall a: Address :: AgreesAt(s, cfg, d, a)
  }

  // ---- the ledger ----

  /** The addresses the environment fails at, and those with so many duplicate rules that `Unban` gives up. */
  function FaultSet(s: Sys, f: Faults): set<Address> {
    f.check + f.edit + f.xdp + set a | a in s.kernel.chain && Count(s.kernel.chain, a) >= MAX_REMOVALS
  }

  function Spread(d: Drift, hit: set<Address>): Drift {
    Drift(d.base + hit, d.missing + hit, d.extra + hit, d.exposed)
  }

  /** The addresses of current rows that `s` whitelists. */
  function Overlap(s: Sys, bans: seq<BanEntry>): set<Address> {
    set i | 0 <= i < |bans| && InForce(bans[i]) && bans[i].ip.Of? && Whitelisted(s, bans[i].ip.addr) :: bans[i].ip.addr
  }

  function OverlapNet(net: IPNet, bans: seq<BanEntry>): set<Address> {
    set i | 0 <= i < |bans| && InForce(bans[i]) && bans[i].ip.Of? && Contains(net, bans[i].ip.addr) :: bans[i].ip.addr
  }

  function MapKeys(k: KernelState): set<Address> {
    set x: Address | x in k.v4 + k.v6
  }

  /** What one step adds to the ledger, and what it repairs. Failures drift at the addresses they hit. Without any
      failure: a manual ban of an IPv6 address is refused by iptables after XDP took it; a bare IPv4-mapped entry in
      colon form whitelists a prefix nobody cleared; a reloaded static list or a new local address can cover a current
      row. Reconcile repairs extra map entries, a restart repairs the maps and the overlap with the whitelist, and
      leaves on the chain the rules of rows it expired; when the maps cannot be listed, neither takes anything off
      them. */
  function DriftStep(s: Sys, cfg: Config, ev: Event, f: Faults, d: Drift): Drift {
    var hit := Spread(d, FaultSet(s, f));
    match ev
    case Threat(_, _, _) => hit
    case ManualUnban(_) => hit
    case Tick(_) => hit
    case ManualBan(ip, _, _) =>
      if !cfg.standalone && Valid(ip) && |Canon(ip)| == 16 then hit.(extra := hit.extra + {Canon(ip)}) else hit
    case WhitelistAdd(e, _) =>
      if ValidEntry(e) && MappedBare(e) then hit.(exposed := d.exposed + OverlapNet(ParseCIDR(e), s.bans)) else hit
    case WhitelistRemove(_) => d
    case KillSwitch => d
    case ReconcileTick => if s.attached && !f.list then Drift(d.base, d.missing + d.exposed, f.xdp, d.exposed) else d
    case Restart(fixed, local, _) =>
      var s1 := s.(fixed := fixed, dynamic := Nets(s.table), local := local);
      var stale := if f.list then MapKeys(s.kernel) else {};
      Drift(d.base + f.check + f.edit + Overlap(s1, s.bans), f.xdp, f.xdp + stale, {})
    case ReloadStatic(_) => d.(exposed := d.exposed + Overlap(Step(s, cfg, ev, f), s.bans))
    case RefreshLocal(_) => d.(exposed := d.exposed + Overlap(Step(s, cfg, ev, f), s.bans))
  }

  function DriftRun(s: Sys, cfg: Config, tr: Trace, d: Drift): Drift {
    if tr == [] then d
    else
      var n := |tr| - 1;
      DriftStep(Run(s, cfg, tr[..n]), cfg, tr[n].0, tr[n].1, DriftRun(s, cfg, tr[..n], d))
  }

  // ---- one edit of the kernel ----

  predicate UsesBase(e: Enforcer) {
    e != Xdp
  }

  predicate UsesXdp(e: Enforcer) {
    e != IPTables
  }

  /** `hit` accounts for every failure a step can meet. */
  ghost predicate Calm(k: KernelState, f: Faults, hit: set<Address>) {
    && f.check <= hit && f.edit <= hit && f.xdp <= hit
    && forall a: Address :: a !in hit ==> Count(k.chain, a) < MAX_REMOVALS
  }

  predicate Names(ip: IP, a: Address) {
    Valid(ip) && Canon(ip) == a
  }

  lemma ChainBanEffect(chain: seq<Address>, ip: IP, f: Faults, a: Address)
    requires forall i | 0 <= i < |chain| :: |chain[i]| == 4
    ensures var (c', ok) := IptablesBan(chain, ip, f);
            && (forall i | 0 <= i < |c'| :: |c'[i]| == 4)
            && (!Names(ip, a) ==> Count(c', a) == Count(chain, a))
            && (Names(ip, a) && a !in f.check + f.edit ==>
                  && (ok <==> |a| == 4)
                  && Count(c', a) == if |a| == 4 && Count(chain, a) == 0 then 1 else Count(chain, a))
  {
    CountMember(chain, a);
    if Valid(ip) {
      CountAppend(chain, Canon(ip), a);
    }
  }

  lemma MapsBanEffect(k: KernelState, ip: IP, f: Faults, a: Address)
    requires WellFormed(k)
    ensures var (k', ok) := XdpBan(k, ip, f);
            && k'.chain == k.chain && WellFormed(k')
            && (!Names(ip, a) ==> (InXdp(k', a) <==> InXdp(k, a)))
            && (Names(ip, a) && a !in f.xdp ==> ok && InXdp(k', a))
            && (InXdp(k, a) ==> InXdp(k', a))
  {
    KeysRouteEachAddressOnce(ip);
  }

  lemma BanEffect(k: KernelState, e: Enforcer, ip: IP, f: Faults, a: Address)
    requires e in {IPTables, Xdp, BOTH} && WellFormed(k)
    ensures var (k', ok) := Ban(k, e, ip, f);
            && WellFormed(k')
            && (!Names(ip, a) ==> Count(k'.chain, a) == Count(k.chain, a) && (InXdp(k', a) <==> InXdp(k, a)))
            && (Names(ip, a) && a !in f.check + f.edit + f.xdp ==> (ok <==> !UsesBase(e) || |a| == 4))
            && (Names(ip, a) && a !in f.check + f.edit ==>
                  Count(k'.chain, a) ==
                  if UsesBase(e) && |a| == 4 && Count(k.chain, a) == 0 then 1 else Count(k.chain, a))
            && (Names(ip, a) && a !in f.xdp ==> (InXdp(k', a) <==> InXdp(k, a) || UsesXdp(e)))
            && (!UsesXdp(e) ==> k'.v4 == k.v4 && k'.v6 == k.v6)
            && (InXdp(k, a) ==> InXdp(k', a))
  {
    var base := k.(chain := IptablesBan(k.chain, ip, f).0);
    ChainBanEffect(k.chain, ip, f, a);
    MapsBanEffect(k, ip, f, a);
    MapsBanEffect(base, ip, f, a);
    BothIsBaseThenXdp(k, ip, f);
  }

  lemma ChainUnbanEffect(chain: seq<Address>, ip: IP, f: Faults, a: Address)
    requires forall i | 0 <= i < |chain| :: |chain[i]| == 4
    ensures var (c', ok) := IptablesUnban(chain, ip, f);
            && (forall i | 0 <= i < |c'| :: |c'[i]| == 4)
            && Count(c', a) <= Count(chain, a)
            && (!Names(ip, a) ==> Count(c', a) == Count(chain, a))
            && (Names(ip, a) && a !in f.check + f.edit && Count(chain, a) < MAX_REMOVALS ==> ok && Count(c', a) == 0)
  {
    CountMember(chain, a);
    if Valid(ip) {
      CountRemoveUpTo(chain, Canon(ip), MAX_REMOVALS, a);
      RemovalKeepsWidths(chain, Canon(ip), MAX_REMOVALS);
    }
  }

  lemma MapsUnbanEffect(k: KernelState, ip: IP, f: Faults, a: Address)
    requires WellFormed(k)
    ensures var (k', ok) := XdpUnban(k, ip, f);
            && k'.chain == k.chain && WellFormed(k')
            && (!Names(ip, a) ==> (InXdp(k', a) <==> InXdp(k, a)))
            && (Names(ip, a) && a !in f.xdp ==> ok && !InXdp(k', a))
  {
    KeysRouteEachAddressOnce(ip);
  }

  lemma UnbanEffect(k: KernelState, e: Enforcer, ip: IP, f: Faults, a: Address)
    requires e in {IPTables, Xdp, BOTH} && WellFormed(k)
    ensures var (k', ok) := Unban(k, e, ip, f);
            && WellFormed(k')
            && Count(k'.chain, a) <= Count(k.chain, a)
            && (!Names(ip, a) ==> Count(k'.chain, a) == Count(k.chain, a) && (InXdp(k', a) <==> InXdp(k, a)))
            && (Names(ip, a) && a !in f.check + f.edit + f.xdp && Count(k.chain, a) < MAX_REMOVALS ==>
                  && ok
                  && Count(k'.chain, a) == (if UsesBase(e) then 0 else Count(k.chain, a))
                  && (InXdp(k', a) <==> InXdp(k, a) && !UsesXdp(e)))
  {
    var base := k.(chain := IptablesUnban(k.chain, ip, f).0);
    ChainUnbanEffect(k.chain, ip, f, a);
    MapsUnbanEffect(k, ip, f, a);
    MapsUnbanEffect(base, ip, f, a);
    BothIsBaseThenXdp(k, ip, f);
  }

  lemma {:induction false} RemovalKeepsWidths(chain: seq<Address>, a: Address, n: nat)
    requires forall i | 0 <= i < |chain| :: |chain[i]| == 4
    ensures forall i | 0 <= i < |RemoveUpTo(chain, a, n)| :: |RemoveUpTo(chain, a, n)[i]| == 4
  {
    if n > 0 {
      RemovalKeepsWidths(chain, a, n - 1);
      RemoveOneKeepsWidths(RemoveUpTo(chain, a, n - 1), a);
    }
  }

  lemma {:induction false} RemoveOneKeepsWidths(chain: seq<Address>, a: Address)
    requires forall i | 0 <= i < |chain| :: |chain[i]| == 4
    ensures forall i | 0 <= i < |RemoveFirst(chain, a)| :: |RemoveFirst(chain, a)[i]| == 4
  {
    if chain != [] {
      RemoveOneKeepsWidths(chain[1..], a);
    }
  }

  // ---- one change of the rows ----

  lemma AppendRow(bans: seq<BanEntry>, row: BanEntry, a: Address)
    requires OneLiveRow(bans) && FindLive(bans, row.ip).None?
    ensures OneLiveRow(bans + [row])
    ensures HasRow(bans + [row], a) <==> HasRow(bans, a) || (InForce(row) && row.ip == Of(a))
    ensures row.ip == Of(a) ==> !HasRow(bans, a)
  {
    var bans' := bans + [row];
    assert bans'[|bans|] == row;
    if HasRow(bans, a) {
      var i :| 0 <= i < |bans| && InForce(bans[i]) && bans[i].ip == Of(a);
      assert bans'[i] == bans[i];
    }
  }

  lemma ExpireRow(bans: seq<BanEntry>, id: nat, a: Address)
    requires OneLiveRow(bans) && id < |bans| && Live(bans[id])
    ensures OneLiveRow(Expire(bans, id))
    ensures HasRow(Expire(bans, id), a) <==> HasRow(bans, a) && bans[id].ip != Of(a)
  {
    var bans' := Expire(bans, id);
    if HasRow(bans, a) && bans[id].ip != Of(a) {
      var i :| 0 <= i < |bans| && InForce(bans[i]) && bans[i].ip == Of(a);
      assert bans'[i] == bans[i];
    }
    if HasRow(bans', a) {
      var i :| 0 <= i < |bans'| && InForce(bans'[i]) && bans'[i].ip == Of(a);
      assert bans[i] == bans'[i] && i != id;
    }
  }

  /** The whitelist sees an address, not one of its spellings. */
  lemma WhitelistSeesAddress(s: Sys, ip: IP)
    requires Valid(ip)
    ensures Whitelisted(s, ip) <==> Whitelisted(s, Canon(ip))
    ensures Valid(ParseIP(String(ip))) && (Whitelisted(s, ParseIP(String(ip))) <==> Whitelisted(s, ip))
    ensures forall n :: Contains(n, ParseIP(String(ip))) <==> Contains(n, Canon(ip))
  {
    ParsePrint(ip);
    assert Short(ip) == Canon(ip) == Short(Canon(ip)) == Short(ParseIP(String(ip)));
    assert To4(Canon(ip)) == To4(ip) == To4(ParseIP(String(ip)));
    CoversShort(s.fixed, ip, Canon(ip));
    CoversShort(s.dynamic, ip, Canon(ip));
    CoversShort(s.fixed, ip, ParseIP(String(ip)));
    CoversShort(s.dynamic, ip, ParseIP(String(ip)));
  }

  lemma {:induction false} CoversShort(nets: seq<IPNet>, x: IP, y: IP)
    requires Short(x) == Short(y)
    ensures Covers(nets, x) <==> Covers(nets, y)
  {
    if nets != [] {
      CoversShort(nets[..|nets| - 1], x, y);
    }
  }

  // ---- steps on one row ----

  ghost predicate Ready(s: Sys, cfg: Config, d: Drift, f: Faults, hit: set<Address>) {
    && Inv(s, cfg, d) && Calm(s.kernel, f, hit)
    && hit <= d.base && hit <= d.missing && hit <= d.extra
  }

  lemma ReadyAtStep(s: Sys, cfg: Config, d: Drift, f: Faults)
    requires Inv(s, cfg, d)
    ensures Ready(s, cfg, Spread(d, FaultSet(s, f)), f, FaultSet(s, f))
  {
    var hit := FaultSet(s, f);
    forall a: Address
      ensures AgreesAt(s, cfg, Spread(d, hit), a)
      ensures a !in hit ==> Count(s.kernel.chain, a) < MAX_REMOVALS
    {
      assert AgreesAt(s, cfg, d, a);
      CountMember(s.kernel.chain, a);
    }
  }

  lemma RecordAndBan(s: Sys, cfg: Config, d: Drift, f: Faults, hit: set<Address>, ip: IP, row: BanEntry)
    requires Ready(s, cfg, d, f, hit)
    requires InForce(row) && row.ip == String(ip) && !Whitelisted(s, ip) && FindLive(s.bans, row.ip).None?
    ensures var (s1, ok) := EnforceBan(s.(bans := s.bans + [row]), ip, f);
            && Inv(s1, cfg, d)
            && (!ok && Valid(ip) && Canon(ip) !in hit ==> |Canon(ip)| == 16 && UsesBase(s.enforcer))
  {
    var (s1, ok) := EnforceBan(s.(bans := s.bans + [row]), ip, f);
    forall a: Address
      ensures AgreesAt(s1, cfg, d, a) && OneLiveRow(s1.bans) && WellFormed(s1.kernel)
    {
      assert AgreesAt(s, cfg, d, a);
      AppendRow(s.bans, row, a);
      BanEffect(s.kernel, s.enforcer, ip, f, a);
      if Valid(ip) {
        WhitelistSeesAddress(s, ip);
      }
      assert Whitelisted(s1, a) == Whitelisted(s, a);
    }
    if Valid(ip) {
      BanEffect(s.kernel, s.enforcer, ip, f, Canon(ip));
    }
    assert AgreesAt(s1, cfg, d, [0, 0, 0, 0]);
  }

  /** `ip` is how the row's address is spelled to the enforcer. */
  ghost predicate Spells(ip: IP, t: Text) {
    match t
    case Of(a) => Names(ip, a)
    case Other(_) => !Valid(ip)
  }

  lemma StoredTextSpells(t: Text)
    ensures Spells(ParseIP(t), t)
  {
    if t.Of? {
      ParsePrint(t.addr);
    }
  }

  lemma ReleaseKeeps(s: Sys, cfg: Config, d: Drift, f: Faults, hit: set<Address>, id: nat, ip: IP)
    requires Ready(s, cfg, d, f, hit) && id < |s.bans| && Live(s.bans[id]) && Spells(ip, s.bans[id].ip)
    ensures Ready(Release(s, id, ip, f).0, cfg, d, f, hit)
  {
    var (s1, ok) := Release(s, id, ip, f);
    forall a: Address
      ensures AgreesAt(s1, cfg, d, a) && OneLiveRow(s1.bans) && WellFormed(s1.kernel)
      ensures a !in hit ==> Count(s1.kernel.chain, a) < MAX_REMOVALS
    {
      assert AgreesAt(s, cfg, d, a);
      ExpireRow(s.bans, id, a);
      UnbanEffect(s.kernel, s.enforcer, ip, f, a);
      assert Whitelisted(s1, a) == Whitelisted(s, a);
      if s.bans[id].ip == Of(a) {
        OnlyLiveRow(s.bans, id, a);
      }
    }
    assert AgreesAt(s1, cfg, d, [0, 0, 0, 0]);
  }

  lemma ExpireKeeps(s: Sys, cfg: Config, d: Drift, f: Faults, hit: set<Address>, id: nat)
    requires Ready(s, cfg, d, f, hit) && id < |s.bans| && Live(s.bans[id])
    ensures Ready(ExpireOne(s, id, f), cfg, d, f, hit)
  {
    var s1 := ExpireOne(s, id, f);
    var ip := ParseIP(s.bans[id].ip);
    StoredTextSpells(s.bans[id].ip);
    forall a: Address
      ensures AgreesAt(s1, cfg, d, a) && OneLiveRow(s1.bans) && WellFormed(s1.kernel)
      ensures a !in hit ==> Count(s1.kernel.chain, a) < MAX_REMOVALS
    {
      assert AgreesAt(s, cfg, d, a);
      ExpireRow(s.bans, id, a);
      UnbanEffect(s.kernel, s.enforcer, ip, f, a);
      assert Whitelisted(s1, a) == Whitelisted(s, a);
      if s.bans[id].ip == Of(a) {
        OnlyLiveRow(s.bans, id, a);
      }
    }
    assert AgreesAt(s1, cfg, d, [0, 0, 0, 0]);
  }

  lemma OnlyLiveRow(bans: seq<BanEntry>, id: nat, a: Address)
    requires OneLiveRow(bans) && id < |bans| && Live(bans[id]) && bans[id].ip == Of(a)
    ensures HasRow(bans, a) <==> InForce(bans[id])
  {
  }

  // ---- steps over several rows ----

  lemma {:induction false} ExpireLoopKeeps(s: Sys, cfg: Config, d: Drift, f: Faults, hit: set<Address>, ids: seq<nat>)
    requires Ready(s, cfg, d, f, hit) && ValidIds(s, ids)
    requires forall j | 0 <= j < |ids| :: Live(s.bans[ids[j]])
    requires forall i, j | 0 <= i < j < |ids| :: ids[i] != ids[j]
    ensures Inv(ExpireLoop(s, ids, f), cfg, d)
    decreases |ids|
  {
    if ids != [] {
      ExpireKeeps(s, cfg, d, f, hit, ids[0]);
      ExpireLoopKeeps(ExpireOne(s, ids[0], f), cfg, d, f, hit, ids[1..]);
    }
  }

  /** The clearing loop leaves the other rows alone, only ends rows, and when it completes every visited row that
      parses has ended. */
  lemma {:induction false} ClearLoopRows(s: Sys, ids: seq<nat>, f: Faults)
    requires ValidIds(s, ids)
    ensures var (s1, ok) := ClearLoop(s, ids, f);
            && s1 == s.(bans := s1.bans, kernel := s1.kernel) && |s1.bans| == |s.bans|
            && (forall i | 0 <= i < |s.bans| && i !in ids :: s1.bans[i] == s.bans[i])
            && (forall i | 0 <= i < |s.bans| :: s1.bans[i] == s.bans[i] || s1.bans[i] == s.bans[i].(status := Expired))
            && (ok ==> forall i | i in ids && s.bans[i].ip.Of? :: s1.bans[i].status == Expired)
    decreases |ids|
  {
    if ids != [] {
      var id, rest := ids[0], ids[1..];
      assert ids == [id] + rest;
      if s.bans[id].ip.Other? {
        ClearLoopRows(s, rest, f);
      } else {
        var (s1, ok) := Release(s, id, ParseIP(s.bans[id].ip), f);
        if ok {
          ClearLoopRows(s1, rest, f);
        }
      }
    }
  }

  /** The clearing loop keeps the invariant wherever it stops. */
  lemma {:induction false} ClearLoopKeeps(s: Sys, cfg: Config, d: Drift, f: Faults, hit: set<Address>, ids: seq<nat>)
    requires Ready(s, cfg, d, f, hit) && ValidIds(s, ids)
    requires forall j | 0 <= j < |ids| :: Live(s.bans[ids[j]])
    requires forall i, j | 0 <= i < j < |ids| :: ids[i] != ids[j]
    ensures Ready(ClearLoop(s, ids, f).0, cfg, d, f, hit)
    decreases |ids|
  {
    if ids != [] {
      var id, rest := ids[0], ids[1..];
      if s.bans[id].ip.Other? {
        ClearLoopKeeps(s, cfg, d, f, hit, rest);
      } else {
        StoredTextSpells(s.bans[id].ip);
        ReleaseKeeps(s, cfg, d, f, hit, id, ParseIP(s.bans[id].ip));
        var (s1, ok) := Release(s, id, ParseIP(s.bans[id].ip), f);
        if ok {
          ClearLoopKeeps(s1, cfg, d, f, hit, rest);
        }
      }
    }
  }

  lemma NetsAppend(table: seq<TableEntry>, e: TableEntry, ip: IP)
    ensures Covers(Nets(table + [e]), ip) <==> Covers(Nets(table), ip) || Contains(ParseCIDR(e), ip)
  {
    var nets := Nets(table + [e]);
    assert nets[..|table|] == Nets(table) && nets[|table|] == ParseCIDR(e);
  }

  lemma {:induction false} NetsWithout(table: seq<TableEntry>, e: Entry, ip: IP)
    requires Covers(Nets(WithoutEntry(table, e)), ip)
    ensures Covers(Nets(table), ip)
  {
    if table != [] {
      var n := |table| - 1;
      assert table == table[..n] + [table[n]];
      NetsAppend(table[..n], table[n], ip);
      if table[n] == e {
        assert WithoutEntry(table, e) == WithoutEntry(table[..n], e);
      } else {
        NetsAppend(WithoutEntry(table[..n], e), table[n], ip);
      }
      if Covers(Nets(WithoutEntry(table[..n], e)), ip) {
        NetsWithout(table[..n], e, ip);
      }
    }
  }

  /** The rows inside an entry are found; for a bare address this needs the address to have one live row, and the
      entry not to be an IPv4-mapped address in colon form. */
  lemma CoveredRowIsFound(bans: seq<BanEntry>, e: Entry, i: nat, a: Address)
    requires OneLiveRow(bans) && ValidEntry(e) && !MappedBare(e) && Contains(ParseCIDR(e), a)
    requires i < |bans| && InForce(bans[i]) && bans[i].ip == Of(a)
    ensures i in CoveredIds(bans, e)
  {
    if e.Cidr? {
      ParsePrint(a);
      assert Short(ParseIP(Of(a))) == a == Short(a);
      CurrentIdsComplete(bans, |bans|, i);
      assert RowInside(bans[i], ParseCIDR(e));
    } else {
      BareEntryCovers(e, a);
      var found := FindLive(bans, String(e.lit));
      assert found.Some? && found.value == i;
    }
  }

  lemma NoRowsLeftInside(bans: seq<BanEntry>, bans': seq<BanEntry>, e: Entry, a: Address)
    requires OneLiveRow(bans) && ValidEntry(e) && |bans'| == |bans| && Contains(ParseCIDR(e), a)
    requires forall i | 0 <= i < |bans| :: bans'[i] == bans[i] || bans'[i] == bans[i].(status := Expired)
    requires forall i | i in CoveredIds(bans, e) && bans[i].ip.Of? :: bans'[i].status == Expired
    ensures HasRow(bans', a) ==> MappedBare(e) && a in OverlapNet(ParseCIDR(e), bans)
  {
    if HasRow(bans', a) {
      var i :| 0 <= i < |bans'| && InForce(bans'[i]) && bans'[i].ip == Of(a);
      assert bans'[i] == bans[i];
      if !MappedBare(e) {
        CoveredRowIsFound(bans, e, i, a);
      }
    }
  }

  lemma NewEntryAgreesAt(s: Sys, cfg: Config, d: Drift, d': Drift, e: TableEntry, a: Address)
    requires AgreesAt(s, cfg, d, a) && s.dynamic == Nets(s.table)
    requires d' == d.(exposed := d'.exposed) && d.exposed <= d'.exposed
    requires Contains(ParseCIDR(e), a) && HasRow(s.bans, a) ==> a in d'.exposed
    ensures AgreesAt(s.(table := s.table + [e], dynamic := Nets(s.table + [e])), cfg, d', a)
  {
    NetsAppend(s.table, e, a);
  }

  lemma AddWhitelistKeeps(s: Sys, cfg: Config, d: Drift, e: Entry, clear: bool, f: Faults)
    requires Inv(s, cfg, d)
    ensures Inv(AddWhitelist(s, e, clear, f).0, cfg, DriftStep(s, cfg, WhitelistAdd(e, clear), f, d))
  {
    var hit := FaultSet(s, f);
    var d1, d' := Spread(d, hit), DriftStep(s, cfg, WhitelistAdd(e, clear), f, d);
    ReadyAtStep(s, cfg, d, f);
    WiderExposure(s, cfg, d1, d');
    if ValidEntry(e) {
      var ids := CoveredIds(s.bans, e);
      ClearLoopKeeps(s, cfg, d1, f, hit, ids);
      ClearLoopRows(s, ids, f);
      var (s1, ok) := ClearLoop(s, ids, f);
      WiderExposure(s1, cfg, d1, d');
      if AddWhitelist(s, e, clear, f).1 == Created {
        var s' := s1.(table := s1.table + [e], dynamic := Nets(s1.table + [e]));
        forall a: Address
          ensures AgreesAt(s', cfg, d', a)
        {
          assert AgreesAt(s1, cfg, d1, a);
          if Contains(ParseCIDR(e), a) {
            NoRowsLeftInside(s.bans, s1.bans, e, a);
          }
          NewEntryAgreesAt(s1, cfg, d1, d', e, a);
        }
      }
    }
  }

  lemma WiderExposure(s: Sys, cfg: Config, d: Drift, d': Drift)
    requires Inv(s, cfg, d) && d' == d.(exposed := d'.exposed) && d.exposed <= d'.exposed
    ensures Inv(s, cfg, d')
  {
    forall a: Address
      ensures AgreesAt(s, cfg, d', a)
    {
      assert AgreesAt(s, cfg, d, a);
    }
  }

  // ---- reconcile and restart ----

  /** What reconcile leaves of the maps, address by address. */
  lemma ReconcileEffect(s: Sys, f: Faults, a: Address)
    requires s.attached && WellFormed(s.kernel)
    ensures WellFormed(Reconcile(s, f).kernel)
    ensures InXdp(Reconcile(s, f).kernel, a) <==>
            InXdp(s.kernel, a) && ((HasRow(s.bans, a) && !Whitelisted(s, a)) || a in f.xdp || f.list)
  {
    WhitelistSeesAddress(s, a);
    if HasRow(s.bans, a) && !Whitelisted(s, a) {
      var i :| 0 <= i < |s.bans| && InForce(s.bans[i]) && s.bans[i].ip == Of(a);
      assert s.bans[i].ip in Want(s);
    }
  }

  lemma ReconcileKeeps(s: Sys, cfg: Config, d: Drift, f: Faults)
    requires Inv(s, cfg, d)
    ensures Inv(Reconcile(s, f), cfg, DriftStep(s, cfg, ReconcileTick, f, d))
  {
    if s.attached && !f.list {
      var s' := Reconcile(s, f);
      forall a: Address
        ensures AgreesAt(s', cfg, DriftStep(s, cfg, ReconcileTick, f, d), a) && WellFormed(s'.kernel)
      {
        assert AgreesAt(s, cfg, d, a);
        ReconcileEffect(s, f, a);
        assert Whitelisted(s', a) == Whitelisted(s, a);
      }
      assert AgreesAt(s', cfg, DriftStep(s, cfg, ReconcileTick, f, d), [0, 0, 0, 0]);
    }
  }

  /** A row as restore leaves it: ended if it is current, parses and is whitelisted. */
  function RestoredRow(s: Sys, b: BanEntry): BanEntry {
    EndedIfListed(s.local, s.fixed, s.dynamic, b)
  }

  function EndedIfListed(local: set<Address>, fixed: seq<IPNet>, dynamic: seq<IPNet>, b: BanEntry): BanEntry {
    if InForce(b) && b.ip.Of? && Listed(local, fixed, dynamic, b.ip.addr) then b.(status := Expired) else b
  }

  /** The address has a current, not whitelisted row among the first `n`. */
  ghost predicate KeptBelow(s: Sys, n: nat, a: Address)
    requires n <= |s.bans|
  {
    HasRow(s.bans[..n], a) && !Whitelisted(s, a)
  }

  lemma {:induction false} CurrentIdsFrame(x: seq<BanEntry>, y: seq<BanEntry>, n: nat)
    requires n <= |x| && n <= |y| && x[..n] == y[..n]
    ensures CurrentIds(x, n) == CurrentIds(y, n)
  {
    if n > 0 {
      assert x[n - 1] == x[..n][n - 1] == y[n - 1];
      assert x[..n - 1] == x[..n][..n - 1] == y[..n - 1];
      CurrentIdsFrame(x, y, n - 1);
    }
  }

  lemma HasRowSnoc(bans: seq<BanEntry>, n: nat, a: Address)
    requires n < |bans|
    ensures HasRow(bans[..n + 1], a) <==> HasRow(bans[..n], a) || (InForce(bans[n]) && bans[n].ip == Of(a))
  {
    if HasRow(bans[..n], a) {
      var i :| 0 <= i < n && InForce(bans[..n][i]) && bans[..n][i].ip == Of(a);
      assert bans[..n + 1][i] == bans[..n][i];
    }
    assert bans[..n + 1][n] == bans[n];
  }

  lemma RestoreUnfolds(s: Sys, n: nat, f: Faults)
    requires 0 < n <= |s.bans|
    ensures var s1 := if InForce(s.bans[n - 1]) then RestoreOne(s, n - 1, f) else s;
            && s1.bans == s.bans[n - 1 := if InForce(s.bans[n - 1]) then RestoredRow(s, s.bans[n - 1])
                                          else s.bans[n - 1]]
            && s1 == s.(bans := s1.bans, kernel := s1.kernel)
            && RestoreLoop(s, CurrentIds(s.bans, n), f) == RestoreLoop(s1, CurrentIds(s1.bans, n - 1), f)
  {
    var b := s.bans[n - 1];
    if InForce(b) {
      if b.ip.Of? {
        WhitelistSeesAddress(s, b.ip.addr);
        assert String(b.ip.addr) == b.ip;
      }
      var s1 := RestoreOne(s, n - 1, f);
      assert s1.bans[..n - 1] == s.bans[..n - 1];
      CurrentIdsFrame(s1.bans, s.bans, n - 1);
      assert CurrentIds(s.bans, n) == [n - 1] + CurrentIds(s.bans, n - 1);
      assert CurrentIds(s.bans, n)[1..] == CurrentIds(s.bans, n - 1);
    } else {
      assert CurrentIds(s.bans, n) == CurrentIds(s.bans, n - 1);
    }
  }

  /** Restore ends exactly the current rows that are whitelisted and touches nothing but rows and backends. */
  lemma {:induction false} RestoreRows(s: Sys, n: nat, f: Faults)
    requires n <= |s.bans|
    ensures var s' := RestoreLoop(s, CurrentIds(s.bans, n), f);
            && s' == s.(bans := s'.bans, kernel := s'.kernel)
            && |s'.bans| == |s.bans|
            && (forall i | 0 <= i < |s.bans| :: s'.bans[i] == if i < n then RestoredRow(s, s.bans[i]) else s.bans[i])
    decreases n
  {
    if n > 0 {
      RestoreUnfolds(s, n, f);
      var s1 := if InForce(s.bans[n - 1]) then RestoreOne(s, n - 1, f) else s;
      RestoreRows(s1, n - 1, f);
      RestoreRowsStep(s, s1, RestoreLoop(s, CurrentIds(s.bans, n), f).bans, n);
    }
  }

  lemma RestoreRowsStep(s: Sys, s1: Sys, bans: seq<BanEntry>, n: nat)
    requires 0 < n <= |s.bans| && s1 == s.(bans := s1.bans, kernel := s1.kernel) && |bans| == |s.bans|
    requires s1.bans == s.bans[n - 1 := if InForce(s.bans[n - 1]) then RestoredRow(s, s.bans[n - 1]) else s.bans[n - 1]]
    requires forall i | 0 <= i < |s.bans| :: bans[i] == if i < n - 1 then RestoredRow(s1, s1.bans[i]) else s1.bans[i]
    ensures forall i | 0 <= i < |s.bans| :: bans[i] == if i < n then RestoredRow(s, s.bans[i]) else s.bans[i]
  {
    forall i | 0 <= i < |s.bans|
      ensures bans[i] == if i < n then RestoredRow(s, s.bans[i]) else s.bans[i]
    {
      assert bans[i] == if i < n - 1 then RestoredRow(s1, s1.bans[i]) else s1.bans[i];
    }
  }

  lemma RestoreOneBackends(s: Sys, id: nat, f: Faults, a: Address)
    requires id < |s.bans| && InForce(s.bans[id]) && WellFormed(s.kernel) && s.enforcer in {IPTables, Xdp, BOTH}
    ensures var k, k' := s.kernel, RestoreOne(s, id, f).kernel;
            var kept := s.bans[id].ip == Of(a) && !Whitelisted(s, a);
            && WellFormed(k')
            && (InXdp(k, a) ==> InXdp(k', a))
            && (InXdp(k', a) ==> InXdp(k, a) || (UsesXdp(s.enforcer) && kept))
            && (a !in f.xdp && UsesXdp(s.enforcer) && kept ==> InXdp(k', a))
            && (a !in f.check + f.edit && |a| == 4 ==>
                  Count(k'.chain, a) ==
                  if UsesBase(s.enforcer) && kept && Count(k.chain, a) == 0 then 1 else Count(k.chain, a))
  {
    var b := s.bans[id];
    if b.ip.Of? {
      ParsePrint(b.ip.addr);
      WhitelistSeesAddress(s, b.ip.addr);
      BanEffect(s.kernel, s.enforcer, ParseIP(b.ip), f, a);
    }
  }

  /** What restore puts on the backends, whatever they held: every address with a current, not whitelisted row, on the
      backends in use, unless that fails there; nothing is taken off. */
  lemma {:induction false} RestoreBackends(s: Sys, n: nat, f: Faults, a: Address)
    requires n <= |s.bans| && WellFormed(s.kernel) && s.enforcer in {IPTables, Xdp, BOTH}
    ensures var k, k' := s.kernel, RestoreLoop(s, CurrentIds(s.bans, n), f).kernel;
            var kept := KeptBelow(s, n, a);
            && WellFormed(k')
            && (InXdp(k, a) ==> InXdp(k', a))
            && (InXdp(k', a) ==> InXdp(k, a) || (UsesXdp(s.enforcer) && kept))
            && (a !in f.xdp && UsesXdp(s.enforcer) && kept ==> InXdp(k', a))
            && (a !in f.check + f.edit && |a| == 4 ==>
                  Count(k'.chain, a) ==
                  if UsesBase(s.enforcer) && kept && Count(k.chain, a) == 0 then 1 else Count(k.chain, a))
    decreases n
  {
    if n > 0 {
      RestoreUnfolds(s, n, f);
      HasRowSnoc(s.bans, n - 1, a);
      if InForce(s.bans[n - 1]) {
        var s1 := RestoreOne(s, n - 1, f);
        RestoreOneBackends(s, n - 1, f, a);
        RestoreBackends(s1, n - 1, f, a);
        assert s1.bans[..n - 1] == s.bans[..n - 1];
        assert Whitelisted(s1, a) == Whitelisted(s, a);
      } else {
        RestoreBackends(s, n - 1, f, a);
      }
    }
  }
}
