/** The tables of the database as sequences of rows, with the filters its queries use. Rows of `bans` are never deleted
    and ids are assigned in order, so a row's id is its position. */
module BanStore {
  import opened Addresses

  datatype Status = Active | Manual | DryRun | Expired

  datatype BanEntry = BanEntry(ip: Text, detector: string, bannedAt: int, duration: int, expiresAt: Option<int>,
                               banCount: nat, status: Status)

  /** Entries enter the whitelist table only after they parsed. */
  type TableEntry = e: Entry | ValidEntry(e) witness Bare([0, 0, 0, 0], "")

  /** `status IN ('active','manual','dry_run')` */
  predicate Live(b: BanEntry) {
    b.status != Expired
  }

  /** `status IN ('active','manual')`: the rows a backend should hold. */
  predicate InForce(b: BanEntry) {
    b.status == Active || b.status == Manual
  }

  predicate Due(b: BanEntry, now: int) {
    Live(b) && b.expiresAt.Some? && b.expiresAt.value <= now
  }

  /** `GetActiveBanByIP`: a live row of that address, if there is one. */
  function FindLive(bans: seq<BanEntry>, ip: Text): (r: Option<nat>)
    ensures r.Some? ==> r.value < |bans| && Live(bans[r.value]) && bans[r.value].ip == ip
    ensures r.None? ==> forall i | 0 <= i < |bans| && bans[i].ip == ip :: !Live(bans[i])
  {
    if bans == [] then None
    else
      var n := |bans| - 1;
      if Live(bans[n]) && bans[n].ip == ip then Some(n)
      else
        assert bans == bans[..n] + [bans[n]];
        FindLive(bans[..n], ip)
  }

  /** `UpdateBanStatus(id, "expired")` */
  function Expire(bans: seq<BanEntry>, id: nat): seq<BanEntry> {
    if id < |bans| then bans[id := bans[id].(status := Expired)] else bans
  }

  /** `BanCountByIP` counts rows of any status. */
  function CountSince(bans: seq<BanEntry>, ip: Text, since: int): nat {
    if bans == [] then 0
    else
      var n := |bans| - 1;
      CountSince(bans[..n], ip, since) + if bans[n].ip == ip && bans[n].bannedAt >= since then 1 else 0
  }

  /** `GetExpiredBans` among the first `n` rows. */
  function DueIds(bans: seq<BanEntry>, now: int, n: nat): (ids: seq<nat>)
    requires n <= |bans|
    ensures forall j | 0 <= j < |ids| :: ids[j] < n && Due(bans[ids[j]], now)
    ensures forall i, j | 0 <= i < j < |ids| :: ids[i] != ids[j]
    ensures forall i | 0 <= i < n && Due(bans[i], now) :: i in ids
  {
    if n == 0 then [] else DueIds(bans, now, n - 1) + if Due(bans[n - 1], now) then [n - 1] else []
  }

  /** `ListEnforcedBans` among the first `n` rows, newest first. */
  function CurrentIds(bans: seq<BanEntry>, n: nat): (ids: seq<nat>)
    requires n <= |bans|
    ensures forall j | 0 <= j < |ids| :: ids[j] < n && InForce(bans[ids[j]])
    ensures forall i, j | 0 <= i < j < |ids| :: ids[i] != ids[j]
  {
    if n == 0 then [] else (if InForce(bans[n - 1]) then [n - 1] else []) + CurrentIds(bans, n - 1)
  }

  lemma {:induction false} CurrentIdsComplete(bans: seq<BanEntry>, n: nat, i: nat)
    requires i < n <= |bans| && InForce(bans[i])
    ensures i in CurrentIds(bans, n)
  {
    if i < n - 1 {
      CurrentIdsComplete(bans, n - 1, i);
    }
  }

  predicate RowInside(b: BanEntry, net: IPNet) {
    b.ip.Of? && Contains(net, ParseIP(b.ip))
  }

  /** The selected rows whose address lies inside a prefix. */
  function InsideIds(bans: seq<BanEntry>, net: IPNet, ids: seq<nat>): (inside: seq<nat>)
    requires forall j | 0 <= j < |ids| :: ids[j] < |bans|
    ensures forall i :: i in inside <==> i in ids && RowInside(bans[i], net)
  {
    if ids == [] then []
    else
      var last := ids[|ids| - 1];
      var before := InsideIds(bans, net, ids[..|ids| - 1]);
      assert forall i :: i in ids <==> i in ids[..|ids| - 1] || i == last;
      if RowInside(bans[last], net) then before + [last] else before
  }

  /** Each selected row is listed once when each row was. */
  lemma {:induction false} InsideIdsDistinct(bans: seq<BanEntry>, net: IPNet, ids: seq<nat>)
    requires forall j | 0 <= j < |ids| :: ids[j] < |bans|
    requires forall i, j | 0 <= i < j < |ids| :: ids[i] != ids[j]
    ensures forall i, j | 0 <= i < j < |InsideIds(bans, net, ids)| ::
              InsideIds(bans, net, ids)[i] != InsideIds(bans, net, ids)[j]
  {
    if ids != [] {
      var n := |ids| - 1;
      var before := InsideIds(bans, net, ids[..n]);
      InsideIdsDistinct(bans, net, ids[..n]);
      assert ids[n] !in ids[..n];
      assert InsideIds(bans, net, ids) == if RowInside(bans[ids[n]], net) then before + [ids[n]] else before;
    }
  }

  function WithoutEntry(table: seq<TableEntry>, e: Entry): seq<TableEntry> {
    if table == [] then []
    else
      var n := |table| - 1;
      WithoutEntry(table[..n], e) + if table[n] == e then [] else [table[n]]
  }

  class Store {
    var bans: seq<BanEntry>
    var whitelist: seq<TableEntry>

    constructor (bans: seq<BanEntry>, whitelist: seq<TableEntry>)
      ensures this.bans == bans && this.whitelist == whitelist
    {
      this.bans, this.whitelist := bans, whitelist;
    }

    method CreateBan(b: BanEntry) returns (id: nat)
      modifies `bans
      ensures bans == old(bans) + [b] && id == |old(bans)|
    {
      id := |bans|;
      bans := bans + [b];
    }

    method UpdateBanStatusExpired(id: nat)
      modifies `bans
      ensures bans == Expire(old(bans), id)
    {
      bans := Expire(bans, id);
    }

    /** The entry column is unique. */
    method AddWhitelist(e: TableEntry) returns (ok: bool)
      modifies `whitelist
      ensures ok <==> e !in old(whitelist)
      ensures whitelist == old(whitelist) + if ok then [e] else []
    {
      ok := e !in whitelist;
      if ok {
        whitelist := whitelist + [e];
      }
    }

    method RemoveWhitelist(e: Entry)
      modifies `whitelist
      ensures whitelist == WithoutEntry(old(whitelist), e)
    {
      whitelist := WithoutEntry(whitelist, e);
    }
  }
}
