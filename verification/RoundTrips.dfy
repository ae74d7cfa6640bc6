/** What the management API's calls undo, and when it refuses. */
module RoundTrips {
  import opened Addresses
  import opened Backends
  import opened BanStore
  import opened Lifecycle
  import opened LifecycleInvariant
  import opened LifecycleTheorems
  import opened Decisions

  // ---- whitelist ----

  lemma {:induction false} CoversIff(nets: seq<IPNet>, ip: IP)
    ensures Covers(nets, ip) <==> exists i :: 0 <= i < |nets| && Contains(nets[i], ip)
  {
    if nets != [] {
      var n := |nets| - 1;
      CoversIff(nets[..n], ip);
      if i :| 0 <= i < n && Contains(nets[..n][i], ip) {
        assert Contains(nets[i], ip);
      }
      if i :| 0 <= i < n && Contains(nets[i], ip) {
        assert Contains(nets[..n][i], ip);
      }
    }
  }

  const IPV6_LOOPBACK: IP := [0, 0, 0, 0, 0, 0, 0, 0, 0, 0, 0, 0, 0, 0, 0, 1]

  /** Who is whitelisted: 127.0.0.0/8 and ::1, the host's own addresses, and what the static and the stored entries
      cover. */
  lemma WhitelistedMeans(s: Sys, a: Address)
    requires s.dynamic == Nets(s.table)
    ensures Whitelisted(s, a) <==>
            || (|a| == 4 && a[0] == 127) || a == IPV6_LOOPBACK
            || a in s.local
            || (exists i :: 0 <= i < |s.fixed| && Contains(s.fixed[i], a))
            || (exists i :: 0 <= i < |s.table| && Contains(ParseCIDR(s.table[i]), a))
  {
    LoopbackMeans(a);
    CoversIff(s.fixed, a);
    StoredCovers(s.table, a);
  }

  lemma LoopbackMeans(a: Address)
    ensures IsLoopback(a) <==> (|a| == 4 && a[0] == 127) || a == IPV6_LOOPBACK
  {
    if |a| == 16 && IsLoopback(a) {
      assert a == IPV6_LOOPBACK;
    }
  }

  lemma StoredCovers(table: seq<TableEntry>, ip: IP)
    ensures Covers(Nets(table), ip) <==> exists i :: 0 <= i < |table| && Contains(ParseCIDR(table[i]), ip)
  {
    var nets := Nets(table);
    CoversIff(nets, ip);
    if i :| 0 <= i < |nets| && Contains(nets[i], ip) {
      assert Contains(ParseCIDR(table[i]), ip);
    }
    if i :| 0 <= i < |table| && Contains(ParseCIDR(table[i]), ip) {
      assert Contains(nets[i], ip);
    }
  }

  predicate OtherCovers(x: TableEntry, e: Entry, ip: IP) {
    x != e && Contains(ParseCIDR(x), ip)
  }

  ghost predicate OthersCover(table: seq<TableEntry>, e: Entry, ip: IP) {
    exists i :: 0 <= i < |table| && OtherCovers(table[i], e, ip)
  }

  lemma OthersCoverSnoc(table: seq<TableEntry>, x: TableEntry, e: Entry, ip: IP)
    ensures OthersCover(table + [x], e, ip) <==> OthersCover(table, e, ip) || OtherCovers(x, e, ip)
  {
    var all := table + [x];
    assert all[|table|] == x;
    if i :| 0 <= i < |table| && OtherCovers(table[i], e, ip) {
      assert OtherCovers(all[i], e, ip);
    }
    if i :| 0 <= i < |all| && OtherCovers(all[i], e, ip) && i < |table| {
      assert OtherCovers(table[i], e, ip);
    }
  }

  lemma {:induction false} WithoutEntryCovers(table: seq<TableEntry>, e: Entry, ip: IP)
    ensures Covers(Nets(WithoutEntry(table, e)), ip) <==> OthersCover(table, e, ip)
  {
    if table != [] {
      var before, x := table[..|table| - 1], table[|table| - 1];
      WithoutEntryCovers(before, e, ip);
      WithoutEntryStep(before, x, e, ip);
      assert before + [x] == table;
    }
  }

  lemma WithoutEntryStep(table: seq<TableEntry>, x: TableEntry, e: Entry, ip: IP)
    requires Covers(Nets(WithoutEntry(table, e)), ip) <==> OthersCover(table, e, ip)
    ensures Covers(Nets(WithoutEntry(table + [x], e)), ip) <==> OthersCover(table + [x], e, ip)
  {
    OthersCoverSnoc(table, x, e, ip);
    assert (table + [x])[..|table|] == table;
    var kept := WithoutEntry(table, e);
    if x == e {
      assert WithoutEntry(table + [x], e) == kept;
    } else {
      NetsAppend(kept, x, ip);
    }
  }

  /** After an entry is removed, whoever it was: only local addresses, the static list and the other stored entries
      whitelist, and nothing else has changed. */
  lemma RemoveWhitelistMeans(s: Sys, e: Entry, ip: IP)
    ensures var s' := RemoveWhitelist(s, e);
            && s' == s.(table := s'.table, dynamic := Nets(s'.table))
            && e !in s'.table && (forall x: TableEntry :: x != e ==> (x in s'.table <==> x in s.table))
            && (Whitelisted(s', ip) <==>
                  IsLocal(s.local, ip) || Covers(s.fixed, ip) || OthersCover(s.table, e, ip))
  {
    WithoutEntryCovers(s.table, e, ip);
    forall x: TableEntry
      ensures x in WithoutEntry(s.table, e) <==> x != e && x in s.table
    {
      RemoveTakesOneEntry(s.table, e, x);
      assert x in WithoutEntry(s.table, e) <==> multiset(WithoutEntry(s.table, e))[x] > 0;
      assert x in s.table <==> multiset(s.table)[x] > 0;
    }
    if e in WithoutEntry(s.table, e) {
      assert false;
    }
  }

  // ---- what an added entry ends ----

  /** The rows a new entry is about: those of a bare address that have not ended, dry-run ones included; the active
      and manual ones inside a CIDR. */
  ghost predicate About(e: Entry, b: BanEntry)
    requires ValidEntry(e)
  {
    match e
    case Bare(lit, _) => b.status != Expired && b.ip == Of(Canon(lit))
    case Cidr(_, _, _) => b.status in {Active, Manual} && b.ip.Of? && Contains(ParseCIDR(e), b.ip.addr)
  }

  lemma CoveredMeans(bans: seq<BanEntry>, e: Entry, i: nat)
    requires OneLiveRow(bans) && ValidEntry(e) && i < |bans|
    ensures i in CoveredIds(bans, e) <==> About(e, bans[i])
  {
    if e.Cidr? {
      if bans[i].ip.Of? {
        ParsePrint(bans[i].ip.addr);
        assert Short(ParseIP(bans[i].ip)) == Short(bans[i].ip.addr);
      }
      if InForce(bans[i]) {
        CurrentIdsComplete(bans, |bans|, i);
      }
    }
  }

  /** An entry that is added is new and parses; exactly the rows about it have ended, all others are untouched. */
  lemma AddedEntryEnds(s: Sys, e: Entry, clear: bool, f: Faults, i: nat)
    requires OneLiveRow(s.bans) && i < |s.bans| && AddWhitelist(s, e, clear, f).1 == Created
    ensures var s' := AddWhitelist(s, e, clear, f).0;
            && ValidEntry(e) && s'.table == s.table + [e] && e !in s.table
            && s' == s.(bans := s'.bans, kernel := s'.kernel, table := s'.table, dynamic := Nets(s'.table))
            && |s'.bans| == |s.bans|
            && s'.bans[i] == if About(e, s.bans[i]) then s.bans[i].(status := Expired) else s.bans[i]
  {
    ClearLoopRows(s, CoveredIds(s.bans, e), f);
    CoveredMeans(s.bans, e, i);
  }

  /** Un-banning any spelling of an address that is not at the limit succeeds when nothing fails. */
  lemma CalmUnban(k: KernelState, e: Enforcer, ip: IP)
    requires e in {IPTables, Xdp, BOTH} && WellFormed(k) && Valid(ip) && Count(k.chain, Canon(ip)) < MAX_REMOVALS
    ensures Unban(k, e, ip, NO_FAULTS).1
  {
    UnbanEffect(k, e, ip, NO_FAULTS, Canon(ip));
  }

  lemma {:induction false} ClearLoopCompletes(s: Sys, ids: seq<nat>)
    requires ValidIds(s, ids) && WellFormed(s.kernel) && s.enforcer in {IPTables, Xdp, BOTH}
    requires forall a: Address :: Count(s.kernel.chain, a) < MAX_REMOVALS
    ensures ClearLoop(s, ids, NO_FAULTS).1
    decreases |ids|
  {
    if ids != [] {
      var t := s.bans[ids[0]].ip;
      if t.Other? {
        ClearLoopCompletes(s, ids[1..]);
      } else {
        ParsePrint(t.addr);
        ReleaseStaysCalm(s, ids[0], ParseIP(t));
        ClearLoopCompletes(Release(s, ids[0], ParseIP(t), NO_FAULTS).0, ids[1..]);
      }
    }
  }

  lemma ReleaseStaysCalm(s: Sys, id: nat, ip: IP)
    requires WellFormed(s.kernel) && s.enforcer in {IPTables, Xdp, BOTH} && id < |s.bans| && Valid(ip)
    requires forall a: Address :: Count(s.kernel.chain, a) < MAX_REMOVALS
    ensures var (s1, ok) := Release(s, id, ip, NO_FAULTS);
            && ok && WellFormed(s1.kernel) && s1.enforcer == s.enforcer && |s1.bans| == |s.bans|
            && forall a: Address :: Count(s1.kernel.chain, a) < MAX_REMOVALS
  {
    var s1 := Release(s, id, ip, NO_FAULTS).0;
    CalmUnban(s.kernel, s.enforcer, ip);
    forall a: Address
      ensures WellFormed(s1.kernel) && Count(s1.kernel.chain, a) < MAX_REMOVALS
    {
      UnbanEffect(s.kernel, s.enforcer, ip, NO_FAULTS, a);
    }
    assert Count(s1.kernel.chain, [0, 0, 0, 0]) < MAX_REMOVALS;
  }

  /** An address of four or sixteen bytes, alone or with a prefix length that fits. */
  predicate Parses(e: Entry) {
    match e
    case Bare(lit, _) => |lit| in {4, 16}
    case Cidr(lit, ones, _) => |lit| in {4, 16} && ones <= 8 * |lit|
    case Junk(_) => false
  }

  /** Without failures, the answer follows from the request and the tables: 400 for a text that does not parse, 409
      when a row is about the entry and `clear_ban` is not set, 500 when the entry is there already, otherwise it is
      added. */
  lemma AddWhitelistAnswers(s: Sys, e: Entry, clear: bool)
    requires WellFormed(s.kernel) && s.enforcer in {IPTables, Xdp, BOTH} && OneLiveRow(s.bans)
    requires forall a: Address :: Count(s.kernel.chain, a) < MAX_REMOVALS
    ensures AddWhitelist(s, e, clear, NO_FAULTS).1 ==
            if !Parses(e) then BadRequest
            else if !clear && exists i :: 0 <= i < |s.bans| && About(e, s.bans[i]) then Conflict
            else if e in s.table then ServerError
            else Created
  {
    assert Parses(e) <==> ValidEntry(e);
    if ValidEntry(e) {
      var ids := CoveredIds(s.bans, e);
      ClearLoopCompletes(s, ids);
      ClearLoopRows(s, ids, NO_FAULTS);
      forall i: nat | i < |s.bans|
        ensures i in ids <==> About(e, s.bans[i])
      {
        CoveredMeans(s.bans, e, i);
      }
      if ids != [] {
        assert ids[0] in ids && About(e, s.bans[ids[0]]);
      }
    }
  }

  lemma {:induction false} WithoutAbsentEntry(table: seq<TableEntry>, e: Entry)
    requires e !in table
    ensures WithoutEntry(table, e) == table
  {
    if table != [] {
      var n := |table| - 1;
      assert table == table[..n] + [table[n]];
      WithoutAbsentEntry(table[..n], e);
    }
  }

  /** Removing an entry that was just added restores the stored entries and who is whitelisted. */
  lemma RemoveUndoesAdd(s: Sys, e: Entry, clear: bool, f: Faults, ip: IP)
    requires AddWhitelist(s, e, clear, f).1 == Created && s.dynamic == Nets(s.table)
    ensures var s' := RemoveWhitelist(AddWhitelist(s, e, clear, f).0, e);
            s'.table == s.table && (Whitelisted(s', ip) <==> Whitelisted(s, ip))
  {
    ClearLoopRows(s, CoveredIds(s.bans, e), f);
    WithoutAbsentEntry(s.table, e);
    assert (s.table + [e])[..|s.table|] == s.table;
  }

  /** Removing an entry takes it out of the table and leaves the other entries, each as often as before. */
  lemma {:induction false} RemoveTakesOneEntry(table: seq<TableEntry>, e: Entry, x: TableEntry)
    ensures e !in WithoutEntry(table, e)
    ensures multiset(WithoutEntry(table, e))[x] == if x == e then 0 else multiset(table)[x]
  {
    if table != [] {
      var n := |table| - 1;
      assert table == table[..n] + [table[n]];
      RemoveTakesOneEntry(table[..n], e, x);
    }
  }

  // ---- bans ----

  /** A manual ban is refused with 409 exactly when the address is whitelisted or has a live row (a dry-run one
      included), otherwise with 400 exactly when address or duration does not parse; a manual un-ban with 404 exactly
      when the address has no live row. A refusal changes nothing. */
  lemma ManualRefusals(s: Sys, ip: IP, dur: Option<int>, now: int, f: Faults)
    ensures var (s', reply) := CreateBan(s, ip, dur, now, f);
            && (reply == Conflict <==> ip != [] && (Whitelisted(s, ip) || HasLiveRow(s.bans, String(ip))))
            && (reply == BadRequest <==> ip == [] || (reply != Conflict && dur.None?))
            && (reply == Conflict || reply == BadRequest ==> s' == s)
    ensures var (s', reply) := DeleteBan(s, ip, f);
            && (reply == NotFound <==> ip != [] && !HasLiveRow(s.bans, String(ip)))
            && (reply == BadRequest <==> ip == [])
            && (reply == NotFound || reply == BadRequest ==> s' == s)
  {
    var found := FindLive(s.bans, String(ip));
    if found.Some? {
      assert Live(s.bans[found.value]) && s.bans[found.value].ip == String(ip);
    }
  }

  lemma ManualBanRow(s: Sys, ip: IP, dur: int, now: int, f: Faults)
    requires Valid(ip) && !Whitelisted(s, ip) && FindLive(s.bans, String(ip)).None?
    ensures var (s', reply) := CreateBan(s, ip, Some(dur), now, f); var n := |s.bans|;
            var (k', ok) := Ban(s.kernel, s.enforcer, ip, f);
            && reply == (if ok then Created else ServerError)
            && |s'.bans| == n + 1 && s'.bans[..n] == s.bans && s' == s.(bans := s'.bans, kernel := k')
            && s'.bans[n] == BanEntry(Of(Canon(ip)), "manual", now, dur, if dur > 0 then Some(now + dur) else None, 1,
                                      if ok then Manual else Expired)
  {
  }

  /** A manual ban that is not refused leaves exactly one new row, for that address, time and duration, with count one:
      manual if it succeeds, and then the address is on every backend in use; ended if it fails. */
  lemma ManualBanMeans(s: Sys, cfg: Config, ip: IP, dur: int, now: int, f: Faults)
    requires Shape(s, cfg) && Valid(ip) && !Whitelisted(s, ip) && !HasLiveRow(s.bans, String(ip))
    ensures var (s', reply) := CreateBan(s, ip, Some(dur), now, f); var n := |s.bans|;
            && reply in {Created, ServerError}
            && |s'.bans| == n + 1 && s'.bans[..n] == s.bans && s' == s.(bans := s'.bans, kernel := s'.kernel)
            && s'.bans[n] == BanEntry(Of(Canon(ip)), "manual", now, dur, if dur > 0 then Some(now + dur) else None, 1,
                                      if reply == Created then Manual else Expired)
            && (reply == Created && s.attached ==> InXdp(s'.kernel, Canon(ip)))
            && (reply == Created && !(s.attached && cfg.standalone) ==> Canon(ip) in s'.kernel.chain)
  {
    FindLiveMeans(s.bans, String(ip));
    ManualBanRow(s, ip, dur, now, f);
    SuccessMeansDone(s.kernel, s.enforcer, ip, f);
  }

  /** Un-banning an address with a live row, where nothing fails or has drifted: done, that row and no other has ended,
      and the address is off the backends in use; a dry-run row was never on them, and they stay. */
  lemma ManualUnbanMeans(s: Sys, cfg: Config, d: Drift, ip: IP, f: Faults, i: nat)
    requires Inv(s, cfg, d) && Valid(ip) && Canon(ip) !in FaultSet(s, f)
    requires i < |s.bans| && s.bans[i].ip == String(ip) && s.bans[i].status != Expired
    ensures var (s', reply) := DeleteBan(s, ip, f); var a := Canon(ip);
            && reply == Done && s' == s.(bans := s'.bans, kernel := s'.kernel)
            && s'.bans == s.bans[i := s.bans[i].(status := Expired)]
            && (s.bans[i].status == DryRun ==> s'.kernel == s.kernel)
            && (s.bans[i].status != DryRun && |a| == 4 && !(s.attached && cfg.standalone) ==>
                  Count(s'.kernel.chain, a) == 0)
            && (s.bans[i].status != DryRun && s.attached ==> !InXdp(s'.kernel, a))
  {
    var a := Canon(ip);
    CountMember(s.kernel.chain, a);
    UnbanEffect(s.kernel, s.enforcer, ip, f, a);
    var found := FindLive(s.bans, String(ip));
    assert found.Some? && found.value == i;
  }

  lemma NewestRowIsFound(bans: seq<BanEntry>, row: BanEntry)
    requires Live(row)
    ensures FindLive(bans + [row], row.ip) == Some(|bans|)
  {
  }

  lemma UnbanSucceeds(s: Sys, cfg: Config, ip: IP)
    requires Inv(s, cfg, NO_DRIFT) && !cfg.standalone && Valid(ip)
    ensures EnforceUnban(s, ip, NO_FAULTS).1
  {
    var c := Canon(ip);
    assert AgreesAt(s, cfg, NO_DRIFT, c);
    CountMember(s.kernel.chain, c);
    UnbanEffect(s.kernel, s.enforcer, ip, NO_FAULTS, c);
  }

  /** The un-ban finds the row the ban added, and nothing can fail. */
  lemma UnbanFindsBan(s: Sys, s1: Sys, cfg: Config, ip: IP, row: BanEntry)
    requires Inv(s1, cfg, NO_DRIFT) && !cfg.standalone && Valid(ip)
    requires s1.bans == s.bans + [row] && InForce(row) && row.ip == String(ip)
    ensures var (s2, reply) := DeleteBan(s1, ip, NO_FAULTS);
            reply == Done && s2.bans == s.bans + [row.(status := Expired)] && s2.attached == s1.attached
  {
    NewestRowIsFound(s.bans, row);
    UnbanSucceeds(s1, cfg, ip);
  }

  /** Agreeing states with the same current rows have the same backends. */
  lemma SameRowsSameBackends(s: Sys, s': Sys, cfg: Config, a: Address)
    requires Inv(s, cfg, NO_DRIFT) && Inv(s', cfg, NO_DRIFT) && !cfg.standalone && s'.attached == s.attached
    requires HasRow(s'.bans, a) <==> HasRow(s.bans, a)
    ensures |a| == 4 ==> Count(s'.kernel.chain, a) == Count(s.kernel.chain, a)
    ensures s.attached ==> (InXdp(s'.kernel, a) <==> InXdp(s.kernel, a))
  {
    assert AgreesAt(s, cfg, NO_DRIFT, a) && AgreesAt(s', cfg, NO_DRIFT, a);
  }

  lemma ManualBanOfIPv4IsQuiet(s: Sys, cfg: Config, ip: IP, dur: Option<int>, now: int)
    requires Inv(s, cfg, NO_DRIFT) && !cfg.standalone && !(Valid(ip) && |Canon(ip)| == 16)
    ensures Inv(CreateBan(s, ip, dur, now, NO_FAULTS).0, cfg, NO_DRIFT)
  {
    NoDriftIsAgreement(s, cfg);
    CreateBanKeeps(s, cfg, NO_DRIFT, ip, dur, now, NO_FAULTS);
    QuietStepRecordsNothing(s, cfg, ManualBan(ip, dur, now), NO_FAULTS);
  }

  lemma ManualUnbanIsQuiet(s: Sys, cfg: Config, ip: IP)
    requires Inv(s, cfg, NO_DRIFT) && !cfg.standalone
    ensures Inv(DeleteBan(s, ip, NO_FAULTS).0, cfg, NO_DRIFT)
  {
    NoDriftIsAgreement(s, cfg);
    DeleteBanKeeps(s, cfg, NO_DRIFT, ip, NO_FAULTS);
    QuietStepRecordsNothing(s, cfg, ManualUnban(ip), NO_FAULTS);
  }

  lemma CreatedRow(s: Sys, ip: IP, dur: int, now: int, f: Faults)
    ensures var (s1, reply) := CreateBan(s, ip, Some(dur), now, f);
            reply == Created ==>
              s1.bans == s.bans + [NewBan(String(ip), "manual", now, dur, 1, Manual)] && s1.attached == s.attached
  {
  }

  /** From a state without drift, un-banning an address that was just banned by hand leaves one ended row more and puts
      chain and maps back as they were, address by address. */
  lemma UnbanUndoesBan(s: Sys, cfg: Config, ip: IP, dur: int, now: int, a: Address)
    requires Inv(s, cfg, NO_DRIFT) && !cfg.standalone && Valid(ip) && |Canon(ip)| == 4
    requires CreateBan(s, ip, Some(dur), now, NO_FAULTS).1 == Created
    ensures var (s2, reply) := DeleteBan(CreateBan(s, ip, Some(dur), now, NO_FAULTS).0, ip, NO_FAULTS);
            && reply == Done
            && s2.bans == s.bans + [NewBan(String(ip), "manual", now, dur, 1, Expired)]
            && (|a| == 4 ==> Count(s2.kernel.chain, a) == Count(s.kernel.chain, a))
            && (s.attached ==> (InXdp(s2.kernel, a) <==> InXdp(s.kernel, a)))
  {
    var s1 := CreateBan(s, ip, Some(dur), now, NO_FAULTS).0;
    CreatedRow(s, ip, dur, now, NO_FAULTS);
    ManualBanOfIPv4IsQuiet(s, cfg, ip, Some(dur), now);
    UnbanOfNewBan(s, s1, cfg, ip, NewBan(String(ip), "manual", now, dur, 1, Manual), a);
  }

  lemma UnbanOfNewBan(s: Sys, s1: Sys, cfg: Config, ip: IP, row: BanEntry, a: Address)
    requires Inv(s, cfg, NO_DRIFT) && Inv(s1, cfg, NO_DRIFT) && !cfg.standalone && Valid(ip)
    requires s1.bans == s.bans + [row] && InForce(row) && row.ip == String(ip) && s1.attached == s.attached
    ensures var (s2, reply) := DeleteBan(s1, ip, NO_FAULTS);
            && reply == Done
            && s2.bans == s.bans + [row.(status := Expired)]
            && (|a| == 4 ==> Count(s2.kernel.chain, a) == Count(s.kernel.chain, a))
            && (s.attached ==> (InXdp(s2.kernel, a) <==> InXdp(s.kernel, a)))
  {
    ManualUnbanIsQuiet(s1, cfg, ip);
    UnbanFindsBan(s, s1, cfg, ip, row);
    EndedRowIsNoRow(s.bans, row.(status := Expired), a);
    SameRowsSameBackends(s, DeleteBan(s1, ip, NO_FAULTS).0, cfg, a);
  }

  lemma EndedRowIsNoRow(bans: seq<BanEntry>, row: BanEntry, a: Address)
    requires !InForce(row)
    ensures HasRow(bans + [row], a) <==> HasRow(bans, a)
  {
    if HasRow(bans, a) {
      var i :| 0 <= i < |bans| && InForce(bans[i]) && bans[i].ip == Of(a);
      assert (bans + [row])[i] == bans[i];
    }
  }
}
