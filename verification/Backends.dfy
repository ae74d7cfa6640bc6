/** The firewall backends: an iptables chain and the two XDP ban maps live in the kernel, and an enforcer is a handle
    that edits one of them, or a composite that fans an edit out to several. */
module Backends {
  import opened Addresses

  /** How the environment fails during one step, address by address: an iptables check that errors, an iptables
      append or delete that errors, a map update or delete that errors (a full map included); and whether listing the
      maps errors. */
  datatype Faults = Faults(check: set<Address>, edit: set<Address>, xdp: set<Address>, list: bool)

  const NO_FAULTS := Faults({}, {}, {}, false)

  const MAX_REMOVALS := 10_000

  datatype KernelState = KernelState(chain: seq<Address>, v4: set<IP>, v6: set<IP>)

  datatype Enforcer = IPTables | Xdp | Composite(members: seq<Enforcer>)

  // ---- the iptables chain ----

  function Count(chain: seq<Address>, a: Address): nat {
    if chain == [] then 0 else (if chain[0] == a then 1 else 0) + Count(chain[1..], a)
  }

  /** `iptables -D` removes the first matching rule. */
  function RemoveFirst(chain: seq<Address>, a: Address): seq<Address> {
    if chain == [] then [] else if chain[0] == a then chain[1..] else [chain[0]] + RemoveFirst(chain[1..], a)
  }

  function RemoveUpTo(chain: seq<Address>, a: Address, n: nat): seq<Address> {
    if n == 0 then chain else RemoveFirst(RemoveUpTo(chain, a, n - 1), a)
  }

  /** The commands: `iptables` holds IPv4 rules only, so a check for anything else errors like a missing rule. */
  predicate CheckOk(chain: seq<Address>, ip: IP, f: Faults) {
    Valid(ip) && Canon(ip) in chain && Canon(ip) !in f.check
  }

  predicate AppendOk(ip: IP, f: Faults) {
    Valid(ip) && |Canon(ip)| == 4 && Canon(ip) !in f.edit
  }

  predicate DeleteOk(ip: IP, f: Faults)
    requires Valid(ip)
  {
    Canon(ip) !in f.edit
  }

  function IptablesBan(chain: seq<Address>, ip: IP, f: Faults): (seq<Address>, bool) {
    if CheckOk(chain, ip, f) then (chain, true)
    else if AppendOk(ip, f) then (chain + [Canon(ip)], true)
    else (chain, false)
  }

  function IptablesUnban(chain: seq<Address>, ip: IP, f: Faults): (seq<Address>, bool) {
    if !CheckOk(chain, ip, f) then (chain, true)
    else if !DeleteOk(ip, f) then (chain, false)
    else (RemoveUpTo(chain, Canon(ip), MAX_REMOVALS), Count(chain, Canon(ip)) < MAX_REMOVALS)
  }

  lemma {:induction false} CountMember(chain: seq<Address>, a: Address)
    ensures Count(chain, a) > 0 <==> a in chain
  {
    if chain != [] {
      CountMember(chain[1..], a);
    }
  }

  lemma {:induction false} CountAppend(chain: seq<Address>, a: Address, b: Address)
    ensures Count(chain + [a], b) == Count(chain, b) + if a == b then 1 else 0
  {
    if chain == [] {
      assert Count([a], b) == (if a == b then 1 else 0) + Count([], b);
    } else {
      CountAppend(chain[1..], a, b);
      assert (chain + [a])[1..] == chain[1..] + [a];
    }
  }

  lemma {:induction false} CountRemoveFirst(chain: seq<Address>, a: Address, b: Address)
    ensures Count(RemoveFirst(chain, a), b) == Count(chain, b) - if a == b && a in chain then 1 else 0
  {
    if chain != [] && chain[0] != a {
      CountRemoveFirst(chain[1..], a, b);
      var r := [chain[0]] + RemoveFirst(chain[1..], a);
      assert r[1..] == RemoveFirst(chain[1..], a);
    } else {
      CountMember(chain, a);
    }
  }

  lemma {:induction false} CountRemoveUpTo(chain: seq<Address>, a: Address, n: nat, b: Address)
    ensures Count(RemoveUpTo(chain, a, n), b) ==
            if a != b then Count(chain, b) else if Count(chain, b) <= n then 0 else Count(chain, b) - n
  {
    if n > 0 {
      CountRemoveUpTo(chain, a, n - 1, b);
      CountRemoveFirst(RemoveUpTo(chain, a, n - 1), a, b);
      CountMember(RemoveUpTo(chain, a, n - 1), a);
    }
  }

  /** With faithful commands `Unban` removes every duplicate of one address up to its limit, touches no other
      address, and reports success exactly when there were fewer duplicates than the limit: at exactly the limit it
      has removed them all and still reports an error. */
  lemma UnbanRemovesDuplicates(chain: seq<Address>, ip: IP, f: Faults, b: Address)
    requires Valid(ip) && Canon(ip) !in f.check && Canon(ip) !in f.edit
    ensures var (chain', ok) := IptablesUnban(chain, ip, f);
            var k := Count(chain, Canon(ip));
            && (ok <==> k < 10_000)
            && Count(chain', Canon(ip)) == (if k <= 10_000 then 0 else k - 10_000)
            && (b != Canon(ip) ==> Count(chain', b) == Count(chain, b))
  {
    CountMember(chain, Canon(ip));
    CountRemoveUpTo(chain, Canon(ip), MAX_REMOVALS, Canon(ip));
    CountRemoveUpTo(chain, Canon(ip), MAX_REMOVALS, b);
  }

  // ---- the XDP maps ----

  function XdpBan(k: KernelState, ip: IP, f: Faults): (KernelState, bool) {
    match V4Key(ip)
    case Some(k4) => if k4 in f.xdp then (k, false) else (k.(v4 := k.v4 + {k4}), true)
    case None =>
      match V6Key(ip)
      case Some(k6) => if k6 in f.xdp then (k, false) else (k.(v6 := k.v6 + {k6}), true)
      case None => (k, false)
  }

  function XdpUnban(k: KernelState, ip: IP, f: Faults): (KernelState, bool) {
    match V4Key(ip)
    case Some(k4) => if k4 in f.xdp then (k, false) else (k.(v4 := k.v4 - {k4}), true)
    case None =>
      match V6Key(ip)
      case Some(k6) => if k6 in f.xdp then (k, false) else (k.(v6 := k.v6 - {k6}), true)
      case None => (k, false)
  }

  predicate InXdp(k: KernelState, a: Address) {
    if |a| == 4 then a in k.v4 else a in k.v6
  }

  /** Key widths are fixed by the map types; that no IPv6 key is an IPv4-mapped address, and that the chain holds
      IPv4 rules only, is kept by every edit. */
  predicate WellFormed(k: KernelState) {
    && (forall x | x in k.v4 :: |x| == 4)
    && (forall x | x in k.v6 :: |x| == 16 && !Mapped(x))
    && (forall i | 0 <= i < |k.chain| :: |k.chain[i]| == 4)
  }

  /** What the kernel itself guarantees of the two maps. */
  predicate KeyWidths(k: KernelState) {
    (forall x | x in k.v4 :: |x| == 4) && (forall x | x in k.v6 :: |x| == 16)
  }

  // ---- fan-out ----

  function Ban(k: KernelState, e: Enforcer, ip: IP, f: Faults): (KernelState, bool)
    decreases e, 1
  {
    match e
    case IPTables => var (c, ok) := IptablesBan(k.chain, ip, f); (k.(chain := c), ok)
    case Xdp => XdpBan(k, ip, f)
    case Composite(members) => BanAll(k, members, ip, f)
  }

  function BanAll(k: KernelState, members: seq<Enforcer>, ip: IP, f: Faults): (KernelState, bool)
    decreases members, 0
  {
    if members == [] then (k, true)
    else
      var (k1, ok1) := Ban(k, members[0], ip, f);
      var (k2, ok2) := BanAll(k1, members[1..], ip, f);
      (k2, ok1 && ok2)
  }

  function Unban(k: KernelState, e: Enforcer, ip: IP, f: Faults): (KernelState, bool)
    decreases e, 1
  {
    match e
    case IPTables => var (c, ok) := IptablesUnban(k.chain, ip, f); (k.(chain := c), ok)
    case Xdp => XdpUnban(k, ip, f)
    case Composite(members) => UnbanAll(k, members, ip, f)
  }

  function UnbanAll(k: KernelState, members: seq<Enforcer>, ip: IP, f: Faults): (KernelState, bool)
    decreases members, 0
  {
    if members == [] then (k, true)
    else
      var (k1, ok1) := Unban(k, members[0], ip, f);
      var (k2, ok2) := UnbanAll(k1, members[1..], ip, f);
      (k2, ok1 && ok2)
  }

  const BOTH := Composite([IPTables, Xdp])

  lemma BothIsBaseThenXdp(k: KernelState, ip: IP, f: Faults)
    ensures var (c, ok1) := IptablesBan(k.chain, ip, f); var (x, ok2) := XdpBan(k.(chain := c), ip, f);
            Ban(k, BOTH, ip, f) == (x, ok1 && ok2)
    ensures var (c, ok1) := IptablesUnban(k.chain, ip, f); var (x, ok2) := XdpUnban(k.(chain := c), ip, f);
            Unban(k, BOTH, ip, f) == (x, ok1 && ok2)
  {
    var c := Ban(k, IPTables, ip, f).0;
    assert BanAll(c, [Xdp], ip, f) == XdpBan(c, ip, f) by {
      assert BanAll(XdpBan(c, ip, f).0, [], ip, f).1;
      assert [Xdp][1..] == [];
    }
    var d := Unban(k, IPTables, ip, f).0;
    assert UnbanAll(d, [Xdp], ip, f) == XdpUnban(d, ip, f) by {
      assert UnbanAll(XdpUnban(d, ip, f).0, [], ip, f).1;
      assert [Xdp][1..] == [];
    }
    assert [IPTables, Xdp][1..] == [Xdp];
  }

  lemma BanSuccess(k: KernelState, e: Enforcer, ip: IP, f: Faults)
    requires e in {IPTables, Xdp, BOTH} && Valid(ip)
    ensures var (k', ok) := Ban(k, e, ip, f); var a := Canon(ip);
            && (ok && e != Xdp ==> a in k'.chain)
            && (ok && e != IPTables ==> InXdp(k', a))
            && (!ok && e != BOTH ==> k' == k)
  {
    BothIsBaseThenXdp(k, ip, f);
    KeysRouteEachAddressOnce(ip);
  }

  lemma UnbanSuccess(k: KernelState, e: Enforcer, ip: IP, f: Faults)
    requires e in {IPTables, Xdp, BOTH} && Valid(ip)
    ensures var (k', ok) := Unban(k, e, ip, f); var a := Canon(ip);
            && (ok && e != Xdp && a !in f.check ==> a !in k'.chain)
            && (ok && e != IPTables ==> !InXdp(k', a))
            && (!ok && e != BOTH && Count(k.chain, a) < MAX_REMOVALS ==> k' == k)
  {
    BothIsBaseThenXdp(k, ip, f);
    KeysRouteEachAddressOnce(ip);
    ChainUnbanSuccess(k.chain, ip, f);
  }

  lemma ChainUnbanSuccess(chain: seq<Address>, ip: IP, f: Faults)
    requires Valid(ip)
    ensures var (c, ok) := IptablesUnban(chain, ip, f); var a := Canon(ip);
            (ok && a !in f.check ==> a !in c) && (!ok && Count(chain, a) < MAX_REMOVALS ==> c == chain)
  {
    var a := Canon(ip);
    CountMember(chain, a);
    CountMember(IptablesUnban(chain, ip, f).0, a);
    CountRemoveUpTo(chain, a, MAX_REMOVALS, a);
  }

  /** An edit that succeeds has done its work: after a ban the address has its rule and its key on the backends edited,
      after an un-ban it has no key, and no rule unless the check of it errored. An edit that fails for one backend
      alone leaves it as it was, but for an un-ban that reached its limit. */
  lemma SuccessMeansDone(k: KernelState, e: Enforcer, ip: IP, f: Faults)
    requires e in {IPTables, Xdp, BOTH} && Valid(ip)
    ensures var (k', ok) := Ban(k, e, ip, f); var a := Canon(ip);
            && (ok && e != Xdp ==> a in k'.chain)
            && (ok && e != IPTables ==> InXdp(k', a))
            && (!ok && e != BOTH ==> k' == k)
    ensures var (k', ok) := Unban(k, e, ip, f); var a := Canon(ip);
            && (ok && e != Xdp && a !in f.check ==> a !in k'.chain)
            && (ok && e != IPTables ==> !InXdp(k', a))
            && (!ok && e != BOTH && Count(k.chain, a) < MAX_REMOVALS ==> k' == k)
  {
    BanSuccess(k, e, ip, f);
    UnbanSuccess(k, e, ip, f);
  }

  /** Under failures, exactly: a ban adds a second rule iff the check of a banned address errors and the append does
      not; an un-ban leaves a rule behind iff the check or the delete errors, or there are more than its limit. */
  lemma ChainUnderFailures(chain: seq<Address>, ip: IP, f: Faults)
    requires Valid(ip) && |Canon(ip)| == 4 && Canon(ip) in chain
    ensures var a := Canon(ip);
            && (Count(IptablesBan(chain, ip, f).0, a) > Count(chain, a) <==> a in f.check && a !in f.edit)
            && (a in IptablesUnban(chain, ip, f).0 <==>
                a in f.check || a in f.edit || Count(chain, a) > 10_000)
  {
    var a := Canon(ip);
    CountAppend(chain, a, a);
    CountMember(IptablesUnban(chain, ip, f).0, a);
    CountMember(chain, a);
    CountRemoveUpTo(chain, a, MAX_REMOVALS, a);
  }

  // ---- whole runs of edits ----

  datatype Edit = BanEdit(ip: IP, faults: Faults) | UnbanEdit(ip: IP, faults: Faults)

  function Apply(k: KernelState, e: Enforcer, edit: Edit): (KernelState, bool) {
    match edit
    case BanEdit(ip, f) => Ban(k, e, ip, f)
    case UnbanEdit(ip, f) => Unban(k, e, ip, f)
  }

  function EditRun(k: KernelState, e: Enforcer, edits: seq<Edit>): KernelState {
    if edits == [] then k
    else Apply(EditRun(k, e, edits[..|edits| - 1]), e, edits[|edits| - 1]).0
  }

  /** `k` holds the chain of `base` and the maps of `xdp`. */
  predicate Joins(k: KernelState, base: KernelState, xdp: KernelState) {
    k.chain == base.chain && k.v4 == xdp.v4 && k.v6 == xdp.v6
  }

  lemma EditKeepsMembersApart(k: KernelState, base: KernelState, xdp: KernelState, edit: Edit)
    requires Joins(k, base, xdp)
    ensures var (k', ok) := Apply(k, BOTH, edit); var (b', ok1) := Apply(base, IPTables, edit);
            var (x', ok2) := Apply(xdp, Xdp, edit);
            Joins(k', b', x') && ok == (ok1 && ok2)
  {
    BothIsBaseThenXdp(k, edit.ip, edit.faults);
  }

  /** Whatever fails in either backend, in every run each member of the composite ends in the state it would have
      reached alone; an edit succeeds exactly when both members' do. */
  lemma {:induction false} CompositeMembersAreIndependent(k: KernelState, edits: seq<Edit>, next: Edit)
    ensures Joins(EditRun(k, BOTH, edits), EditRun(k, IPTables, edits), EditRun(k, Xdp, edits))
    ensures Apply(EditRun(k, BOTH, edits), BOTH, next).1 ==
            (Apply(EditRun(k, IPTables, edits), IPTables, next).1 && Apply(EditRun(k, Xdp, edits), Xdp, next).1)
  {
    if edits != [] {
      var before, last := edits[..|edits| - 1], edits[|edits| - 1];
      CompositeMembersAreIndependent(k, before, last);
      EditKeepsMembersApart(EditRun(k, BOTH, before), EditRun(k, IPTables, before), EditRun(k, Xdp, before), last);
    }
    EditKeepsMembersApart(EditRun(k, BOTH, edits), EditRun(k, IPTables, edits), EditRun(k, Xdp, edits), next);
  }

  /** The set the last successful edits describe. */
  ghost predicate LastEditBanned(initially: bool, k: KernelState, e: Enforcer, edits: seq<Edit>, a: Address) {
    if edits == [] then initially
    else
      var before := edits[..|edits| - 1];
      var last := edits[|edits| - 1];
      if Valid(last.ip) && Canon(last.ip) == a && Apply(EditRun(k, e, before), e, last).1 then last.BanEdit?
      else LastEditBanned(initially, k, e, before, a)
  }

  /** From well-formed maps, in every run and under any map faults, an address is in its map exactly when the last
      edit of it that succeeded was a ban (or none did and it was there at the start); the maps stay well formed. */
  lemma {:induction false} XdpRunRefinesSet(k: KernelState, edits: seq<Edit>, a: Address)
    requires WellFormed(k)
    ensures WellFormed(EditRun(k, Xdp, edits))
    ensures InXdp(EditRun(k, Xdp, edits), a) <==> LastEditBanned(InXdp(k, a), k, Xdp, edits, a)
  {
    if edits != [] {
      var last := edits[|edits| - 1];
      XdpRunRefinesSet(k, edits[..|edits| - 1], a);
      KeysRouteEachAddressOnce(last.ip);
    }
  }

  predicate Faithful(edits: seq<Edit>) {
    forall i | 0 <= i < |edits| ::
      Valid(edits[i].ip) && |Canon(edits[i].ip)| == 4 && edits[i].faults.check == {} && edits[i].faults.edit == {}
  }

  /** From a duplicate-free chain, every run with faithful commands keeps the chain duplicate-free and equal to the
      set the last edits describe, and no edit fails. */
  lemma {:induction false} IptablesRunRefinesSet(k: KernelState, edits: seq<Edit>, a: Address)
    requires Faithful(edits) && (forall b: Address :: Count(k.chain, b) <= 1)
    ensures var chain := EditRun(k, IPTables, edits).chain;
            Count(chain, a) == if LastEditBanned(a in k.chain, k, IPTables, edits, a) then 1 else 0
    ensures edits != [] ==> Apply(EditRun(k, IPTables, edits[..|edits| - 1]), IPTables, edits[|edits| - 1]).1
  {
    CountMember(k.chain, a);
    if edits != [] {
      var before := EditRun(k, IPTables, edits[..|edits| - 1]).chain;
      var last := edits[|edits| - 1];
      var c := Canon(last.ip);
      IptablesRunRefinesSet(k, edits[..|edits| - 1], a);
      IptablesRunRefinesSet(k, edits[..|edits| - 1], c);
      CountMember(before, c);
      CountAppend(before, c, a);
      UnbanRemovesDuplicates(before, last.ip, last.faults, a);
    }
  }

  // ---- the kernel, edited in place ----

  class Kernel {
    var chain: seq<Address>
    var v4: set<IP>
    var v6: set<IP>

    constructor (k: KernelState)
      ensures State() == k
    {
      chain, v4, v6 := k.chain, k.v4, k.v6;
    }

    function State(): KernelState
      reads this
    {
      KernelState(chain, v4, v6)
    }

    method IptablesBanOne(ip: IP, f: Faults) returns (ok: bool)
      modifies `chain
      ensures (chain, ok) == IptablesBan(old(chain), ip, f)
    {
      if CheckOk(chain, ip, f) {
        return true;
      }
      if !AppendOk(ip, f) {
        return false;
      }
      chain := chain + [Canon(ip)];
      return true;
    }

    method IptablesUnbanOne(ip: IP, f: Faults) returns (ok: bool)
      modifies `chain
      ensures (chain, ok) == IptablesUnban(old(chain), ip, f)
    {
      var removed := 0;
      while removed < MAX_REMOVALS
        invariant 0 <= removed <= MAX_REMOVALS
        invariant removed > 0 ==> CheckOk(old(chain), ip, f) && DeleteOk(ip, f)
        invariant Valid(ip) ==> chain == RemoveUpTo(old(chain), Canon(ip), removed)
        invariant !Valid(ip) ==> chain == old(chain)
        invariant Valid(ip) ==> removed <= Count(old(chain), Canon(ip))
      {
        if Valid(ip) {
          CountMember(old(chain), Canon(ip));
          CountMember(chain, Canon(ip));
          CountRemoveUpTo(old(chain), Canon(ip), removed, Canon(ip));
        }
        if !CheckOk(chain, ip, f) {
          if removed > 0 {
            RemovalsSaturate(old(chain), Canon(ip), removed, MAX_REMOVALS);
          }
          return true;
        }
        if !DeleteOk(ip, f) {
          return !CheckOk(chain, ip, f);
        }
        chain := RemoveFirst(chain, Canon(ip));
        removed := removed + 1;
      }
      return false;
    }

    method XdpBanOne(ip: IP, f: Faults) returns (ok: bool)
      modifies `v4, `v6
      ensures (State(), ok) == XdpBan(old(State()), ip, f)
    {
      var k4 := V4Key(ip);
      if k4.Some? {
        if k4.value in f.xdp {
          return false;
        }
        v4 := v4 + {k4.value};
        return true;
      }
      var k6 := V6Key(ip);
      if k6.None? || k6.value in f.xdp {
        return false;
      }
      v6 := v6 + {k6.value};
      return true;
    }

    method XdpUnbanOne(ip: IP, f: Faults) returns (ok: bool)
      modifies `v4, `v6
      ensures (State(), ok) == XdpUnban(old(State()), ip, f)
    {
      var k4 := V4Key(ip);
      if k4.Some? {
        if k4.value in f.xdp {
          return false;
        }
        v4 := v4 - {k4.value};
        return true;
      }
      var k6 := V6Key(ip);
      if k6.None? || k6.value in f.xdp {
        return false;
      }
      v6 := v6 - {k6.value};
      return true;
    }

    /** The texts of every key of both maps, in whatever order the kernel iterates, unless the iteration errors. */
    method List(f: Faults) returns (r: Option<seq<Text>>)
      ensures r.None? <==> f.list
      ensures r.Some? ==> forall t :: t in r.value <==> exists x | x in v4 + v6 :: String(x) == t
    {
      var out := [];
      var left := v4 + v6;
      while left != {}
        invariant left <= v4 + v6
        invariant forall t :: t in out <==> exists x | x in v4 + v6 - left :: String(x) == t
        decreases |left|
      {
        var x :| x in left;
        left := left - {x};
        out := out + [String(x)];
      }
      return if f.list then None else Some(out);
    }

    /** Best effort across members: every member is tried, and the error is the join of theirs. */
    method BanWith(e: Enforcer, ip: IP, f: Faults) returns (ok: bool)
      modifies this
      ensures (State(), ok) == Ban(old(State()), e, ip, f)
      decreases e
    {
      match e {
        case IPTables => ok := IptablesBanOne(ip, f);
        case Xdp => ok := XdpBanOne(ip, f);
        case Composite(members) =>
          ok := true;
          for i := 0 to |members|
            invariant var rest := BanAll(State(), members[i..], ip, f);
                      BanAll(old(State()), members, ip, f) == (rest.0, ok && rest.1)
          {
            var one := BanWith(members[i], ip, f);
            ok := ok && one;
          }
      }
    }

    method UnbanWith(e: Enforcer, ip: IP, f: Faults) returns (ok: bool)
      modifies this
      ensures (State(), ok) == Unban(old(State()), e, ip, f)
      decreases e
    {
      match e {
        case IPTables => ok := IptablesUnbanOne(ip, f);
        case Xdp => ok := XdpUnbanOne(ip, f);
        case Composite(members) =>
          ok := true;
          for i := 0 to |members|
            invariant var rest := UnbanAll(State(), members[i..], ip, f);
                      UnbanAll(old(State()), members, ip, f) == (rest.0, ok && rest.1)
          {
            var one := UnbanWith(members[i], ip, f);
            ok := ok && one;
          }
      }
    }
  }

  /** Once every copy is gone, further removals change nothing. */
  lemma {:induction false} RemovalsSaturate(chain: seq<Address>, a: Address, m: nat, n: nat)
    requires m <= n && Count(chain, a) <= m
    ensures RemoveUpTo(chain, a, n) == RemoveUpTo(chain, a, m)
    decreases n
  {
    if m < n {
      RemovalsSaturate(chain, a, m, n - 1);
      CountRemoveUpTo(chain, a, n - 1, a);
      CountMember(RemoveUpTo(chain, a, n - 1), a);
      RemoveAbsent(RemoveUpTo(chain, a, n - 1), a);
    }
  }

  lemma {:induction false} RemoveAbsent(chain: seq<Address>, a: Address)
    requires a !in chain
    ensures RemoveFirst(chain, a) == chain
  {
    if chain != [] {
      RemoveAbsent(chain[1..], a);
      assert chain == [chain[0]] + chain[1..];
    }
  }
}
