/** The XDP program: raw bytes of one frame in, pass or drop out, against the two ban maps userspace fills. */
module XdpFilter {
  import opened Addresses
  import opened Backends

  datatype Action = Pass | Drop

  const ETH_HLEN := 14
  const ETH_P_IP := 0x0800
  const ETH_P_IPV6 := 0x86DD
  const ETH_P_8021Q := 0x8100
  const ETH_P_8021AD := 0x88A8
  const VLAN_HLEN := 4
  const VLAN_MAX_DEPTH := 2
  const IPV4_HLEN := 20
  const IPV6_HLEN := 40

  predicate IsVlan(proto: int) {
    proto == ETH_P_8021Q || proto == ETH_P_8021AD
  }

  /** A big-endian 16-bit field. */
  function U16(frame: seq<Byte>, at: nat): int
    requires at + 2 <= |frame|
  {
    frame[at] as int * 256 + frame[at + 1]
  }

  // ---- what a frame is, independently of how the program walks it ----

  /** `n` VLAN tags precede the EtherType at offset 12 + 4n. */
  ghost predicate Tagged(frame: seq<Byte>, n: nat) {
    && |frame| >= ETH_HLEN + VLAN_HLEN * n
    && forall j | 0 <= j < n :: IsVlan(U16(frame, 12 + VLAN_HLEN * j))
  }

  ghost function EtherType(frame: seq<Byte>, n: nat): int
    requires Tagged(frame, n)
  {
    U16(frame, 12 + VLAN_HLEN * n)
  }

  /** A complete IPv4 header (section 3.1 of RFC 791) or IPv6 header (section 3 of RFC 8200) with source `src` follows
      exactly `n` tags. */
  ghost predicate Carries(frame: seq<Byte>, n: nat, src: IP) {
    && Tagged(frame, n)
    && var l3 := ETH_HLEN + VLAN_HLEN * n;
       || (EtherType(frame, n) == ETH_P_IP && |frame| >= l3 + IPV4_HLEN && src == frame[l3 + 12..l3 + 16])
       || (EtherType(frame, n) == ETH_P_IPV6 && |frame| >= l3 + IPV6_HLEN && src == frame[l3 + 8..l3 + 24])
  }

  /** The frame ends inside the Ethernet header, a tag the program enters, or the IP header. */
  ghost predicate Truncated(frame: seq<Byte>) {
    || |frame| < ETH_HLEN
    || exists n | 0 <= n <= VLAN_MAX_DEPTH && Tagged(frame, n) ::
         var l3 := ETH_HLEN + VLAN_HLEN * n;
         || (n < VLAN_MAX_DEPTH && IsVlan(EtherType(frame, n)) && |frame| < l3 + VLAN_HLEN)
         || (EtherType(frame, n) == ETH_P_IP && |frame| < l3 + IPV4_HLEN)
         || (EtherType(frame, n) == ETH_P_IPV6 && |frame| < l3 + IPV6_HLEN)
  }

  ghost predicate InMaps(v4: set<IP>, v6: set<IP>, src: IP) {
    if |src| == 4 then src in v4 else src in v6
  }

  ghost predicate Blocked(frame: seq<Byte>, v4: set<IP>, v6: set<IP>) {
    exists n, src | 0 <= n <= VLAN_MAX_DEPTH && Carries(frame, n, src) :: InMaps(v4, v6, src)
  }

  lemma OuterTag(frame: seq<Byte>, m: nat, n: nat)
    requires Tagged(frame, m) && Tagged(frame, n) && m < n
    ensures IsVlan(EtherType(frame, m))
  {
  }

  /** A frame has one reading: an IP EtherType is not a tag, so it fixes how many tags came before it. */
  lemma CarriesOnce(frame: seq<Byte>, m: nat, x: IP, n: nat, y: IP)
    requires Carries(frame, m, x) && Carries(frame, n, y)
    ensures m == n && x == y
  {
    if m < n {
      OuterTag(frame, m, n);
    } else if n < m {
      OuterTag(frame, n, m);
    }
  }

  // ---- counters ----

  function Sum(counters: seq<nat>): nat {
    if counters == [] then 0 else counters[0] + Sum(counters[1..])
  }

  lemma {:induction false} SumBump(counters: seq<nat>, i: nat)
    requires i < |counters|
    ensures Sum(counters[i := counters[i] + 1]) == Sum(counters) + 1
  {
    if i > 0 {
      SumBump(counters[1..], i - 1);
      assert counters[i := counters[i] + 1][1..] == counters[1..][i - 1 := counters[1..][i - 1] + 1];
    } else {
      assert counters[0 := counters[0] + 1][1..] == counters[1..];
    }
  }

  lemma {:induction false} SumSplit(counters: seq<nat>, i: nat)
    requires i < |counters|
    ensures Sum(counters[..i + 1]) == Sum(counters[..i]) + counters[i]
  {
    if i == 0 {
      assert counters[..1][1..] == [];
    } else {
      SumSplit(counters[1..], i - 1);
      assert counters[..i + 1][1..] == counters[1..][..i] && counters[..i][1..] == counters[1..][..i - 1];
    }
  }

  /** The loaded program with its per-CPU counters. */
  class Program {
    const kernel: Kernel
    const cpus: nat
    var passed: seq<nat>
    var dropped: seq<nat>

    constructor (kernel: Kernel, cpus: nat)
      ensures Ready() && this.kernel == kernel && this.cpus == cpus && Sum(passed) == Sum(dropped) == 0
    {
      this.kernel, this.cpus := kernel, cpus;
      passed := seq(cpus, _ => 0);
      dropped := seq(cpus, _ => 0);
      new;
      AllZero(passed);
      AllZero(dropped);
    }

    predicate Ready()
      reads this
    {
      |passed| == |dropped| == cpus
    }

    /** Every read is in bounds (each index is checked where it stands). The verdict is the declarative one; a frame
        cut short counts nowhere, every other frame counts once, as passed or as dropped. */
    method XdpBanFunc(frame: seq<Byte>, cpu: nat) returns (act: Action)
      requires Ready() && cpu < cpus
      modifies this
      ensures Ready()
      ensures act == Drop <==> Blocked(frame, kernel.v4, kernel.v6)
      ensures Sum(dropped) == old(Sum(dropped)) + if act == Drop then 1 else 0
      ensures Sum(passed) == old(Sum(passed)) + if act == Pass && !Truncated(frame) then 1 else 0
      ensures act == Drop ==> !Truncated(frame)
    {
      if |frame| < ETH_HLEN {
        return Pass;
      }
      var proto := U16(frame, 12);
      var cur := ETH_HLEN;
      var i := 0;
      while i < VLAN_MAX_DEPTH
        invariant 0 <= i <= VLAN_MAX_DEPTH
        invariant cur == ETH_HLEN + VLAN_HLEN * i
        invariant Tagged(frame, i) && proto == EtherType(frame, i)
        invariant Ready() && passed == old(passed) && dropped == old(dropped)
      {
        if proto != ETH_P_8021Q && proto != ETH_P_8021AD {
          break;
        }
        if |frame| < cur + VLAN_HLEN {
          DeeperReadingsFail(frame, i);
          return Pass;
        }
        proto := U16(frame, cur + 2);
        cur := cur + VLAN_HLEN;
        i := i + 1;
      }
      StopsHere(frame, i);
      if proto == ETH_P_IP {
        if |frame| < cur + IPV4_HLEN {
          return Pass;
        }
        var key := frame[cur + 12..cur + 16];
        assert Carries(frame, i, key);
        if key in kernel.v4 {
          StatInc(Drop, cpu);
          return Drop;
        }
      } else if proto == ETH_P_IPV6 {
        if |frame| < cur + IPV6_HLEN {
          return Pass;
        }
        var key := frame[cur + 8..cur + 24];
        assert Carries(frame, i, key);
        if key in kernel.v6 {
          StatInc(Drop, cpu);
          return Drop;
        }
      }
      StatInc(Pass, cpu);
      return Pass;
    }

    method StatInc(act: Action, cpu: nat)
      requires Ready() && cpu < cpus
      modifies this
      ensures Ready()
      ensures Sum(dropped) == old(Sum(dropped)) + if act == Drop then 1 else 0
      ensures Sum(passed) == old(Sum(passed)) + if act == Pass then 1 else 0
    {
      if act == Drop {
        SumBump(dropped, cpu);
        dropped := dropped[cpu := dropped[cpu] + 1];
      } else {
        SumBump(passed, cpu);
        passed := passed[cpu := passed[cpu] + 1];
      }
    }

    /** The scrape sums over CPUs, first the passed counters, then the dropped ones; a lookup that errors ends it. */
    method Stats(passedReadable: bool, droppedReadable: bool) returns (p: nat, d: nat, ok: bool)
      requires Ready()
      ensures ok <==> passedReadable && droppedReadable
      ensures p == if passedReadable then Sum(passed) else 0
      ensures d == if ok then Sum(dropped) else 0
    {
      p, d := 0, 0;
      if !passedReadable {
        return p, d, false;
      }
      for i := 0 to cpus
        invariant p == Sum(passed[..i])
      {
        SumSplit(passed, i);
        p := p + passed[i];
      }
      assert passed[..cpus] == passed;
      if !droppedReadable {
        return p, d, false;
      }
      for i := 0 to cpus
        invariant d == Sum(dropped[..i])
      {
        SumSplit(dropped, i);
        d := d + dropped[i];
      }
      assert dropped[..cpus] == dropped;
      return p, d, true;
    }
  }

  lemma {:induction false} AllZero(counters: seq<nat>)
    requires forall i | 0 <= i < |counters| :: counters[i] == 0
    ensures Sum(counters) == 0
  {
    if counters != [] {
      AllZero(counters[1..]);
    }
  }

  /** The program stopped walking tags at `n`: any reading of the frame is one with `n` tags. */
  lemma StopsHere(frame: seq<Byte>, n: nat)
    requires n <= VLAN_MAX_DEPTH && Tagged(frame, n)
    requires n == VLAN_MAX_DEPTH || !IsVlan(EtherType(frame, n))
    ensures forall m, src | 0 <= m <= VLAN_MAX_DEPTH && Carries(frame, m, src) :: m == n
    ensures forall m | 0 <= m <= VLAN_MAX_DEPTH && Tagged(frame, m) && m != n :: m < n && IsVlan(EtherType(frame, m))
  {
    forall m | 0 <= m <= VLAN_MAX_DEPTH && Tagged(frame, m) && m != n
      ensures m < n && IsVlan(EtherType(frame, m))
    {
      if m < n {
        OuterTag(frame, m, n);
      }
    }
  }

  lemma DeeperReadingsFail(frame: seq<Byte>, n: nat)
    requires n < VLAN_MAX_DEPTH && Tagged(frame, n) && IsVlan(EtherType(frame, n))
    requires |frame| < ETH_HLEN + VLAN_HLEN * n + VLAN_HLEN
    ensures Truncated(frame)
    ensures forall m, src | 0 <= m <= VLAN_MAX_DEPTH :: !Carries(frame, m, src)
  {
    forall m | 0 <= m <= VLAN_MAX_DEPTH && Tagged(frame, m)
      ensures IsVlan(EtherType(frame, m))
    {
      if m < n {
        OuterTag(frame, m, n);
      }
    }
  }

  // ---- building frames ----

  datatype Tag = Tag(proto: int, tci: seq<Byte>)

  predicate ValidTag(t: Tag) {
    t.proto in {0x8100, 0x88A8} && |t.tci| == 2
  }

  function Bytes16(v: int): (b: seq<Byte>)
    requires 0 <= v < 65536
    ensures |b| == 2 && U16(b, 0) == v
  {
    [v / 256, v % 256]
  }

  /** The bytes after the MAC addresses: each tag's EtherType and control field, then the inner EtherType. */
  function Tail(tags: seq<Tag>, proto: int, l3: seq<Byte>): seq<Byte>
    requires 0 <= proto < 65536 && forall i | 0 <= i < |tags| :: ValidTag(tags[i])
  {
    if tags == [] then Bytes16(proto) + l3
    else
      assert ValidTag(tags[0]);
      Bytes16(tags[0].proto) + tags[0].tci + Tail(tags[1..], proto, l3)
  }

  lemma {:induction false} TailLayout(tags: seq<Tag>, proto: int, l3: seq<Byte>)
    requires 0 <= proto < 65536 && forall i | 0 <= i < |tags| :: ValidTag(tags[i])
    ensures var t := Tail(tags, proto, l3); var at := VLAN_HLEN * |tags|;
            && |t| == at + 2 + |l3| && U16(t, at) == proto && t[at + 2..] == l3
            && forall j | 0 <= j < |tags| :: IsVlan(U16(t, VLAN_HLEN * j))
  {
    var t := Tail(tags, proto, l3);
    if tags == [] {
      assert t[2..] == l3;
    } else {
      TailLayout(tags[1..], proto, l3);
      var rest := Tail(tags[1..], proto, l3);
      assert t[4..] == rest;
      assert t[4 * |tags| + 2..] == rest[4 * |tags[1..]| + 2..];
      forall j | 0 <= j < |tags|
        ensures IsVlan(U16(t, VLAN_HLEN * j))
      {
        if j > 0 {
          assert U16(t, 4 * j) == U16(rest, 4 * (j - 1));
        }
      }
    }
  }

  /** Encoding then classifying: a frame built with at most two tags and a complete IP header is dropped exactly when
      its source address is in the map of its family; behind three or more tags it always passes. */
  lemma BuiltFrameVerdict(macs: seq<Byte>, tags: seq<Tag>, ipv4: bool, l3: seq<Byte>, v4: set<IP>, v6: set<IP>)
    requires |macs| == 12 && (forall i | 0 <= i < |tags| :: ValidTag(tags[i]))
    requires |l3| >= if ipv4 then 20 else 40
    ensures var frame := macs + Tail(tags, if ipv4 then 0x0800 else 0x86DD, l3);
            Blocked(frame, v4, v6) <==>
            |tags| <= 2 && if ipv4 then l3[12..16] in v4 else l3[8..24] in v6
  {
    var proto := if ipv4 then ETH_P_IP else ETH_P_IPV6;
    BuiltLayout(macs, tags, proto, l3);
    LayoutVerdict(macs + Tail(tags, proto, l3), |tags|, ipv4, l3, v4, v6);
  }

  lemma LayoutVerdict(frame: seq<Byte>, n: nat, ipv4: bool, l3: seq<Byte>, v4: set<IP>, v6: set<IP>)
    requires Tagged(frame, n) && EtherType(frame, n) == if ipv4 then ETH_P_IP else ETH_P_IPV6
    requires frame[ETH_HLEN + VLAN_HLEN * n..] == l3
    requires |l3| >= if ipv4 then IPV4_HLEN else IPV6_HLEN
    ensures Blocked(frame, v4, v6) <==> n <= VLAN_MAX_DEPTH && if ipv4 then l3[12..16] in v4 else l3[8..24] in v6
  {
    var at := ETH_HLEN + VLAN_HLEN * n;
    var lo, hi := if ipv4 then 12 else 8, if ipv4 then 16 else 24;
    SliceOfRest(frame, at, l3, lo, hi);
    assert Carries(frame, n, l3[lo..hi]);
    forall m, other | 0 <= m <= VLAN_MAX_DEPTH && Carries(frame, m, other)
      ensures m == n && other == l3[lo..hi]
    {
      CarriesOnce(frame, m, other, n, l3[lo..hi]);
    }
  }

  lemma SliceOfRest(frame: seq<Byte>, at: nat, l3: seq<Byte>, lo: nat, hi: nat)
    requires at <= |frame| && frame[at..] == l3 && lo <= hi <= |l3|
    ensures |frame| == at + |l3| && frame[at + lo..at + hi] == l3[lo..hi]
  {
    forall i | lo <= i < hi
      ensures frame[at + i] == l3[i]
    {
      assert frame[at..][i] == l3[i];
    }
  }

  lemma BuiltLayout(macs: seq<Byte>, tags: seq<Tag>, proto: int, l3: seq<Byte>)
    requires |macs| == 12 && 0 <= proto < 65536 && (forall i | 0 <= i < |tags| :: ValidTag(tags[i]))
    ensures var frame := macs + Tail(tags, proto, l3); var n := |tags|;
            && Tagged(frame, n) && EtherType(frame, n) == proto
            && frame[ETH_HLEN + VLAN_HLEN * n..] == l3
  {
    var tail := Tail(tags, proto, l3);
    var frame := macs + tail;
    TailLayout(tags, proto, l3);
    forall at | 0 <= at && at + 2 <= |tail|
      ensures U16(frame, 12 + at) == U16(tail, at)
    {
    }
    forall j | 0 <= j < |tags|
      ensures IsVlan(U16(frame, 12 + VLAN_HLEN * j))
    {
      assert U16(frame, 12 + VLAN_HLEN * j) == U16(tail, VLAN_HLEN * j);
    }
    assert frame[ETH_HLEN + VLAN_HLEN * |tags|..] == tail[VLAN_HLEN * |tags| + 2..];
  }

  /** End to end: from any pinned maps, whatever was edited and whatever failed, in composite or in XDP-only mode, a
      frame is dropped exactly when at most two tags precede a complete IP header whose source address was banned by
      the last edit of it that the XDP backend accepted, or was there at the start and no edit of it was accepted. */
  lemma VerdictFollowsLastEdit(k: KernelState, edits: seq<Edit>, frame: seq<Byte>)
    requires WellFormed(k)
    ensures var banned := (src: IP) => Canonical(src) && LastEditBanned(InXdp(k, src), k, Xdp, edits, src);
            forall e | e in {Xdp, BOTH} ::
              Blocked(frame, EditRun(k, e, edits).v4, EditRun(k, e, edits).v6) <==>
              exists n, src | 0 <= n <= VLAN_MAX_DEPTH && Carries(frame, n, src) :: banned(src)
  {
    CompositeMembersAreIndependent(k, edits, BanEdit([], NO_FAULTS));
    var maps := EditRun(k, Xdp, edits);
    forall src: IP | |src| == 4 || |src| == 16
      ensures InMaps(maps.v4, maps.v6, src) <==> Canonical(src) && LastEditBanned(InXdp(k, src), k, Xdp, edits, src)
    {
      XdpRunRefinesSet(k, edits, if Canonical(src) then src else [0, 0, 0, 0]);
    }
  }
}
