/** Pairing captured SIP responses with the requests they answer, through a bounded map of requests in flight. An
    address is its text, which never contains a bar. */
module Pcap {
  import opened SipParser
  import opened Addresses
  import Dedup
  import SipRoundTrip

  type AddrText = s: string | Dedup.NoBar(s) witness ""

  const INFLIGHT_MAX: nat := 100_000
  const INFLIGHT_TTL := 300

  datatype Record = Record(method_: string, userAgent: string, fromUser: string, toUser: string, hasAuth: bool,
                           seen: int)

  datatype Event = Event(source: AddrText, method_: string, userAgent: string, fromUser: string, toUser: string,
                         callID: string, responseCode: int, isResponse: bool, rejected: bool, rejectReason: string)

  /** Codes that mean refusal whatever the phrase, and lower-cased phrases that do with their code. */
  datatype RejectMatcher = RejectMatcher(codes: set<int>, phrases: map<int, set<string>>)

  predicate Matches(m: RejectMatcher, code: int, reason: string) {
    code in m.codes || (code in m.phrases && Lower(reason) in m.phrases[code])
  }

  function RejectReason(code: int, reason: string): string {
    TrimSpace("sip server returned " + Dedup.Itoa(code) + " " + reason)
  }

  function InflightKey(callID: string, sender: AddrText): string {
    callID + "|" + sender
  }

  /** Whatever a Call-ID contains, a key names one Call-ID and one sender. */
  lemma KeyInjective(c1: string, a1: AddrText, c2: string, a2: AddrText)
    ensures InflightKey(c1, a1) == InflightKey(c2, a2) <==> c1 == c2 && a1 == a2
  {
    if InflightKey(c1, a1) == InflightKey(c2, a2) {
      Dedup.SplitAtLastBar(c1, a1, c2, a2);
    }
  }

  // ---- steps ----

  /** One captured message with the local addresses at that time, or a prune tick. */
  datatype Op =
    | Packet(src: AddrText, dst: Option<AddrText>, msg: SIPMessage, now: int, local: set<AddrText>)
    | PruneTick(now: int)

  type Inflight = map<string, Record>

  predicate Stashes(op: Op) {
    op.Packet? && !op.msg.isResponse && op.src !in op.local && op.msg.callID != ""
  }

  function KeyOf(op: Op): string
    requires Stashes(op)
  {
    InflightKey(op.msg.callID, op.src)
  }

  function RecordOf(op: Op): Record
    requires op.Packet?
  {
    Record(op.msg.method_, op.msg.userAgent, op.msg.fromUser, op.msg.toUser, op.msg.hasAuth, op.now)
  }

  predicate Challenge(msg: SIPMessage) {
    msg.responseCode == 401 || msg.responseCode == 407
  }

  /** The event a message emits, given the requests known to be in flight before it. */
  function Emitted(m: Inflight, rejects: RejectMatcher, op: Op): Option<Event> {
    if op.PruneTick? then None
    else if !op.msg.isResponse then
      if op.src in op.local then None
      else Some(Event(op.src, op.msg.method_, op.msg.userAgent, op.msg.fromUser, op.msg.toUser, op.msg.callID,
                      op.msg.responseCode, false, false, ""))
    else if op.dst.None? || op.dst.value in op.local then None
    else
      var key := InflightKey(op.msg.callID, op.dst.value);
      var found := op.msg.callID != "" && key in m;
      if Challenge(op.msg) && !(found && m[key].hasAuth) then None
      else
        var rejected := Matches(rejects, op.msg.responseCode, op.msg.reason);
        var why := if rejected then RejectReason(op.msg.responseCode, op.msg.reason) else "";
        Some(if found then
               Event(op.dst.value, if op.msg.method_ == "" then m[key].method_ else op.msg.method_, m[key].userAgent,
                     m[key].fromUser, m[key].toUser, op.msg.callID, op.msg.responseCode, true, rejected, why)
             else
               Event(op.dst.value, op.msg.method_, "", "", "", op.msg.callID, op.msg.responseCode, true, rejected, why))
  }

  /** The map that forgets nothing. */
  function Latest(ops: seq<Op>): Inflight {
    if ops == [] then map[]
    else
      var op := ops[|ops| - 1];
      var m := Latest(ops[..|ops| - 1]);
      if Stashes(op) then m[KeyOf(op) := RecordOf(op)] else m
  }

  predicate Submap(m: Inflight, full: Inflight) {
    forall k | k in m :: k in full && m[k] == full[k]
  }

  /** `n` entries removed, or all there are, and none of them newer than a survivor; ties may fall either way. */
  ghost predicate EvictedOldest(m: Inflight, left: Inflight, n: nat) {
    && Submap(left, m)
    && |m| - |left| == (if n <= |m| then n else |m|)
    && forall k, s | k in m && k !in left && s in left :: m[k].seen <= left[s].seen
  }

  function EvictCount(m: Inflight): nat {
    if |m| >= INFLIGHT_MAX then INFLIGHT_MAX / 10 else 0
  }

  function Unexpired(m: Inflight, now: int): Inflight {
    map k | k in m && m[k].seen >= now - INFLIGHT_TTL :: m[k]
  }

  /** One step of the bounded map. */
  ghost predicate Next(m: Inflight, op: Op, m': Inflight) {
    match op
    case Packet(_, _, _, _, _) =>
      if Stashes(op) then
        exists left ::
          EvictedOldest(m, left, EvictCount(m)) && m' == left[KeyOf(op) := RecordOf(op)]
      else m' == m
    case PruneTick(now) => m' == Unexpired(m, now)
  }

  /** Every state of a run of the bounded map, whichever way ties fall. */
  ghost predicate BoundedRun(ops: seq<Op>, states: seq<Inflight>) {
    && |states| == |ops| + 1 && states[0] == map[]
    && forall i | 0 <= i < |ops| :: Next(states[i], ops[i], states[i + 1])
  }

  // ---- refinement ----

  lemma NextKeepsSubmap(m: Inflight, op: Op, m': Inflight, ops: seq<Op>)
    requires Submap(m, Latest(ops)) && Next(m, op, m')
    ensures Submap(m', Latest(ops + [op]))
  {
    assert (ops + [op])[..|ops|] == ops;
  }

  /** In every run, whatever was evicted or pruned, each record held is the latest request of its key. */
  lemma {:induction false} BoundedRunHoldsLatest(ops: seq<Op>, states: seq<Inflight>, i: nat)
    requires BoundedRun(ops, states) && i <= |ops|
    ensures Submap(states[i], Latest(ops[..i]))
  {
    if i > 0 {
      BoundedRunHoldsLatest(ops, states, i - 1);
      assert Next(states[i - 1], ops[i - 1], states[i - 1 + 1]);
      NextKeepsSubmap(states[i - 1], ops[i - 1], states[i], ops[..i - 1]);
      assert ops[..i - 1] + [ops[i - 1]] == ops[..i];
    }
  }

  /** Forgetting loses nothing but failed logins and enrichment: the event of a 401 or 407 is the unbounded run's or is
      missing; every request event is the same; every other response event is there in both, with the same source,
      Call-ID, code, rejected flag and reason. */
  ghost predicate Weaker(op: Op, bounded: Option<Event>, full: Option<Event>) {
    if op.Packet? && op.msg.isResponse && Challenge(op.msg) then bounded.None? || bounded == full
    else if op.Packet? && op.msg.isResponse then
      && (bounded.Some? <==> full.Some?)
      && (bounded.Some? ==>
            && bounded.value.source == full.value.source && bounded.value.callID == full.value.callID
            && bounded.value.responseCode == full.value.responseCode
            && bounded.value.isResponse && full.value.isResponse
            && bounded.value.rejected == full.value.rejected
            && bounded.value.rejectReason == full.value.rejectReason)
    else bounded == full
  }

  lemma BoundedRunEmitsSubset(ops: seq<Op>, states: seq<Inflight>, rejects: RejectMatcher, i: nat)
    requires BoundedRun(ops, states) && i < |ops|
    ensures Weaker(ops[i], Emitted(states[i], rejects, ops[i]), Emitted(Latest(ops[..i]), rejects, ops[i]))
  {
    BoundedRunHoldsLatest(ops, states, i);
  }

  // ---- what the latest map means ----

  /** Message `i` is a request of that (non-empty) Call-ID from that sender, not local at the time. */
  predicate RequestAt(ops: seq<Op>, i: nat, callID: string, sender: AddrText) {
    && i < |ops| && ops[i].Packet? && !ops[i].msg.isResponse && ops[i].src !in ops[i].local
    && callID != "" && ops[i].msg.callID == callID && ops[i].src == sender
  }

  predicate LatestRequestAt(ops: seq<Op>, i: nat, callID: string, sender: AddrText) {
    RequestAt(ops, i, callID, sender) && forall j | i < j < |ops| :: !RequestAt(ops, j, callID, sender)
  }

  lemma {:induction false} LatestIsLastRequest(ops: seq<Op>, callID: string, sender: AddrText)
    ensures var key := InflightKey(callID, sender);
            && (key in Latest(ops) ==>
                  exists i: nat :: LatestRequestAt(ops, i, callID, sender) && Latest(ops)[key] == RecordOf(ops[i]))
            && (key !in Latest(ops) ==> forall i: nat :: !RequestAt(ops, i, callID, sender))
  {
    if ops != [] {
      var n := |ops| - 1;
      var before, key := ops[..n], InflightKey(callID, sender);
      LatestIsLastRequest(before, callID, sender);
      if Stashes(ops[n]) {
        KeyInjective(ops[n].msg.callID, ops[n].src, callID, sender);
      }
      forall i: nat | i < n
        ensures RequestAt(before, i, callID, sender) <==> RequestAt(ops, i, callID, sender)
      {
        assert before[i] == ops[i];
      }
      if RequestAt(ops, n, callID, sender) {
        assert LatestRequestAt(ops, n, callID, sender);
      } else if key in Latest(ops) {
        var i: nat :| LatestRequestAt(before, i, callID, sender) && Latest(before)[key] == RecordOf(before[i]);
        assert LatestRequestAt(ops, i, callID, sender) && before[i] == ops[i];
      }
    }
  }

  /** In every run, no event is attributed to an address local at that time; and a 401 or 407 is reported as a failed
      login only for the sender of an earlier request with its Call-ID, the latest such request having carried
      credentials (sections 18.2.2 and 22.2 of RFC 3261). */
  lemma FailedLoginsFollowCredentials(ops: seq<Op>, states: seq<Inflight>, rejects: RejectMatcher, i: nat)
    requires BoundedRun(ops, states) && i < |ops| && Emitted(states[i], rejects, ops[i]).Some?
    ensures var e := Emitted(states[i], rejects, ops[i]).value;
            && e.source !in ops[i].local
            && (e.isResponse && (e.responseCode == 401 || e.responseCode == 407) ==>
                  exists r: nat :: LatestRequestAt(ops[..i], r, e.callID, e.source) && ops[r].msg.hasAuth)
  {
    var e := Emitted(states[i], rejects, ops[i]).value;
    if e.isResponse && (e.responseCode == 401 || e.responseCode == 407) {
      BoundedRunHoldsLatest(ops, states, i);
      LatestIsLastRequest(ops[..i], e.callID, e.source);
      var key := InflightKey(e.callID, e.source);
      assert key in states[i] && states[i][key].hasAuth;
      var r: nat :| LatestRequestAt(ops[..i], r, e.callID, e.source) && Latest(ops[..i])[key] == RecordOf(ops[..i][r]);
      assert ops[..i][r] == ops[r];
    }
  }

  // ---- what is reported ----

  /** `p` is `phrase` in lower case. */
  ghost predicate LowerCaseOf(p: string, phrase: string) {
    |p| == |phrase| &&
    forall i | 0 <= i < |p| :: p[i] == if 'A' <= phrase[i] <= 'Z' then phrase[i] - 'A' + 'a' else phrase[i]
  }

  /** The code is listed, or it is listed with that phrase, upper or lower case. */
  ghost predicate Listed(m: RejectMatcher, code: int, phrase: string) {
    code in m.codes || (code in m.phrases && exists p :: p in m.phrases[code] && LowerCaseOf(p, phrase))
  }

  lemma MatchesIsListed(m: RejectMatcher, code: int, phrase: string)
    ensures Matches(m, code, phrase) <==> Listed(m, code, phrase)
  {
    if code in m.phrases {
      assert LowerCaseOf(Lower(phrase), phrase);
      forall p | p in m.phrases[code] && LowerCaseOf(p, phrase)
        ensures p == Lower(phrase)
      {
      }
    }
  }

  /** What every response event says of the response. */
  ghost predicate Reports(e: Event, op: Op, rejects: RejectMatcher)
    requires op.Packet? && op.dst.Some?
  {
    && e.source == op.dst.value && e.isResponse && e.callID == op.msg.callID
    && e.responseCode == op.msg.responseCode
    && (e.rejected <==> Listed(rejects, op.msg.responseCode, op.msg.reason))
    && e.rejectReason == if e.rejected then RejectReason(op.msg.responseCode, op.msg.reason) else ""
  }

  /** A request from a sender that is not local is reported with its own fields; one from a local sender is not. */
  lemma RequestIsReported(m: Inflight, rejects: RejectMatcher, op: Op)
    requires op.Packet? && !op.msg.isResponse
    ensures op.src in op.local ==> Emitted(m, rejects, op).None?
    ensures op.src !in op.local ==>
              && Emitted(m, rejects, op).Some?
              && var e := Emitted(m, rejects, op).value;
                 && e.source == op.src && !e.isResponse && !e.rejected && e.rejectReason == ""
                 && e.method_ == op.msg.method_ && e.userAgent == op.msg.userAgent
                 && e.fromUser == op.msg.fromUser && e.toUser == op.msg.toUser
                 && e.callID == op.msg.callID && e.responseCode == op.msg.responseCode
  {
  }

  /** A response to a destination that is not local, while the latest request of its Call-ID from there is held: a 401
      or 407 is reported exactly when that request carried credentials, any other code always; the report names that
      request's users and agent, and its method where the response has none. */
  lemma ResponseToHeldRequest(ops: seq<Op>, states: seq<Inflight>, rejects: RejectMatcher, i: nat, r: nat)
    requires BoundedRun(ops, states) && i < |ops| && ops[i].Packet? && ops[i].msg.isResponse
    requires ops[i].dst.Some? && ops[i].dst.value !in ops[i].local
    requires LatestRequestAt(ops[..i], r, ops[i].msg.callID, ops[i].dst.value)
    requires InflightKey(ops[i].msg.callID, ops[i].dst.value) in states[i]
    ensures var req, resp := ops[r].msg, ops[i].msg; var evt := Emitted(states[i], rejects, ops[i]);
            && (evt.Some? <==> (resp.responseCode == 401 || resp.responseCode == 407 ==> req.hasAuth))
            && (evt.Some? ==>
                  && Reports(evt.value, ops[i], rejects)
                  && evt.value.userAgent == req.userAgent
                  && evt.value.fromUser == req.fromUser && evt.value.toUser == req.toUser
                  && evt.value.method_ == if resp.method_ == "" then req.method_ else resp.method_)
  {
    var callID, dst := ops[i].msg.callID, ops[i].dst.value;
    BoundedRunHoldsLatest(ops, states, i);
    LatestIsLastRequest(ops[..i], callID, dst);
    var q: nat :| LatestRequestAt(ops[..i], q, callID, dst) &&
                  Latest(ops[..i])[InflightKey(callID, dst)] == RecordOf(ops[..i][q]);
    assert q == r && ops[..i][r] == ops[r];
    MatchesIsListed(rejects, ops[i].msg.responseCode, ops[i].msg.reason);
  }

  /** With no such request held: a 401 or 407 is not reported, any other code is, with no users, no agent and the
      response's own method. */
  lemma ResponseWithoutRequest(m: Inflight, rejects: RejectMatcher, op: Op)
    requires op.Packet? && op.msg.isResponse
    ensures op.dst.None? || op.dst.value in op.local ==> Emitted(m, rejects, op).None?
    ensures op.dst.Some? && op.dst.value !in op.local &&
            (op.msg.callID == "" || InflightKey(op.msg.callID, op.dst.value) !in m) ==>
              var evt := Emitted(m, rejects, op);
              && (evt.Some? <==> op.msg.responseCode != 401 && op.msg.responseCode != 407)
              && (evt.Some? ==>
                    && Reports(evt.value, op, rejects)
                    && evt.value.userAgent == evt.value.fromUser == evt.value.toUser == ""
                    && evt.value.method_ == op.msg.method_)
  {
    MatchesIsListed(rejects, op.msg.responseCode, op.msg.reason);
  }

  /** The reason given with a rejection: the code, and the phrase if there is one. */
  lemma RejectReasonMeans(code: int, phrase: string)
    requires SipRoundTrip.Trimmed(phrase)
    ensures RejectReason(code, phrase) ==
            "sip server returned " + Dedup.Itoa(code) +
            if phrase == "" then "" else " " + phrase
  {
    assert "sip server returned "[..1][0] == 's';
    HeadIsTrimmed("sip server returned ", code);
    TrimAfterHead("sip server returned " + Dedup.Itoa(code), phrase);
  }

  lemma HeadIsTrimmed(start: string, code: int)
    requires start != "" && !SipRoundTrip.Spaces(start[..1])
    ensures start + Dedup.Itoa(code) != "" && SipRoundTrip.Trimmed(start + Dedup.Itoa(code))
  {
    var head := start + Dedup.Itoa(code);
    Dedup.DecimalDigits(if code < 0 then -code else code);
    assert head[..1] == start[..1];
    assert '0' <= head[|head| - 1] <= '9' && head[|head| - 1..][0] == head[|head| - 1];
  }

  lemma TrimAfterHead(head: string, phrase: string)
    requires head != "" && SipRoundTrip.Trimmed(head) && SipRoundTrip.Trimmed(phrase)
    ensures TrimSpace(head + " " + phrase) == head + if phrase == "" then "" else " " + phrase
  {
    if phrase == "" {
      assert head + " " + phrase == head + " ";
      TrimOneSpace(head);
    } else {
      JoinedIsTrimmed(head, phrase);
      SipRoundTrip.TrimmedItself(head + " " + phrase);
      SipRoundTrip.Assoc(head, " ", phrase);
    }
  }

  lemma TrimOneSpace(head: string)
    requires head != "" && SipRoundTrip.Trimmed(head)
    ensures TrimSpace(head + " ") == head
  {
    SipRoundTrip.TrimSpaceOf("", head, " ");
    Empty(head + " ");
  }

  lemma Empty(s: string)
    ensures "" + s == s
  {
  }

  lemma JoinedIsTrimmed(x: string, y: string)
    requires x != "" && y != "" && SipRoundTrip.Trimmed(x) && SipRoundTrip.Trimmed(y)
    ensures SipRoundTrip.Trimmed(x + " " + y)
  {
    var all := x + " " + y;
    assert all[..1] == x[..1];
    assert all[|all| - 1..] == y[|y| - 1..];
  }

  // ---- how long a request is held ----

  /** Nothing between `r` and `i` can push the request at `r` out: no prune more than five minutes after it, and no new
      request on a full map. */
  ghost predicate Undisturbed(ops: seq<Op>, states: seq<Inflight>, r: nat, i: nat)
    requires |states| == |ops| + 1 && r < i <= |ops|
  {
    forall j | r < j < i ::
      && (ops[j].PruneTick? ==> ops[j].now <= ops[r].now + 300)
      && (ops[j].Packet? && !ops[j].msg.isResponse ==> |states[j]| < 100_000)
  }

  lemma NothingEvicted(m: Inflight, left: Inflight)
    requires EvictedOldest(m, left, 0)
    ensures left == m
  {
    assert |m| == |m.Keys| && |left| == |left.Keys|;
    SameSizeSubset(left.Keys, m.Keys);
    assert left.Keys == m.Keys;
  }

  lemma SameSizeSubset(a: set<string>, b: set<string>)
    requires a <= b && |a| == |b|
    ensures a == b
  {
    if x :| x in b && x !in a {
      SubsetSize(a, b - {x});
    }
  }

  lemma StashedIsHeld(m: Inflight, op: Op, m': Inflight, callID: string)
    requires Next(m, op, m') && op.Packet? && RequestAt([op], 0, callID, op.src)
    ensures InflightKey(callID, op.src) in m' && m'[InflightKey(callID, op.src)] == RecordOf(op)
  {
  }

  lemma StaysHeld(m: Inflight, op: Op, m': Inflight, callID: string, sender: AddrText)
    requires Next(m, op, m') && InflightKey(callID, sender) in m && !RequestAt([op], 0, callID, sender)
    requires op.PruneTick? ==> op.now <= m[InflightKey(callID, sender)].seen + 300
    requires op.Packet? && !op.msg.isResponse ==> |m| < 100_000
    ensures InflightKey(callID, sender) in m' && m'[InflightKey(callID, sender)] == m[InflightKey(callID, sender)]
  {
    if Stashes(op) {
      var left :| EvictedOldest(m, left, EvictCount(m)) && m' == left[KeyOf(op) := RecordOf(op)];
      NothingEvicted(m, left);
      KeyInjective(op.msg.callID, op.src, callID, sender);
    }
  }

  /** In every run, the latest request of a Call-ID and sender is held for five minutes, as long as the map is not
      full: so its responses are reported as `ResponseToHeldRequest` says. */
  lemma {:induction false} LatestRequestIsHeld(ops: seq<Op>, states: seq<Inflight>, r: nat, i: nat, callID: string,
                                               sender: AddrText)
    requires BoundedRun(ops, states) && r < i <= |ops| && LatestRequestAt(ops[..i], r, callID, sender)
    requires Undisturbed(ops, states, r, i)
    ensures InflightKey(callID, sender) in states[i] && states[i][InflightKey(callID, sender)] == RecordOf(ops[r])
  {
    var j := i - 1;
    assert Next(states[j], ops[j], states[j + 1]);
    assert ops[..i][j] == ops[j] && ops[..i][r] == ops[r];
    if j == r {
      assert RequestAt([ops[r]], 0, callID, sender);
      StashedIsHeld(states[r], ops[r], states[i], callID);
    } else {
      assert !RequestAt(ops[..i], j, callID, sender);
      assert !RequestAt([ops[j]], 0, callID, sender);
      StillLatest(ops, r, i, callID, sender);
      LatestRequestIsHeld(ops, states, r, j, callID, sender);
      StaysHeld(states[j], ops[j], states[i], callID, sender);
    }
  }

  lemma StillLatest(ops: seq<Op>, r: nat, i: nat, callID: string, sender: AddrText)
    requires r < i - 1 && i <= |ops| && LatestRequestAt(ops[..i], r, callID, sender)
    ensures LatestRequestAt(ops[..i - 1], r, callID, sender)
  {
    forall k: nat | k < i - 1
      ensures RequestAt(ops[..i - 1], k, callID, sender) <==> RequestAt(ops[..i], k, callID, sender)
    {
      assert ops[..i - 1][k] == ops[..i][k];
    }
    var before := ops[..i - 1];
    assert RequestAt(before, r, callID, sender);
    forall j: nat | r < j < |before|
      ensures !RequestAt(before, j, callID, sender)
    {
      assert !RequestAt(ops[..i], j, callID, sender);
    }
  }

  /** A prune ends exactly the records more than five minutes old; a request never evicts anything while the map is not
      full, and on a full map exactly a tenth of it. */
  lemma WhatGoes(m: Inflight, op: Op, m': Inflight, k: string)
    requires Next(m, op, m')
    ensures op.PruneTick? ==> (k in m' <==> k in m && m[k].seen + 300 >= op.now) && (k in m' ==> m'[k] == m[k])
    ensures Stashes(op) && |m| < 100_000 ==> m' == m[InflightKey(op.msg.callID, op.src) := RecordOf(op)]
    ensures Stashes(op) && |m| >= 100_000 ==>
              exists left :: EvictedOldest(m, left, 10_000) &&
                             m' == left[InflightKey(op.msg.callID, op.src) := RecordOf(op)]
  {
    if Stashes(op) {
      var left :| EvictedOldest(m, left, EvictCount(m)) && m' == left[KeyOf(op) := RecordOf(op)];
      if |m| < 100_000 {
        NothingEvicted(m, left);
      } else {
        assert EvictedOldest(m, left, 10_000) && m' == left[InflightKey(op.msg.callID, op.src) := RecordOf(op)];
      }
    }
  }

  // ---- capacity ----

  lemma UpdateSize(m: Inflight, k: string, r: Record)
    ensures |m[k := r]| <= |m| + 1
  {
    assert m[k := r].Keys == m.Keys + {k};
    assert |m[k := r]| == |m[k := r].Keys| && |m| == |m.Keys|;
    if k in m.Keys {
      assert m.Keys + {k} == m.Keys;
    }
  }

  lemma NextKeepsCapacity(m: Inflight, op: Op, m': Inflight)
    requires |m| <= INFLIGHT_MAX && Next(m, op, m')
    ensures |m'| <= INFLIGHT_MAX
  {
    if Stashes(op) {
      var left :| EvictedOldest(m, left, EvictCount(m)) && m' == left[KeyOf(op) := RecordOf(op)];
      UpdateSize(left, KeyOf(op), RecordOf(op));
    } else if op.PruneTick? {
      SubsetSize(m'.Keys, m.Keys);
      assert |m'| == |m'.Keys| && |m| == |m.Keys|;
    }
  }

  lemma {:induction false} SubsetSize(a: set<string>, b: set<string>)
    requires a <= b
    ensures |a| <= |b|
  {
    if a != {} {
      var x :| x in a;
      SubsetSize(a - {x}, b - {x});
    }
  }

  /** The map never exceeds its capacity, in any run. */
  lemma {:induction false} CapacityHolds(ops: seq<Op>, states: seq<Inflight>, i: nat)
    requires BoundedRun(ops, states) && i <= |ops|
    ensures |states[i]| <= 100_000
  {
    if i > 0 {
      CapacityHolds(ops, states, i - 1);
      assert Next(states[i - 1], ops[i - 1], states[i - 1 + 1]);
      NextKeepsCapacity(states[i - 1], ops[i - 1], states[i]);
    }
  }

  // ---- the capture, edited in place ----

  ghost predicate ByAge(m: Inflight, s: seq<string>) {
    && (forall i | 0 <= i < |s| :: s[i] in m)
    && (forall i, j | 0 <= i < j < |s| :: s[i] != s[j] && m[s[i]].seen <= m[s[j]].seen)
  }

  lemma InsertByAge(m: Inflight, s: seq<string>, p: nat, k: string)
    requires ByAge(m, s) && k in m && k !in s && p <= |s|
    requires forall i | 0 <= i < p :: m[s[i]].seen <= m[k].seen
    requires p < |s| ==> m[k].seen <= m[s[p]].seen
    ensures ByAge(m, s[..p] + [k] + s[p..])
    ensures forall x :: x in s[..p] + [k] + s[p..] <==> x in s || x == k
  {
    var t := s[..p] + [k] + s[p..];
    forall x
      ensures x in t <==> x in s || x == k
    {
      assert s == s[..p] + s[p..];
    }
    forall i, j | 0 <= i < j < |t|
      ensures t[i] != t[j] && m[t[i]].seen <= m[t[j]].seen
    {
      assert p < |s| && j > p ==> m[s[p]].seen <= m[s[j - 1]].seen;
    }
  }

  function First(s: seq<string>, n: nat): set<string>
    requires n <= |s|
  {
    set i | 0 <= i < n :: s[i]
  }

  lemma FirstSnoc(s: seq<string>, i: nat)
    requires i < |s| && forall j | 0 <= j < i :: s[j] != s[i]
    ensures First(s, i + 1) == First(s, i) + {s[i]} && s[i] !in First(s, i)
  {
  }

  lemma OldestGoFirst(m: Inflight, all: seq<string>, n: nat, left: Inflight)
    requires ByAge(m, all) && n <= |all| && (forall k :: k in all <==> k in m)
    requires left.Keys == m.Keys - First(all, n) && Submap(left, m)
    ensures forall x, s | x in m && x !in left && s in left :: m[x].seen <= left[s].seen
  {
    forall x, s | x in m && x !in left && s in left
      ensures m[x].seen <= left[s].seen
    {
      var i :| 0 <= i < n && all[i] == x;
      var j :| 0 <= j < |all| && all[j] == s;
      assert j >= n;
    }
  }

  class PcapCapture {
    const rejects: RejectMatcher
    var inflight: Inflight

    constructor (rejects: RejectMatcher)
      ensures this.rejects == rejects && inflight == map[]
    {
      this.rejects, inflight := rejects, map[];
    }

    /** All keys, oldest first. */
    method SortedByAge() returns (all: seq<string>)
      ensures ByAge(inflight, all) && |all| == |inflight| && forall k :: k in all <==> k in inflight
    {
      all := [];
      var todo := inflight.Keys;
      while todo != {}
        invariant todo <= inflight.Keys && ByAge(inflight, all)
        invariant forall k :: k in all <==> k in inflight.Keys - todo
        invariant |all| + |todo| == |inflight.Keys|
        decreases |todo|
      {
        var k :| k in todo;
        todo := todo - {k};
        var p := 0;
        while p < |all| && inflight[all[p]].seen <= inflight[k].seen
          invariant p <= |all|
          invariant forall i | 0 <= i < p :: inflight[all[i]].seen <= inflight[k].seen
        {
          p := p + 1;
        }
        InsertByAge(inflight, all, p, k);
        all := all[..p] + [k] + all[p..];
      }
    }

    method EvictOldest(n: nat)
      modifies `inflight
      ensures EvictedOldest(old(inflight), inflight, n)
    {
      if n == 0 || |inflight| == 0 {
        return;
      }
      ghost var m := inflight;
      var all := SortedByAge();
      var k := if n > |all| then |all| else n;
      DropFirst(all, k);
      OldestGoFirst(m, all, k, inflight);
    }

    method DropFirst(all: seq<string>, n: nat)
      requires n <= |all| && (forall i | 0 <= i < n :: all[i] in inflight)
      requires forall i, j | 0 <= i < j < n :: all[i] != all[j]
      modifies `inflight
      ensures inflight.Keys == old(inflight).Keys - First(all, n) && Submap(inflight, old(inflight))
      ensures |inflight| == |old(inflight)| - n
    {
      for i := 0 to n
        invariant inflight.Keys == old(inflight).Keys - First(all, i) && Submap(inflight, old(inflight))
        invariant |inflight| == |old(inflight)| - i
      {
        FirstSnoc(all, i);
        Drop(all[i]);
      }
    }

    method Drop(key: string)
      requires key in inflight
      modifies `inflight
      ensures inflight == old(inflight) - {key} && |inflight| == |old(inflight)| - 1
    {
      var smaller := inflight - {key};
      assert smaller.Keys == inflight.Keys - {key};
      assert |smaller| == |smaller.Keys| && |inflight| == |inflight.Keys|;
      inflight := smaller;
    }

    method PruneInflight(now: int)
      modifies `inflight
      ensures Next(old(inflight), PruneTick(now), inflight)
    {
      var cutoff := now - INFLIGHT_TTL;
      var todo := inflight.Keys;
      while todo != {}
        invariant todo <= old(inflight).Keys && inflight.Keys <= old(inflight).Keys
        invariant forall k | k in inflight :: inflight[k] == old(inflight)[k]
        invariant forall k | k in old(inflight) :: k in inflight <==> k in todo || old(inflight)[k].seen >= cutoff
        decreases |todo|
      {
        var k :| k in todo;
        todo := todo - {k};
        if inflight[k].seen < cutoff {
          inflight := inflight - {k};
        }
      }
    }

    method HandleSIP(src: AddrText, dst: Option<AddrText>, msg: SIPMessage, now: int, local: set<AddrText>)
      returns (evt: Option<Event>)
      modifies `inflight
      ensures Next(old(inflight), Packet(src, dst, msg, now, local), inflight)
      ensures evt == Emitted(old(inflight), rejects, Packet(src, dst, msg, now, local))
    {
      if !msg.isResponse {
        if src in local {
          return None;
        }
        if msg.callID != "" {
          if |inflight| >= INFLIGHT_MAX {
            EvictOldest(INFLIGHT_MAX / 10);
          }
          assert EvictedOldest(old(inflight), inflight, EvictCount(old(inflight)));
          inflight := inflight[InflightKey(msg.callID, src) :=
            Record(msg.method_, msg.userAgent, msg.fromUser, msg.toUser, msg.hasAuth, now)];
        }
        return Some(Event(src, msg.method_, msg.userAgent, msg.fromUser, msg.toUser, msg.callID, msg.responseCode,
                          false, false, ""));
      }
      if dst.None? || dst.value in local {
        return None;
      }
      var method_, userAgent, fromUser, toUser := msg.method_, "", "", "";
      var found, hasAuth := false, false;
      if msg.callID != "" {
        var key := InflightKey(msg.callID, dst.value);
        if key in inflight {
          var rec := inflight[key];
          found, hasAuth := true, rec.hasAuth;
          if method_ == "" {
            method_ := rec.method_;
          }
          userAgent, fromUser, toUser := rec.userAgent, rec.fromUser, rec.toUser;
        }
      }
      if (msg.responseCode == 401 || msg.responseCode == 407) && !(found && hasAuth) {
        return None;
      }
      var rejected := Matches(rejects, msg.responseCode, msg.reason);
      var why := if rejected then RejectReason(msg.responseCode, msg.reason) else "";
      return Some(Event(dst.value, method_, userAgent, fromUser, toUser, msg.callID, msg.responseCode, true, rejected,
                        why));
    }
  }
}
