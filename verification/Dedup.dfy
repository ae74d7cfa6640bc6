/** Duplicate suppression: an event is a duplicate when its key was accepted less than one window ago; old keys are
    pruned from time to time. */
module Dedup {

  // ---- the composed key ----

  function Digit(n: nat): char
    requires n < 10
  {
    ('0' as int + n) as char
  }

  function Decimal(n: nat): string {
    if n < 10 then [Digit(n)] else Decimal(n / 10) + [Digit(n % 10)]
  }

  /** `strconv.Itoa` */
  function Itoa(n: int): string {
    if n < 0 then "-" + Decimal(-n) else Decimal(n)
  }

  function EventKey(callID: string, method_: string, responseCode: int): string {
    callID + "|" + method_ + "|" + Itoa(responseCode)
  }

  predicate NoBar(s: string) {
    forall i | 0 <= i < |s| :: s[i] != '|'
  }

  lemma {:induction false} DecimalDigits(n: nat)
    ensures Decimal(n) != [] && forall i | 0 <= i < |Decimal(n)| :: '0' <= Decimal(n)[i] <= '9'
  {
    if n >= 10 {
      DecimalDigits(n / 10);
    }
  }

  lemma {:induction false} DecimalInjective(m: nat, n: nat)
    requires Decimal(m) == Decimal(n)
    ensures m == n
  {
    DecimalDigits(m / 10);
    DecimalDigits(n / 10);
    var s := Decimal(m);
    assert s[|s| - 1] == Digit(m % 10) == Digit(n % 10);
    if m >= 10 && n >= 10 {
      assert s[..|s| - 1] == Decimal(m / 10) == Decimal(n / 10);
      DecimalInjective(m / 10, n / 10);
    }
  }

  lemma ItoaInjective(m: int, n: int)
    requires Itoa(m) == Itoa(n)
    ensures m == n
  {
    DecimalDigits(if m < 0 then -m else m);
    DecimalDigits(if n < 0 then -n else n);
    assert (m < 0 <==> Itoa(m)[0] == '-') && (n < 0 <==> Itoa(n)[0] == '-');
    if m < 0 && n < 0 {
      assert Itoa(m)[1..] == Decimal(-m) && Itoa(n)[1..] == Decimal(-n);
      DecimalInjective(-m, -n);
    } else if m >= 0 && n >= 0 {
      DecimalInjective(m, n);
    }
  }

  lemma LastBarBound(x: string, a: string, y: string, b: string)
    requires x + "|" + a == y + "|" + b && NoBar(a)
    ensures |y| <= |x|
  {
    var s := y + "|" + b;
    assert s[|y|] == '|';
    assert forall i | 0 <= i < |a| :: s[|x| + 1 + i] == a[i];
    assert forall i | |x| < i < |s| :: s[i] == a[i - |x| - 1];
  }

  /** A bar-free tail after the last bar splits off in one way only. */
  lemma SplitAtLastBar(x: string, a: string, y: string, b: string)
    requires x + "|" + a == y + "|" + b && NoBar(a) && NoBar(b)
    ensures x == y && a == b
  {
    var s := x + "|" + a;
    LastBarBound(x, a, y, b);
    LastBarBound(y, b, x, a);
    assert x == s[..|x|] && y == s[..|y|];
    assert a == s[|x| + 1..] && b == s[|y| + 1..];
  }

  /** Two events share a key exactly when their codes agree and Call-ID|method agree; with bar-free methods, exactly
      when all three fields agree, whatever the Call-IDs contain. */
  lemma KeyIdentifiesEvent(c1: string, m1: string, r1: int, c2: string, m2: string, r2: int)
    ensures EventKey(c1, m1, r1) == EventKey(c2, m2, r2) <==> r1 == r2 && c1 + "|" + m1 == c2 + "|" + m2
    ensures NoBar(m1) && NoBar(m2) ==>
              (EventKey(c1, m1, r1) == EventKey(c2, m2, r2) <==> c1 == c2 && m1 == m2 && r1 == r2)
  {
    DecimalDigits(if r1 < 0 then -r1 else r1);
    DecimalDigits(if r2 < 0 then -r2 else r2);
    if EventKey(c1, m1, r1) == EventKey(c2, m2, r2) {
      SplitAtLastBar(c1 + "|" + m1, Itoa(r1), c2 + "|" + m2, Itoa(r2));
      ItoaInjective(r1, r2);
      if NoBar(m1) && NoBar(m2) {
        SplitAtLastBar(c1, m1, c2, m2);
      }
    }
  }

  /** With a bar in the method, different events can share a key. */
  lemma BarInMethodCollides()
    ensures EventKey("a", "b|c", 0) == EventKey("a|b", "c", 0)
  {
    KeyIdentifiesEvent("a", "b|c", 0, "a|b", "c", 0);
  }

  // ---- the table ----

  predicate IsDup(seen: map<string, int>, window: int, key: string, now: int) {
    key in seen && now - seen[key] < window
  }

  datatype Op = Ask(key: string, now: int) | Prune(now: int)

  function Pruned(seen: map<string, int>, window: int, now: int): map<string, int> {
    map key | key in seen && now - seen[key] < window :: seen[key]
  }

  /** The table after a run; without pruning, `Prune` does nothing. */
  function Run(window: int, ops: seq<Op>, pruning: bool): map<string, int> {
    if ops == [] then map[]
    else
      var seen := Run(window, ops[..|ops| - 1], pruning);
      match ops[|ops| - 1]
      case Ask(key, now) => if IsDup(seen, window, key, now) then seen else seen[key := now]
      case Prune(now) => if pruning then Pruned(seen, window, now) else seen
  }

  function Clock(ops: seq<Op>): int
    requires ops != []
  {
    ops[|ops| - 1].now
  }

  predicate NonDecreasing(ops: seq<Op>) {
    var n := |ops| - 1;
    n < 1 || (NonDecreasing(ops[..n]) && ops[n - 1].now <= ops[n].now)
  }

  /** The pruned table agrees with the full one but for keys at least one window old, which answer alike. */
  lemma {:induction false} PruningHidesOnlyOldKeys(window: int, ops: seq<Op>, key: string, now: int)
    requires NonDecreasing(ops) && (ops != [] ==> Clock(ops) <= now)
    ensures var p, f := Run(window, ops, true), Run(window, ops, false);
            && (key in p ==> key in f && p[key] == f[key])
            && (key in f && key !in p ==> now - f[key] >= window)
  {
    if ops != [] {
      var n := |ops| - 1;
      var last := ops[n].now;
      assert n > 0 ==> Clock(ops[..n]) <= last;
      PruningHidesOnlyOldKeys(window, ops[..n], key, last);
    }
  }

  /** Pruning at any point never changes an answer. */
  lemma PruningNeverChangesAnswers(window: int, ops: seq<Op>, key: string, now: int)
    requires NonDecreasing(ops + [Ask(key, now)])
    ensures IsDup(Run(window, ops, true), window, key, now) <==> IsDup(Run(window, ops, false), window, key, now)
  {
    var all := ops + [Ask(key, now)];
    if ops != [] {
      assert all[..|ops|] == ops;
    }
    PruningHidesOnlyOldKeys(window, ops, key, now);
  }

  // ---- which events pass ----

  predicate AsksFor(ops: seq<Op>, i: nat, key: string) {
    i < |ops| && ops[i].Ask? && ops[i].key == key
  }

  /** Event `i` asks for the key and passes. */
  predicate Accepts(window: int, ops: seq<Op>, i: nat, key: string) {
    AsksFor(ops, i, key) && !IsDup(Run(window, ops[..i], true), window, key, ops[i].now)
  }

  lemma PrefixNonDecreasing(ops: seq<Op>, i: nat)
    requires NonDecreasing(ops) && i <= |ops|
    ensures NonDecreasing(ops[..i])
    ensures 0 < i < |ops| ==> ops[i - 1].now <= ops[|ops| - 1].now
    decreases |ops|
  {
    if i < |ops| {
      PrefixNonDecreasing(ops[..|ops| - 1], i);
      assert ops[..|ops| - 1][..i] == ops[..i];
    } else {
      assert ops[..i] == ops;
    }
  }

  /** The never-pruned table holds, for each key, the time of the last event that passed. */
  lemma {:induction false} TableIsLastAccepted(window: int, ops: seq<Op>, key: string)
    requires NonDecreasing(ops)
    ensures var f := Run(window, ops, false);
            && (key in f ==> exists k: nat :: Accepts(window, ops, k, key) && f[key] == ops[k].now)
            && (forall i: nat | Accepts(window, ops, i, key) :: key in f && ops[i].now <= f[key])
  {
    if ops != [] {
      var n := |ops| - 1;
      var before := ops[..n];
      TableIsLastAccepted(window, before, key);
      forall i: nat | i < n
        ensures Accepts(window, before, i, key) <==> Accepts(window, ops, i, key)
      {
        assert before[..i] == ops[..i];
      }
      var f, f' := Run(window, before, false), Run(window, ops, false);
      assert ops == before + [ops[n]];
      if ops[n].Ask? {
        PruningNeverChangesAnswers(window, before, ops[n].key, ops[n].now);
      }
      if Accepts(window, ops, n, key) {
        assert f'[key] == ops[n].now;
        forall i: nat | Accepts(window, ops, i, key)
          ensures ops[i].now <= ops[n].now
        {
          if i < n {
            PrefixNonDecreasing(ops, i + 1);
          }
        }
      } else if key in f {
        var k: nat :| Accepts(window, before, k, key) && f[key] == before[k].now;
        assert Accepts(window, ops, k, key) && ops[k] == before[k];
      }
    }
  }

  /** In every run with pruning at any time: two passing events of one key are at least one window apart, and every
      suppressed event comes less than one window after a passing one of its key. */
  lemma PassingEventsAreSpaced(window: int, ops: seq<Op>, i: nat, j: nat, key: string)
    requires NonDecreasing(ops) && i < j
    ensures Accepts(window, ops, i, key) && Accepts(window, ops, j, key) ==> ops[j].now - ops[i].now >= window
    ensures AsksFor(ops, j, key) && !Accepts(window, ops, j, key) ==>
              exists k: nat :: k < j && Accepts(window, ops, k, key) && ops[j].now - ops[k].now < window
  {
    if AsksFor(ops, j, key) {
      var before := ops[..j];
      PrefixNonDecreasing(ops, j);
      PrefixNonDecreasing(ops, j + 1);
      assert before + [Ask(key, ops[j].now)] == ops[..j + 1];
      PruningNeverChangesAnswers(window, before, key, ops[j].now);
      TableIsLastAccepted(window, before, key);
      forall k: nat | k < j
        ensures Accepts(window, before, k, key) <==> Accepts(window, ops, k, key)
      {
        assert before[..k] == ops[..k];
      }
      assert Accepts(window, ops, i, key) ==> before[i] == ops[i];
      if !Accepts(window, ops, j, key) {
        var k: nat :| Accepts(window, before, k, key) && Run(window, before, false)[key] == before[k].now;
        assert k < j && Accepts(window, ops, k, key) && ops[k] == before[k];
      }
    }
  }

  /** Right after a prune the table holds exactly the keys with a passing event less than one window ago. */
  lemma PruneForgetsExactlyOldKeys(window: int, ops: seq<Op>, now: int, key: string)
    requires NonDecreasing(ops + [Prune(now)])
    ensures key in Run(window, ops + [Prune(now)], true) <==>
            exists k: nat :: Accepts(window, ops, k, key) && now - ops[k].now < window
  {
    var all := ops + [Prune(now)];
    assert all[..|ops|] == ops;
    PrefixNonDecreasing(all, |ops|);
    PruningHidesOnlyOldKeys(window, ops, key, now);
    TableIsLastAccepted(window, ops, key);
  }

  class Dedup {
    const window: int
    var seen: map<string, int>

    constructor (window: int)
      ensures this.window == window && seen == map[]
    {
      this.window, seen := window, map[];
    }

    method IsDuplicateEvent(callID: string, method_: string, responseCode: int, now: int) returns (dup: bool)
      modifies `seen
      ensures var key := EventKey(callID, method_, responseCode);
              dup == IsDup(old(seen), window, key, now) &&
              seen == if dup then old(seen) else old(seen)[key := now]
    {
      var key := callID + "|" + method_ + "|" + Itoa(responseCode);
      if key in seen && now - seen[key] < window {
        return true;
      }
      seen := seen[key := now];
      return false;
    }

    method PruneOld(now: int)
      modifies `seen
      ensures seen == Pruned(old(seen), window, now)
    {
      var todo := seen.Keys;
      while todo != {}
        invariant todo <= old(seen).Keys && seen.Keys <= old(seen).Keys
        invariant forall key | key in seen :: seen[key] == old(seen)[key]
        invariant forall key | key in old(seen) :: key in seen <==> key in todo || now - old(seen)[key] < window
        decreases |todo|
      {
        var key :| key in todo;
        todo := todo - {key};
        if now - seen[key] >= window {
          seen := seen - {key};
        }
      }
    }
  }
}
