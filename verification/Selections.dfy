/** Which positions of a history a log shows: the bridge from trimmed logs to sets of events. */
module Selections {
  import opened BoundedWindow

  /** The entries of the events that satisfy `p`, in order. */
  function Select<X, T>(h: seq<X>, p: X -> bool, f: X -> Entry<T>): seq<Entry<T>> {
    if h == [] then []
    else
      var n := |h| - 1;
      Select(h[..n], p, f) + if p(h[n]) then [f(h[n])] else []
  }

  /** The positions of all events that satisfy `p`, and those after position `i`. */
  function Positions<X>(h: seq<X>, p: X -> bool): set<nat> {
    set i: nat | i < |h| && p(h[i])
  }

  function Later<X>(h: seq<X>, p: X -> bool, i: nat): set<nat> {
    set j: nat | i < j < |h| && p(h[j])
  }

  /** The newest `n` of them, walking back from the end. */
  function Newest<X>(h: seq<X>, p: X -> bool, n: nat): (w: set<nat>)
    ensures forall i | i in w :: i < |h| && p(h[i])
  {
    if h == [] || n == 0 then {}
    else
      var m := |h| - 1;
      if p(h[m]) then Newest(h[..m], p, n - 1) + {m} else Newest(h[..m], p, n)
  }

  function CountIf<T>(s: seq<Entry<T>>, g: T -> bool): nat {
    if s == [] then 0 else CountIf(s[..|s| - 1], g) + if g(s[|s| - 1].val) then 1 else 0
  }

  lemma LaterSnoc<X>(h: seq<X>, x: X, p: X -> bool, i: nat)
    requires i < |h|
    ensures |Later(h + [x], p, i)| == |Later(h, p, i)| + if p(x) then 1 else 0
  {
    assert forall j | 0 <= j < |h| :: (h + [x])[j] == h[j];
    assert Later(h + [x], p, i) == Later(h, p, i) + if p(x) then {|h|} else {};
  }

  lemma NewestSnoc<X>(h: seq<X>, x: X, p: X -> bool, n: nat)
    ensures Newest(h + [x], p, n) ==
            if n == 0 then {} else if p(x) then Newest(h, p, n - 1) + {|h|} else Newest(h, p, n)
  {
    assert (h + [x])[..|h|] == h;
  }

  /** A position is among the newest `n` when it satisfies `p` and fewer than `n` later ones do. */
  lemma {:induction false} NewestHaveFewLater<X>(h: seq<X>, p: X -> bool, n: nat, i: nat)
    ensures i in Newest(h, p, n) <==> i < |h| && p(h[i]) && |Later(h, p, i)| < n
  {
    if h != [] && i < |h| {
      var m := |h| - 1;
      var k := if p(h[m]) && n > 0 then n - 1 else n;
      assert h[..m] + [h[m]] == h;
      if i == m {
        assert Later(h, p, i) == {};
      } else {
        NewestHaveFewLater(h[..m], p, k, i);
        LaterSnoc(h[..m], h[m], p, i);
      }
    }
  }

  lemma PositionsSnoc<X>(h: seq<X>, x: X, p: X -> bool)
    ensures Positions(h + [x], p) == Positions(h, p) + if p(x) then {|h|} else {}
  {
    assert forall j | 0 <= j < |h| :: (h + [x])[j] == h[j];
  }

  /** Counting one element after the other counts the positions. */
  function Tally<X>(h: seq<X>, p: X -> bool): nat {
    if h == [] then 0 else Tally(h[..|h| - 1], p) + if p(h[|h| - 1]) then 1 else 0
  }

  lemma {:induction false} TallyIsSize<X>(h: seq<X>, p: X -> bool)
    ensures Tally(h, p) == |Positions(h, p)|
  {
    if h != [] {
      var n := |h| - 1;
      TallyIsSize(h[..n], p);
      PositionsSnoc(h[..n], h[n], p);
      assert h[..n] + [h[n]] == h;
    }
  }

  lemma {:induction false} SelectSize<X, T>(h: seq<X>, p: X -> bool, f: X -> Entry<T>)
    ensures |Select(h, p, f)| == |Positions(h, p)|
  {
    if h != [] {
      var n := |h| - 1;
      SelectSize(h[..n], p, f);
      PositionsSnoc(h[..n], h[n], p);
      assert h[..n] + [h[n]] == h;
    }
  }

  lemma LastSelectSnoc<X, T>(h: seq<X>, x: X, p: X -> bool, f: X -> Entry<T>, n: nat)
    ensures Last(Select(h + [x], p, f), n) ==
            if !p(x) then Last(Select(h, p, f), n) else if n == 0 then [] else Last(Select(h, p, f), n - 1) + [f(x)]
  {
    assert (h + [x])[..|h|] == h;
  }

  lemma CountIfSnoc<T>(s: seq<Entry<T>>, e: Entry<T>, g: T -> bool)
    ensures CountIf(s + [e], g) == CountIf(s, g) + if g(e.val) then 1 else 0
  {
    assert (s + [e])[..|s|] == s;
  }

  /** The positions among `w` whose entry's value satisfies `g`. */
  function Those<X, T>(h: seq<X>, w: set<nat>, f: X -> Entry<T>, g: T -> bool): set<nat> {
    set i | i in w && i < |h| && g(f(h[i]).val)
  }

  lemma ThoseSnoc<X, T>(h: seq<X>, x: X, w: set<nat>, f: X -> Entry<T>, g: T -> bool)
    requires forall i | i in w :: i < |h|
    ensures Those(h + [x], w, f, g) == Those(h, w, f, g)
    ensures |Those(h + [x], w + {|h|}, f, g)| == |Those(h, w, f, g)| + if g(f(x).val) then 1 else 0
  {
    assert forall i | 0 <= i < |h| :: (h + [x])[i] == h[i];
    assert Those(h + [x], w + {|h|}, f, g) == Those(h, w, f, g) + if g(f(x).val) then {|h|} else {};
  }

  ghost predicate Matched<X, T>(h: seq<X>, p: X -> bool, f: X -> Entry<T>, n: nat, g: T -> bool) {
    && |Last(Select(h, p, f), n)| == |Newest(h, p, n)|
    && CountIf(Last(Select(h, p, f), n), g) == |Those(h, Newest(h, p, n), f, g)|
  }

  lemma MatchedTaken<X, T>(h: seq<X>, x: X, p: X -> bool, f: X -> Entry<T>, n: nat, g: T -> bool)
    requires n > 0 && p(x) && Matched(h, p, f, n - 1, g)
    ensures Matched(h + [x], p, f, n, g)
  {
    LastSelectSnoc(h, x, p, f, n);
    NewestSnoc(h, x, p, n);
    ThoseSnoc(h, x, Newest(h, p, n - 1), f, g);
    CountIfSnoc(Last(Select(h, p, f), n - 1), f(x), g);
  }

  lemma MatchedSkipped<X, T>(h: seq<X>, x: X, p: X -> bool, f: X -> Entry<T>, n: nat, g: T -> bool)
    requires n > 0 && !p(x) && Matched(h, p, f, n, g)
    ensures Matched(h + [x], p, f, n, g)
  {
    LastSelectSnoc(h, x, p, f, n);
    NewestSnoc(h, x, p, n);
    ThoseSnoc(h, x, Newest(h, p, n), f, g);
  }

  /** The newest `n` selected entries are those at the newest `n` positions: as many, and as many with any property. */
  lemma {:induction false} LastIsNewest<X, T>(h: seq<X>, p: X -> bool, f: X -> Entry<T>, n: nat, g: T -> bool)
    ensures Matched(h, p, f, n, g)
  {
    if h == [] || n == 0 {
      NoneMatched(h, p, f, n, g);
    } else {
      var before, x := h[..|h| - 1], h[|h| - 1];
      assert h == before + [x];
      if p(x) {
        LastIsNewest(before, p, f, n - 1, g);
        MatchedTaken(before, x, p, f, n, g);
      } else {
        LastIsNewest(before, p, f, n, g);
        MatchedSkipped(before, x, p, f, n, g);
      }
    }
  }

  lemma NoneMatched<X, T>(h: seq<X>, p: X -> bool, f: X -> Entry<T>, n: nat, g: T -> bool)
    requires h == [] || n == 0
    ensures Matched(h, p, f, n, g)
  {
    assert Newest(h, p, n) == {} && Those(h, {}, f, g) == {};
    assert Last(Select(h, p, f), n) == [];
  }

  ghost predicate Shown<X, T>(h: seq<X>, p: X -> bool, f: X -> Entry<T>, n: nat, e: Entry<T>) {
    exists i :: i in Newest(h, p, n) && f(h[i]) == e
  }

  lemma ShownSnoc<X, T>(h: seq<X>, x: X, p: X -> bool, f: X -> Entry<T>, n: nat, e: Entry<T>)
    requires n > 0
    ensures Shown(h + [x], p, f, n, e) <==>
            Shown(h, p, f, if p(x) then n - 1 else n, e) || (p(x) && f(x) == e)
  {
    var k := if p(x) then n - 1 else n;
    var h' := h + [x];
    NewestSnoc(h, x, p, n);
    if i :| i in Newest(h, p, k) && f(h[i]) == e {
      assert i in Newest(h', p, n) && h'[i] == h[i];
    }
    if p(x) && f(x) == e {
      assert |h| in Newest(h', p, n) && h'[|h|] == x;
    }
    if i :| i in Newest(h', p, n) && f(h'[i]) == e && i < |h| {
      assert i in Newest(h, p, k) && h'[i] == h[i];
    }
  }

  /** And they are the same entries. */
  lemma {:induction false} LastHasNewest<X, T>(h: seq<X>, p: X -> bool, f: X -> Entry<T>, n: nat, e: Entry<T>)
    ensures e in Last(Select(h, p, f), n) <==> Shown(h, p, f, n, e)
  {
    if h == [] || n == 0 {
      assert Newest(h, p, n) == {};
      assert Last(Select(h, p, f), n) == [];
    } else {
      var before, x := h[..|h| - 1], h[|h| - 1];
      LastHasNewest(before, p, f, if p(x) then n - 1 else n, e);
      LastSelectSnoc(before, x, p, f, n);
      ShownSnoc(before, x, p, f, n, e);
      assert before + [x] == h;
    }
  }
}
