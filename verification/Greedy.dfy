/** Greedy selection: walking a list, keep an item unless an item kept before clashes with
    it.  Main results: this is the only stable selection, kept items do not clash, dropped
    ones clash with a kept earlier one, the selection respects any partition that the
    clashes respect, and selecting again in any order drops nothing. */
module Greedy {

  /** Some item of `g` clashes with `x`. */
  ghost predicate Hit<T>(clash: (T, T) -> bool, g: seq<T>, x: T) {
    exists i :: 0 <= i < |g| && clash(g[i], x)
  }

  ghost function Select<T>(clash: (T, T) -> bool, s: seq<T>): seq<T> {
    if s == [] then []
    else
      var g, x := Select(clash, s[..|s| - 1]), s[|s| - 1];
      if Hit(clash, g, x) then g else g + [x]
  }

  lemma HitAppend<T>(clash: (T, T) -> bool, g: seq<T>, y: T, x: T)
    ensures Hit(clash, g + [y], x) <==> Hit(clash, g, x) || clash(y, x)
  {
    if Hit(clash, g, x) {
      var i :| 0 <= i < |g| && clash(g[i], x);
      assert (g + [y])[i] == g[i];
    }
    if clash(y, x) { assert (g + [y])[|g|] == y; }
    if Hit(clash, g + [y], x) {
      var i :| 0 <= i < |g + [y]| && clash((g + [y])[i], x);
      assert i < |g| ==> g[i] == (g + [y])[i];
    }
  }

  lemma SelectAppend<T>(clash: (T, T) -> bool, s: seq<T>, x: T)
    ensures Select(clash, s + [x])
         == if Hit(clash, Select(clash, s), x) then Select(clash, s) else Select(clash, s) + [x]
  {
    assert (s + [x])[..|s|] == s;
  }

  // ---- By index: the selection as the unique stable set ---------------------------------------------

  /** The items whose flag is set. */
  function Marked<T>(s: seq<T>, keep: seq<bool>): seq<T>
    requires |s| == |keep|
  {
    if s == [] then []
    else Marked(s[..|s| - 1], keep[..|s| - 1]) + (if keep[|s| - 1] then [s[|s| - 1]] else [])
  }

  /** An item is marked iff no marked item before it clashes with it. */
  ghost predicate Stable<T>(clash: (T, T) -> bool, s: seq<T>, keep: seq<bool>) {
    && |s| == |keep|
    && forall i :: 0 <= i < |s| ==> (keep[i] <==> !Blocked(clash, s, keep, i))
  }

  ghost predicate Blocked<T>(clash: (T, T) -> bool, s: seq<T>, keep: seq<bool>, i: nat)
    requires i < |s| == |keep|
  {
    exists j :: 0 <= j < i && keep[j] && clash(s[j], s[i])
  }

  lemma {:induction false} MarkedHits<T>(clash: (T, T) -> bool, s: seq<T>, keep: seq<bool>, x: T)
    requires |s| == |keep|
    ensures Hit(clash, Marked(s, keep), x) <==> exists j :: 0 <= j < |s| && keep[j] && clash(s[j], x)
  {
    if s != [] {
      var k := |s| - 1;
      MarkedHits(clash, s[..k], keep[..k], x);
      var g := Marked(s[..k], keep[..k]);
      if keep[k] { HitAppend(clash, g, s[k], x); } else { assert g + [] == g; }
      if Hit(clash, g, x) {
        var j :| 0 <= j < k && keep[..k][j] && clash(s[..k][j], x);
        assert keep[j] && clash(s[j], x);
      }
      if exists j :: 0 <= j < |s| && keep[j] && clash(s[j], x) {
        var j :| 0 <= j < |s| && keep[j] && clash(s[j], x);
        if j < k { assert keep[..k][j] && clash(s[..k][j], x); }
      }
    }
  }

  lemma StablePrefix<T>(clash: (T, T) -> bool, s: seq<T>, keep: seq<bool>, k: nat)
    requires Stable(clash, s, keep) && k <= |s|
    ensures Stable(clash, s[..k], keep[..k])
  {
    forall i | 0 <= i < k ensures Blocked(clash, s[..k], keep[..k], i) <==> Blocked(clash, s, keep, i) {
      if Blocked(clash, s, keep, i) {
        var j :| 0 <= j < i && keep[j] && clash(s[j], s[i]);
        assert keep[..k][j] && clash(s[..k][j], s[..k][i]);
      }
      if Blocked(clash, s[..k], keep[..k], i) {
        var j :| 0 <= j < i && keep[..k][j] && clash(s[..k][j], s[..k][i]);
        assert keep[j] && clash(s[j], s[i]);
      }
    }
  }

  /** Every stable marking yields the greedy selection; so there is only one. */
  lemma {:induction false} StableIsGreedy<T>(clash: (T, T) -> bool, s: seq<T>, keep: seq<bool>)
    requires Stable(clash, s, keep)
    ensures Marked(s, keep) == Select(clash, s)
  {
    if s != [] {
      var k := |s| - 1;
      StablePrefix(clash, s, keep, k);
      StableIsGreedy(clash, s[..k], keep[..k]);
      MarkedHits(clash, s[..k], keep[..k], s[k]);
      assert Blocked(clash, s, keep, k) <==> exists j :: 0 <= j < k && keep[..k][j] && clash(s[..k][j], s[k]) by {
        assert forall j | 0 <= j < k :: keep[..k][j] == keep[j] && s[..k][j] == s[j];
      }
    }
  }

  /** And there is one. */
  lemma {:induction false} StableExists<T>(clash: (T, T) -> bool, s: seq<T>) returns (keep: seq<bool>)
    ensures Stable(clash, s, keep)
  {
    keep := [];
    for k := 0 to |s|
      invariant |keep| == k && Stable(clash, s[..k], keep)
    {
      var next := !(exists j :: 0 <= j < k && keep[j] && clash(s[j], s[k]));
      var longer := keep + [next];
      forall i | 0 <= i <= k ensures longer[i] <==> !Blocked(clash, s[..k + 1], longer, i) {
        if i < k {
          assert s[..k + 1][..k] == s[..k] && longer[..k] == keep;
          assert keep[i] <==> !Blocked(clash, s[..k], keep, i);
          assert Blocked(clash, s[..k], keep, i) <==> Blocked(clash, s[..k + 1], longer, i) by {
            assert forall j | 0 <= j <= i :: s[..k][j] == s[..k + 1][j];
            assert forall j | 0 <= j < i :: keep[j] == longer[j];
          }
        } else {
          assert forall j | 0 <= j <= k :: s[..k + 1][j] == s[j];
          assert forall j | 0 <= j < k :: keep[j] == longer[j];
        }
      }
      keep := longer;
    }
    assert s[..|s|] == s;
  }

  // ---- Consequences ---------------------------------------------------------------------------------

  /** Kept items do not clash. */
  lemma {:induction false} KeptApart<T>(clash: (T, T) -> bool, s: seq<T>, i: nat, j: nat)
    requires i < j < |Select(clash, s)|
    ensures !clash(Select(clash, s)[i], Select(clash, s)[j])
  {
    var g := Select(clash, s[..|s| - 1]);
    if j < |g| { KeptApart(clash, s[..|s| - 1], i, j); }
  }

  /** Every kept item is in the list, and every item of the list is kept or hit by a kept one. */
  lemma {:induction false} Dominated<T>(clash: (T, T) -> bool, s: seq<T>)
    ensures forall x :: x in Select(clash, s) ==> x in s
    ensures forall x :: x in s ==> x in Select(clash, s) || Hit(clash, Select(clash, s), x)
  {
    if s != [] {
      var k := |s| - 1;
      Dominated(clash, s[..k]);
      var g := Select(clash, s[..k]);
      forall x | x in s ensures x in Select(clash, s) || Hit(clash, Select(clash, s), x) {
        HitAppend(clash, g, s[k], x);
        assert s == s[..k] + [s[k]];
      }
    }
  }

  function Filter<T>(p: T -> bool, s: seq<T>): seq<T> {
    if s == [] then [] else Filter(p, s[..|s| - 1]) + (if p(s[|s| - 1]) then [s[|s| - 1]] else [])
  }

  lemma {:induction false} FilterHits<T(!new)>(clash: (T, T) -> bool, p: T -> bool, g: seq<T>, x: T)
    requires forall a, b :: clash(a, b) ==> p(a) == p(b)
    requires p(x)
    ensures Hit(clash, Filter(p, g), x) <==> Hit(clash, g, x)
  {
    if g != [] {
      var k := |g| - 1;
      FilterHits(clash, p, g[..k], x);
      assert g == g[..k] + [g[k]];
      HitAppend(clash, g[..k], g[k], x);
      if p(g[k]) {
        HitAppend(clash, Filter(p, g[..k]), g[k], x);
      } else {
        assert Filter(p, g[..k]) + [] == Filter(p, g[..k]);
      }
    }
  }

  /** Selecting and then filtering is filtering and then selecting, when only items of the same side
      of the filter can clash. */
  lemma {:induction false} FilterCommutes<T(!new)>(clash: (T, T) -> bool, p: T -> bool, s: seq<T>)
    requires forall a, b :: clash(a, b) ==> p(a) == p(b)
    ensures Filter(p, Select(clash, s)) == Select(clash, Filter(p, s))
  {
    if s != [] {
      var k := |s| - 1;
      var g, x := Select(clash, s[..k]), s[k];
      FilterCommutes(clash, p, s[..k]);
      assert (g + [x])[..|g|] == g;
      assert Filter(p, s[..k]) + [] == Filter(p, s[..k]) && Filter(p, g) + [] == Filter(p, g);
      if p(x) {
        FilterHits(clash, p, g, x);
        SelectAppend(clash, Filter(p, s[..k]), x);
      }
    }
  }

  // ---- Membership and permutations ------------------------------------------------------------------

  lemma {:induction false} MarkedMembers<T>(s: seq<T>, keep: seq<bool>, x: T)
    requires |s| == |keep|
    ensures x in Marked(s, keep) <==> exists i :: 0 <= i < |s| && keep[i] && s[i] == x
  {
    if s != [] {
      var k := |s| - 1;
      MarkedMembers(s[..k], keep[..k], x);
      if exists i :: 0 <= i < |s| && keep[i] && s[i] == x {
        var i :| 0 <= i < |s| && keep[i] && s[i] == x;
        if i < k { assert keep[..k][i] && s[..k][i] == x; }
      }
      if x in Marked(s[..k], keep[..k]) {
        var i :| 0 <= i < k && keep[..k][i] && s[..k][i] == x;
        assert keep[i] && s[i] == x;
      }
    }
  }

  /** No two positions of the list clash. */
  ghost predicate Apart<T>(clash: (T, T) -> bool, s: seq<T>) {
    forall i, j :: 0 <= i < j < |s| ==> !clash(s[i], s[j])
  }

  /** The same, in terms of how often each item occurs. */
  ghost predicate ApartItems<T(!new)>(clash: (T, T) -> bool, m: multiset<T>) {
    forall a, b :: a in m && b in m && (a != b || m[a] >= 2) ==> !clash(a, b)
  }

  lemma {:induction false} TwiceInMultiset<T>(s: seq<T>, x: T)
    ensures multiset(s)[x] >= 2 <==> exists i, j :: 0 <= i < j < |s| && s[i] == s[j] == x
  {
    if s != [] {
      var k := |s| - 1;
      TwiceInMultiset(s[..k], x);
      assert s == s[..k] + [s[k]];
      if exists i, j :: 0 <= i < j < k && s[..k][i] == s[..k][j] == x {
        var i, j :| 0 <= i < j < k && s[..k][i] == s[..k][j] == x;
        assert s[i] == s[j] == x;
      }
      if s[k] == x && x in s[..k] {
        var i :| 0 <= i < k && s[..k][i] == x;
        assert s[i] == s[k] == x;
      }
      if exists i, j :: 0 <= i < j < |s| && s[i] == s[j] == x {
        var i, j :| 0 <= i < j < |s| && s[i] == s[j] == x;
        if j < k { assert s[..k][i] == s[..k][j] == x; } else { assert s[..k][i] == x; assert x in multiset(s[..k]); }
      }
    }
  }

  lemma ApartByItems<T(!new)>(clash: (T, T) -> bool, s: seq<T>)
    requires forall a, b :: clash(a, b) <==> clash(b, a)
    ensures Apart(clash, s) <==> ApartItems(clash, multiset(s))
  {
    forall a, b | Apart(clash, s) && a in multiset(s) && b in multiset(s) && (a != b || multiset(s)[a] >= 2)
      ensures !clash(a, b)
    {
      TwiceInMultiset(s, a);
      if a != b {
        var i, j :| 0 <= i < |s| && 0 <= j < |s| && s[i] == a && s[j] == b;
      }
    }
    forall i, j | ApartItems(clash, multiset(s)) && 0 <= i < j < |s| ensures !clash(s[i], s[j]) {
      TwiceInMultiset(s, s[i]);
      assert s[i] in multiset(s) && s[j] in multiset(s);
    }
  }

  lemma ApartLast<T>(clash: (T, T) -> bool, s: seq<T>)
    requires Apart(clash, s) && s != []
    ensures Apart(clash, s[..|s| - 1]) && !Hit(clash, s[..|s| - 1], s[|s| - 1])
  {
  }

  lemma {:induction false} ApartKept<T>(clash: (T, T) -> bool, s: seq<T>)
    requires Apart(clash, s)
    ensures Select(clash, s) == s
  {
    hide Apart, Hit;
    if s != [] {
      ApartLast(clash, s);
      ApartKept(clash, s[..|s| - 1]);
    }
  }

  /** In whatever order a selection is walked again, everything is kept. */
  lemma SelectionReordered<T(!new)>(clash: (T, T) -> bool, s: seq<T>, again: seq<T>)
    requires forall a, b :: clash(a, b) <==> clash(b, a)
    requires multiset(again) == multiset(Select(clash, s))
    ensures Select(clash, again) == again
  {
    var kept := Select(clash, s);
    forall i, j | 0 <= i < j < |kept| ensures !clash(kept[i], kept[j]) { KeptApart(clash, s, i, j); }
    ApartByItems(clash, kept);
    ApartByItems(clash, again);
    ApartKept(clash, again);
  }

  /** A filtered list keeps the order of the list. */
  lemma {:induction false} FilterSorted<T(!new)>(p: T -> bool, ahead: (T, T) -> bool, s: seq<T>)
    requires forall i, j :: 0 <= i < j < |s| ==> ahead(s[i], s[j])
    ensures forall x :: x in Filter(p, s) <==> x in s && p(x)
    ensures forall i, j :: 0 <= i < j < |Filter(p, s)| ==> ahead(Filter(p, s)[i], Filter(p, s)[j])
  {
    if s != [] {
      var k := |s| - 1;
      assert forall i | 0 <= i < k :: s[..k][i] == s[i];
      FilterSorted(p, ahead, s[..k]);
      assert s == s[..k] + [s[k]];
      forall x | x in s[..k] ensures ahead(x, s[k]) { var i :| 0 <= i < k && s[..k][i] == x; }
    }
  }

  /** So does a selection. */
  lemma {:induction false} SelectSorted<T(!new)>(clash: (T, T) -> bool, ahead: (T, T) -> bool, s: seq<T>)
    requires forall i, j :: 0 <= i < j < |s| ==> ahead(s[i], s[j])
    ensures forall i, j :: 0 <= i < j < |Select(clash, s)| ==> ahead(Select(clash, s)[i], Select(clash, s)[j])
  {
    if s != [] {
      var k := |s| - 1;
      assert forall i | 0 <= i < k :: s[..k][i] == s[i];
      SelectSorted(clash, ahead, s[..k]);
      Dominated(clash, s[..k]);
      forall x | x in s[..k] ensures ahead(x, s[k]) { var i :| 0 <= i < k && s[..k][i] == x; }
    }
  }
}
