/** Selecting the elements of a list that meet a test, by value and by position. */
module Sequences {
  import opened Text

  function Positions<T>(s: seq<T>, p: T -> bool): (ps: seq<nat>)
    ensures forall k :: 0 <= k < |ps| ==> ps[k] < |s| && p(s[ps[k]])
    ensures forall j, k :: 0 <= j < k < |ps| ==> ps[j] < ps[k]
  {
    if s == [] then []
    else
      var init := Positions(s[..|s| - 1], p);
      if p(s[|s| - 1]) then init + [|s| - 1] else init
  }

  function Select<T>(s: seq<T>, p: T -> bool): seq<T>
  {
    if s == [] then []
    else
      var init := Select(s[..|s| - 1], p);
      if p(s[|s| - 1]) then init + [s[|s| - 1]] else init
  }

  /** How many selected elements come before index `i`. */
  function Rank<T>(s: seq<T>, p: T -> bool, i: nat): nat
    requires i <= |s|
  {
    |Select(s[..i], p)|
  }

  function FirstWhere<T>(s: seq<T>, ps: seq<nat>, p: T -> bool, i: nat): (r: Option<nat>)
    requires i <= |ps| && forall k :: 0 <= k < |ps| ==> ps[k] < |s|
    ensures r.Some? ==> i <= r.value < |ps| && p(s[ps[r.value]]) && forall k :: i <= k < r.value ==> !p(s[ps[k]])
    ensures r.None? ==> forall k :: i <= k < |ps| ==> !p(s[ps[k]])
    decreases |ps| - i
  {
    if i == |ps| then None else if p(s[ps[i]]) then Some(i) else FirstWhere(s, ps, p, i + 1)
  }

  function Insert<T>(s: seq<T>, i: nat, x: T): (r: seq<T>)
    requires i <= |s|
    ensures |r| == |s| + 1 && r[i] == x
    ensures forall k {:trigger r[k]} :: 0 <= k < i ==> r[k] == s[k]
    ensures forall k {:trigger r[k]} :: i < k <= |s| ==> r[k] == s[k - 1]
  {
    s[..i] + [x] + s[i..]
  }

  /** The first `k` selected elements edited, each with its rank. */
  function EditSelected<T>(s: seq<T>, p: T -> bool, k: nat, edit: (T, nat) -> T): (r: seq<T>)
    ensures |r| == |s|
    ensures forall i :: 0 <= i < |s| ==>
              r[i] == if p(s[i]) && Rank(s, p, i) < k then edit(s[i], Rank(s, p, i)) else s[i]
  {
    seq(|s|, i requires 0 <= i < |s| =>
      if p(s[i]) && Rank(s, p, i) < k then edit(s[i], Rank(s, p, i)) else s[i])
  }

  lemma EditStep<T>(s: seq<T>, p: T -> bool, k: nat, edit: (T, nat) -> T)
    requires k < |Positions(s, p)|
    ensures var raw := Positions(s, p)[k];
            && EditSelected(s, p, k, edit)[raw] == s[raw]
            && EditSelected(s, p, k + 1, edit) == EditSelected(s, p, k, edit)[raw := edit(s[raw], k)]
  {
    var raw := Positions(s, p)[k];
    PositionRank(s, p, k);
    var a, b := EditSelected(s, p, k + 1, edit), EditSelected(s, p, k, edit)[raw := edit(s[raw], k)];
    forall i | 0 <= i < |s|
      ensures a[i] == b[i]
    {
      if p(s[i]) { RankPosition(s, p, i); }
    }
  }

  /** Editing that keeps the test true edits the selected elements in place. */
  lemma {:induction false} SelectEdited<T>(s: seq<T>, p: T -> bool, k: nat, edit: (T, nat) -> T, n: nat)
    requires n <= |s| && forall x, i :: x in s && p(x) ==> p(edit(x, i))
    ensures var a, b := Select(s[..n], p), Select(EditSelected(s, p, k, edit)[..n], p);
            |b| == |a| && forall i :: 0 <= i < |a| ==> b[i] == if i < k then edit(a[i], i) else a[i]
  {
    if n > 0 {
      SelectEdited(s, p, k, edit, n - 1);
      var e := EditSelected(s, p, k, edit);
      assert s[..n][..n - 1] == s[..n - 1] && e[..n][..n - 1] == e[..n - 1];
      assert s[n - 1] in s;
    }
  }

  lemma {:induction false} SelectPositions<T>(s: seq<T>, p: T -> bool)
    ensures |Select(s, p)| == |Positions(s, p)|
    ensures forall k :: 0 <= k < |Select(s, p)| ==> Select(s, p)[k] == s[Positions(s, p)[k]]
  {
    if s != [] { SelectPositions(s[..|s| - 1], p); }
  }

  lemma {:induction false} PositionRank<T>(s: seq<T>, p: T -> bool, k: nat)
    requires k < |Positions(s, p)|
    ensures Rank(s, p, Positions(s, p)[k]) == k
    decreases |s|
  {
    var n := |s| - 1;
    var init := Positions(s[..n], p);
    SelectPositions(s[..n], p);
    if k < |init| {
      PositionRank(s[..n], p, k);
      assert s[..n][..init[k]] == s[..init[k]];
    }
  }

  lemma {:induction false} RankPosition<T>(s: seq<T>, p: T -> bool, i: nat)
    requires i < |s| && p(s[i])
    ensures Rank(s, p, i) < |Positions(s, p)| && Positions(s, p)[Rank(s, p, i)] == i
    decreases |s|
  {
    var n := |s| - 1;
    SelectPositions(s[..n], p);
    if i < n {
      RankPosition(s[..n], p, i);
      assert s[..n][..i] == s[..i];
    }
  }

  lemma {:induction false} SelectAppend<T>(a: seq<T>, b: seq<T>, p: T -> bool)
    ensures Select(a + b, p) == Select(a, p) + Select(b, p)
    decreases |b|
  {
    if b == [] {
      assert a + b == a;
    } else {
      var n := |b| - 1;
      SelectAppend(a, b[..n], p);
      assert (a + b)[..|a + b| - 1] == a + b[..n];
    }
  }

  /** Inserting a selected element at index `i` inserts it among the selected ones at the rank of `i`. */
  lemma SelectInsert<T>(s: seq<T>, p: T -> bool, i: nat, x: T)
    requires i <= |s| && p(x)
    ensures Rank(s, p, i) <= |Select(s, p)|
    ensures Select(Insert(s, i, x), p) == Insert(Select(s, p), Rank(s, p, i), x)
  {
    assert s == s[..i] + s[i..];
    SelectAppend(s[..i], s[i..], p);
    SelectAppend(s[..i], [x], p);
    assert Select([x], p) == [x] by { assert [x][..0] == []; }
    SelectAppend(s[..i] + [x], s[i..], p);
  }

  lemma {:induction false} SamePositions<T>(a: seq<T>, b: seq<T>, p: T -> bool)
    requires |a| == |b| && forall i :: 0 <= i < |a| ==> p(a[i]) == p(b[i])
    ensures Positions(a, p) == Positions(b, p)
  {
    if a != [] { SamePositions(a[..|a| - 1], b[..|b| - 1], p); }
  }

  lemma EditedPositions<T>(s: seq<T>, p: T -> bool, k: nat, edit: (T, nat) -> T)
    requires forall x, i :: x in s && p(x) ==> p(edit(x, i))
    ensures Positions(EditSelected(s, p, k, edit), p) == Positions(s, p)
  {
    var e := EditSelected(s, p, k, edit);
    forall i | 0 <= i < |s|
      ensures p(e[i]) == p(s[i])
    {
      assert s[i] in s;
    }
    SamePositions(s, e, p);
  }

  function InsertThree<T>(s: seq<T>, first: nat, i: nat, j: nat, x: T, y: T, z: T): (r: seq<T>)
    requires first < |s| && i < |s| && j < |s|
    ensures |r| == |s| + 3
  {
    var s1 := Insert(s, i, y);
    var s2 := Insert(s1, (if j >= i then j + 1 else j) + 1, z);
    Insert(s2, first, x)
  }

  lemma RankAfter<T>(s: seq<T>, p: T -> bool, k: nat)
    requires k < |Positions(s, p)|
    ensures Rank(s, p, Positions(s, p)[k] + 1) == k + 1
  {
    var q := Positions(s, p)[k];
    PositionRank(s, p, k);
    assert s[..q + 1][..q] == s[..q];
  }

  /** The rank, after the first insertion, of the place right after the `g`-th selected element. */
  lemma RankShifted<T>(s: seq<T>, p: T -> bool, ps: seq<nat>, f: nat, g: nat, y: T)
    requires ps == Positions(s, p) && f < |ps| && g < |ps| && p(y)
    ensures Rank(Insert(s, ps[f], y), p, (if ps[g] >= ps[f] then ps[g] + 1 else ps[g]) + 1) == (if g >= f then g + 1 else g) + 1
  {
    var s1 := Insert(s, ps[f], y);
    RankAfter(s, p, g);
    assert ps[g] >= ps[f] <==> g >= f;
    if g >= f {
      var t := s[..ps[g] + 1];
      assert s1[..ps[g] + 2] == Insert(t, ps[f], y);
      SelectInsert(t, p, ps[f], y);
    } else {
      assert s1[..ps[g] + 1] == s[..ps[g] + 1];
    }
  }

  lemma InsertKeepsPrefix<T>(s: seq<T>, i: nat, x: T, n: nat)
    requires n <= i <= |s|
    ensures Insert(s, i, x)[..n] == s[..n]
  {
  }

  lemma SelectInsertAt<T>(s: seq<T>, p: T -> bool, i: nat, rank: nat, x: T)
    requires i <= |s| && p(x) && Rank(s, p, i) == rank
    ensures rank <= |Select(s, p)| && Select(Insert(s, i, x), p) == Insert(Select(s, p), rank, x)
  {
    SelectInsert(s, p, i, x);
  }

  /** The first two insertions. */
  lemma SelectInsertTwo<T>(s: seq<T>, p: T -> bool, ps: seq<nat>, f: nat, g: nat, y: T, z: T, s1: seq<T>, q: nat, g': nat)
    requires ps == Positions(s, p) && f < |ps| && g < |ps| && p(y) && p(z) && s1 == Insert(s, ps[f], y)
    requires q == (if ps[g] >= ps[f] then ps[g] + 1 else ps[g]) + 1 && g' == (if g >= f then g + 1 else g) + 1
    ensures f <= |Select(s, p)| && Select(s1, p) == Insert(Select(s, p), f, y) && g' <= |Select(s1, p)|
    ensures Select(Insert(s1, q, z), p) == Insert(Select(s1, p), g', z)
    ensures Rank(Insert(s1, q, z), p, ps[0]) == 0
  {
    PositionRank(s, p, f);
    SelectInsertAt(s, p, ps[f], f, y);
    RankShifted(s, p, ps, f, g, y);
    SelectInsertAt(s1, p, q, g', z);
    InsertKeepsPrefix(s, ps[f], y, ps[0]);
    InsertKeepsPrefix(s1, q, z, ps[0]);
    PositionRank(s, p, 0);
  }

  /** Inserting before the `f`-th selected element, after the `g`-th, and before the first. */
  lemma SelectInsertThree<T>(s: seq<T>, p: T -> bool, ps: seq<nat>, f: nat, g: nat, x: T, y: T, z: T)
    requires ps == Positions(s, p) && f < |ps| && g < |ps| && p(x) && p(y) && p(z)
    ensures |Select(s, p)| == |ps|
    ensures Select(InsertThree(s, ps[0], ps[f], ps[g], x, y, z), p) == InsertThree(Select(s, p), 0, f, g, x, y, z)
  {
    SelectPositions(s, p);
    var q, g' := (if ps[g] >= ps[f] then ps[g] + 1 else ps[g]) + 1, (if g >= f then g + 1 else g) + 1;
    var s1 := Insert(s, ps[f], y);
    var s2 := Insert(s1, q, z);
    SelectInsertTwo(s, p, ps, f, g, y, z, s1, q, g');
    SelectInsertAt(s2, p, ps[0], 0, x);
    InsertThreeIs(s, ps[0], ps[f], ps[g], x, y, z, s1, q, s2);
    InsertThreeIs(Select(s, p), 0, f, g, x, y, z, Select(s1, p), g', Select(s2, p));
  }

  lemma InsertThreeIs<T>(s: seq<T>, first: nat, i: nat, j: nat, x: T, y: T, z: T, s1: seq<T>, q: nat, s2: seq<T>)
    requires first < |s| && i < |s| && j < |s| && q == (if j >= i then j + 1 else j) + 1
    requires s1 == Insert(s, i, y) && s2 == Insert(s1, q, z)
    ensures InsertThree(s, first, i, j, x, y, z) == Insert(s2, first, x)
  {
  }

  lemma PrefixesChain<T>(a: seq<T>, b: seq<T>, c: seq<T>)
    requires a <= b <= c
    ensures a <= c
  {
  }
}
