/** File trees and what a header scan is to find in them. */
module HeaderScan {

  type Path = seq<string>

  /** A file is tagged with whether it begins with the LUKS magic. */
  datatype Node = Dir | File(luks: bool) | Link | Special

  type Tree = map<Path, Node>

  const MAX_SCAN_ENTRIES: nat := 10_000

  /** `p` lies at or below `root` with only directories from `root` down to it. */
  ghost predicate Under(t: Tree, root: Path, p: Path) {
    && root <= p
    && forall n :: |root| <= n < |p| ==> p[..n] in t && t[p[..n]] == Dir
  }

  /** The LUKS files reachable from some root without passing a symbolic link. */
  ghost function Found(t: Tree, roots: seq<Path>): set<Path> {
    set q | q in t && t[q] == File(true) && exists r :: r in roots && Under(t, r, q)
  }

  /** The entries a walk from the roots comes to. */
  ghost function Reach(t: Tree, roots: seq<Path>): set<Path> {
    set q | q in t && exists r :: r in roots && Under(t, r, q)
  }

  function Children(t: Tree, p: Path): set<Path> {
    set q | q in t && |q| == |p| + 1 && q[..|p|] == p
  }

  ghost function Subtree(t: Tree, p: Path): set<Path> {
    set q | q in t && p <= q
  }

  /** How many entries a walk started at `p` looks at. */
  ghost function Weight(t: Tree, p: Path): nat {
    if p in t then |Subtree(t, p)| else 1
  }

  ghost function TotalWeight(t: Tree, stack: seq<Path>): nat {
    if stack == [] then 0 else TotalWeight(t, stack[..|stack| - 1]) + Weight(t, stack[|stack| - 1])
  }

  lemma SubtreeCounts(t: Tree, p: Path)
    requires p in t
    ensures Weight(t, p) >= 1
  {
    assert p in Subtree(t, p);
    assert {p} <= Subtree(t, p);
    SubsetCount({p}, Subtree(t, p));
  }

  lemma {:induction false} SubsetCount<T>(a: set<T>, b: set<T>)
    requires a <= b
    ensures |a| <= |b| && |b - a| == |b| - |a|
    decreases b
  {
    if a != {} {
      var x :| x in a;
      SubsetCount(a - {x}, b - {x});
      assert (b - {x}) - (a - {x}) == b - a;
    } else {
      assert b - a == b;
    }
  }

  /** Taking a child's subtree out of what is left below a directory. */
  lemma TakeChild(t: Tree, p: Path, c: Path, kids: set<Path>, rem: set<Path>) returns (rest: set<Path>)
    requires kids <= Children(t, p) && c in kids
    requires forall k :: k in kids ==> Subtree(t, k) <= rem
    ensures rest == rem - Subtree(t, c) && |rest| + Weight(t, c) == |rem|
    ensures forall k :: k in kids - {c} ==> Subtree(t, k) <= rest
  {
    rest := rem - Subtree(t, c);
    assert Subtree(t, c) <= rem;
    SubsetCount(Subtree(t, c), rem);
    forall k | k in kids - {c}
      ensures Subtree(t, k) <= rest
    {
      forall q | q in Subtree(t, k)
        ensures q !in Subtree(t, c)
      {
        assert q[..|k|] == k && |c| == |k| && c != k;
      }
    }
  }

  /** Below a directory, every path passes one of its children. */
  lemma UnderChild(t: Tree, p: Path, q: Path)
    requires Under(t, p, q) && q in t && q != p
    ensures |q| > |p| && q[..|p| + 1] in Children(t, p) && Under(t, q[..|p| + 1], q)
    ensures p in t && t[p] == Dir
  {
    var c := q[..|p| + 1];
    assert q[..|p|] == p;
    assert c[..|p|] == p;
    if |q| > |p| + 1 {
      assert q[..|p| + 1] in t;
    } else {
      assert c == q;
    }
  }

  lemma UnderExtends(t: Tree, r: Path, p: Path, c: Path)
    requires Under(t, r, p) && p in t && t[p] == Dir && c in Children(t, p)
    ensures Under(t, r, c)
  {
    forall n | |r| <= n < |c|
      ensures c[..n] in t && t[c[..n]] == Dir
    {
      if n < |p| { assert c[..n] == p[..n]; } else { assert c[..n] == p; }
    }
  }

  /** Removing found files leaves the rest of the tree, and what else is found, as it was. */
  lemma FoundAfter(t: Tree, roots: seq<Path>, removed: set<Path>)
    requires removed <= Found(t, roots)
    ensures Found(t - removed, roots) == Found(t, roots) - removed
  {
    var u := t - removed;
    forall q
      ensures q in Found(u, roots) <==> q in Found(t, roots) - removed
    {
      if q in Found(u, roots) {
        var r :| r in roots && Under(u, r, q);
        assert Under(t, r, q);
      }
      if q in Found(t, roots) - removed {
        var r :| r in roots && Under(t, r, q);
        forall n | |r| <= n < |q|
          ensures q[..n] in u && u[q[..n]] == Dir
        {
          assert t[q[..n]] == Dir;
        }
        assert Under(u, r, q);
      }
    }
  }

  /** What a completed scan leaves: the tree without the files found. Scanning again finds nothing. */
  ghost function Scanned(t: Tree, roots: seq<Path>): Tree { t - Found(t, roots) }

  lemma ScanIsIdempotent(t: Tree, roots: seq<Path>)
    ensures Found(Scanned(t, roots), roots) == {}
    ensures Scanned(Scanned(t, roots), roots) == Scanned(t, roots)
  {
    FoundAfter(t, roots, Found(t, roots));
  }

  /** A scan interrupted after removing some of the files and then completed leaves the same tree. */
  lemma ScanResumes(t: Tree, roots: seq<Path>, removed: set<Path>)
    requires removed <= Found(t, roots)
    ensures Scanned(t - removed, roots) == Scanned(t, roots)
  {
    FoundAfter(t, roots, removed);
    assert (t - removed) - (Found(t, roots) - removed) == t - Found(t, roots);
  }

  lemma {:induction false} WeightAppend(t: Tree, a: seq<Path>, p: Path)
    ensures TotalWeight(t, a + [p]) == TotalWeight(t, a) + Weight(t, p)
    ensures Weight(t, p) >= 1
  {
    if p in t { SubtreeCounts(t, p); }
    assert (a + [p])[..|a|] == a;
  }

  /** A tree that lost found files takes no more visits to walk. */
  lemma {:induction false} WeightShrinks(t: Tree, removed: set<Path>, stack: seq<Path>)
    ensures TotalWeight(t - removed, stack) <= TotalWeight(t, stack)
  {
    if stack != [] {
      var p := stack[|stack| - 1];
      WeightShrinks(t, removed, stack[..|stack| - 1]);
      assert Subtree(t - removed, p) <= Subtree(t, p);
      SubsetCount(Subtree(t - removed, p), Subtree(t, p));
      if p in t { SubtreeCounts(t, p); }
    }
  }

  lemma StackWeighs(t: Tree, stack: seq<Path>)
    requires stack != []
    ensures TotalWeight(t, stack) >= 1
  {
    WeightAppend(t, stack[..|stack| - 1], stack[|stack| - 1]);
  }

  // ---- the worklist of a scan ----

  /** The path lies under one of the tops. */
  ghost predicate Below(t: Tree, tops: seq<Path>, p: Path) {
    tops != [] && (Under(t, tops[0], p) || Below(t, tops[1..], p))
  }

  lemma {:induction false} BelowIff(t: Tree, tops: seq<Path>, p: Path)
    ensures Below(t, tops, p) <==> exists r :: r in tops && Under(t, r, p)
    decreases |tops|
  {
    if tops != [] { BelowIff(t, tops[1..], p); }
  }

  /** Each of these entries is done with or below something on the stack. */
  ghost predicate Covered(t: Tree, all: set<Path>, done: set<Path>, stack: seq<Path>) {
    forall q :: q in all && q !in done ==> Below(t, stack, q)
  }

  ghost predicate Rooted(t: Tree, roots: seq<Path>, stack: seq<Path>) {
    forall p :: p in stack ==> Below(t, roots, p)
  }

  lemma StartScan(t: Tree, roots: seq<Path>)
    ensures Covered(t, Found(t, roots), {}, roots) && Covered(t, Reach(t, roots), {}, roots) && Rooted(t, roots, roots)
  {
    forall p | p in roots
      ensures Below(t, roots, p)
    {
      assert Under(t, p, p);
      BelowIff(t, roots, p);
    }
    forall q | q in Reach(t, roots) ensures Below(t, roots, q) { BelowIff(t, roots, q); }
  }

  lemma AllRemoved(t: Tree, roots: seq<Path>, removed: set<Path>)
    requires Covered(t, Found(t, roots), removed, []) && removed <= Found(t, roots)
    ensures removed == Found(t, roots)
  {
  }

  lemma UnderLeaf(t: Tree, p: Path, q: Path)
    requires Under(t, p, q) && q in t
    ensures q == p || (p in t && t[p] == Dir)
  {
    if q != p { UnderChild(t, p, q); }
  }

  /** Popping something that leads to no entry still to be dealt with. */
  lemma PopLeaf(t: Tree, all: set<Path>, done: set<Path>, stack: seq<Path>, p: Path)
    requires Covered(t, all, done, stack + [p]) && all <= t.Keys
    requires p in t ==> t[p] != Dir && (p in all ==> p in done)
    ensures Covered(t, all, done, stack)
  {
    forall q | q in all && q !in done
      ensures Below(t, stack, q)
    {
      BelowIff(t, stack + [p], q);
      BelowIff(t, stack, q);
      var s :| s in stack + [p] && Under(t, s, q);
      if s == p { UnderLeaf(t, p, q); }
    }
  }

  lemma StillRooted(t: Tree, roots: seq<Path>, stack: seq<Path>, p: Path)
    requires Rooted(t, roots, stack + [p])
    ensures Rooted(t, roots, stack)
  {
    assert forall s :: s in stack ==> s in stack + [p];
  }

  lemma PopFile(t: Tree, roots: seq<Path>, removed: set<Path>, stack: seq<Path>, p: Path)
    requires Covered(t, Found(t, roots), removed, stack + [p]) && Rooted(t, roots, stack + [p])
    requires p in t && t[p] == File(true)
    ensures p in Found(t, roots)
    ensures Covered(t, Found(t, roots), removed + {p}, stack)
  {
    assert p in stack + [p];
    BelowIff(t, roots, p);
    assert Covered(t, Found(t, roots), removed + {p}, stack + [p]);
    PopLeaf(t, Found(t, roots), removed + {p}, stack, p);
  }

  /** A leaf that has been looked at. */
  lemma PopSeen(t: Tree, all: set<Path>, seen: set<Path>, stack: seq<Path>, p: Path)
    requires Covered(t, all, seen, stack + [p]) && all <= t.Keys && (p in t ==> t[p] != Dir)
    ensures Covered(t, all, seen + {p}, stack)
  {
    assert Covered(t, all, seen + {p}, stack + [p]);
    PopLeaf(t, all, seen + {p}, stack, p);
  }

  /** Replacing a directory by its present entries, those gone being files that have been dealt with. */
  lemma PopDir(t: Tree, all: set<Path>, removed: set<Path>, done: set<Path>, stack: seq<Path>, p: Path, longer: seq<Path>)
    requires Covered(t, all, done, stack + [p]) && all <= t.Keys && (p in all ==> p in done)
    requires removed <= done && p in t && t[p] == Dir && forall f :: f in removed ==> f in t && t[f] != Dir
    requires stack <= longer && forall c :: c in Children(t - removed, p) ==> c in longer
    ensures Covered(t, all, done, longer)
  {
    forall q | q in all && q !in done
      ensures Below(t, longer, q)
    {
      BelowIff(t, stack + [p], q);
      BelowIff(t, longer, q);
      var s :| s in stack + [p] && Under(t, s, q);
      if s in stack {
        assert s in longer;
      } else {
        assert q != p;
        UnderChild(t, p, q);
        var c := q[..|p| + 1];
        assert c == q || t[c] == Dir;
        assert c !in removed;
        assert c in Children(t - removed, p);
      }
    }
  }

  lemma RootedDir(t: Tree, roots: seq<Path>, removed: set<Path>, stack: seq<Path>, p: Path, longer: seq<Path>)
    requires Rooted(t, roots, stack + [p]) && p in t && t[p] == Dir && stack <= longer
    requires forall i :: |stack| <= i < |longer| ==> longer[i] in Children(t - removed, p)
    ensures Rooted(t, roots, longer)
  {
    assert p in stack + [p];
    assert forall i :: 0 <= i < |stack| ==> longer[i] == stack[i] && stack[i] in stack;
    BelowIff(t, roots, p);
    var r :| r in roots && Under(t, r, p);
    forall s | s in longer
      ensures Below(t, roots, s)
    {
      BelowIff(t, roots, s);
      if s in stack {
        assert s in stack + [p];
      } else {
        var i :| 0 <= i < |longer| && longer[i] == s;
        assert s in Children(t, p);
        UnderExtends(t, r, p, s);
      }
    }
  }
}
