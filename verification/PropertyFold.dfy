/**
 Which leaf paths of a JSON column fold into one object property.

 A path is its list of segments; `p < q` says p is a proper prefix of q, which for non-empty
 dot-free segments is the source's `q.startswith(p + ".")` (module Dotted).
 */
module PropertyFold {
  import opened Wrappers

  type Path = seq<string>

  /** The sets `object_property_paths` derives from its arguments. */
  datatype Column = Column(leaves: set<Path>, pins: set<Path>, foldPoints: set<Path>)

  function Elems(paths: seq<Path>): set<Path> {
    set p | p in paths
  }

  function MakeColumn(paths: seq<Path>, pinned: set<Path>, documented: set<Path>): Column {
    var leaves := Elems(paths);
    Column(leaves, pinned + documented * leaves, documented - leaves)
  }

  predicate PinnedAtOrBelow(col: Column, prefix: Path) {
    exists pin :: pin in col.pins && prefix <= pin
  }

  predicate DeeperFoldPoint(col: Column, prefix: Path) {
    exists point :: point in col.foldPoints && prefix < point
  }

  predicate CanFold(col: Column, child: Path) {
    !PinnedAtOrBelow(col, child) && (child in col.foldPoints || !DeeperFoldPoint(col, child))
  }

  /**
   Where a leaf folds, read off the leaf alone: its prefixes from the one of `depth` segments on,
   shortest first; nowhere once a prefix is itself observed, else at the first that can fold.
   */
  function RootFrom(col: Column, leaf: Path, depth: nat): Option<Path>
    decreases |leaf| - depth
  {
    if depth >= |leaf| || leaf[..depth] in col.leaves then None
    else if CanFold(col, leaf[..depth]) then Some(leaf[..depth])
    else RootFrom(col, leaf, depth + 1)
  }

  function RootOf(col: Column, leaf: Path): Option<Path> {
    RootFrom(col, leaf, 1)
  }

  // ---------------------------------------------------------------- the tree fold

  /** `after` is `before` with the roots of the leaves in `done` entered, seen from `depth`. */
  ghost predicate Entered(col: Column, before: map<Path, Path>, after: map<Path, Path>, done: set<Path>, depth: nat) {
    forall l :: EnteredAt(col, before, after, done, depth, l)
  }

  ghost predicate EnteredAt(col: Column, before: map<Path, Path>, after: map<Path, Path>, done: set<Path>,
                            depth: nat, l: Path)
  {
    if l in done && RootFrom(col, l, depth).Some? then
      l in after && after[l] == RootFrom(col, l, depth).value
    else (l in after <==> l in before) && (l in before ==> after[l] == before[l])
  }

  /** The members below `child`, in order: the group `children[child]` collects. */
  function Under(members: seq<Path>, child: Path): seq<Path> {
    if members == [] then []
    else
      var most, last := members[..|members| - 1], members[|members| - 1];
      if child < last then Under(most, child) + [last] else Under(most, child)
  }

  lemma {:induction false} UnderMembers(members: seq<Path>, child: Path, m: Path)
    ensures m in Under(members, child) <==> m in members && child < m
    decreases |members|
  {
    if members != [] {
      var most, last := members[..|members| - 1], members[|members| - 1];
      assert members == most + [last];
      UnderMembers(most, child, m);
    }
  }

  /** A grouping by the prefix of `depth` segments; a member of just that length is in no group. */
  ghost predicate Grouped(members: seq<Path>, depth: nat, order: seq<Path>, children: map<Path, seq<Path>>) {
    forall c :: GroupAt(members, depth, order, children, c)
  }

  ghost predicate GroupAt(members: seq<Path>, depth: nat, order: seq<Path>, children: map<Path, seq<Path>>, c: Path) {
    && (c in order <==> c in children)
    && (c in children ==> |c| == depth && children[c] == Under(members, c) && children[c] != [])
    && (|c| == depth && c !in children ==> Under(members, c) == [])
  }

  lemma UnderSnoc(members: seq<Path>, leaf: Path, c: Path)
    ensures Under(members + [leaf], c) == if c < leaf then Under(members, c) + [leaf] else Under(members, c)
  {
    assert (members + [leaf])[..|members|] == members;
  }

  lemma GroupNew(members: seq<Path>, leaf: Path, depth: nat, order: seq<Path>, children: map<Path, seq<Path>>)
    requires Grouped(members, depth, order, children) && depth < |leaf| && leaf[..depth] !in children
    ensures Grouped(members + [leaf], depth, order + [leaf[..depth]], children[leaf[..depth] := [leaf]])
  {
    var child := leaf[..depth];
    assert GroupAt(members, depth, order, children, child);
    var members', order', children' := members + [leaf], order + [child], children[child := [leaf]];
    forall c
      ensures GroupAt(members', depth, order', children', c)
    {
      assert GroupAt(members, depth, order, children, c);
      UnderSnoc(members, leaf, c);
      assert |c| == depth && c < leaf ==> c == child;
    }
  }

  lemma GroupOld(members: seq<Path>, leaf: Path, depth: nat, order: seq<Path>, children: map<Path, seq<Path>>)
    requires Grouped(members, depth, order, children) && depth < |leaf| && leaf[..depth] in children
    ensures Grouped(members + [leaf], depth, order,
                    children[leaf[..depth] := children[leaf[..depth]] + [leaf]])
  {
    var child := leaf[..depth];
    assert GroupAt(members, depth, order, children, child);
    var members', children' := members + [leaf], children[child := children[child] + [leaf]];
    forall c
      ensures GroupAt(members', depth, order, children', c)
    {
      assert GroupAt(members, depth, order, children, c);
      UnderSnoc(members, leaf, c);
      assert |c| == depth && c < leaf ==> c == child;
    }
  }

  lemma GroupNone(members: seq<Path>, leaf: Path, depth: nat, order: seq<Path>, children: map<Path, seq<Path>>)
    requires Grouped(members, depth, order, children) && depth == |leaf|
    ensures Grouped(members + [leaf], depth, order, children)
  {
    forall c
      ensures GroupAt(members + [leaf], depth, order, children, c)
    {
      assert GroupAt(members, depth, order, children, c);
      UnderSnoc(members, leaf, c);
    }
  }

  lemma GroupFacts(members: seq<Path>, depth: nat, order: seq<Path>, children: map<Path, seq<Path>>, c: Path)
    requires Grouped(members, depth, order, children) && c in order
    ensures c in children && |c| == depth && children[c] != []
    ensures forall m :: m in children[c] <==> m in members && c < m
  {
    assert GroupAt(members, depth, order, children, c);
    forall m
      ensures m in children[c] <==> m in members && c < m
    {
      UnderMembers(members, c, m);
    }
  }

  /** Once every group is done, every member is: one of just `depth` segments has no root to enter. */
  lemma AllGroupsDone(col: Column, before: map<Path, Path>, after: map<Path, Path>, members: seq<Path>,
                      depth: nat, order: seq<Path>, children: map<Path, seq<Path>>, done: set<Path>)
    requires Grouped(members, depth, order, children)
    requires forall m :: m in members ==> depth <= |m|
    requires forall c :: c in order ==> c in children && Elems(children[c]) <= done
    requires forall m :: m in done ==> m in members
    requires Entered(col, before, after, done, depth)
    ensures Entered(col, before, after, Elems(members), depth)
  {
    forall l
      ensures EnteredAt(col, before, after, Elems(members), depth, l)
    {
      assert EnteredAt(col, before, after, done, depth, l);
      if l in members && |l| > depth {
        var c := l[..depth];
        UnderMembers(members, c, l);
        assert GroupAt(members, depth, order, children, c);
        assert l in Elems(children[c]);
      }
    }
  }

  lemma NextGroup(col: Column, before: map<Path, Path>, mid: map<Path, Path>, after: map<Path, Path>,
                  a: set<Path>, b: set<Path>, depth: nat)
    requires Entered(col, before, mid, a, depth) && Entered(col, mid, after, b, depth)
    ensures Entered(col, before, after, a + b, depth)
  {
    forall l
      ensures EnteredAt(col, before, after, a + b, depth, l)
    {
      assert EnteredAt(col, before, mid, a, depth, l);
      assert EnteredAt(col, mid, after, b, depth, l);
    }
  }

  class Folder {
    const col: Column
    var roots: map<Path, Path>

    constructor (col: Column)
      ensures this.col == col && roots == map[]
    {
      this.col := col;
      roots := map[];
    }

    /** Groups the members by their next segment, in order of first appearance. */
    method GroupChildren(prefix: Path, members: seq<Path>) returns (order: seq<Path>, children: map<Path, seq<Path>>)
      requires forall m :: m in members ==> prefix < m
      ensures Grouped(members, |prefix| + 1, order, children)
    {
      order, children := [], map[];
      for i := 0 to |members|
        invariant Grouped(members[..i], |prefix| + 1, order, children)
      {
        var leaf := members[i];
        assert leaf in members;
        var child := leaf[..|prefix| + 1];
        assert members[..i + 1] == members[..i] + [leaf];
        if leaf == child {
          GroupNone(members[..i], leaf, |prefix| + 1, order, children);
        } else if child in children {
          GroupOld(members[..i], leaf, |prefix| + 1, order, children);
          children := children[child := children[child] + [leaf]];
        } else {
          GroupNew(members[..i], leaf, |prefix| + 1, order, children);
          order := order + [child];
          children := children[child := [leaf]];
        }
      }
      assert members[..|members|] == members;
    }

    method EnterAll(below: seq<Path>, child: Path)
      modifies this`roots
      ensures forall l :: if l in below then l in roots && roots[l] == child
                          else (l in roots <==> l in old(roots)) && (l in roots ==> roots[l] == old(roots)[l])
    {
      for i := 0 to |below|
        invariant forall l :: if l in below[..i] then l in roots && roots[l] == child
                              else (l in roots <==> l in old(roots)) && (l in roots ==> roots[l] == old(roots)[l])
      {
        assert below[..i + 1] == below[..i] + [below[i]];
        roots := roots[below[i] := child];
      }
      assert below[..|below|] == below;
    }

    /** One child's leaves: left alone, folded whole, or folded further down. */
    method FoldChild(child: Path, below: seq<Path>, ghost height: nat)
      requires child != [] && forall m :: m in below ==> child < m && |m| <= height
      modifies this`roots
      ensures Entered(col, old(roots), roots, Elems(below), |child|)
      decreases if height >= |child| then height - |child| else 0, 1
    {
      forall m | m in below
        ensures m[..|child|] == child
      {
      }
      if child in col.leaves {
        return;
      }
      var canFold := !PinnedAtOrBelow(col, child);
      var deeperFoldPoint := DeeperFoldPoint(col, child);
      if canFold && (child in col.foldPoints || !deeperFoldPoint) {
        EnterAll(below, child);
        return;
      }
      Fold(child, below, height);
      forall l
        ensures EnteredAt(col, old(roots), roots, Elems(below), |child|, l)
      {
        assert EnteredAt(col, old(roots), roots, Elems(below), |child| + 1, l);
      }
    }

    /** The inner `fold`: every member's root, as the leaf-by-leaf rule says, and nothing else. */
    method Fold(prefix: Path, members: seq<Path>, ghost height: nat)
      requires forall m :: m in members ==> prefix < m && |m| <= height
      modifies this`roots
      ensures Entered(col, old(roots), roots, Elems(members), |prefix| + 1)
      decreases if height >= |prefix| then height - |prefix| else 0, 0
    {
      var order, children := GroupChildren(prefix, members);
      var depth := |prefix| + 1;
      ghost var done: set<Path> := {};
      for i := 0 to |order|
        invariant forall j :: 0 <= j < i ==> order[j] in children && Elems(children[order[j]]) <= done
        invariant forall m :: m in done ==> m in members
        invariant Entered(col, old(roots), roots, done, depth)
      {
        var child := order[i];
        ghost var mid := roots;
        GroupFacts(members, depth, order, children, child);
        assert children[child][0] in members && child < children[child][0];
        FoldChild(child, children[child], height);
        NextGroup(col, old(roots), mid, roots, done, Elems(children[child]), depth);
        done := done + Elems(children[child]);
      }
      AllGroupsDone(col, old(roots), roots, members, depth, order, children, done);
    }
  }

  /** Longest path, a bound for the recursion. */
  ghost function Height(paths: seq<Path>): (h: nat)
    ensures forall p :: p in paths ==> |p| <= h
  {
    if paths == [] then 0
    else
      var rest := Height(paths[1..]);
      assert paths == [paths[0]] + paths[1..];
      if |paths[0]| > rest then |paths[0]| else rest
  }

  /** `object_property_paths`: exactly the leaves that have a root, each with the root its own rule gives. */
  method ObjectPropertyPaths(paths: seq<Path>, pinned: set<Path>, documented: set<Path>)
    returns (roots: map<Path, Path>)
    ensures var col := MakeColumn(paths, pinned, documented);
            && (forall l :: l in roots <==> l in col.leaves && RootOf(col, l).Some?)
            && (forall l :: l in roots ==> roots[l] == RootOf(col, l).value)
    ensures forall l, r :: l in roots && roots[l] == r <==> l in paths && FoldsInto(paths, pinned, documented, l, r)
  {
    var leaves: seq<Path> := [];
    for i := 0 to |paths|
      invariant forall p :: p in leaves <==> p in paths[..i] && p != []
    {
      assert paths[..i + 1] == paths[..i] + [paths[i]];
      if paths[i] != [] && paths[i] !in leaves {
        leaves := leaves + [paths[i]];
      }
    }
    assert paths[..|paths|] == paths;
    var folder := new Folder(MakeColumn(paths, pinned, documented));
    folder.Fold([], leaves, Height(leaves));
    roots := folder.roots;
    forall l
      ensures l in roots <==> l in folder.col.leaves && RootOf(folder.col, l).Some?
      ensures l in roots ==> roots[l] == RootOf(folder.col, l).value
    {
      assert EnteredAt(folder.col, map[], roots, Elems(leaves), 1, l);
    }
    forall l, r
      ensures RootOf(folder.col, l) == Some(r) <==> FoldsInto(paths, pinned, documented, l, r)
    {
      RootOnArguments(paths, pinned, documented, l, r);
    }
  }

  // --------------------------------------------------------------- what it promises

  /** The prefix neither ends the walk nor takes the leaf. */
  predicate Passed(col: Column, p: Path) {
    p !in col.leaves && !CanFold(col, p)
  }

  lemma {:induction false} RootFromIsFirst(col: Column, leaf: Path, depth: nat, r: Path)
    ensures RootFrom(col, leaf, depth) == Some(r) <==>
      && depth <= |r| && r < leaf && r !in col.leaves && CanFold(col, r)
      && forall k :: depth <= k < |r| ==> Passed(col, leaf[..k])
    decreases |leaf| - depth
  {
    if depth < |leaf| {
      RootFromIsFirst(col, leaf, depth + 1, r);
      if r < leaf {
        assert r == leaf[..|r|];
      }
    }
  }

  /**
   The rule in one line: a leaf's root is its shallowest non-empty proper prefix that can fold, and
   it has one only if no prefix up to there is itself observed.
   */
  lemma RootIsShallowest(col: Column, leaf: Path, r: Path)
    ensures RootOf(col, leaf) == Some(r) <==>
      && r != [] && r < leaf && r !in col.leaves && CanFold(col, r)
      && forall p :: p != [] && p < r ==> Passed(col, p)
  {
    RootFromIsFirst(col, leaf, 1, r);
    if r < leaf {
      assert forall p :: p < r ==> p == leaf[..|p|];
      assert forall k :: 1 <= k < |r| ==> leaf[..k] < r;
    }
  }

  /** What it takes for an object at `r` to be one property, on the arguments: the rule of the documentation. */
  ghost predicate Foldable(paths: seq<Path>, pinned: set<Path>, documented: set<Path>, r: Path) {
    && (forall p :: p in pinned ==> !(r <= p))
    && (forall p :: p in documented && p in paths ==> !(r <= p))
    && (r in documented || forall p :: p in documented && p !in paths ==> !(r < p))
  }

  /** `r` is the shortest foldable prefix of `l`, and no prefix of `l` up to it is itself observed. */
  ghost predicate FoldsInto(paths: seq<Path>, pinned: set<Path>, documented: set<Path>, l: Path, r: Path) {
    && r != [] && r < l && r !in paths && Foldable(paths, pinned, documented, r)
    && forall p :: p != [] && p < r ==> p !in paths && !Foldable(paths, pinned, documented, p)
  }

  lemma FoldableExactly(paths: seq<Path>, pinned: set<Path>, documented: set<Path>, r: Path)
    requires r !in paths
    ensures CanFold(MakeColumn(paths, pinned, documented), r) <==> Foldable(paths, pinned, documented, r)
  {
    var col := MakeColumn(paths, pinned, documented);
    assert forall p :: p in col.pins <==> p in pinned || (p in documented && p in paths);
    assert forall p :: p in col.foldPoints <==> p in documented && p !in paths;
  }

  /** The leaf-by-leaf rule, in terms of the arguments alone. */
  lemma RootOnArguments(paths: seq<Path>, pinned: set<Path>, documented: set<Path>, l: Path, r: Path)
    ensures RootOf(MakeColumn(paths, pinned, documented), l) == Some(r) <==> FoldsInto(paths, pinned, documented, l, r)
  {
    var col := MakeColumn(paths, pinned, documented);
    RootIsShallowest(col, l, r);
    forall p | p !in paths
      ensures CanFold(col, p) <==> Foldable(paths, pinned, documented, p)
    {
      FoldableExactly(paths, pinned, documented, p);
    }
    assert forall p :: p in col.leaves <==> p in paths;
    forall p
      ensures Passed(col, p) <==> p !in paths && !Foldable(paths, pinned, documented, p)
    {
    }
  }

  /** A root takes every observed leaf strictly below it. */
  lemma RootTakesItsSubtree(col: Column, leaf: Path, other: Path, r: Path)
    requires RootOf(col, leaf) == Some(r) && r < other
    ensures RootOf(col, other) == Some(r)
  {
    RootIsShallowest(col, leaf, r);
    RootIsShallowest(col, other, r);
  }

  /** No root lies inside another root's object. */
  lemma RootsAreAntichain(col: Column, a: Path, b: Path)
    requires RootOf(col, a).Some? && RootOf(col, b).Some?
    ensures !(RootOf(col, a).value < RootOf(col, b).value)
  {
    var ra, rb := RootOf(col, a).value, RootOf(col, b).value;
    RootIsShallowest(col, a, ra);
    RootIsShallowest(col, b, rb);
    assert ra < rb ==> Passed(col, ra);
  }

  /** A pinned leaf, and every leaf of an object with a pin inside, is never named by that object. */
  lemma NoRootAboveAPin(col: Column, leaf: Path, pin: Path)
    requires RootOf(col, leaf).Some? && pin in col.pins
    ensures !(RootOf(col, leaf).value <= pin)
    ensures leaf != pin
  {
    RootIsShallowest(col, leaf, RootOf(col, leaf).value);
  }

  /**
   Exactly when a documented object is where its subtree folds: nothing at or below it is pinned, no
   key on the way is itself observed, and no shallower documented object is free to fold. The last
   clause is where the code and the promise "never a shallower ancestor" part: of two nested
   documented objects the outer one wins.
   */
  lemma DocumentedObjectFolds(col: Column, leaf: Path, d: Path)
    requires d in col.foldPoints && d != [] && d < leaf && d !in col.leaves
    ensures RootOf(col, leaf) == Some(d) <==>
      && !PinnedAtOrBelow(col, d)
      && forall p :: p != [] && p < d ==>
           p !in col.leaves && (p in col.foldPoints ==> PinnedAtOrBelow(col, p))
  {
    RootIsShallowest(col, leaf, d);
    forall p | p != [] && p < d
      ensures Passed(col, p) <==> p !in col.leaves && (p in col.foldPoints ==> PinnedAtOrBelow(col, p))
    {
      assert DeeperFoldPoint(col, p);
    }
  }

  /** Of the nested documented objects `a` and `a.b`, the leaf `a.b.c` folds into `a`. */
  lemma OuterDocumentedObjectWins()
    ensures var col := MakeColumn([["a", "b", "c"]], {}, {["a"], ["a", "b"]});
            RootOf(col, ["a", "b", "c"]) == Some(["a"])
  {
    var leaf := ["a", "b", "c"];
    var col := MakeColumn([leaf], {}, {["a"], ["a", "b"]});
    assert leaf[..1] == ["a"];
    assert ["a"] !in col.leaves && ["a"] in col.foldPoints && col.pins == {};
    assert CanFold(col, ["a"]);
  }
}
