/**
 Building a row's template from its paths, and what flattening it gives back.
 */
module TemplateBuild {
  import opened Wrappers
  import opened PropertyFold
  import opened JsonTemplate
  import opened JsonObjects

  /** The arguments of `build_json_value` but the paths; preserved values are keyed by path. */
  datatype Plan = Plan(column: string, preserved: map<Path, Json>, propertyPaths: map<Path, Path>)

  function Target(plan: Plan, p: Path): Path {
    if p in plan.preserved then p else if p in plan.propertyPaths then plan.propertyPaths[p] else p
  }

  function Written(plan: Plan, p: Path): Json {
    if p in plan.preserved then plan.preserved[p] else Token(plan.column, Target(plan, p))
  }

  /** The writes of the paths one after another. */
  function Build(plan: Plan, paths: seq<Path>): Fields {
    if paths == [] then Empty
    else
      var last := paths[|paths| - 1];
      SetNested(Build(plan, paths[..|paths| - 1]), Target(plan, last), Written(plan, last))
  }

  // ---------------------------------------------------------------------- in place

  /** The dictionaries of the preserved value of `p`. */
  ghost function Kept(h: Store, plan: Plan, slots: map<Path, Slot>, p: Path): set<Ref>
    requires p in plan.preserved && p in slots
  {
    Own(h, slots[p], plan.preserved[p])
  }

  /** The slots hold the preserved values, which share no dictionary. */
  ghost predicate Holds(h: Store, plan: Plan, slots: map<Path, Slot>) {
    && slots.Keys == plan.preserved.Keys
    && (forall p :: p in plan.preserved ==> IsValue(h, slots[p], plan.preserved[p]))
    && forall p, q :: p in plan.preserved && q in plan.preserved && p != q ==>
         Kept(h, plan, slots, p) !! Kept(h, plan, slots, q)
  }

  /** A row does not name a preserved object twice. */
  ghost predicate ObjectsOnce(plan: Plan, paths: seq<Path>) {
    forall i, j :: 0 <= i < j < |paths| && paths[i] == paths[j] && paths[i] in plan.preserved ==>
      !plan.preserved[paths[i]].Obj?
  }

  /** `p` is still to be written, or can be written again. */
  predicate Waits(plan: Plan, done: seq<Path>, p: Path) {
    p in plan.preserved && (p !in done || !plan.preserved[p].Obj?)
  }

  ghost predicate Waiting(h: Store, g: Store, obj: Ref, plan: Plan, slots: map<Path, Slot>, done: seq<Path>, p: Path)
    requires slots.Keys == plan.preserved.Keys
  {
    Waits(plan, done, p) ==>
      && Writable(g, obj, Build(plan, done), slots[p], plan.preserved[p])
      && Kept(g, plan, slots, p) == Kept(h, plan, slots, p)
  }

  ghost predicate KeptBy(h: Store, plan: Plan, slots: map<Path, Slot>, r: Ref)
    requires slots.Keys == plan.preserved.Keys
  {
    exists p :: p in plan.preserved && r in Kept(h, plan, slots, p)
  }

  /** The state of the loop after the paths `done`, begun in the store `h`. */
  ghost predicate Underway(h: Store, g: Store, obj: Ref, plan: Plan, slots: map<Path, Slot>, done: seq<Path>) {
    && Holds(h, plan, slots) && Sound(h) && Sound(g) && h.next <= g.next
    && Doc(g, obj, Build(plan, done))
    && (forall p :: p in plan.preserved ==> Waiting(h, g, obj, plan, slots, done, p))
    && (forall r :: r in DocCells(g, obj, Build(plan, done)) ==> r >= h.next || KeptBy(h, plan, slots, r))
    && (forall r :: r in h.cells && !KeptBy(h, plan, slots, r) ==> r in g.cells && g.cells[r] == h.cells[r])
  }

  lemma BuildSnoc(plan: Plan, done: seq<Path>, p: Path)
    ensures Build(plan, done + [p]) == SetNested(Build(plan, done), Target(plan, p), Written(plan, p))
  {
    assert (done + [p])[..|done|] == done;
  }

  /** A write for `p` leaves the preserved values still to come as they were. */
  lemma WriteKeepsUnderway(h: Store, g: Store, g': Store, obj: Ref, plan: Plan,
                           slots: map<Path, Slot>, done: seq<Path>, p: Path, slot: Slot)
    requires Underway(h, g, obj, plan, slots, done)
    requires Own(g, slot, Written(plan, p)) == if p in plan.preserved then Kept(h, plan, slots, p) else {}
    requires p in plan.preserved ==> Waits(plan, done, p)
    requires Doc(g', obj, Build(plan, done + [p])) && Within(g, g', DocCells(g, obj, Build(plan, done)))
    requires Grown(g, DocCells(g', obj, Build(plan, done + [p])),
                   DocCells(g, obj, Build(plan, done)) + Own(g, slot, Written(plan, p)))
    ensures Underway(h, g', obj, plan, slots, done + [p])
  {
    var own := DocCells(g, obj, Build(plan, done));
    forall q | q in plan.preserved
      ensures Waiting(h, g', obj, plan, slots, done + [p], q)
    {
      if Waits(plan, done + [p], q) {
        assert Waits(plan, done, q);
        ValueFrame(g, g', slots[q], plan.preserved[q]);
        OwnInUse(g, slots[q], plan.preserved[q]);
      }
    }
    forall r | r in DocCells(g', obj, Build(plan, done + [p]))
      ensures r >= h.next || KeptBy(h, plan, slots, r)
    {
      assert r in own || r in Own(g, slot, Written(plan, p)) || r >= g.next;
    }
  }

  /**
   The loop of `build_json_value`, over the paths in any order: the new dictionary is the object the
   writes build, and no dictionary of before changes unless it belongs to a preserved value.
   */
  method BuildJsonValue(objects: Objects, plan: Plan, slots: map<Path, Slot>, paths: seq<Path>) returns (obj: Ref)
    requires Sound(objects.store) && Holds(objects.store, plan, slots) && ObjectsOnce(plan, paths)
    modifies objects
    ensures Sound(objects.store) && Doc(objects.store, obj, Build(plan, paths))
    ensures obj !in old(objects.store).cells
    ensures forall r :: r in old(objects.store).cells && !KeptBy(old(objects.store), plan, slots, r) ==>
              r in objects.store.cells && objects.store.cells[r] == old(objects.store).cells[r]
  {
    ghost var before := objects.store;
    obj := objects.NewDict();
    NewIsUnderway(before, objects.store, obj, plan, slots);
    for i := 0 to |paths|
      invariant obj == before.next && Underway(before, objects.store, obj, plan, slots, paths[..i])
    {
      var path := paths[i];
      ghost var g, done := objects.store, paths[..i];
      assert paths[..i + 1] == done + [path];
      BuildSnoc(plan, done, path);
      if path in plan.preserved {
        assert Waits(plan, done, path);
        objects.SetNestedValue(obj, path, slots[path], Build(plan, done), plan.preserved[path]);
        WriteKeepsUnderway(before, g, objects.store, obj, plan, slots, done, path, slots[path]);
        continue;
      }
      if path in plan.propertyPaths {
        path := plan.propertyPaths[path];
      }
      var slot := Leaf(Token(plan.column, path));
      objects.SetNestedValue(obj, path, slot, Build(plan, done), Token(plan.column, path));
      WriteKeepsUnderway(before, g, objects.store, obj, plan, slots, done, paths[i], slot);
    }
    assert paths[..|paths|] == paths;
  }

  lemma NewIsUnderway(h: Store, g: Store, obj: Ref, plan: Plan, slots: map<Path, Slot>)
    requires Sound(h) && Holds(h, plan, slots)
    requires g == Fresh(h) && obj == h.next && Doc(g, obj, Empty) && DocCells(g, obj, Empty) == {obj}
    ensures Underway(h, g, obj, plan, slots, [])
  {
    forall p | p in plan.preserved
      ensures Waiting(h, g, obj, plan, slots, [], p)
    {
      OwnInUse(h, slots[p], plan.preserved[p]);
      ValueFrame(h, g, slots[p], plan.preserved[p]);
    }
  }

  // ------------------------------------------------------------- what a build writes

  /** No write lands above or below another; two on one spot write the same. */
  ghost predicate Fits(plan: Plan, paths: seq<Path>) {
    && (forall p :: p in paths ==> Target(plan, p) != [])
    && (forall p :: p in paths && Written(plan, p).Obj? ==> WellFormed(Written(plan, p).fields))
    && forall p, q :: p in paths && q in paths && Comparable(Target(plan, p), Target(plan, q)) ==>
         Target(plan, p) == Target(plan, q) && Written(plan, p) == Written(plan, q)
  }

  lemma FitsPrefix(plan: Plan, paths: seq<Path>)
    requires Fits(plan, paths) && paths != []
    ensures Fits(plan, paths[..|paths| - 1])
  {
  }

  lemma {:induction false} BuildWellFormed(plan: Plan, paths: seq<Path>)
    requires Fits(plan, paths)
    ensures WellFormed(Build(plan, paths))
    decreases |paths|
  {
    if paths != [] {
      var last := paths[|paths| - 1];
      FitsPrefix(plan, paths);
      BuildWellFormed(plan, paths[..|paths| - 1]);
      SetNestedWellFormed(Build(plan, paths[..|paths| - 1]), Target(plan, last), Written(plan, last));
    }
  }

  /** Every write survives the ones after it. */
  lemma {:induction false} WritesSurvive(plan: Plan, paths: seq<Path>, p: Path)
    requires Fits(plan, paths) && p in paths
    ensures Extract(Obj(Build(plan, paths)), Target(plan, p)) == Some(Written(plan, p))
    decreases |paths|
  {
    var most, last := paths[..|paths| - 1], paths[|paths| - 1];
    assert paths == most + [last];
    if Target(plan, p) == Target(plan, last) {
      ReadAtWrite(Build(plan, most), Target(plan, last), Written(plan, last));
    } else {
      FitsPrefix(plan, paths);
      WritesSurvive(plan, most, p);
      ReadElsewhere(Build(plan, most), Target(plan, last), Written(plan, last), Target(plan, p));
    }
  }

  /** The write for `p` puts the leaf `v` at `q`: at its target, or inside the object it writes there. */
  ghost predicate WritesLeaf(plan: Plan, p: Path, q: Path, v: Json) {
    && Target(plan, p) <= q && !v.Obj?
    && Extract(Written(plan, p), q[|Target(plan, p)|..]) == Some(v)
  }

  ghost predicate WrittenAt(plan: Plan, paths: seq<Path>, q: Path, v: Json) {
    exists p :: p in paths && WritesLeaf(plan, p, q, v)
  }

  /** The leaves of a template are the leaves of what was written, and no others. */
  lemma LeavesAreWrites(plan: Plan, paths: seq<Path>, q: Path, v: Json)
    requires Fits(plan, paths)
    ensures IsLeaf(Build(plan, paths), q, v) <==> WrittenAt(plan, paths, q, v)
  {
    if p :| p in paths && WritesLeaf(plan, p, q, v) {
      WritesSurvive(plan, paths, p);
      ReadBelow(Obj(Build(plan, paths)), Target(plan, p), q);
    } else if IsLeaf(Build(plan, paths), q, v) {
      LeafWasWritten(plan, paths, q, v);
    }
  }

  lemma ReadBelow(doc: Json, path: Path, q: Path)
    requires path <= q && Extract(doc, path).Some?
    ensures Extract(doc, q) == Extract(Extract(doc, path).value, q[|path|..])
  {
    ExtractThrough(doc, path, q[|path|..]);
    assert q == path + q[|path|..];
  }

  lemma {:induction false} LeafWasWritten(plan: Plan, paths: seq<Path>, q: Path, v: Json)
    requires Fits(plan, paths) && IsLeaf(Build(plan, paths), q, v)
    ensures WrittenAt(plan, paths, q, v)
    decreases |paths|
  {
    assert Extract(Obj(Empty), q).None?;
    if paths != [] {
      var most, last := paths[..|paths| - 1], paths[|paths| - 1];
      assert paths == most + [last];
      var target, value := Target(plan, last), Written(plan, last);
      var before := Build(plan, most);
      if target <= q {
        ReadAtWrite(before, target, value);
        ReadBelow(Obj(Build(plan, paths)), target, q);
        assert WritesLeaf(plan, last, q, v);
      } else if q < target {
        ReadAbove(before, target, value, q);
      } else {
        ReadElsewhere(before, target, value, q);
        FitsPrefix(plan, paths);
        LeafWasWritten(plan, most, q, v);
        var p :| p in most && WritesLeaf(plan, p, q, v);
        assert p in paths;
      }
    }
  }

  // --------------------------------------------------------- with the fold's roots

  /** No path of the row is inside another. */
  ghost predicate PrefixFree(row: seq<Path>) {
    forall p, q :: p in row && q in row ==> !(p < q)
  }

  /** `propertyPaths` is what `object_property_paths` returns for the column. */
  ghost predicate RootsOf(col: Column, roots: map<Path, Path>) {
    && (forall l :: l in roots <==> l in col.leaves && RootOf(col, l).Some?)
    && (forall l :: l in roots ==> roots[l] == RootOf(col, l).value)
  }

  /** A row of the column: its paths are observed there, none inside another, every kept one pinned. */
  ghost predicate RowOf(col: Column, plan: Plan, row: seq<Path>) {
    && RootsOf(col, plan.propertyPaths)
    && PrefixFree(row)
    && (forall p :: p in row ==> p in col.leaves && p != [])
    && (forall p :: p in row && p in plan.preserved ==> p in col.pins)
    && (forall p :: p in plan.preserved && plan.preserved[p].Obj? ==> WellFormed(plan.preserved[p].fields))
  }

  lemma RootFacts(col: Column, plan: Plan, row: seq<Path>, p: Path)
    requires RowOf(col, plan, row) && p in row
    ensures p in plan.propertyPaths ==> p !in plan.preserved && RootOf(col, p) == Some(plan.propertyPaths[p])
    ensures Target(plan, p) <= p && Target(plan, p) != []
    ensures Target(plan, p) != p ==> Target(plan, p) !in col.leaves && RootOf(col, p) == Some(Target(plan, p))
  {
    if p in plan.propertyPaths {
      RootIsShallowest(col, p, plan.propertyPaths[p]);
      if p in plan.preserved {
        NoRootAboveAPin(col, p, p);
      }
    }
  }

  /** Two targets of a row are one, or neither is inside the other. */
  lemma TargetsNeverNest(col: Column, plan: Plan, row: seq<Path>, p: Path, q: Path)
    requires RowOf(col, plan, row) && p in row && q in row
    ensures !(Target(plan, p) < Target(plan, q))
    ensures Target(plan, p) == Target(plan, q) ==> Written(plan, p) == Written(plan, q)
  {
    RootFacts(col, plan, row, p);
    RootFacts(col, plan, row, q);
    var tp, tq := Target(plan, p), Target(plan, q);
    if tp < tq {
      assert tp < q;
      if tp != p {
        RootTakesItsSubtree(col, p, q, tp);
        RootFacts(col, plan, row, q);
        assert RootOf(col, q) == Some(tp);
        NoNesting(col, plan, row, q, tp);
      }
    } else if tp == tq && (p in plan.preserved || q in plan.preserved) {
      SharedTarget(col, plan, row, p, q);
    }
  }

  /** A leaf whose root is `r` is written at `r`, unless it is kept; and a kept leaf has no root. */
  lemma NoNesting(col: Column, plan: Plan, row: seq<Path>, q: Path, r: Path)
    requires RowOf(col, plan, row) && q in row && RootOf(col, q) == Some(r)
    ensures Target(plan, q) == r
  {
    RootFacts(col, plan, row, q);
    assert q in plan.propertyPaths;
  }

  lemma SharedTarget(col: Column, plan: Plan, row: seq<Path>, p: Path, q: Path)
    requires RowOf(col, plan, row) && p in row && q in row
    requires Target(plan, p) == Target(plan, q) && (p in plan.preserved || q in plan.preserved)
    ensures p == q
  {
    RootFacts(col, plan, row, p);
    RootFacts(col, plan, row, q);
  }

  lemma RowFits(col: Column, plan: Plan, row: seq<Path>)
    requires RowOf(col, plan, row)
    ensures Fits(plan, row)
  {
    forall p | p in row
      ensures Target(plan, p) != []
    {
      RootFacts(col, plan, row, p);
    }
    forall p, q | p in row && q in row && Comparable(Target(plan, p), Target(plan, q))
      ensures Target(plan, p) == Target(plan, q) && Written(plan, p) == Written(plan, q)
    {
      TargetsNeverNest(col, plan, row, p, q);
      TargetsNeverNest(col, plan, row, q, p);
    }
  }

  /** A kept value of any shape survives the build and is what extraction at its path returns. */
  lemma KeptValuesSurvive(col: Column, plan: Plan, row: seq<Path>, p: Path)
    requires RowOf(col, plan, row) && p in row && p in plan.preserved
    ensures Extract(Obj(Build(plan, row)), p) == Some(plan.preserved[p])
  {
    RowFits(col, plan, row);
    WritesSurvive(plan, row, p);
  }

  /**
   What one path writes, in any plan: a kept value at the path itself, or else the token of the path's
   object root if the plan has one for it, and of the path if not.
   */
  lemma WritesExactly(plan: Plan, p: Path, q: Path, v: Json)
    ensures WritesLeaf(plan, p, q, v) <==>
      if p in plan.preserved then p <= q && !v.Obj? && Extract(plan.preserved[p], q[|p|..]) == Some(v)
      else q == (if p in plan.propertyPaths then plan.propertyPaths[p] else p) && v == Token(plan.column, q)
  {
    if p !in plan.preserved && Target(plan, p) <= q {
      assert q == Target(plan, p) + q[|Target(plan, p)|..];
    }
  }

  /**
   What a path of the row puts at `q`: the leaves of its kept value at and below the path, or else one
   token, at its object root if it has one and at itself if not.
   */
  ghost predicate LeafOf(col: Column, plan: Plan, p: Path, q: Path, v: Json) {
    if p in plan.preserved then
      p <= q && !v.Obj? && Extract(plan.preserved[p], q[|p|..]) == Some(v)
    else
      q == RootOf(col, p).GetOr(p) && v == Token(plan.column, q)
  }

  ghost predicate SomeLeafOf(col: Column, plan: Plan, row: seq<Path>, q: Path, v: Json) {
    exists p :: p in row && LeafOf(col, plan, p, q, v)
  }

  lemma WritesItsLeaf(col: Column, plan: Plan, row: seq<Path>, p: Path, q: Path, v: Json)
    requires RowOf(col, plan, row) && p in row
    ensures WritesLeaf(plan, p, q, v) <==> LeafOf(col, plan, p, q, v)
  {
    RootFacts(col, plan, row, p);
    WritesExactly(plan, p, q, v);
  }

  /**
   The template flattens to exactly one token per object root and per unfolded leaf of the row, and the
   leaves of the kept values at their paths; nothing else, and no path twice. The paths may be built in
   any order.
   */
  lemma TemplateRoundTrip(col: Column, plan: Plan, row: seq<Path>)
    requires RowOf(col, plan, row)
    ensures NoPathTwice(Flatten(Build(plan, row), []))
    ensures forall q, v :: (q, v) in Flatten(Build(plan, row), []) <==> SomeLeafOf(col, plan, row, q, v)
  {
    RowFits(col, plan, row);
    BuildWellFormed(plan, row);
    FlattenHasNoDuplicates(Build(plan, row), []);
    forall q, v
      ensures (q, v) in Flatten(Build(plan, row), []) <==> SomeLeafOf(col, plan, row, q, v)
    {
      FlattenIsExtract(Build(plan, row), q, v);
      LeavesAreWrites(plan, row, q, v);
      WrittenIsLeafOf(col, plan, row, q, v);
    }
  }

  lemma WrittenIsLeafOf(col: Column, plan: Plan, row: seq<Path>, q: Path, v: Json)
    requires RowOf(col, plan, row)
    ensures WrittenAt(plan, row, q, v) <==> SomeLeafOf(col, plan, row, q, v)
  {
    forall p | p in row
      ensures WritesLeaf(plan, p, q, v) <==> LeafOf(col, plan, p, q, v)
    {
      WritesItsLeaf(col, plan, row, p, q, v);
    }
  }
}
