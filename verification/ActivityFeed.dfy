/**
 Collapsing bursts in the activity feed.

 Timestamps are milliseconds; `None` is one that does not parse.
 */
module ActivityFeed {
  import opened Text
  import opened Wrappers

  const BURST_WINDOW_MS: int := 2 * 60_000
  const MIN_BURST: nat := 3

  datatype ItemType = Anomaly | Scan | Alert | Event

  datatype Item = Item(id: string, kind: ItemType, title: string, occurredAt: Option<int>)

  datatype Entry = Single(item: Item) | Group(id: string, items: seq<Item>)

  function TypeName(kind: ItemType): string {
    match kind case Anomaly => "anomaly" case Scan => "scan" case Alert => "alert" case Event => "event"
  }

  /** The title up to its first ": ". */
  function TitleStem(title: string): string {
    if title == "" then ""
    else if ": " <= title then ""
    else [title[0]] + TitleStem(title[1..])
  }

  function BurstKey(item: Item): string {
    TypeName(item.kind) + "::" + TitleStem(item.title)
  }

  predicate WithinWindow(a: Option<int>, b: Option<int>) {
    a.Some? && b.Some? && -BURST_WINDOW_MS <= a.value - b.value <= BURST_WINDOW_MS
  }

  /** Neighbours that collapse: one type and stem, at most two minutes apart, both with a time that parses. */
  predicate Linked(a: Item, b: Item) {
    && a.kind == b.kind && TitleStem(a.title) == TitleStem(b.title)
    && a.occurredAt.Some? && b.occurredAt.Some?
    && a.occurredAt.value - b.occurredAt.value <= 120_000 && b.occurredAt.value - a.occurredAt.value <= 120_000
  }

  function Flush(run: seq<Item>): seq<Entry> {
    if |run| >= MIN_BURST then [Group("group:" + run[0].id, run)] else Singles(run)
  }

  function Singles(items: seq<Item>): seq<Entry> {
    seq(|items|, i requires 0 <= i < |items| => Single(items[i]))
  }

  function FlushAll(runs: seq<seq<Item>>): seq<Entry> {
    if runs == [] then [] else FlushAll(runs[..|runs| - 1]) + Flush(runs[|runs| - 1])
  }

  function Concat(runs: seq<seq<Item>>): seq<Item> {
    if runs == [] then [] else Concat(runs[..|runs| - 1]) + runs[|runs| - 1]
  }

  // ------------------------------------------------------------- runs of the feed

  /** Neighbours inside a run are linked. */
  ghost predicate Chain(run: seq<Item>) {
    run != [] && forall i :: 0 <= i < |run| - 1 ==> LinkedAt(run, i)
  }

  ghost predicate LinkedAt(run: seq<Item>, i: int)
    requires 0 <= i < |run| - 1
  {
    Linked(run[i], run[i + 1])
  }

  function Last<T>(xs: seq<T>): T
    requires xs != []
  {
    xs[|xs| - 1]
  }

  ghost predicate CutAfter(runs: seq<seq<Item>>, i: int)
    requires 0 <= i < |runs| - 1 && runs[i] != [] && runs[i + 1] != []
  {
    !Linked(Last(runs[i]), runs[i + 1][0])
  }

  /** The items cut exactly where two neighbours are not linked. */
  ghost predicate Decomposes(runs: seq<seq<Item>>, items: seq<Item>) {
    && (forall i :: 0 <= i < |runs| ==> Chain(runs[i]))
    && (forall i :: 0 <= i < |runs| - 1 ==> CutAfter(runs, i))
    && Concat(runs) == items
  }

  /** What `buildFeed` returns: every run of the decomposition, flushed. */
  ghost predicate IsFeed(entries: seq<Entry>, items: seq<Item>) {
    exists runs :: Decomposes(runs, items) && entries == FlushAll(runs)
  }

  lemma {:induction false} ChainHasOneKey(run: seq<Item>, i: nat)
    requires Chain(run) && i < |run|
    ensures run[i].kind == run[0].kind && TitleStem(run[i].title) == TitleStem(run[0].title)
    decreases i
  {
    if i > 0 {
      ChainHasOneKey(run, i - 1);
      assert LinkedAt(run, i - 1);
    }
  }

  /** The loop's test, against the head's key and the last item's time, is whether the neighbours are linked. */
  lemma TestIsLinked(run: seq<Item>, item: Item)
    requires Chain(run)
    ensures BurstKey(item) == BurstKey(run[0]) && WithinWindow(Last(run).occurredAt, item.occurredAt)
       <==> Linked(Last(run), item)
  {
    ChainHasOneKey(run, |run| - 1);
    KeyIsTypeAndStem(item, run[0]);
  }

  /** The runs flushed so far, and the one still growing. */
  ghost predicate Cut(closed: seq<seq<Item>>, run: seq<Item>) {
    && Decomposes(closed, Concat(closed))
    && Chain(run)
    && (closed != [] ==> Last(closed) != [] && !Linked(Last(Last(closed)), run[0]))
  }

  /** The state of the loop after the items `seen`. */
  ghost predicate Built(runs: seq<seq<Item>>, run: seq<Item>, entries: seq<Entry>, seen: seq<Item>) {
    Cut(runs, run) && Concat(runs) + run == seen && entries == FlushAll(runs)
  }

  lemma GrowRun(runs: seq<seq<Item>>, run: seq<Item>, entries: seq<Entry>, seen: seq<Item>, item: Item)
    requires Built(runs, run, entries, seen)
    requires BurstKey(item) == BurstKey(run[0]) && WithinWindow(Last(run).occurredAt, item.occurredAt)
    ensures Built(runs, run + [item], entries, seen + [item])
  {
    TestIsLinked(run, item);
    forall i | 0 <= i < |run + [item]| - 1
      ensures LinkedAt(run + [item], i)
    {
      assert i < |run| - 1 ==> LinkedAt(run, i);
    }
    assert Concat(runs) + (run + [item]) == seen + [item];
  }

  lemma NewRun(runs: seq<seq<Item>>, run: seq<Item>, entries: seq<Entry>, seen: seq<Item>, item: Item)
    requires Built(runs, run, entries, seen)
    requires BurstKey(item) != BurstKey(run[0]) || !WithinWindow(Last(run).occurredAt, item.occurredAt)
    ensures Built(runs + [run], [item], entries + Flush(run), seen + [item])
  {
    TestIsLinked(run, item);
    CloseRun(runs, run);
    assert Concat(runs + [run]) == Concat(runs) + run;
  }

  lemma FirstRun(item: Item)
    ensures Built([], [item], [], [item])
  {
    assert Concat([]) + [item] == [item];
  }

  lemma LastRun(runs: seq<seq<Item>>, run: seq<Item>, entries: seq<Entry>, items: seq<Item>)
    requires Built(runs, run, entries, items)
    ensures IsFeed(entries + Flush(run), items)
  {
    CloseRun(runs, run);
    assert Decomposes(runs + [run], items);
  }

  /** The loop: a run grows while the next item has the run's key and is near the previous item. */
  method BuildFeed(items: seq<Item>) returns (entries: seq<Entry>)
    ensures IsFeed(entries, items)
  {
    ghost var runs: seq<seq<Item>> := [];
    entries := [];
    if items == [] {
      assert Decomposes(runs, items) && entries == FlushAll(runs);
      return;
    }
    var run, prev := [items[0]], items[0];
    FirstRun(items[0]);
    assert items[..1] == run;
    for i := 1 to |items|
      invariant run != [] && prev == Last(run)
      invariant Built(runs, run, entries, items[..i])
    {
      var item := items[i];
      NextItem(runs, run, entries, items, i);
      if BurstKey(item) == BurstKey(run[0]) && WithinWindow(prev.occurredAt, item.occurredAt) {
        run := run + [item];
      } else {
        entries := entries + Flush(run);
        runs := runs + [run];
        run := [item];
      }
      prev := item;
    }
    assert items[..|items|] == items;
    LastRun(runs, run, entries, items);
    entries := entries + Flush(run);
  }

  lemma NextItem(runs: seq<seq<Item>>, run: seq<Item>, entries: seq<Entry>, items: seq<Item>, i: nat)
    requires i < |items| && run != [] && Built(runs, run, entries, items[..i])
    ensures if BurstKey(items[i]) == BurstKey(run[0]) && WithinWindow(Last(run).occurredAt, items[i].occurredAt)
            then Built(runs, run + [items[i]], entries, items[..i + 1])
            else Built(runs + [run], [items[i]], entries + Flush(run), items[..i + 1])
  {
    assert items[..i + 1] == items[..i] + [items[i]];
    if BurstKey(items[i]) == BurstKey(run[0]) && WithinWindow(Last(run).occurredAt, items[i].occurredAt) {
      GrowRun(runs, run, entries, items[..i], items[i]);
    } else {
      NewRun(runs, run, entries, items[..i], items[i]);
    }
  }

  lemma {:induction false} CloseRun(closed: seq<seq<Item>>, run: seq<Item>)
    requires Cut(closed, run)
    ensures Decomposes(closed + [run], Concat(closed) + run)
    ensures FlushAll(closed + [run]) == FlushAll(closed) + Flush(run)
  {
    var runs := closed + [run];
    assert runs[..|runs| - 1] == closed;
    forall i | 0 <= i < |runs| - 1
      ensures CutAfter(runs, i)
    {
      assert i < |closed| - 1 ==> CutAfter(closed, i);
    }
  }

  // ---------------------------------------------------------------- what it means

  function ItemsOf(entries: seq<Entry>): seq<Item> {
    if entries == [] then []
    else
      var most, last := entries[..|entries| - 1], entries[|entries| - 1];
      ItemsOf(most) + match last case Single(item) => [item] case Group(_, items) => items
  }

  lemma {:induction false} ItemsOfConcat(a: seq<Entry>, b: seq<Entry>)
    ensures ItemsOf(a + b) == ItemsOf(a) + ItemsOf(b)
    decreases |b|
  {
    if b == [] {
      assert a + b == a;
    } else {
      var most := b[..|b| - 1];
      assert (a + b)[..|a + b| - 1] == a + most;
      ItemsOfConcat(a, most);
    }
  }

  lemma {:induction false} ItemsOfSingles(run: seq<Item>)
    ensures ItemsOf(Singles(run)) == run
    decreases |run|
  {
    if run != [] {
      var most := run[..|run| - 1];
      assert Singles(run)[..|run| - 1] == Singles(most);
      ItemsOfSingles(most);
      assert run == most + [run[|run| - 1]];
    }
  }

  lemma {:induction false} FlushConserves(runs: seq<seq<Item>>)
    ensures ItemsOf(FlushAll(runs)) == Concat(runs)
    decreases |runs|
  {
    if runs != [] {
      var most, last := runs[..|runs| - 1], runs[|runs| - 1];
      FlushConserves(most);
      ItemsOfConcat(FlushAll(most), Flush(last));
      if |last| >= MIN_BURST {
        var g := Group("group:" + last[0].id, last);
        assert [g][..0] == [];
        assert ItemsOf([g]) == [] + last;
      } else {
        ItemsOfSingles(last);
      }
    }
  }

  ghost predicate SameKey(items: seq<Item>) {
    forall i :: 0 <= i < |items| ==> items[i].kind == items[0].kind && TitleStem(items[i].title) == TitleStem(items[0].title)
  }

  lemma {:induction false} FlushedGroups(runs: seq<seq<Item>>, entry: Entry)
    requires forall i :: 0 <= i < |runs| ==> Chain(runs[i])
    requires entry in FlushAll(runs) && entry.Group?
    ensures |entry.items| >= 3 && entry.items in runs && SameKey(entry.items)
    decreases |runs|
  {
    var most, last := runs[..|runs| - 1], runs[|runs| - 1];
    assert runs == most + [last];
    if entry in FlushAll(most) {
      FlushedGroups(most, entry);
    } else {
      assert entry in Flush(last);
      forall i | 0 <= i < |last|
        ensures last[i].kind == last[0].kind && TitleStem(last[i].title) == TitleStem(last[0].title)
      {
        ChainHasOneKey(last, i);
      }
    }
  }

  // ------------------------------------------------------------------- uniqueness

  lemma ConcatEmpty(runs: seq<seq<Item>>)
    requires forall i :: 0 <= i < |runs| ==> runs[i] != []
    ensures Concat(runs) == [] <==> runs == []
  {
  }

  /** Where the last run starts is forced: inside a chain neighbours are linked, at a cut they are not. */
  lemma LastRunIsForced(a: seq<seq<Item>>, b: seq<seq<Item>>)
    requires a != [] && b != [] && Decomposes(a, Concat(a)) && Decomposes(b, Concat(b)) && Concat(a) == Concat(b)
    ensures |Last(a)| == |Last(b)|
  {
    LongerLastRun(a, b);
    LongerLastRun(b, a);
  }

  lemma LongerLastRun(a: seq<seq<Item>>, b: seq<seq<Item>>)
    requires a != [] && b != [] && Decomposes(a, Concat(a)) && Decomposes(b, Concat(b)) && Concat(a) == Concat(b)
    ensures |Last(a)| <= |Last(b)|
  {
    if |Last(a)| > |Last(b)| {
      LinkedInLast(a, |Last(a)| - |Last(b)| - 1);
      CutBeforeLast(b);
    }
  }

  lemma CutBeforeLast(runs: seq<seq<Item>>)
    requires runs != [] && Decomposes(runs, Concat(runs))
    requires |Last(runs)| < |Concat(runs)|
    ensures var k := |Concat(runs)| - |Last(runs)|;
            !Linked(Concat(runs)[k - 1], Concat(runs)[k])
  {
    var most := runs[..|runs| - 1];
    var k := |Concat(most)|;
    assert most != [];
    assert Concat(runs)[k - 1] == Concat(most)[k - 1] == Last(Last(most));
    assert CutAfter(runs, |runs| - 2);
  }

  lemma LinkedInLast(runs: seq<seq<Item>>, i: nat)
    requires runs != [] && Decomposes(runs, Concat(runs)) && i < |Last(runs)| - 1
    ensures var k := |Concat(runs)| - |Last(runs)| + i;
            Linked(Concat(runs)[k], Concat(runs)[k + 1])
  {
    var last := Last(runs);
    assert LinkedAt(last, i);
  }

  lemma DropLastRun(runs: seq<seq<Item>>)
    requires runs != [] && Decomposes(runs, Concat(runs))
    ensures Decomposes(runs[..|runs| - 1], Concat(runs[..|runs| - 1]))
    ensures Concat(runs)[..|Concat(runs)| - |Last(runs)|] == Concat(runs[..|runs| - 1])
    ensures Concat(runs)[|Concat(runs)| - |Last(runs)|..] == Last(runs)
  {
    var most := runs[..|runs| - 1];
    forall i | 0 <= i < |most| - 1
      ensures CutAfter(most, i)
    {
      assert CutAfter(runs, i);
    }
  }

  /** The decomposition is unique: any two cuts of one feed into maximal linked chains are the same. */
  lemma {:induction false} DecompositionIsUnique(a: seq<seq<Item>>, b: seq<seq<Item>>, items: seq<Item>)
    requires Decomposes(a, items) && Decomposes(b, items)
    ensures a == b
    decreases |a|
  {
    ConcatEmpty(a);
    ConcatEmpty(b);
    if a != [] {
      LastRunIsForced(a, b);
      DropLastRun(a);
      DropLastRun(b);
      DecompositionIsUnique(a[..|a| - 1], b[..|b| - 1], Concat(a[..|a| - 1]));
      assert a == a[..|a| - 1] + [Last(a)] && b == b[..|b| - 1] + [Last(b)];
    }
  }

  // ------------------------------------------------------------------ main results

  /** Conservation: opening every group gives the feed back, in order, nothing lost or doubled. */
  lemma FeedConserves(entries: seq<Entry>, items: seq<Item>)
    requires IsFeed(entries, items)
    ensures ItemsOf(entries) == items
  {
    var runs :| Decomposes(runs, items) && entries == FlushAll(runs);
    FlushConserves(runs);
  }

  /** A group holds at least three items of one key, each within the window of the one before it. */
  lemma GroupsAreBursts(entries: seq<Entry>, items: seq<Item>, entry: Entry)
    requires IsFeed(entries, items) && entry in entries && entry.Group?
    ensures |entry.items| >= 3 && SameKey(entry.items) && Chain(entry.items)
  {
    var runs :| Decomposes(runs, items) && entries == FlushAll(runs);
    FlushedGroups(runs, entry);
  }

  lemma FlushExactly(run: seq<Item>, entry: Entry)
    ensures entry in Flush(run) <==> FlushedFrom(run, entry)
  {
    if entry.Single? && |run| < 3 && entry.item in run {
      var i :| 0 <= i < |run| && run[i] == entry.item;
      assert Singles(run)[i] == entry;
    }
  }

  lemma {:induction false} FlushedExactly(runs: seq<seq<Item>>, entry: Entry)
    ensures entry in FlushAll(runs) <==> exists k :: 0 <= k < |runs| && FlushedFrom(runs[k], entry)
    decreases |runs|
  {
    if runs != [] {
      var most, last := runs[..|runs| - 1], runs[|runs| - 1];
      FlushedExactly(most, entry);
      FlushExactly(last, entry);
      assert runs == most + [last];
    }
  }

  /** The entry shows the run, or one item of a run too short to collapse. */
  predicate FlushedFrom(run: seq<Item>, entry: Entry) {
    match entry
    case Group(id, items) => |run| >= 3 && items == run && id == "group:" + run[0].id
    case Single(item) => |run| < 3 && item in run
  }

  /** What the feed shows: every maximal run of three or more as one group, every other item by itself. */
  lemma EntriesExactly(entries: seq<Entry>, items: seq<Item>, runs: seq<seq<Item>>, entry: Entry)
    requires IsFeed(entries, items) && Decomposes(runs, items)
    ensures entry in entries <==> exists k :: 0 <= k < |runs| && FlushedFrom(runs[k], entry)
  {
    var own :| Decomposes(own, items) && entries == FlushAll(own);
    DecompositionIsUnique(own, runs, items);
    FlushedExactly(runs, entry);
  }

  /** The stem ends at the first colon and space, or is the whole title. */
  lemma {:induction false} StemExactly(title: string)
    ensures TitleStem(title) <= title
    ensures TitleStem(title) != title ==> ": " <= title[|TitleStem(title)|..]
    ensures forall i :: 0 <= i < |TitleStem(title)| ==> !(": " <= title[i..])
    decreases |title|
  {
    assert title[0..] == title;
    if title != "" && !(": " <= title) {
      var rest := title[1..];
      StemExactly(rest);
      assert title == [title[0]] + rest;
      assert forall i :: 1 <= i < |TitleStem(title)| ==> title[i..] == rest[i - 1..];
      assert title[|TitleStem(title)|..] == rest[|TitleStem(rest)|..];
    }
  }

  /** The feed has one grouping. */
  lemma FeedIsDetermined(a: seq<Entry>, b: seq<Entry>, items: seq<Item>)
    requires IsFeed(a, items) && IsFeed(b, items)
    ensures a == b
  {
    var runsA :| Decomposes(runsA, items) && a == FlushAll(runsA);
    var runsB :| Decomposes(runsB, items) && b == FlushAll(runsB);
    DecompositionIsUnique(runsA, runsB, items);
  }

  /** The key tells the types apart: equal keys are equal types and equal stems. */
  lemma KeyIsTypeAndStem(a: Item, b: Item)
    ensures BurstKey(a) == BurstKey(b) <==> a.kind == b.kind && TitleStem(a.title) == TitleStem(b.title)
  {
    var ta, tb := TypeName(a.kind), TypeName(b.kind);
    var sa, sb := TitleStem(a.title), TitleStem(b.title);
    assert ta + "::" + sa == ta + [':'] + (":" + sa) && tb + "::" + sb == tb + [':'] + (":" + sb);
    NoColon(a.kind);
    NoColon(b.kind);
    IndexOfFirst(ta, ':', ":" + sa);
    IndexOfFirst(tb, ':', ":" + sb);
    if BurstKey(a) == BurstKey(b) {
      assert BurstKey(a)[..|ta|] == ta && BurstKey(b)[..|tb|] == tb;
      assert BurstKey(a)[|ta| + 2..] == sa && BurstKey(b)[|tb| + 2..] == sb;
      NamesDiffer(a.kind, b.kind);
    }
  }

  lemma NoColon(kind: ItemType)
    ensures ':' !in TypeName(kind)
  {
  }

  lemma NamesDiffer(a: ItemType, b: ItemType)
    requires TypeName(a) == TypeName(b)
    ensures a == b
  {
    assert "anomaly"[1] == 'n' && "scan"[1] == 'c' && "alert"[1] == 'l' && "event"[1] == 'v';
  }
}
