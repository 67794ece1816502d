/**
 Picking the latest and the previous version out of a list of raw strings.
 */
module SemverLatest {
  import opened Text
  import opened Wrappers
  import opened Semver

  // ------------------------------------------------------------ distinct versions

  /** The first raw string of every stripped value, in input order. */
  function Distinct(versions: seq<string>): seq<string> {
    if versions == [] then []
    else
      var most, last := versions[..|versions| - 1], versions[|versions| - 1];
      if Strip(last) in Keys(most) then Distinct(most) else Distinct(most) + [last]
  }

  function Keys(versions: seq<string>): set<string> {
    set v | v in versions :: Strip(v)
  }

  /** The loop over `seen`. */
  method DistinctVersions(versions: seq<string>) returns (distinct: seq<string>)
    ensures distinct == Distinct(versions)
  {
    distinct := [];
    var seen: set<string> := {};
    for i := 0 to |versions|
      invariant seen == Keys(versions[..i])
      invariant distinct == Distinct(versions[..i])
    {
      var key := Strip(versions[i]);
      assert versions[..i + 1] == versions[..i] + [versions[i]];
      KeysSnoc(versions[..i], versions[i]);
      if key !in seen {
        seen := seen + {key};
        distinct := distinct + [versions[i]];
      }
    }
    assert versions[..|versions|] == versions;
  }

  lemma KeysSnoc(versions: seq<string>, v: string)
    ensures Keys(versions + [v]) == Keys(versions) + {Strip(v)}
  {
  }

  /** Only input strings are kept, and each input has a kept one with the same stripped text. */
  lemma {:induction false} DistinctRepresents(versions: seq<string>, v: string)
    ensures v in Distinct(versions) ==> v in versions
    ensures v in versions ==> exists d :: d in Distinct(versions) && Strip(d) == Strip(v)
    decreases |versions|
  {
    if versions != [] {
      var most, last := versions[..|versions| - 1], versions[|versions| - 1];
      assert versions == most + [last];
      DistinctRepresents(most, v);
      if v == last && Strip(last) in Keys(most) {
        var u :| u in most && Strip(u) == Strip(last);
        DistinctRepresents(most, u);
      } else if v == last {
        assert last in Distinct(versions);
      } else if v in versions {
        var d :| d in Distinct(most) && Strip(d) == Strip(v);
        assert d in Distinct(versions);
      }
    }
  }

  // ----------------------------------------------------------------------- sorting

  /** `v` stands at `i`, and nothing before it strips alike. */
  predicate FirstOfItsText(versions: seq<string>, i: int, v: string) {
    0 <= i < |versions| && versions[i] == v && forall j :: 0 <= j < i ==> Strip(versions[j]) != Strip(v)
  }

  /** Kept are exactly the first strings of their stripped texts, each text once. */
  lemma {:induction false} DistinctExactly(versions: seq<string>, v: string)
    ensures v in Distinct(versions) <==> exists i :: FirstOfItsText(versions, i, v)
    ensures forall i, j :: 0 <= i < j < |Distinct(versions)| ==> Strip(Distinct(versions)[i]) != Strip(Distinct(versions)[j])
    decreases |versions|
  {
    if versions != [] {
      var most, last := versions[..|versions| - 1], versions[|versions| - 1];
      assert versions == most + [last];
      DistinctExactly(most, v);
      FirstSnoc(most, last, v);
      forall d | d in Distinct(most)
        ensures Strip(d) in Keys(most)
      {
        DistinctRepresents(most, d);
      }
    }
  }

  /** They come in the order of the input. */
  lemma {:induction false} DistinctInOrder(versions: seq<string>, i: nat, j: nat, p: int, q: int)
    requires i < j < |Distinct(versions)|
    requires FirstOfItsText(versions, p, Distinct(versions)[i]) && FirstOfItsText(versions, q, Distinct(versions)[j])
    ensures p < q
    decreases |versions|
  {
    var most, last := versions[..|versions| - 1], versions[|versions| - 1];
    var kept, u, v := Distinct(most), Distinct(versions)[i], Distinct(versions)[j];
    assert versions == most + [last];
    DistinctExactly(most, u);
    assert u == kept[i];
    var m :| FirstOfItsText(most, m, u);
    assert versions[m] == u;
    if j < |kept| {
      DistinctExactly(most, v);
      var n :| FirstOfItsText(most, n, v);
      assert versions[n] == v;
      SameFirst(versions, p, m, u);
      SameFirst(versions, q, n, v);
      DistinctInOrder(most, i, j, m, n);
    } else {
      SameFirst(versions, p, m, u);
      forall k | 0 <= k < |most|
        ensures versions[k] != v
      {
        assert most[k] in most;
      }
    }
  }

  lemma SameFirst(versions: seq<string>, p: int, m: int, u: string)
    requires FirstOfItsText(versions, p, u) && 0 <= m < |versions| && versions[m] == u
    requires forall j :: 0 <= j < m ==> Strip(versions[j]) != Strip(u)
    ensures p == m
  {
  }

  lemma FirstSnoc(most: seq<string>, last: string, v: string)
    ensures (exists i :: FirstOfItsText(most + [last], i, v)) <==>
              (exists i :: FirstOfItsText(most, i, v)) || (v == last && Strip(last) !in Keys(most))
  {
    var all := most + [last];
    if i :| FirstOfItsText(all, i, v) {
      if i < |most| {
        assert forall j :: 0 <= j < i ==> all[j] == most[j];
        assert FirstOfItsText(most, i, v);
      } else {
        assert forall j :: 0 <= j < |most| ==> all[j] == most[j];
      }
    }
    if i :| FirstOfItsText(most, i, v) {
      assert FirstOfItsText(all, i, v);
    }
    if v == last && Strip(last) !in Keys(most) {
      forall j | 0 <= j < |most|
        ensures Strip(most[j]) != Strip(v)
      {
        assert most[j] in most;
      }
      assert FirstOfItsText(all, |most|, v);
    }
  }

  type Comparator = (string, string) -> int

  function InsertBy(cmp: Comparator, v: string, ordered: seq<string>): seq<string> {
    if ordered == [] || cmp(v, ordered[0]) <= 0 then [v] + ordered
    else [ordered[0]] + InsertBy(cmp, v, ordered[1..])
  }

  /** `sorted(versions, key=cmp_to_key(cmp))`. */
  function SortBy(cmp: Comparator, versions: seq<string>): seq<string> {
    if versions == [] then [] else InsertBy(cmp, versions[0], SortBy(cmp, versions[1..]))
  }

  function OrderVersions(versions: seq<string>): seq<string> {
    SortBy(CompareTotal, versions)
  }

  ghost predicate Ordered(cmp: Comparator, vs: seq<string>) {
    forall i, j :: 0 <= i < j < |vs| ==> cmp(vs[i], vs[j]) <= 0
  }

  ghost predicate TotalOrder(total: Comparator) {
    forall a, b, c :: OrderLaws(total, a, b, c)
  }

  ghost predicate OrderLaws(total: Comparator, a: string, b: string, c: string) {
    && (total(a, b) > 0 ==> total(b, a) <= 0)
    && (total(a, b) <= 0 && total(b, c) <= 0 ==> total(a, c) <= 0)
  }

  /** `total` only breaks ties of the precedence `prec`. */
  ghost predicate Refines(total: Comparator, prec: Comparator) {
    && (forall a :: prec(a, a) == 0)
    && (forall a, b :: total(a, b) <= 0 ==> prec(a, b) <= 0)
  }

  /** Nothing for no versions, else a latest and its previous. */
  ghost predicate Selected(prec: Comparator, versions: seq<string>, latest: Option<string>, previous: Option<string>) {
    if versions == [] then latest.None? && previous.None?
    else latest.Some? && IsLatest(prec, versions, latest.value) && IsPrevious(prec, versions, latest.value, previous)
  }

  /** Within one precedence the tie-break decides: both are the greatest of their kind in the sort order. */
  ghost predicate TieBroken(total: Comparator, prec: Comparator, distinct: seq<string>,
                            latest: Option<string>, previous: Option<string>)
  {
    && (latest.Some? ==> latest.value in distinct && forall v :: v in distinct ==> total(v, latest.value) <= 0)
    && (latest.Some? && previous.Some? ==>
          && previous.value in distinct
          && forall v :: v in distinct && prec(v, latest.value) < 0 ==> total(v, previous.value) <= 0)
  }

  lemma SortComparatorIsTotal()
    ensures TotalOrder(CompareTotal)
  {
    forall a, b, c
      ensures OrderLaws(CompareTotal, a, b, c)
    {
      SortOrderIsStrict(a, b, c);
    }
  }

  lemma SortComparatorRefines()
    ensures Refines(CompareTotal, CompareVersions)
  {
    forall a
      ensures CompareVersions(a, a) == 0
    {
      VersionsArePreordered(a, a, a);
    }
    forall a, b
      ensures CompareTotal(a, b) <= 0 ==> CompareVersions(a, b) <= 0
    {
      SortOrderIsStrict(a, b, a);
    }
  }

  lemma {:induction false} InsertByMembers(cmp: Comparator, v: string, ordered: seq<string>, u: string)
    ensures u in InsertBy(cmp, v, ordered) <==> u == v || u in ordered
    decreases |ordered|
  {
    if ordered != [] && cmp(v, ordered[0]) > 0 {
      InsertByMembers(cmp, v, ordered[1..], u);
      assert ordered == [ordered[0]] + ordered[1..];
    }
  }

  lemma {:induction false} InsertByOrders(total: Comparator, v: string, ordered: seq<string>)
    requires TotalOrder(total) && Ordered(total, ordered)
    ensures Ordered(total, InsertBy(total, v, ordered))
    decreases |ordered|
  {
    if ordered != [] {
      assert OrderLaws(total, v, ordered[0], v);
      if total(v, ordered[0]) <= 0 {
        forall i | 0 < i < |ordered|
          ensures total(v, ordered[i]) <= 0
        {
          assert OrderLaws(total, v, ordered[0], ordered[i]);
        }
      } else {
        var rest := InsertBy(total, v, ordered[1..]);
        InsertByOrders(total, v, ordered[1..]);
        forall i | 0 <= i < |rest|
          ensures total(ordered[0], rest[i]) <= 0
        {
          InsertByMembers(total, v, ordered[1..], rest[i]);
        }
      }
    }
  }

  lemma {:induction false} SortByOrders(total: Comparator, versions: seq<string>)
    requires TotalOrder(total)
    ensures Ordered(total, SortBy(total, versions))
    ensures forall u :: u in SortBy(total, versions) <==> u in versions
    decreases |versions|
  {
    if versions != [] {
      var rest := SortBy(total, versions[1..]);
      SortByOrders(total, versions[1..]);
      InsertByOrders(total, versions[0], rest);
      assert versions == [versions[0]] + versions[1..];
      forall u
        ensures u in SortBy(total, versions) <==> u in versions
      {
        InsertByMembers(total, versions[0], rest, u);
      }
    }
  }

  /** Sorting loses and doubles nothing. */
  lemma {:induction false} SortByPermutes(cmp: Comparator, versions: seq<string>)
    ensures multiset(SortBy(cmp, versions)) == multiset(versions)
    decreases |versions|
  {
    if versions != [] {
      SortByPermutes(cmp, versions[1..]);
      InsertByPermutes(cmp, versions[0], SortBy(cmp, versions[1..]));
      assert versions == [versions[0]] + versions[1..];
    }
  }

  lemma {:induction false} InsertByPermutes(cmp: Comparator, v: string, ordered: seq<string>)
    ensures multiset(InsertBy(cmp, v, ordered)) == multiset{v} + multiset(ordered)
    decreases |ordered|
  {
    if ordered != [] && cmp(v, ordered[0]) > 0 {
      InsertByPermutes(cmp, v, ordered[1..]);
      assert ordered == [ordered[0]] + ordered[1..];
    }
  }

  // ----------------------------------------------------------- latest and previous

  /** The last of `ordered` that does not share the precedence of `latest`. */
  function LastOther(prec: Comparator, ordered: seq<string>, latest: string): Option<string> {
    if ordered == [] then None
    else
      var most, last := ordered[..|ordered| - 1], ordered[|ordered| - 1];
      if prec(last, latest) != 0 then Some(last) else LastOther(prec, most, latest)
  }

  function PickFrom(prec: Comparator, ordered: seq<string>): (Option<string>, Option<string>) {
    if ordered == [] then (None, None)
    else
      var most, latest := ordered[..|ordered| - 1], ordered[|ordered| - 1];
      (Some(latest), LastOther(prec, most, latest))
  }

  function LatestPrevious(versions: seq<string>): (Option<string>, Option<string>) {
    PickFrom(CompareVersions, OrderVersions(Distinct(versions)))
  }

  /** The backward scan for the previous version. */
  method ScanBack(prec: Comparator, ordered: seq<string>) returns (latest: Option<string>, previous: Option<string>)
    ensures (latest, previous) == PickFrom(prec, ordered)
  {
    if ordered == [] {
      return None, None;
    }
    ghost var most := ordered[..|ordered| - 1];
    var top := ordered[|ordered| - 1];
    latest, previous := Some(top), None;
    var i := |ordered| - 1;
    assert most[..i] == most;
    while i > 0
      invariant 0 <= i <= |most| && LastOther(prec, most, top) == LastOther(prec, most[..i], top)
    {
      i := i - 1;
      assert most[..i + 1][..i] == most[..i] && most[..i + 1][i] == ordered[i];
      if prec(ordered[i], top) != 0 {
        previous := Some(ordered[i]);
        return;
      }
    }
  }

  /** The selection: deduplicate, order, scan back. `SelectsLatestAndPrevious` says why it is right. */
  method LatestPreviousVersions(versions: seq<string>) returns (latest: Option<string>, previous: Option<string>)
    ensures Selected(CompareVersions, versions, latest, previous)
    ensures TieBroken(CompareTotal, CompareVersions, Distinct(versions), latest, previous)
  {
    var distinct := DistinctVersions(versions);
    latest, previous := ScanBack(CompareVersions, OrderVersions(distinct));
    SelectsLatestAndPrevious(versions);
  }

  lemma {:induction false} LastOtherFound(prec: Comparator, ordered: seq<string>, latest: string)
    ensures var p := LastOther(prec, ordered, latest);
            && (p.Some? ==> p.value in ordered && prec(p.value, latest) != 0)
            && (p.None? ==> forall u :: u in ordered ==> prec(u, latest) == 0)
    decreases |ordered|
  {
    if ordered != [] {
      var most, last := ordered[..|ordered| - 1], ordered[|ordered| - 1];
      assert ordered == most + [last];
      LastOtherFound(prec, most, latest);
    }
  }

  lemma {:induction false} LastOtherIsHighest(total: Comparator, prec: Comparator, ordered: seq<string>, latest: string, u: string)
    requires TotalOrder(total) && Ordered(total, ordered)
    requires u in ordered && prec(u, latest) != 0
    ensures LastOther(prec, ordered, latest).Some?
    ensures total(u, LastOther(prec, ordered, latest).value) <= 0
    decreases |ordered|
  {
    var most, last := ordered[..|ordered| - 1], ordered[|ordered| - 1];
    assert ordered == most + [last];
    if prec(last, latest) != 0 {
      NotAboveLast(total, ordered, u);
    } else {
      LastOtherIsHighest(total, prec, most, latest, u);
    }
  }

  lemma NotAboveLast(total: Comparator, ordered: seq<string>, u: string)
    requires TotalOrder(total) && Ordered(total, ordered) && u in ordered
    ensures total(u, ordered[|ordered| - 1]) <= 0
  {
    assert OrderLaws(total, u, u, u);
  }

  /** No input is above `latest`. */
  ghost predicate IsLatest(prec: Comparator, versions: seq<string>, latest: string) {
    latest in versions && forall v :: v in versions ==> prec(v, latest) <= 0
  }

  /** `previous` is highest among the inputs strictly below `latest`; none only when there are none. */
  ghost predicate IsPrevious(prec: Comparator, versions: seq<string>, latest: string, previous: Option<string>) {
    if previous.None? then forall v :: v in versions ==> prec(v, latest) == 0
    else
      && previous.value in versions && prec(previous.value, latest) < 0
      && forall v :: v in versions && prec(v, latest) < 0 ==> prec(v, previous.value) <= 0
  }

  lemma LatestOfOrdered(total: Comparator, prec: Comparator, ordered: seq<string>)
    requires TotalOrder(total) && Refines(total, prec) && ordered != [] && Ordered(total, ordered)
    ensures IsLatest(prec, ordered, PickFrom(prec, ordered).0.value)
  {
    forall u | u in ordered
      ensures prec(u, ordered[|ordered| - 1]) <= 0
    {
      NotAboveLast(total, ordered, u);
    }
  }

  lemma PreviousOfOrdered(total: Comparator, prec: Comparator, ordered: seq<string>)
    requires TotalOrder(total) && Refines(total, prec) && ordered != [] && Ordered(total, ordered)
    ensures IsPrevious(prec, ordered, PickFrom(prec, ordered).0.value, PickFrom(prec, ordered).1)
    ensures TieBroken(total, prec, ordered, PickFrom(prec, ordered).0, PickFrom(prec, ordered).1)
  {
    var most, latest := ordered[..|ordered| - 1], ordered[|ordered| - 1];
    var previous := LastOther(prec, most, latest);
    assert ordered == most + [latest];
    LastOtherFound(prec, most, latest);
    forall u | u in ordered
      ensures total(u, latest) <= 0
    {
      NotAboveLast(total, ordered, u);
    }
    if previous.Some? {
      forall v | v in ordered && prec(v, latest) < 0
        ensures total(v, previous.value) <= 0
      {
        LastOtherIsHighest(total, prec, most, latest, v);
      }
    }
  }

  /** `b` stands for every version of `a`: one of the same precedence against anything. */
  ghost predicate Represents(prec: Comparator, b: seq<string>, a: seq<string>) {
    && (forall d :: d in b ==> d in a)
    && (forall v {:trigger HasTwin(prec, b, v)} :: v in a ==> HasTwin(prec, b, v))
  }

  ghost predicate HasTwin(prec: Comparator, b: seq<string>, v: string) {
    exists d :: d in b && Equivalent(prec, v, d)
  }

  ghost predicate Equivalent(prec: Comparator, v: string, d: string) {
    forall w :: prec(v, w) == prec(d, w)
  }

  lemma SelectionOfRepresentatives(prec: Comparator, a: seq<string>, b: seq<string>,
                                   latest: string, previous: Option<string>)
    requires Represents(prec, b, a) && IsLatest(prec, b, latest) && IsPrevious(prec, b, latest, previous)
    ensures IsLatest(prec, a, latest) && IsPrevious(prec, a, latest, previous)
  {
    forall v | v in a
      ensures prec(v, latest) <= 0
      ensures previous.None? ==> prec(v, latest) == 0
      ensures previous.Some? && prec(v, latest) < 0 ==> prec(v, previous.value) <= 0
    {
      assert HasTwin(prec, b, v);
      var d :| d in b && Equivalent(prec, v, d);
      assert prec(v, latest) == prec(d, latest);
      if previous.Some? {
        assert prec(v, previous.value) == prec(d, previous.value);
      }
    }
  }

  lemma SameStrippedIsEquivalent(u: string, v: string)
    requires Strip(u) == Strip(v)
    ensures Equivalent(CompareVersions, u, v)
  {
    forall w
      ensures CompareVersions(u, w) == CompareVersions(v, w)
    {
      RawIsOnlyATie(Parse(u), Parse(v), Parse(w));
    }
  }

  /** Precedence does not look at the unstripped text. */
  lemma RawIsOnlyATie(a: Version, b: Version, c: Version)
    requires a.normalized == b.normalized && a.kind == b.kind
    ensures CompareParsed(a, c, false) == CompareParsed(b, c, false)
  {
  }

  lemma DistinctIsRepresentative(versions: seq<string>)
    ensures Represents(CompareVersions, OrderVersions(Distinct(versions)), versions)
  {
    var distinct, ordered := Distinct(versions), OrderVersions(Distinct(versions));
    SortComparatorIsTotal();
    SortByOrders(CompareTotal, distinct);
    forall v
      ensures v in ordered ==> v in versions
      ensures v in versions ==> HasTwin(CompareVersions, ordered, v)
    {
      DistinctRepresents(versions, v);
      if v in versions {
        var d :| d in distinct && Strip(d) == Strip(v);
        SameStrippedIsEquivalent(v, d);
        assert d in ordered;
      }
    }
  }

  lemma SelectsFrom(total: Comparator, prec: Comparator, versions: seq<string>, ordered: seq<string>)
    requires TotalOrder(total) && Refines(total, prec) && Ordered(total, ordered) && Represents(prec, ordered, versions)
    ensures ordered == [] <==> versions == []
    ensures TieBroken(total, prec, ordered, PickFrom(prec, ordered).0, PickFrom(prec, ordered).1)
    ensures versions != [] ==>
      && IsLatest(prec, versions, PickFrom(prec, ordered).0.value)
      && IsPrevious(prec, versions, PickFrom(prec, ordered).0.value, PickFrom(prec, ordered).1)
  {
    assert ordered != [] ==> ordered[0] in versions;
    if versions != [] {
      assert HasTwin(prec, ordered, versions[0]);
      LatestOfOrdered(total, prec, ordered);
      PreviousOfOrdered(total, prec, ordered);
      SelectionOfRepresentatives(prec, versions, ordered, PickFrom(prec, ordered).0.value, PickFrom(prec, ordered).1);
    }
  }

  /**
   `latest_previous_versions` on any input: nothing for an empty list; otherwise a latest that no
   input exceeds and a previous strictly below it that every other lower input does not exceed. There
   is no previous exactly when all inputs share one precedence. Inputs dropped as duplicates count too.
   Within one precedence the greatest text by the sort order is chosen.
   */
  lemma SelectsLatestAndPrevious(versions: seq<string>)
    ensures Selected(CompareVersions, versions, LatestPrevious(versions).0, LatestPrevious(versions).1)
    ensures TieBroken(CompareTotal, CompareVersions, Distinct(versions),
                      LatestPrevious(versions).0, LatestPrevious(versions).1)
  {
    DistinctIsRepresentative(versions);
    SortComparatorIsTotal();
    SortComparatorRefines();
    SortByOrders(CompareTotal, Distinct(versions));
    SelectsFrom(CompareTotal, CompareVersions, versions, OrderVersions(Distinct(versions)));
    SameElements(CompareTotal, CompareVersions, OrderVersions(Distinct(versions)), Distinct(versions),
                 LatestPrevious(versions).0, LatestPrevious(versions).1);
  }

  lemma SameElements(total: Comparator, prec: Comparator, a: seq<string>, b: seq<string>,
                     latest: Option<string>, previous: Option<string>)
    requires TieBroken(total, prec, a, latest, previous) && forall u :: u in a <==> u in b
    ensures TieBroken(total, prec, b, latest, previous)
  {
  }

  // ------------------------------------------------------------ the order of the input

  /** Between different stripped texts the sort order does not look at the unstripped ones. */
  lemma RawBreaksOnlyEqualTexts(a: Version, b: Version, c: Version)
    requires a.normalized == b.normalized && a.kind == b.kind && a.normalized != c.normalized
    ensures CompareParsed(a, c, true) == CompareParsed(b, c, true)
  {
  }

  /** Two versions, each not below a version that strips like the other, strip alike. */
  lemma StripAlike(u: string, v: string, d: string, e: string)
    requires Strip(d) == Strip(u) && Strip(e) == Strip(v)
    requires CompareTotal(d, v) <= 0 && CompareTotal(e, u) <= 0
    ensures Strip(u) == Strip(v)
  {
    if Strip(u) != Strip(v) {
      RawBreaksOnlyEqualTexts(Parse(d), Parse(u), Parse(v));
      RawBreaksOnlyEqualTexts(Parse(e), Parse(v), Parse(u));
      SortOrderIsStrict(u, v, u);
    }
  }

  function Stripped(v: Option<string>): Option<string> {
    if v.Some? then Some(Strip(v.value)) else None
  }

  /** A choice from `b` that strips like `v`. */
  lemma Representative(b: seq<string>, v: string) returns (d: string)
    requires v in b
    ensures d in Distinct(b) && Strip(d) == Strip(v)
  {
    DistinctRepresents(b, v);
    d :| d in Distinct(b) && Strip(d) == Strip(v);
  }

  lemma LatestStripsAlike(a: seq<string>, b: seq<string>, u: string, v: string)
    requires (forall w :: w in a <==> w in b) && u in Distinct(a) && v in Distinct(b)
    requires forall w :: w in Distinct(a) ==> CompareTotal(w, u) <= 0
    requires forall w :: w in Distinct(b) ==> CompareTotal(w, v) <= 0
    ensures Strip(u) == Strip(v)
  {
    DistinctRepresents(a, u);
    DistinctRepresents(b, v);
    var d := Representative(b, u);
    var e := Representative(a, v);
    StripAlike(u, v, d, e);
  }

  /** Precedence is between stripped texts. */
  lemma PrecedenceOfStripped(u: string, v: string, d: string, e: string)
    requires Strip(u) == Strip(d) && Strip(v) == Strip(e)
    ensures CompareVersions(u, v) == CompareVersions(d, e)
  {
    RawIsOnlyATie(Parse(u), Parse(d), Parse(v));
    ParsedArePreordered(Parse(d), Parse(v), Parse(v));
    ParsedArePreordered(Parse(d), Parse(e), Parse(e));
    RawIsOnlyATie(Parse(v), Parse(e), Parse(d));
  }

  /** `previous` is the greatest of the lower ones, seen from `latest`. */
  ghost predicate GreatestBelow(distinct: seq<string>, latest: string, previous: string) {
    && previous in distinct && CompareVersions(previous, latest) < 0
    && forall w :: w in distinct && CompareVersions(w, latest) < 0 ==> CompareTotal(w, previous) <= 0
  }

  lemma PreviousStripsAlike(a: seq<string>, b: seq<string>, la: string, lb: string, pa: string, pb: string)
    requires (forall w :: w in a <==> w in b) && Strip(la) == Strip(lb)
    requires GreatestBelow(Distinct(a), la, pa) && GreatestBelow(Distinct(b), lb, pb)
    ensures Strip(pa) == Strip(pb)
  {
    DistinctRepresents(a, pa);
    DistinctRepresents(b, pb);
    var d := Representative(b, pa);
    var e := Representative(a, pb);
    PrecedenceOfStripped(d, lb, pa, la);
    PrecedenceOfStripped(e, la, pb, lb);
    StripAlike(pa, pb, d, e);
  }

  /** Up to surrounding space, the selection is the same for every order of the input. */
  lemma OrderOfInputDoesNotMatter(a: seq<string>, b: seq<string>)
    requires multiset(a) == multiset(b)
    ensures Stripped(LatestPrevious(a).0) == Stripped(LatestPrevious(b).0)
    ensures Stripped(LatestPrevious(a).1) == Stripped(LatestPrevious(b).1)
  {
    forall w
      ensures w in a <==> w in b
    {
      assert w in a <==> w in multiset(a);
    }
    SelectsLatestAndPrevious(a);
    SelectsLatestAndPrevious(b);
    if a == [] {
      assert |multiset(b)| == 0;
    } else {
      assert a[0] in b;
      SameSelection(a, b, LatestPrevious(a).0.value, LatestPrevious(b).0.value, LatestPrevious(a).1, LatestPrevious(b).1);
    }
  }

  lemma SameSelection(a: seq<string>, b: seq<string>, la: string, lb: string, pa: Option<string>, pb: Option<string>)
    requires a != [] && b != [] && forall w :: w in a <==> w in b
    requires Selected(CompareVersions, a, Some(la), pa)
    requires TieBroken(CompareTotal, CompareVersions, Distinct(a), Some(la), pa)
    requires Selected(CompareVersions, b, Some(lb), pb)
    requires TieBroken(CompareTotal, CompareVersions, Distinct(b), Some(lb), pb)
    ensures Strip(la) == Strip(lb) && Stripped(pa) == Stripped(pb)
  {
    LatestStripsAlike(a, b, la, lb);
    if pa.Some? {
      PrecedenceOfStripped(pa.value, lb, pa.value, la);
    }
    if pb.Some? {
      PrecedenceOfStripped(pb.value, la, pb.value, lb);
    }
    if pa.Some? && pb.Some? {
      PreviousStripsAlike(a, b, la, lb, pa.value, pb.value);
    }
  }
}
