/**
 What an operator may conclude from a replay: stricter settings never fire more often, the order of
 the input does not matter, a firing implies the event is covered, and the percentage shown is the
 one the gate compared.
 */
module AlertWhatIf {
  import opened Wrappers
  import opened AlertMatching

  // ------------------------------------------------------------- stricter settings

  /** Every knob of `strict` is at least as tight as in `loose`, overrides resolved against the rule. */
  ghost predicate Stricter(rule: Rule, strict: WhatIf, loose: WhatIf) {
    && Cooldown(rule, strict) >= Cooldown(rule, loose)
    && strict.minPercentDelta.GetOr(rule.minPercentDelta) >= loose.minPercentDelta.GetOr(rule.minPercentDelta)
    && strict.minExpectedCount.GetOr(rule.minExpectedCount) >= loose.minExpectedCount.GetOr(rule.minExpectedCount)
  }

  /** Per clock: a tighter replay never has more firings, though it may pick other candidates. */
  lemma StricterFiresLessPerKey(rule: Rule, cs: seq<Candidate>, strict: WhatIf, loose: WhatIf,
                                types: map<Uuid, Uuid>, k: Key)
    requires Stricter(rule, strict, loose)
    ensures |OfKey(Firings(rule, cs, strict, types), k)| <= |OfKey(Firings(rule, cs, loose, types), k)|
  {
    var s := OfKey(Firings(rule, cs, strict, types), k);
    FiringsAreASchedule(rule, cs, strict, types, k);
    assert Schedule(rule, cs, loose, types, k, s);
    ReplayIsOptimal(rule, cs, loose, types, k, s);
  }

  function Without(cs: seq<Candidate>, k: Key): seq<Candidate> {
    if cs == [] then []
    else if KeyOf(cs[0]) == k then Without(cs[1..], k)
    else [cs[0]] + Without(cs[1..], k)
  }

  lemma {:induction false} SplitByKey(cs: seq<Candidate>, k: Key)
    ensures |cs| == |OfKey(cs, k)| + |Without(cs, k)|
    decreases |cs|
  {
    if cs != [] {
      SplitByKey(cs[1..], k);
    }
  }

  lemma {:induction false} OfKeyOfWithout(cs: seq<Candidate>, k: Key, j: Key)
    ensures OfKey(Without(cs, k), j) == if j == k then [] else OfKey(cs, j)
    decreases |cs|
  {
    if cs != [] {
      OfKeyOfWithout(cs[1..], k, j);
      var rest := Without(cs[1..], k);
      OfKeyCons(cs[0], rest, j);
    }
  }

  lemma {:induction false} CountByKeys(a: seq<Candidate>, b: seq<Candidate>)
    requires forall k :: |OfKey(a, k)| <= |OfKey(b, k)|
    ensures |a| <= |b|
    decreases |a|
  {
    if a != [] {
      var k := KeyOf(a[0]);
      SplitByKey(a, k);
      SplitByKey(b, k);
      assert |OfKey(a, k)| > 0;
      forall j
        ensures |OfKey(Without(a, k), j)| <= |OfKey(Without(b, k), j)|
      {
        OfKeyOfWithout(a, k, j);
        OfKeyOfWithout(b, k, j);
      }
      CountByKeys(Without(a, k), Without(b, k));
    }
  }

  /**
   Raising the cooldown, the percent threshold or the expected-count floor never increases the
   number of firings of the whole replay.
   */
  lemma StricterFiresLess(rule: Rule, cs: seq<Candidate>, strict: WhatIf, loose: WhatIf,
                          types: map<Uuid, Uuid>)
    requires Stricter(rule, strict, loose)
    ensures |Firings(rule, cs, strict, types)| <= |Firings(rule, cs, loose, types)|
  {
    forall k
      ensures |OfKey(Firings(rule, cs, strict, types), k)| <= |OfKey(Firings(rule, cs, loose, types), k)|
    {
      StricterFiresLessPerKey(rule, cs, strict, loose, types, k);
    }
    CountByKeys(Firings(rule, cs, strict, types), Firings(rule, cs, loose, types));
  }

  // ------------------------------------------------- the fired set is not monotone

  /** Both admit the same signals; only the cooldowns may differ. */
  predicate SameThresholds(rule: Rule, a: WhatIf, b: WhatIf) {
    && a.minPercentDelta.GetOr(rule.minPercentDelta) == b.minPercentDelta.GetOr(rule.minPercentDelta)
    && a.minExpectedCount.GetOr(rule.minExpectedCount) == b.minExpectedCount.GetOr(rule.minExpectedCount)
  }

  /** On every input, whatever fires under `a` fires under `b`. */
  ghost predicate FiresWithin(rule: Rule, a: WhatIf, b: WhatIf, types: map<Uuid, Uuid>) {
    forall cs :: FiringsWithin(rule, a, b, types, cs)
  }

  ghost predicate FiringsWithin(rule: Rule, a: WhatIf, b: WhatIf, types: map<Uuid, Uuid>, cs: seq<Candidate>) {
    multiset(Firings(rule, cs, a, types)) <= multiset(Firings(rule, cs, b, types))
  }

  lemma {:induction false} SameThresholdsMatch(rule: Rule, a: WhatIf, b: WhatIf, types: map<Uuid, Uuid>, cs: seq<Candidate>)
    requires SameThresholds(rule, a, b)
    ensures Matched(rule, cs, a, types) == Matched(rule, cs, b, types)
    decreases |cs|
  {
    if cs != [] {
      SameThresholdsMatch(rule, a, b, types, cs[1..]);
    }
  }

  function At(c: Candidate, t: int): Candidate {
    c.(bucket := t)
  }

  lemma {:induction false} AllMatched(rule: Rule, cs: seq<Candidate>, w: WhatIf, types: map<Uuid, Uuid>)
    requires forall i :: 0 <= i < |cs| ==> RuleMatches(rule, cs[i], w, types)
    ensures Matched(rule, cs, w, types) == cs
    decreases |cs|
  {
    if cs != [] {
      AllMatched(rule, cs[1..], w, types);
    }
  }

  lemma {:induction false} SortOfSorted(cs: seq<Candidate>)
    requires Sorted(cs)
    ensures SortByBucket(cs) == cs
    decreases |cs|
  {
    if cs != [] {
      SortOfSorted(cs[1..]);
    }
  }

  /** A matching signal at three ascending times: the replay is the greedy pass over them. */
  lemma ReplayOfThree(rule: Rule, c: Candidate, w: WhatIf, types: map<Uuid, Uuid>, t: int, u: int, v: int)
    requires RuleMatches(rule, c, w, types) && t <= u <= v
    ensures Firings(rule, [At(c, t), At(c, u), At(c, v)], w, types)
         == Greedy([At(c, t), At(c, u), At(c, v)], Cooldown(rule, w), map[])
  {
    var cs := [At(c, t), At(c, u), At(c, v)];
    SortOfSorted(cs);
    forall i | 0 <= i < |cs|
      ensures RuleMatches(rule, cs[i], w, types)
    {
      assert cs[i] == At(c, cs[i].bucket);
      BucketDoesNotMatter(rule, c, w, types, cs[i].bucket);
    }
    AllMatched(rule, cs, w, types);
  }

  lemma BucketDoesNotMatter(rule: Rule, c: Candidate, w: WhatIf, types: map<Uuid, Uuid>, t: int)
    ensures RuleMatches(rule, At(c, t), w, types) == RuleMatches(rule, c, w, types)
  {
    forall f: Filter
      ensures FilterMatches(f, At(c, t), types) == FilterMatches(f, c, types)
    {
    }
  }

  /** The greedy pass over three times, second by second and third. */
  lemma GreedyOfThree(c: Candidate, t: int, u: int, v: int, cooldown: nat)
    requires t <= u <= v
    ensures Greedy([At(c, t), At(c, u), At(c, v)], cooldown, map[])
         == [At(c, t)]
            + (if u - t < cooldown then [] else [At(c, u)])
            + (if v - (if u - t < cooldown then t else u) < cooldown then [] else [At(c, v)])
  {
    var k := KeyOf(c);
    var c2, c3 := [At(c, u), At(c, v)], [At(c, v)];
    assert [At(c, t), At(c, u), At(c, v)] == [At(c, t)] + c2 && c2 == [At(c, u)] + c3 && c3 == [At(c, v)] + [];
    GreedyCons(At(c, t), c2, cooldown, map[]);
    GreedyCons(At(c, u), c3, cooldown, map[k := t]);
    GreedyCons(At(c, v), [], cooldown, map[k := t]);
    GreedyCons(At(c, v), [], cooldown, map[k := t][k := u]);
  }

  /** Two cooldowns, the second not zero: three times of which the last fires under the first only. */
  lemma LastFiresUnderOne(c: Candidate, d: nat, e: nat) returns (u: int, v: int)
    requires e > 1 && d != e && d + 1 != e
    ensures 0 <= u <= v
    ensures At(c, v) in Greedy([At(c, 0), At(c, u), At(c, v)], d, map[])
    ensures At(c, v) !in Greedy([At(c, 0), At(c, u), At(c, v)], e, map[])
  {
    u, v := if d > e then d - 1 else d + 1, if d > e then d else d + 1;
    GreedyOfThree(c, 0, u, v, d);
    GreedyOfThree(c, 0, u, v, e);
  }

  lemma OneMore<T>(a: seq<T>, b: seq<T>, x: T)
    requires x in a && x !in b
    ensures !(multiset(a) <= multiset(b))
  {
    assert x in multiset(a) && x !in multiset(b);
  }

  lemma CooldownsDisagree(rule: Rule, c: Candidate, a: WhatIf, b: WhatIf, types: map<Uuid, Uuid>)
    requires RuleMatches(rule, c, a, types) && RuleMatches(rule, c, b, types)
    requires Cooldown(rule, b) > 1
    requires Cooldown(rule, a) != Cooldown(rule, b) && Cooldown(rule, a) + 1 != Cooldown(rule, b)
    ensures !FiresWithin(rule, a, b, types)
  {
    var u, v := LastFiresUnderOne(c, Cooldown(rule, a), Cooldown(rule, b));
    var cs := [At(c, 0), At(c, u), At(c, v)];
    ReplayOfThree(rule, c, a, types, 0, u, v);
    ReplayOfThree(rule, c, b, types, 0, u, v);
    OneMore(Firings(rule, cs, a, types), Firings(rule, cs, b, types), At(c, v));
    assert !FiringsWithin(rule, a, b, types, cs);
  }

  /** Cooldowns are whole minutes. */
  lemma CooldownIsMinutes(rule: Rule, w: WhatIf)
    ensures Cooldown(rule, w) % MINUTE == 0
  {
  }

  /**
   Exactly when a change of cooldown alone only removes firings, on every input: the other cooldown is
   zero, or the cooldowns are equal. In every other case a stricter replay also fires on signals the
   looser one does not.
   */
  lemma FiresWithinExactly(rule: Rule, a: WhatIf, b: WhatIf, types: map<Uuid, Uuid>, c: Candidate)
    requires SameThresholds(rule, a, b) && RuleMatches(rule, c, a, types)
    ensures FiresWithin(rule, a, b, types) <==> Cooldown(rule, b) == 0 || Cooldown(rule, a) == Cooldown(rule, b)
  {
    if Cooldown(rule, b) == 0 || Cooldown(rule, a) == Cooldown(rule, b) {
      forall cs
        ensures FiringsWithin(rule, a, b, types, cs)
      {
        EasyCooldowns(rule, a, b, types, cs);
      }
    } else {
      CooldownIsMinutes(rule, a);
      CooldownIsMinutes(rule, b);
      SameThresholdsMatch(rule, a, b, types, [c]);
      CooldownsDisagree(rule, c, a, b, types);
    }
  }

  lemma EasyCooldowns(rule: Rule, a: WhatIf, b: WhatIf, types: map<Uuid, Uuid>, cs: seq<Candidate>)
    requires SameThresholds(rule, a, b)
    requires Cooldown(rule, b) == 0 || Cooldown(rule, a) == Cooldown(rule, b)
    ensures FiringsWithin(rule, a, b, types, cs)
  {
    var ordered := SortByBucket(cs);
    SortSorts(cs);
    MatchedSorted(rule, ordered, a, types);
    SameThresholdsMatch(rule, a, b, types, ordered);
    if Cooldown(rule, b) == 0 {
      NoCooldownFiresAll(Matched(rule, ordered, b, types), map[]);
      GreedySelects(Matched(rule, ordered, a, types), Cooldown(rule, a), map[]);
    }
  }

  /** An enabled rule for event signals with no thresholds. */
  const AnyEvent: Rule :=
    Rule(true, None, Switches(false, false, true, false, false, false, false, false, false, false, false),
         true, true, 0.0, 0.0, 0.0, 0, [])

  /** The count of one event rises from 1 to 2. */
  const Rise: Candidate := Candidate("", None, EventScope, "", None, None, 0, Spike, 2.0, 1.0)

  function Minutes(n: int): WhatIf {
    WhatIf(Some(n), None, None)
  }

  /** At 0, just before and at two minutes: a cooldown of two minutes fires the last signal, one minute the second. */
  lemma StricterMayFireOthers()
    ensures var cs := [At(Rise, 0), At(Rise, 2 * MINUTE - 1), At(Rise, 2 * MINUTE)];
            && Stricter(AnyEvent, Minutes(2), Minutes(1))
            && Firings(AnyEvent, cs, Minutes(2), map[]) == [At(Rise, 0), At(Rise, 2 * MINUTE)]
            && Firings(AnyEvent, cs, Minutes(1), map[]) == [At(Rise, 0), At(Rise, 2 * MINUTE - 1)]
  {
    assert RuleMatches(AnyEvent, Rise, Minutes(2), map[]) && RuleMatches(AnyEvent, Rise, Minutes(1), map[]);
    ReplayOfThree(AnyEvent, Rise, Minutes(2), map[], 0, 2 * MINUTE - 1, 2 * MINUTE);
    ReplayOfThree(AnyEvent, Rise, Minutes(1), map[], 0, 2 * MINUTE - 1, 2 * MINUTE);
    GreedyOfThree(Rise, 0, 2 * MINUTE - 1, 2 * MINUTE, 2 * MINUTE);
    GreedyOfThree(Rise, 0, 2 * MINUTE - 1, 2 * MINUTE, MINUTE);
  }

  // ----------------------------------------------------------------- order of input

  function Times(cs: seq<Candidate>): seq<int> {
    seq(|cs|, i requires 0 <= i < |cs| => cs[i].bucket)
  }

  function GreedyTimes(ts: seq<int>, cooldown: int, last: Option<int>): seq<int> {
    if ts == [] then []
    else if last.Some? && ts[0] - last.value < cooldown then GreedyTimes(ts[1..], cooldown, last)
    else [ts[0]] + GreedyTimes(ts[1..], cooldown, Some(ts[0]))
  }

  lemma TimesCons(c: Candidate, cs: seq<Candidate>)
    ensures Times([c] + cs) == [c.bucket] + Times(cs)
  {
  }

  lemma TimesTail(cs: seq<Candidate>)
    requires cs != []
    ensures Times(cs)[1..] == Times(cs[1..]) && Times(cs)[0] == cs[0].bucket
  {
  }

  lemma {:induction false} GreedyDependsOnTimes(cs: seq<Candidate>, cooldown: int, last: map<Key, int>, k: Key)
    requires forall i :: 0 <= i < |cs| ==> KeyOf(cs[i]) == k
    ensures Times(Greedy(cs, cooldown, last))
         == GreedyTimes(Times(cs), cooldown, if k in last then Some(last[k]) else None)
    decreases |cs|
  {
    if cs != [] {
      var c, rest := cs[0], cs[1..];
      TimesTail(cs);
      if CoolingDown(c, cooldown, last) {
        GreedyDependsOnTimes(rest, cooldown, last, k);
      } else {
        GreedyDependsOnTimes(rest, cooldown, last[k := c.bucket], k);
        TimesCons(c, Greedy(rest, cooldown, last[k := c.bucket]));
      }
    }
  }

  ghost predicate Ascending(ts: seq<int>) {
    forall i, j :: 0 <= i < j < |ts| ==> ts[i] <= ts[j]
  }

  lemma HeadAndTail(ts: seq<int>)
    requires ts != []
    ensures ts == [ts[0]] + ts[1..]
    ensures multiset(ts[1..]) == multiset(ts) - multiset{ts[0]}
  {
    assert ts == [ts[0]] + ts[1..];
  }

  lemma SmallestFirst(a: seq<int>, b: seq<int>)
    requires Ascending(a) && Ascending(b) && multiset(a) == multiset(b) && a != []
    ensures b != [] && a[0] == b[0]
  {
    assert a[0] in multiset(b);
    assert b[0] in multiset(a);
    var i :| 0 <= i < |b| && b[i] == a[0];
    var j :| 0 <= j < |a| && a[j] == b[0];
  }

  lemma {:induction false} AscendingIsUnique(a: seq<int>, b: seq<int>)
    requires Ascending(a) && Ascending(b) && multiset(a) == multiset(b)
    ensures a == b
    decreases |a|
  {
    assert |a| == |multiset(a)| == |multiset(b)| == |b|;
    if a != [] {
      SmallestFirst(a, b);
      HeadAndTail(a);
      HeadAndTail(b);
      AscendingIsUnique(a[1..], b[1..]);
    }
  }

  /** A bijection between equal multisets carries over to the times. */
  lemma {:induction false} TimesOfPermutation(a: seq<Candidate>, b: seq<Candidate>)
    requires multiset(a) == multiset(b)
    ensures multiset(Times(a)) == multiset(Times(b))
    decreases |a|
  {
    assert |a| == |multiset(a)| == |multiset(b)| == |b|;
    if a == [] {
      assert Times(a) == [] && Times(b) == [];
    } else {
      var c, rest := a[0], a[1..];
      assert a == [c] + rest;
      assert c in multiset(b);
      var i :| 0 <= i < |b| && b[i] == c;
      var other := b[..i] + b[i + 1..];
      assert b == b[..i] + [c] + b[i + 1..];
      assert multiset(other) == multiset(b) - multiset{c};
      assert multiset(rest) == multiset(a) - multiset{c};
      TimesOfPermutation(rest, other);
      TimesCons(c, rest);
      TimesSplit(b, i);
    }
  }

  lemma TimesSplit(b: seq<Candidate>, i: nat)
    requires i < |b|
    ensures multiset(Times(b)) == multiset{b[i].bucket} + multiset(Times(b[..i] + b[i + 1..]))
  {
    var before, after := Times(b[..i]), Times(b[i + 1..]);
    assert Times(b) == before + [b[i].bucket] + after;
    assert Times(b[..i] + b[i + 1..]) == before + after;
  }

  lemma StreamOfPermutation(rule: Rule, a: seq<Candidate>, b: seq<Candidate>, w: WhatIf,
                            types: map<Uuid, Uuid>, k: Key)
    requires multiset(a) == multiset(b)
    ensures Times(Stream(rule, a, w, types, k)) == Times(Stream(rule, b, w, types, k))
  {
    var sa, sb := Stream(rule, a, w, types, k), Stream(rule, b, w, types, k);
    StreamFacts(rule, a, w, types, k);
    StreamFacts(rule, b, w, types, k);
    forall c
      ensures multiset(sa)[c] == multiset(sb)[c]
    {
      assert multiset(Stream(rule, a, w, types, k))[c] == multiset(Stream(rule, b, w, types, k))[c];
    }
    TimesOfPermutation(sa, sb);
    AscendingIsUnique(Times(sa), Times(sb));
  }

  /** The times at which one clock fires depend only on the multiset of the input. */
  lemma KeyTimesOfPermutation(rule: Rule, a: seq<Candidate>, b: seq<Candidate>, w: WhatIf,
                              types: map<Uuid, Uuid>, k: Key)
    requires multiset(a) == multiset(b)
    ensures Times(OfKey(Firings(rule, a, w, types), k)) == Times(OfKey(Firings(rule, b, w, types), k))
  {
    var sa, sb := Stream(rule, a, w, types, k), Stream(rule, b, w, types, k);
    StreamFacts(rule, a, w, types, k);
    StreamFacts(rule, b, w, types, k);
    StreamOfPermutation(rule, a, b, w, types, k);
    GreedyDependsOnTimes(sa, Cooldown(rule, w), map[], k);
    GreedyDependsOnTimes(sb, Cooldown(rule, w), map[], k);
    PartitionsAreIndependent(rule, a, w, types, k);
    PartitionsAreIndependent(rule, b, w, types, k);
  }

  function Marks(cs: seq<Candidate>): seq<(Key, int)> {
    if cs == [] then [] else [(KeyOf(cs[0]), cs[0].bucket)] + Marks(cs[1..])
  }

  lemma {:induction false} MarkCounts(cs: seq<Candidate>, k: Key, t: int)
    ensures multiset(Marks(cs))[(k, t)] == multiset(Times(OfKey(cs, k)))[t]
    decreases |cs|
  {
    if cs == [] {
      assert Times(OfKey(cs, k)) == [];
    } else {
      MarkCounts(cs[1..], k, t);
      if KeyOf(cs[0]) == k {
        TimesCons(cs[0], OfKey(cs[1..], k));
      }
    }
  }

  /** The (clock, bucket) pairs that fire, with multiplicity, are the same for every order of the input. */
  lemma OrderDoesNotMatter(rule: Rule, a: seq<Candidate>, b: seq<Candidate>, w: WhatIf,
                           types: map<Uuid, Uuid>)
    requires multiset(a) == multiset(b)
    ensures multiset(Marks(Firings(rule, a, w, types))) == multiset(Marks(Firings(rule, b, w, types)))
  {
    var fa, fb := Firings(rule, a, w, types), Firings(rule, b, w, types);
    forall mark: (Key, int)
      ensures multiset(Marks(fa))[mark] == multiset(Marks(fb))[mark]
    {
      KeyTimesOfPermutation(rule, a, b, w, types, mark.0);
      MarkCounts(fa, mark.0, mark.1);
      MarkCounts(fb, mark.0, mark.1);
    }
  }

  // ----------------------------------------------------------------------- coverage

  /** An event-scope signal an enabled rule admits is about an event the rule covers. */
  lemma MatchImpliesCoverage(rule: Rule, c: Candidate, w: WhatIf, types: map<Uuid, Uuid>)
    requires rule.enabled && RuleMatches(rule, c, w, types)
    requires c.scope.EventScope? && c.event.Some? && ResolvedType(c, types).Some?
    ensures RuleCoversEvent(rule, c.event.value, ResolvedType(c, types).value)
  {
  }

  /** No event outside the rule's coverage appears among the event-scope firings. */
  lemma FiringImpliesCoverage(rule: Rule, cs: seq<Candidate>, w: WhatIf, types: map<Uuid, Uuid>, c: Candidate)
    requires rule.enabled && c in Firings(rule, cs, w, types)
    requires c.scope.EventScope? && c.event.Some? && ResolvedType(c, types).Some?
    ensures RuleCoversEvent(rule, c.event.value, ResolvedType(c, types).value)
  {
    var k := KeyOf(c);
    OfKeyMembers(Firings(rule, cs, w, types), k, c);
    FiringsAreASchedule(rule, cs, w, types, k);
    MatchImpliesCoverage(rule, c, w, types);
  }

  /** A rule that admits everything except, by its one filter, the given event type. */
  function AllBut(eventType: Uuid): Rule {
    Rule(true, None, Switches(true, true, true, true, true, true, true, true, true, true, true),
         true, true, 0.0, 0.0, 0.0, 0, [Filter(EventTypeField, NotIn, {eventType})])
  }

  /** Whatever enabled rule admits the signal covers event `e` of type `t`. */
  ghost predicate AdmittedOnlyIfCovered(c: Candidate, types: map<Uuid, Uuid>, e: Uuid, t: Uuid) {
    forall rule: Rule :: rule.enabled && RuleMatches(rule, c, WhatIf(None, None, None), types) ==> RuleCoversEvent(rule, e, t)
  }

  /**
   Exactly when firing implies coverage of (event, t): the signal's type resolves to t. With the
   event missing from `types`, the type filter lets the signal through and the implication is lost.
   (A signal with neither a baseline nor movement is admitted by no rule and is set aside.)
   */
  lemma CoverageNeedsTheResolvedType(c: Candidate, types: map<Uuid, Uuid>, t: Uuid)
    requires c.scope.EventScope? && c.event.Some? && (c.expected != 0.0 || c.actual != c.expected)
    ensures AdmittedOnlyIfCovered(c, types, c.event.value, t) <==> ResolvedType(c, types) == Some(t)
  {
    var none := WhatIf(None, None, None);
    if ResolvedType(c, types) == Some(t) {
      forall rule: Rule | rule.enabled && RuleMatches(rule, c, none, types)
        ensures RuleCoversEvent(rule, c.event.value, t)
      {
        MatchImpliesCoverage(rule, c, none, types);
      }
    } else {
      var rule := AllBut(t);
      assert FilterMatches(rule.filters[0], c, types);
      if c.expected != 0.0 {
        NonNegativeRatio(Abs(c.actual - c.expected), Abs(c.expected));
      }
      assert RuleMatches(rule, c, none, types);
      assert !IdentityFilterAdmits(rule.filters[0], c.event.value, t);
    }
  }

  lemma NonNegativeRatio(a: real, b: real)
    requires a >= 0.0 && b > 0.0
    ensures a / b * 100.0 >= 0.0
  {
    assert a / b * b == a;
  }

  // ------------------------------------------------------------- the percentage shown

  predicate HasBaseline(expected: real) {
    expected != 0.0
  }

  function PercentDeltaOf(actual: real, expected: real): real {
    if !HasBaseline(expected) then 0.0 else Abs(actual - expected) / Abs(expected) * 100.0
  }

  function PercentDeltaOrNone(percentDelta: real, expected: real): Option<real> {
    if HasBaseline(expected) then Some(percentDelta) else None
  }

  /** The percentage, without dividing: of the baseline's magnitude it is the change. */
  lemma PercentExactly(actual: real, expected: real)
    requires expected != 0.0
    ensures PercentDeltaOf(actual, expected) * Abs(expected) == Abs(actual - expected) * 100.0
  {
    var ratio := Abs(actual - expected) / Abs(expected);
    assert ratio * Abs(expected) == Abs(actual - expected);
    assert (ratio * 100.0) * Abs(expected) == (ratio * Abs(expected)) * 100.0;
  }

  /**
   The gate compares the number that is shown: with a baseline, a signal clears the thresholds exactly when
   its level and change reach theirs and the percentage shown reaches the effective one.
   */
  lemma GateComparesTheShown(rule: Rule, c: Candidate, w: WhatIf)
    requires c.expected != 0.0
    ensures ClearsThresholds(rule, c, w) <==>
      && Abs(c.expected) >= w.minExpectedCount.GetOr(rule.minExpectedCount)
      && Abs(c.actual - c.expected) >= rule.minAbsoluteDelta
      && PercentDeltaOrNone(PercentDeltaOf(c.actual, c.expected), c.expected)
           == Some(PercentDeltaOf(c.actual, c.expected))
      && PercentDeltaOf(c.actual, c.expected) >= w.minPercentDelta.GetOr(rule.minPercentDelta)
  {
  }

  /**
   A delivery never contradicts the gate: the number it reports is at least the effective percent
   threshold, and it reports no number exactly when there was no baseline, in which case the count moved.
   */
  lemma ShownPercentClearsGate(rule: Rule, c: Candidate, w: WhatIf, types: map<Uuid, Uuid>)
    requires RuleMatches(rule, c, w, types) && !c.scope.Lifecycle? && !SkipsThresholds(c.scope)
    ensures var shown := PercentDeltaOrNone(PercentDeltaOf(c.actual, c.expected), c.expected);
            && (shown.Some? ==> shown.value >= w.minPercentDelta.GetOr(rule.minPercentDelta))
            && (shown.None? <==> c.expected == 0.0)
            && (shown.None? ==> c.actual != c.expected)
  {
  }
}
