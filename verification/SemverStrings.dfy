/**
 `compare_versions` on raw strings: which kind a text is, and what decides between two texts.

 The kinds are said by their printed forms, the order by the first place where two versions differ; neither
 names the parser or the comparators.
 */
module SemverStrings {
  import opened Text
  import opened Wrappers
  import opened Semver
  import opened SemverText

  // ----------------------------------------------------------------------------- kinds

  /** The text is a printed SemVer, behind at most one `v`. */
  ghost predicate PrintsSemVer(raw: string, k: Kind) {
    ValidSemVer(k) && MaybeV(Strip(raw), RenderSemVer(k))
  }

  ghost predicate PrintsSome(raw: string) {
    exists k :: PrintsSemVer(raw, k)
  }

  predicate DigitGroups(groups: seq<string>) {
    groups != [] && forall i :: 0 <= i < |groups| ==> AllDigits(groups[i])
  }

  /** The text is digit groups joined by dots with the values `ns`, behind at most one `v`. */
  ghost predicate PrintsDotted(raw: string, ns: seq<nat>) {
    exists groups :: PrintsGroups(raw, groups, ns)
  }

  predicate PrintsGroups(raw: string, groups: seq<string>, ns: seq<nat>) {
    DigitGroups(groups) && IntsOf(groups) == ns && MaybeV(Strip(raw), Join(groups, '.'))
  }

  lemma SemVerExactly(raw: string, k: Kind)
    requires k.SemVer?
    ensures Parse(raw).kind == k <==> PrintsSemVer(raw, k)
  {
    SemVerIsItsPrint(Strip(raw), k);
  }

  lemma NoSemVerExactly(raw: string)
    ensures ParseSemVer(Strip(raw)).None? <==> !PrintsSome(raw)
  {
    if ParseSemVer(Strip(raw)).Some? {
      SemVerIsItsPrint(Strip(raw), ParseSemVer(Strip(raw)).value);
      assert PrintsSemVer(raw, ParseSemVer(Strip(raw)).value);
    }
    if k :| PrintsSemVer(raw, k) {
      SemVerIsItsPrint(Strip(raw), k);
    }
  }

  lemma GroupsAreSplit(text: string, groups: seq<string>)
    requires DigitGroups(groups)
    ensures MaybeV(text, Join(groups, '.')) <==> Split(DropV(text), '.') == groups
  {
    var body := Join(groups, '.');
    assert body[0] == groups[0][0] && IsDigit(groups[0][0]);
    DropVIsMaybeV(text, body);
    JoinOfSplit(DropV(text), '.');
    forall i | 0 <= i < |groups|
      ensures '.' !in groups[i]
    {
      assert forall j :: 0 <= j < |groups[i]| ==> IsDigit(groups[i][j]);
    }
    SplitOfJoin(groups, '.');
  }

  lemma DottedText(raw: string, ns: seq<nat>)
    ensures PrintsDotted(raw, ns) <==>
              var parts := Split(DropV(Strip(raw)), '.'); DigitGroups(parts) && IntsOf(parts) == ns
  {
    var parts := Split(DropV(Strip(raw)), '.');
    if DigitGroups(parts) {
      GroupsAreSplit(Strip(raw), parts);
      assert IntsOf(parts) == ns ==> PrintsGroups(raw, parts, ns);
    }
    if groups :| PrintsGroups(raw, groups, ns) {
      GroupsAreSplit(Strip(raw), groups);
    }
  }

  /** Every text is of exactly one kind, by what it prints: SemVer, else dotted digit groups, else free text. */
  lemma KindExactly(raw: string, ns: seq<nat>)
    ensures Parse(raw).kind.SemVer? <==> PrintsSome(raw)
    ensures Parse(raw).kind == Dotted(ns) <==> !PrintsSome(raw) && PrintsDotted(raw, ns)
    ensures Parse(raw).kind == FreeText <==> !PrintsSome(raw) && forall ms :: !PrintsDotted(raw, ms)
  {
    NoSemVerExactly(raw);
    DottedText(raw, ns);
    var parts := Split(DropV(Strip(raw)), '.');
    forall ms
      ensures PrintsDotted(raw, ms) <==> DigitGroups(parts) && IntsOf(parts) == ms
    {
      DottedText(raw, ms);
    }
    if DigitGroups(parts) {
      assert PrintsDotted(raw, IntsOf(parts));
    }
  }

  /** Leading zeros of a group do not change its value. */
  lemma {:induction false} LeadingZero(s: string)
    requires forall i :: 0 <= i < |s| ==> IsDigit(s[i])
    ensures forall i :: 0 <= i < |"0" + s| ==> IsDigit(("0" + s)[i])
    ensures IntOf("0" + s) == IntOf(s)
    decreases |s|
  {
    var t := "0" + s;
    if s == "" {
      assert t[..0] == "";
    } else {
      var last := |s| - 1;
      LeadingZero(s[..last]);
      assert t[..|t| - 1] == "0" + s[..last];
    }
  }

  // ------------------------------------------------------------------- what decides

  /** Character by character, a proper prefix first. */
  ghost predicate LexLower(a: string, b: string) {
    a < b || exists i :: LowerAt(a, b, i)
  }

  predicate LowerAt(a: string, b: string, i: int) {
    0 <= i < |a| && i < |b| && a[..i] == b[..i] && a[i] < b[i]
  }

  lemma {:induction false} TextIsLexical(a: string, b: string)
    ensures TextBelow(a, b) <==> LexLower(a, b)
    decreases |a|
  {
    if a != "" && b != "" {
      TextIsLexical(a[1..], b[1..]);
      if a[0] == b[0] {
        LexShift(a, b);
      } else if a[0] < b[0] {
        assert LowerAt(a, b, 0);
      }
    }
  }

  lemma LexShift(a: string, b: string)
    requires a != "" && b != "" && a[0] == b[0]
    ensures LexLower(a, b) <==> LexLower(a[1..], b[1..])
  {
    assert a == [a[0]] + a[1..] && b == [b[0]] + b[1..];
    assert a < b <==> a[1..] < b[1..];
    if i :| LowerAt(a, b, i) {
      assert a[1..][..i - 1] == a[..i][1..] && b[1..][..i - 1] == b[..i][1..];
      assert LowerAt(a[1..], b[1..], i - 1);
    }
    if i :| LowerAt(a[1..], b[1..], i) {
      assert a[..i + 1] == [a[0]] + a[1..][..i] && b[..i + 1] == [b[0]] + b[1..][..i];
      assert LowerAt(a, b, i + 1);
    }
  }

  /** The i-th segment, 0 when there is none. */
  function Segment(ns: seq<nat>, i: nat): nat {
    if i < |ns| then ns[i] else 0
  }

  ghost predicate FirstLower(a: seq<nat>, b: seq<nat>, i: nat) {
    Segment(a, i) < Segment(b, i) && forall j: nat :: j < i ==> Segment(a, j) == Segment(b, j)
  }

  ghost predicate SegmentsLower(a: seq<nat>, b: seq<nat>) {
    exists i :: FirstLower(a, b, i)
  }

  ghost predicate SegmentsEqual(a: seq<nat>, b: seq<nat>) {
    forall i: nat :: Segment(a, i) == Segment(b, i)
  }

  lemma SegmentShift(ns: seq<nat>, i: nat)
    ensures Segment(ns, 0) == Head(ns) && Segment(ns, i + 1) == Segment(Semver.Tail(ns), i)
  {
  }

  lemma {:induction false} SegmentsDecide(a: seq<nat>, b: seq<nat>)
    ensures CompareSegments(a, b) < 0 <==> SegmentsLower(a, b)
    ensures CompareSegments(a, b) == 0 <==> SegmentsEqual(a, b)
    decreases |a| + |b|
  {
    if a != [] || b != [] {
      var ta, tb := Semver.Tail(a), Semver.Tail(b);
      SegmentsDecide(ta, tb);
      forall i: nat
        ensures Segment(a, i + 1) == Segment(ta, i) && Segment(b, i + 1) == Segment(tb, i)
      {
        SegmentShift(a, i);
        SegmentShift(b, i);
      }
      SegmentsSplit(a, b, ta, tb);
    }
  }

  lemma SegmentsSplit(a: seq<nat>, b: seq<nat>, ta: seq<nat>, tb: seq<nat>)
    requires forall i: nat :: Segment(a, i + 1) == Segment(ta, i) && Segment(b, i + 1) == Segment(tb, i)
    ensures SegmentsLower(a, b) <==>
              Segment(a, 0) < Segment(b, 0) || (Segment(a, 0) == Segment(b, 0) && SegmentsLower(ta, tb))
    ensures SegmentsEqual(a, b) <==> Segment(a, 0) == Segment(b, 0) && SegmentsEqual(ta, tb)
  {
    forall j: nat | j > 0
      ensures Segment(a, j) == Segment(ta, j - 1) && Segment(b, j) == Segment(tb, j - 1)
    {
      var i: nat := j - 1;
      assert Segment(a, i + 1) == Segment(ta, i) && Segment(b, i + 1) == Segment(tb, i);
    }
    forall j: nat
      ensures Segment(ta, j) == Segment(a, j + 1) && Segment(tb, j) == Segment(b, j + 1)
    {
    }
    if Segment(a, 0) < Segment(b, 0) {
      assert FirstLower(a, b, 0);
    }
    if i: nat :| i > 0 && FirstLower(a, b, i) {
      assert FirstLower(ta, tb, i - 1);
    }
    if i: nat :| Segment(a, 0) == Segment(b, 0) && FirstLower(ta, tb, i) {
      assert FirstLower(a, b, i + 1);
    }
    assert forall i: nat :: FirstLower(a, b, i) ==> i == 0 || Segment(a, 0) == Segment(b, 0);
  }

  /** The numbers of a version that has any: a SemVer's release, a dotted version's segments. */
  function Numbers(k: Kind): seq<nat>
    requires !k.FreeText?
  {
    if k.SemVer? then k.release else k.segments
  }

  function Prerelease(k: Kind): seq<Identifier> {
    if k.SemVer? then k.prerelease else []
  }

  /** A prerelease ranks below none; two compare by the standard's fields. */
  ghost predicate PrereleaseLower(p: seq<Identifier>, q: seq<Identifier>) {
    p != [] && (q == [] || LowerFields(p, q))
  }

  /** The order of two parsed versions, whatever their kinds. */
  ghost predicate KindLower(j: Kind, k: Kind, textJ: string, textK: string) {
    if j.FreeText? && k.FreeText? then LexLower(textJ, textK)
    else if j.FreeText? || k.FreeText? then j.FreeText?
    else
      || SegmentsLower(Numbers(j), Numbers(k))
      || (SegmentsEqual(Numbers(j), Numbers(k)) && PrereleaseLower(Prerelease(j), Prerelease(k)))
  }

  lemma NumberedExactly(a: Version, b: Version)
    requires ReleaseIsTriple(a) && ReleaseIsTriple(b) && !a.kind.FreeText? && !b.kind.FreeText?
    ensures CompareParsed(a, b, false) < 0 <==> KindLower(a.kind, b.kind, a.normalized, b.normalized)
  {
    ParsedIsPrecedence(a, b);
    SegmentsDecide(Numbers(a.kind), Numbers(b.kind));
    FieldsSign(Prerelease(a.kind), Prerelease(b.kind));
  }

  /** `compare_versions` on strings: lower exactly when the parsed kinds, and for free texts the stripped texts, say so. */
  lemma LowerExactly(a: string, b: string)
    ensures CompareVersions(a, b) < 0 <==> KindLower(Parse(a).kind, Parse(b).kind, Strip(a), Strip(b))
  {
    var pa, pb := Parse(a), Parse(b);
    if !pa.kind.FreeText? && !pb.kind.FreeText? {
      NumberedExactly(pa, pb);
    } else {
      TextIsLexical(Strip(a), Strip(b));
      ParsedIsPrecedence(pa, pb);
    }
  }

  /** Two printed SemVer versions, on the strings: exactly the standard's precedence. */
  lemma PrintsCompare(a: string, b: string, j: Kind, k: Kind)
    requires PrintsSemVer(a, j) && PrintsSemVer(b, k)
    ensures CompareVersions(a, b) < 0 <==> Precedes(j, k)
    ensures CompareVersions(a, b) > 0 <==> Precedes(k, j)
  {
    SemVerExactly(a, j);
    SemVerExactly(b, k);
    ParsedMeetsTheStandard(Parse(a), Parse(b));
  }

  /** Two dotted texts: the first segment that differs decides, an absent one reading as 0. */
  lemma DottedCompare(a: string, b: string, ms: seq<nat>, ns: seq<nat>)
    requires !PrintsSome(a) && PrintsDotted(a, ms) && !PrintsSome(b) && PrintsDotted(b, ns)
    ensures CompareVersions(a, b) < 0 <==> SegmentsLower(ms, ns)
    ensures CompareVersions(a, b) > 0 <==> SegmentsLower(ns, ms)
  {
    KindExactly(a, ms);
    KindExactly(b, ns);
    LowerExactly(a, b);
    LowerExactly(b, a);
    VersionsArePreordered(a, b, a);
  }

  // ------------------------------------------------------------------- ties in the sort

  /** What the sort adds: dotted before SemVer, then the stripped texts, then the texts as they came. */
  ghost predicate TieLower(a: string, b: string) {
    var semA, semB := Parse(a).kind.SemVer?, Parse(b).kind.SemVer?;
    if semA != semB then semB
    else LexLower(Strip(a), Strip(b)) || (Strip(a) == Strip(b) && LexLower(a, b))
  }

  lemma TieExactly(a: Version, b: Version)
    ensures TieBreak(a, b) < 0 <==>
      if a.kind.SemVer? != b.kind.SemVer? then b.kind.SemVer?
      else LexLower(a.normalized, b.normalized) || (a.normalized == b.normalized && LexLower(a.raw, b.raw))
  {
    TextIsLexical(a.normalized, b.normalized);
    TextIsLexical(a.raw, b.raw);
    LexIrreflexive(a.normalized);
    LexIrreflexive(a.raw);
  }

  lemma LexIrreflexive(a: string)
    ensures !LexLower(a, a)
  {
  }

  /** The sort order on strings: precedence, then the tie-break. */
  lemma SortExactly(a: string, b: string)
    ensures CompareTotal(a, b) < 0 <==> CompareVersions(a, b) < 0 || (CompareVersions(a, b) == 0 && TieLower(a, b))
  {
    ParsedIsPrecedence(Parse(a), Parse(b));
    TieExactly(Parse(a), Parse(b));
  }
}
