/**
 Version strings: how they parse, how two of them compare, and which one is the latest.

 One comparator ranks strict SemVer, dotted numbers of any width and free text together. The proof
 that it is an order runs over signs: every comparison returns -1, 0 or 1, and `Coherent` says that
 three of them fit one order.
 */
module Semver {
  import opened Text
  import opened Wrappers

  // ------------------------------------------------------------------ parsing

  datatype Identifier = Identifier(raw: string, numeric: Option<nat>)

  datatype Kind =
    | SemVer(release: seq<nat>, prerelease: seq<Identifier>, build: seq<string>)
    | Dotted(segments: seq<nat>)
    | FreeText

  datatype Version = Version(raw: string, normalized: string, kind: Kind)

  predicate IsDigit(c: char) {
    '0' <= c <= '9'
  }

  predicate AllDigits(s: string) {
    s != "" && forall i :: 0 <= i < |s| ==> IsDigit(s[i])
  }

  /** `0` or digits without a leading zero. */
  predicate IsNumericIdentifier(s: string) {
    AllDigits(s) && (|s| == 1 || s[0] != '0')
  }

  function IntOf(s: string): nat
    requires forall i :: 0 <= i < |s| ==> IsDigit(s[i])
    decreases |s|
  {
    if s == "" then 0
    else
      var last := |s| - 1;
      assert IsDigit(s[last]);
      IntOf(s[..last]) * 10 + (s[last] as int - '0' as int)
  }

  predicate IsIdentifier(s: string) {
    s != "" && forall i :: 0 <= i < |s| ==>
      IsDigit(s[i]) || 'A' <= s[i] <= 'Z' || 'a' <= s[i] <= 'z' || s[i] == '-'
  }

  function DropV(s: string): string {
    if s != "" && (s[0] == 'v' || s[0] == 'V') then s[1..] else s
  }

  /** A prerelease part, or `None` for a numeric one with a leading zero. */
  function ParseIdentifier(s: string): Option<Identifier> {
    if !AllDigits(s) then Some(Identifier(s, None))
    else if IsNumericIdentifier(s) then Some(Identifier(s, Some(IntOf(s))))
    else None
  }

  function ParseIdentifiers(parts: seq<string>): Option<seq<Identifier>> {
    if parts == [] then Some([])
    else
      var first, rest := ParseIdentifier(parts[0]), ParseIdentifiers(parts[1..]);
      if first.None? || rest.None? then None else Some([first.value] + rest.value)
  }

  /** The text before the first `c`, and the text after it. */
  function Cut(s: string, c: char): (string, Option<string>) {
    var i := IndexOf(s, c);
    (s[..i], if i < |s| then Some(s[i + 1..]) else None)
  }

  function DotParts(s: Option<string>): seq<string> {
    if s.Some? then Split(s.value, '.') else []
  }

  /** `major.minor.patch[-prerelease][+build]`, an optional `v` in front. */
  function ParseSemVer(normalized: string): Option<Kind> {
    var front := Cut(DropV(normalized), '+');
    var back := Cut(front.0, '-');
    SemVerOf(Split(back.0, '.'), DotParts(back.1), DotParts(front.1))
  }

  function SemVerOf(core: seq<string>, pre: seq<string>, build: seq<string>): Option<Kind> {
    if |core| == 3 && IsNumericIdentifier(core[0]) && IsNumericIdentifier(core[1]) && IsNumericIdentifier(core[2])
      && (forall i :: 0 <= i < |build| ==> IsIdentifier(build[i]))
      && (forall i :: 0 <= i < |pre| ==> IsIdentifier(pre[i]))
      && ParseIdentifiers(pre).Some?
    then Some(SemVer([IntOf(core[0]), IntOf(core[1]), IntOf(core[2])], ParseIdentifiers(pre).value, build))
    else None
  }

  function IntsOf(parts: seq<string>): (r: seq<nat>)
    requires forall i :: 0 <= i < |parts| ==> AllDigits(parts[i])
  {
    seq(|parts|, i requires 0 <= i < |parts| && AllDigits(parts[i]) => IntOf(parts[i]))
  }

  function ParseKind(normalized: string): (k: Kind)
    ensures k.SemVer? ==> |k.release| == 3
  {
    var semver := ParseSemVer(normalized);
    var parts := Split(DropV(normalized), '.');
    if semver.Some? then semver.value
    else if forall i :: 0 <= i < |parts| ==> AllDigits(parts[i]) then Dotted(IntsOf(parts))
    else FreeText
  }

  function Parse(raw: string): Version {
    Version(raw, Strip(raw), ParseKind(Strip(raw)))
  }

  // --------------------------------------------------------------- comparing

  /** `a or b` on comparison results. */
  function Or(a: int, b: int): int {
    if a != 0 then a else b
  }

  function CompareInt(a: int, b: int): int {
    if a == b then 0 else if a < b then -1 else 1
  }

  predicate TextBelow(a: string, b: string) {
    b != "" && (a == "" || a[0] < b[0] || (a[0] == b[0] && TextBelow(a[1..], b[1..])))
  }

  function CompareText(a: string, b: string): int {
    if a == b then 0 else if TextBelow(a, b) then -1 else 1
  }

  function CompareTuple(a: seq<nat>, b: seq<nat>): int
    requires |a| == |b|
    decreases |a|
  {
    if a == [] then 0 else Or(CompareInt(a[0], b[0]), CompareTuple(a[1..], b[1..]))
  }

  /** The scan with its early return. */
  method CompareTupleScan(a: seq<nat>, b: seq<nat>) returns (r: int)
    requires |a| == |b|
    ensures r == CompareTuple(a, b)
  {
    for i := 0 to |a|
      invariant CompareTuple(a, b) == CompareTuple(a[i..], b[i..])
    {
      assert a[i..][1..] == a[i + 1..] && b[i..][1..] == b[i + 1..];
      r := CompareInt(a[i], b[i]);
      if r != 0 {
        return;
      }
    }
    r := 0;
  }

  function Zeros(n: nat): (z: seq<nat>)
    ensures |z| == n && forall i :: 0 <= i < n ==> z[i] == 0
  {
    seq(n, _ => 0)
  }

  function Max(a: nat, b: nat): nat {
    if a < b then b else a
  }

  function ComparePadded(a: seq<nat>, b: seq<nat>): int {
    var width := Max(|a|, |b|);
    CompareTuple(a + Zeros(width - |a|), b + Zeros(width - |b|))
  }

  function CompareIdentifier(a: Identifier, b: Identifier): int {
    if a.numeric.Some? && b.numeric.Some? then CompareInt(a.numeric.value, b.numeric.value)
    else if a.numeric.Some? then -1
    else if b.numeric.Some? then 1
    else CompareText(a.raw, b.raw)
  }

  function CompareIdentifiers(a: seq<Identifier>, b: seq<Identifier>): int
    decreases |a|
  {
    if a == [] || b == [] then CompareInt(|a|, |b|)
    else Or(CompareIdentifier(a[0], b[0]), CompareIdentifiers(a[1..], b[1..]))
  }

  function ComparePrerelease(a: seq<Identifier>, b: seq<Identifier>): int {
    if a == [] && b == [] then 0
    else if a == [] then 1
    else if b == [] then -1
    else CompareIdentifiers(a, b)
  }

  /** The zip over the shorter prerelease, then the lengths. */
  method ComparePrereleaseScan(a: seq<Identifier>, b: seq<Identifier>) returns (r: int)
    ensures r == ComparePrerelease(a, b)
  {
    if a == [] && b == [] {
      return 0;
    }
    if a == [] {
      return 1;
    }
    if b == [] {
      return -1;
    }
    var shorter := if |a| < |b| then |a| else |b|;
    for i := 0 to shorter
      invariant CompareIdentifiers(a, b) == CompareIdentifiers(a[i..], b[i..])
    {
      assert a[i..][1..] == a[i + 1..] && b[i..][1..] == b[i + 1..];
      r := CompareIdentifier(a[i], b[i]);
      if r != 0 {
        return;
      }
    }
    r := CompareInt(|a|, |b|);
  }

  /** The numeric segments of a SemVer or dotted version. */
  function NumericRelease(v: Version): Option<seq<nat>> {
    match v.kind
    case SemVer(release, _, _) => Some(release)
    case Dotted(segments) => Some(segments)
    case FreeText => None
  }

  function PrereleaseOf(v: Version): seq<Identifier> {
    if v.kind.SemVer? then v.kind.prerelease else []
  }

  function TextTie(a: Version, b: Version): int {
    Or(CompareText(a.normalized, b.normalized), CompareText(a.raw, b.raw))
  }

  /** `_compare_parsed`, branch for branch. */
  function CompareParsed(a: Version, b: Version, total: bool): int {
    var na, nb := NumericRelease(a), NumericRelease(b);
    if a.kind.SemVer? && b.kind.SemVer? && |a.kind.release| == |b.kind.release| then
      var result := Or(CompareTuple(a.kind.release, b.kind.release), ComparePrerelease(PrereleaseOf(a), PrereleaseOf(b)));
      if result != 0 || !total then result else TextTie(a, b)
    else if na.Some? && nb.Some? then
      var result := Or(ComparePadded(na.value, nb.value), ComparePrerelease(PrereleaseOf(a), PrereleaseOf(b)));
      if result != 0 || !total then result
      else if a.kind.SemVer? != b.kind.SemVer? then (if a.kind.SemVer? then 1 else -1)
      else TextTie(a, b)
    else if na.Some? != nb.Some? then (if na.Some? then 1 else -1)
    else
      var result := CompareText(a.normalized, b.normalized);
      if result != 0 || !total then result else CompareText(a.raw, b.raw)
  }

  function CompareVersions(a: string, b: string): int {
    CompareParsed(Parse(a), Parse(b), false)
  }

  /** The sort comparator. */
  function CompareTotal(a: string, b: string): int {
    CompareParsed(Parse(a), Parse(b), true)
  }

  // ------------------------------------------------------- signs that fit an order

  /** Comparisons of a with b, b with c and a with c that fit one total preorder. */
  predicate Coherent(ab: int, bc: int, ac: int) {
    && (ab <= 0 && bc <= 0 ==> ac <= 0 && (ac == 0 ==> ab == 0 && bc == 0))
    && (ab >= 0 && bc >= 0 ==> ac >= 0 && (ac == 0 ==> ab == 0 && bc == 0))
  }

  /** A first comparison, and a second that only breaks its ties. */
  lemma OrCoherent(ab: int, bc: int, ac: int, ab': int, bc': int, ac': int)
    requires Coherent(ab, bc, ac)
    requires ab == 0 && bc == 0 && ac == 0 ==> Coherent(ab', bc', ac')
    ensures Coherent(Or(ab, ab'), Or(bc, bc'), Or(ac, ac'))
  {
  }

  function TextByChar(a: string, b: string): int
    decreases |a|
  {
    if a == "" || b == "" then CompareInt(|a|, |b|)
    else Or(CompareInt(a[0] as int, b[0] as int), TextByChar(a[1..], b[1..]))
  }

  lemma {:induction false} TextIsByChar(a: string, b: string)
    ensures CompareInt(CompareText(a, b), 0) == CompareInt(TextByChar(a, b), 0)
    ensures CompareText(a, b) == -CompareText(b, a)
    decreases |a|
  {
    if a != "" && b != "" {
      TextIsByChar(a[1..], b[1..]);
      assert a == [a[0]] + a[1..] && b == [b[0]] + b[1..];
    }
  }

  lemma {:induction false} TextByCharCoherent(a: string, b: string, c: string)
    ensures Coherent(TextByChar(a, b), TextByChar(b, c), TextByChar(a, c))
    decreases |a|
  {
    if a != "" && b != "" && c != "" {
      TextByCharCoherent(a[1..], b[1..], c[1..]);
    }
  }

  lemma TextCoherent(a: string, b: string, c: string)
    ensures Coherent(CompareText(a, b), CompareText(b, c), CompareText(a, c))
  {
    TextIsByChar(a, b);
    TextIsByChar(b, c);
    TextIsByChar(a, c);
    TextByCharCoherent(a, b, c);
  }

  lemma IdentifierLaws(a: Identifier, b: Identifier, c: Identifier)
    ensures Coherent(CompareIdentifier(a, b), CompareIdentifier(b, c), CompareIdentifier(a, c))
    ensures CompareIdentifier(a, b) == -CompareIdentifier(b, a)
  {
    TextCoherent(a.raw, b.raw, c.raw);
    TextIsByChar(a.raw, b.raw);
  }

  lemma {:induction false} IdentifiersCoherent(a: seq<Identifier>, b: seq<Identifier>, c: seq<Identifier>)
    ensures Coherent(CompareIdentifiers(a, b), CompareIdentifiers(b, c), CompareIdentifiers(a, c))
    decreases |a|
  {
    if a != [] && b != [] && c != [] {
      IdentifiersCoherent(a[1..], b[1..], c[1..]);
      IdentifierLaws(a[0], b[0], c[0]);
    }
  }

  lemma {:induction false} IdentifiersMirror(a: seq<Identifier>, b: seq<Identifier>)
    ensures CompareIdentifiers(a, b) == -CompareIdentifiers(b, a)
    decreases |a|
  {
    if a != [] && b != [] {
      IdentifiersMirror(a[1..], b[1..]);
      IdentifierLaws(a[0], b[0], a[0]);
    }
  }

  lemma PrereleaseLaws(a: seq<Identifier>, b: seq<Identifier>, c: seq<Identifier>)
    ensures Coherent(ComparePrerelease(a, b), ComparePrerelease(b, c), ComparePrerelease(a, c))
    ensures ComparePrerelease(a, b) == -ComparePrerelease(b, a)
  {
    IdentifiersCoherent(a, b, c);
    IdentifiersMirror(a, b);
  }

  function Head(a: seq<nat>): nat {
    if a == [] then 0 else a[0]
  }

  function Tail(a: seq<nat>): seq<nat> {
    if a == [] then [] else a[1..]
  }

  /** Segment by segment, an absent segment reading as 0. */
  function CompareSegments(a: seq<nat>, b: seq<nat>): int
    decreases |a| + |b|
  {
    if a == [] && b == [] then 0
    else Or(CompareInt(Head(a), Head(b)), CompareSegments(Tail(a), Tail(b)))
  }

  lemma {:induction false} PaddedIsSegments(a: seq<nat>, b: seq<nat>)
    ensures ComparePadded(a, b) == CompareSegments(a, b)
    decreases |a| + |b|
  {
    var width := Max(|a|, |b|);
    if width > 0 {
      var pa, pb := a + Zeros(width - |a|), b + Zeros(width - |b|);
      PaddedIsSegments(Tail(a), Tail(b));
      assert pa[1..] == Tail(a) + Zeros(width - 1 - |Tail(a)|);
      assert pb[1..] == Tail(b) + Zeros(width - 1 - |Tail(b)|);
    }
  }

  lemma {:induction false} SegmentsLaws(a: seq<nat>, b: seq<nat>, c: seq<nat>)
    ensures Coherent(CompareSegments(a, b), CompareSegments(b, c), CompareSegments(a, c))
    ensures CompareSegments(a, b) == -CompareSegments(b, a)
    decreases |a| + |b| + |c|
  {
    if a != [] || b != [] || c != [] {
      SegmentsLaws(Tail(a), Tail(b), Tail(c));
      OrCoherent(CompareInt(Head(a), Head(b)), CompareInt(Head(b), Head(c)), CompareInt(Head(a), Head(c)),
                 CompareSegments(Tail(a), Tail(b)), CompareSegments(Tail(b), Tail(c)), CompareSegments(Tail(a), Tail(c)));
    }
  }

  // ------------------------------------------------------ one order for all kinds

  function Rank(v: Version): int {
    if v.kind.FreeText? then 0 else 1
  }

  function Bit(b: bool): int {
    if b then 1 else 0
  }

  /** Within one rank: segments then prerelease for numbered versions, text for the others. */
  function WithinRank(a: Version, b: Version): int {
    var na, nb := NumericRelease(a), NumericRelease(b);
    if na.Some? && nb.Some? then
      Or(CompareSegments(na.value, nb.value), ComparePrerelease(PrereleaseOf(a), PrereleaseOf(b)))
    else CompareText(a.normalized, b.normalized)
  }

  function Precedence(a: Version, b: Version): int {
    Or(CompareInt(Rank(a), Rank(b)), WithinRank(a, b))
  }

  function TieBreak(a: Version, b: Version): int {
    Or(CompareInt(Bit(a.kind.SemVer?), Bit(b.kind.SemVer?)), TextTie(a, b))
  }

  predicate ReleaseIsTriple(v: Version) {
    v.kind.SemVer? ==> |v.kind.release| == 3
  }

  lemma ParsedIsPrecedence(a: Version, b: Version)
    requires ReleaseIsTriple(a) && ReleaseIsTriple(b)
    ensures CompareParsed(a, b, false) == Precedence(a, b)
    ensures CompareParsed(a, b, true) == Or(Precedence(a, b), TieBreak(a, b))
  {
    var na, nb := NumericRelease(a), NumericRelease(b);
    if na.Some? && nb.Some? {
      PaddedIsSegments(na.value, nb.value);
      if a.kind.SemVer? && b.kind.SemVer? {
        assert na.value + Zeros(0) == na.value && nb.value + Zeros(0) == nb.value;
      }
    }
  }

  lemma WithinRankLaws(a: Version, b: Version, c: Version)
    requires Rank(a) == Rank(b) == Rank(c)
    ensures Coherent(WithinRank(a, b), WithinRank(b, c), WithinRank(a, c))
  {
    if Rank(a) == 0 {
      TextCoherent(a.normalized, b.normalized, c.normalized);
    } else {
      var na, nb, nc := NumericRelease(a).value, NumericRelease(b).value, NumericRelease(c).value;
      var pa, pb, pc := PrereleaseOf(a), PrereleaseOf(b), PrereleaseOf(c);
      SegmentsLaws(na, nb, nc);
      PrereleaseLaws(pa, pb, pc);
      OrCoherent(CompareSegments(na, nb), CompareSegments(nb, nc), CompareSegments(na, nc),
                 ComparePrerelease(pa, pb), ComparePrerelease(pb, pc), ComparePrerelease(pa, pc));
    }
  }

  lemma PrecedenceCoherent(a: Version, b: Version, c: Version)
    ensures Coherent(Precedence(a, b), Precedence(b, c), Precedence(a, c))
  {
    if Rank(a) == Rank(b) == Rank(c) {
      WithinRankLaws(a, b, c);
    }
  }

  lemma PrecedenceMirror(a: Version, b: Version)
    ensures Precedence(a, b) == -Precedence(b, a)
  {
    if Rank(a) == Rank(b) {
      if Rank(a) == 0 {
        TextIsByChar(a.normalized, b.normalized);
      } else {
        SegmentsLaws(NumericRelease(a).value, NumericRelease(b).value, []);
        PrereleaseLaws(PrereleaseOf(a), PrereleaseOf(b), []);
      }
    }
  }

  lemma TieBreakLaws(a: Version, b: Version, c: Version)
    ensures Coherent(TieBreak(a, b), TieBreak(b, c), TieBreak(a, c))
    ensures TieBreak(a, b) == -TieBreak(b, a)
  {
    TextCoherent(a.normalized, b.normalized, c.normalized);
    TextCoherent(a.raw, b.raw, c.raw);
    TextIsByChar(a.normalized, b.normalized);
    TextIsByChar(a.raw, b.raw);
    OrCoherent(CompareText(a.normalized, b.normalized), CompareText(b.normalized, c.normalized),
               CompareText(a.normalized, c.normalized),
               CompareText(a.raw, b.raw), CompareText(b.raw, c.raw), CompareText(a.raw, c.raw));
    OrCoherent(CompareInt(Bit(a.kind.SemVer?), Bit(b.kind.SemVer?)), CompareInt(Bit(b.kind.SemVer?), Bit(c.kind.SemVer?)),
               CompareInt(Bit(a.kind.SemVer?), Bit(c.kind.SemVer?)),
               TextTie(a, b), TextTie(b, c), TextTie(a, c));
  }

  // ------------------------------------------------------------- main results

  /** One total preorder over parsed versions of every kind. */
  lemma ParsedArePreordered(a: Version, b: Version, c: Version)
    requires ReleaseIsTriple(a) && ReleaseIsTriple(b) && ReleaseIsTriple(c)
    ensures CompareParsed(a, a, false) == 0
    ensures CompareParsed(a, b, false) == -CompareParsed(b, a, false)
    ensures CompareParsed(a, b, false) <= 0 && CompareParsed(b, c, false) <= 0 ==> CompareParsed(a, c, false) <= 0
    ensures CompareParsed(a, b, false) == 0 ==> CompareParsed(a, c, false) == CompareParsed(b, c, false)
  {
    ParsedIsPrecedence(a, a);
    ParsedIsPrecedence(a, b);
    ParsedIsPrecedence(b, a);
    ParsedIsPrecedence(b, c);
    ParsedIsPrecedence(a, c);
    PrecedenceMirror(a, a);
    PrecedenceMirror(a, b);
    PrecedenceMirror(b, c);
    PrecedenceMirror(a, c);
    PrecedenceCoherent(a, b, c);
    PrecedenceCoherent(b, a, c);
    SignOnly(a, c);
    SignOnly(b, c);
  }

  /** `compare_versions` is a total preorder over all strings, whatever kinds they parse to. */
  lemma VersionsArePreordered(a: string, b: string, c: string)
    ensures CompareVersions(a, a) == 0
    ensures CompareVersions(a, b) == -CompareVersions(b, a)
    ensures CompareVersions(a, b) <= 0 && CompareVersions(b, c) <= 0 ==> CompareVersions(a, c) <= 0
    ensures CompareVersions(a, b) == 0 ==> CompareVersions(a, c) == CompareVersions(b, c)
  {
    ParsedArePreordered(Parse(a), Parse(b), Parse(c));
  }

  lemma {:induction false} SegmentsSign(a: seq<nat>, b: seq<nat>)
    ensures -1 <= CompareSegments(a, b) <= 1
    decreases |a| + |b|
  {
    if a != [] || b != [] {
      SegmentsSign(Tail(a), Tail(b));
    }
  }

  lemma {:induction false} IdentifiersSign(a: seq<Identifier>, b: seq<Identifier>)
    ensures -1 <= CompareIdentifiers(a, b) <= 1
    decreases |a|
  {
    if a != [] && b != [] {
      IdentifiersSign(a[1..], b[1..]);
    }
  }

  lemma SignOnly(a: Version, b: Version)
    ensures -1 <= Precedence(a, b) <= 1
  {
    if NumericRelease(a).Some? && NumericRelease(b).Some? {
      SegmentsSign(NumericRelease(a).value, NumericRelease(b).value);
      IdentifiersSign(PrereleaseOf(a), PrereleaseOf(b));
    }
  }

  /** With ties broken, parsed versions are in one strict order up to their raw text. */
  lemma ParsedSortIsStrict(a: Version, b: Version, c: Version)
    requires ReleaseIsTriple(a) && ReleaseIsTriple(b) && ReleaseIsTriple(c)
    ensures CompareParsed(a, b, true) == 0 ==> a.raw == b.raw
    ensures CompareParsed(a, b, true) == -CompareParsed(b, a, true)
    ensures CompareParsed(a, b, true) <= 0 && CompareParsed(b, c, true) <= 0 ==> CompareParsed(a, c, true) <= 0
    ensures CompareParsed(a, b, true) < 0 && CompareParsed(b, c, true) < 0 ==> CompareParsed(a, c, true) < 0
    ensures CompareParsed(a, b, false) < 0 ==> CompareParsed(a, b, true) < 0
    ensures CompareParsed(a, b, true) <= 0 ==> CompareParsed(a, b, false) <= 0
  {
    ParsedIsPrecedence(a, b);
    ParsedIsPrecedence(b, a);
    ParsedIsPrecedence(b, c);
    ParsedIsPrecedence(a, c);
    PrecedenceMirror(a, b);
    PrecedenceCoherent(a, b, c);
    TieBreakLaws(a, b, c);
    OrCoherent(Precedence(a, b), Precedence(b, c), Precedence(a, c), TieBreak(a, b), TieBreak(b, c), TieBreak(a, c));
  }

  /** The sort comparator is a strict total order on raw strings that refines `compare_versions`. */
  lemma SortOrderIsStrict(a: string, b: string, c: string)
    ensures CompareTotal(a, b) == 0 <==> a == b
    ensures CompareTotal(a, b) == -CompareTotal(b, a)
    ensures CompareTotal(a, b) <= 0 && CompareTotal(b, c) <= 0 ==> CompareTotal(a, c) <= 0
    ensures CompareTotal(a, b) < 0 && CompareTotal(b, c) < 0 ==> CompareTotal(a, c) < 0
    ensures CompareVersions(a, b) < 0 ==> CompareTotal(a, b) < 0
    ensures CompareTotal(a, b) <= 0 ==> CompareVersions(a, b) <= 0
  {
    ParsedSortIsStrict(Parse(a), Parse(b), Parse(c));
  }

  // --------------------------------------- section 11 of Semantic Versioning 2.0.0

  ghost predicate SameIdentifier(x: Identifier, y: Identifier) {
    x.numeric == y.numeric && (x.numeric.None? ==> x.raw == y.raw)
  }

  ghost predicate LowerIdentifier(x: Identifier, y: Identifier) {
    if x.numeric.Some? && y.numeric.Some? then x.numeric.value < y.numeric.value
    else x.numeric.Some? || (y.numeric.None? && TextBelow(x.raw, y.raw))
  }

  ghost predicate FirstDifference(p: seq<Identifier>, q: seq<Identifier>, i: int) {
    && 0 <= i < |p| && i < |q|
    && LowerIdentifier(p[i], q[i])
    && forall j :: 0 <= j < i ==> SameIdentifier(p[j], q[j])
  }

  /** Equal up to the first difference, which decides; with none, fewer fields are lower. */
  ghost predicate LowerFields(p: seq<Identifier>, q: seq<Identifier>) {
    || (exists i :: FirstDifference(p, q, i))
    || (|p| < |q| && forall j :: 0 <= j < |p| ==> SameIdentifier(p[j], q[j]))
  }

  ghost predicate LowerRelease(p: seq<nat>, q: seq<nat>)
    requires |p| == |q| == 3
  {
    p[0] < q[0] || (p[0] == q[0] && (p[1] < q[1] || (p[1] == q[1] && p[2] < q[2])))
  }

  /** Precedence as the standard words it: build metadata does not figure in. */
  ghost predicate Precedes(a: Kind, b: Kind)
    requires a.SemVer? && b.SemVer? && |a.release| == |b.release| == 3
  {
    || LowerRelease(a.release, b.release)
    || (a.release == b.release
        && a.prerelease != []
        && (b.prerelease == [] || LowerFields(a.prerelease, b.prerelease)))
  }

  lemma {:induction false} TextBelowIrreflexive(a: string)
    ensures !TextBelow(a, a)
    decreases |a|
  {
    if a != "" {
      TextBelowIrreflexive(a[1..]);
    }
  }

  lemma IdentifierSigns(x: Identifier, y: Identifier)
    ensures CompareIdentifier(x, y) < 0 <==> LowerIdentifier(x, y)
    ensures CompareIdentifier(x, y) == 0 <==> SameIdentifier(x, y)
  {
    TextBelowIrreflexive(x.raw);
  }

  lemma FieldsShift(p: seq<Identifier>, q: seq<Identifier>)
    requires p != [] && q != [] && SameIdentifier(p[0], q[0])
    ensures LowerFields(p, q) <==> LowerFields(p[1..], q[1..])
  {
    IdentifierSigns(p[0], q[0]);
    var p', q' := p[1..], q[1..];
    assert forall j :: 0 < j < |p| ==> p[j] == p'[j - 1];
    assert forall j :: 0 < j < |q| ==> q[j] == q'[j - 1];
    if i :| FirstDifference(p', q', i) {
      assert FirstDifference(p, q, i + 1);
    }
    if i :| FirstDifference(p, q, i) {
      assert i > 0;
      forall j | 0 <= j < i - 1
        ensures SameIdentifier(p'[j], q'[j])
      {
        assert SameIdentifier(p[j + 1], q[j + 1]);
      }
      assert FirstDifference(p', q', i - 1);
    }
    if |p| < |q| && forall j :: 0 <= j < |p| ==> SameIdentifier(p[j], q[j]) {
      forall j | 0 <= j < |p'|
        ensures SameIdentifier(p'[j], q'[j])
      {
        assert SameIdentifier(p[j + 1], q[j + 1]);
      }
    }
  }

  lemma {:induction false} FieldsSign(p: seq<Identifier>, q: seq<Identifier>)
    ensures CompareIdentifiers(p, q) < 0 <==> LowerFields(p, q)
    decreases |p|
  {
    if p != [] && q != [] {
      IdentifierSigns(p[0], q[0]);
      if SameIdentifier(p[0], q[0]) {
        FieldsSign(p[1..], q[1..]);
        FieldsShift(p, q);
      } else if LowerIdentifier(p[0], q[0]) {
        assert FirstDifference(p, q, 0);
      }
    }
  }

  lemma ReleaseSign(p: seq<nat>, q: seq<nat>)
    requires |p| == |q| == 3
    ensures CompareTuple(p, q) < 0 <==> LowerRelease(p, q)
    ensures CompareTuple(p, q) == 0 <==> p == q
  {
    var p1, q1 := p[1..], q[1..];
    var p2, q2 := p1[1..], q1[1..];
    assert CompareTuple(p2[1..], q2[1..]) == 0;
    assert CompareTuple(p2, q2) == CompareInt(p[2], q[2]);
    assert CompareTuple(p1, q1) == Or(CompareInt(p[1], q[1]), CompareInt(p[2], q[2]));
    assert p == [p[0], p[1], p[2]] && q == [q[0], q[1], q[2]];
  }

  /** On two SemVer versions the comparison is exactly the standard's precedence. */
  lemma ParsedMeetsTheStandard(a: Version, b: Version)
    requires a.kind.SemVer? && b.kind.SemVer? && |a.kind.release| == |b.kind.release| == 3
    ensures CompareParsed(a, b, false) < 0 <==> Precedes(a.kind, b.kind)
    ensures CompareParsed(a, b, false) > 0 <==> Precedes(b.kind, a.kind)
  {
    ParsedArePreordered(a, b, a);
    SemVerSign(a, b);
    SemVerSign(b, a);
  }

  lemma SemVerSign(a: Version, b: Version)
    requires a.kind.SemVer? && b.kind.SemVer? && |a.kind.release| == |b.kind.release| == 3
    ensures CompareParsed(a, b, false) < 0 <==> Precedes(a.kind, b.kind)
  {
    ReleaseSign(a.kind.release, b.kind.release);
    FieldsSign(a.kind.prerelease, b.kind.prerelease);
  }

  /** A trailing zero segment changes nothing: `15.8` and `15.8.0` are one release. */
  lemma {:induction false} TrailingZeroIsNeutral(a: seq<nat>, b: seq<nat>)
    ensures ComparePadded(a + [0], b) == ComparePadded(a, b)
    decreases |a| + |b|
  {
    PaddedIsSegments(a + [0], b);
    PaddedIsSegments(a, b);
    if a == [] {
      assert Tail(a + [0]) == Tail(a) && Head(a + [0]) == Head(a);
    } else {
      assert Tail(a + [0]) == Tail(a) + [0] && Head(a + [0]) == Head(a);
      TrailingZeroIsNeutral(Tail(a), Tail(b));
      PaddedIsSegments(Tail(a) + [0], Tail(b));
      PaddedIsSegments(Tail(a), Tail(b));
    }
  }
}
