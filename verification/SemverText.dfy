/**
 What the version parser accepts: exactly the printed forms.

 The printer is the grammar of Semantic Versioning 2.0.0 read forwards; parsing undoes printing, and
 whatever parses is a print.
 */
module SemverText {
  import opened Text
  import opened Wrappers
  import opened Semver

  /** One or more ASCII letters, digits and hyphens. */
  predicate Spelled(s: string) {
    && s != ""
    && forall c :: c in s ==> c == '-' || '0' <= c <= '9' || 'a' <= c <= 'z' || 'A' <= c <= 'Z'
  }

  lemma SpelledExactly(s: string)
    ensures Spelled(s) <==> IsIdentifier(s)
  {
    if Spelled(s) {
      assert forall i :: 0 <= i < |s| ==> s[i] in s;
    }
  }

  /** A numeric identifier carries its number; any other one has a character that is not a digit. */
  predicate ValidIdentifier(id: Identifier) {
    && Spelled(id.raw)
    && (if id.numeric.Some? then id.raw == Decimal(id.numeric.value) else !AllDigits(id.raw))
  }

  predicate ValidSemVer(k: Kind) {
    && k.SemVer? && |k.release| == 3
    && (forall i :: 0 <= i < |k.prerelease| ==> ValidIdentifier(k.prerelease[i]))
    && (forall i :: 0 <= i < |k.build| ==> Spelled(k.build[i]))
  }

  function Decimals(ns: seq<nat>): (r: seq<string>)
    ensures |r| == |ns|
  {
    seq(|ns|, i requires 0 <= i < |ns| => Decimal(ns[i]))
  }

  function Raws(ids: seq<Identifier>): (r: seq<string>)
    ensures |r| == |ids| && forall i :: 0 <= i < |ids| ==> r[i] == ids[i].raw
  {
    seq(|ids|, i requires 0 <= i < |ids| => ids[i].raw)
  }

  /** `parts` behind `mark`, or nothing. */
  function Tail(mark: char, parts: seq<string>): string {
    if parts == [] then "" else [mark] + Join(parts, '.')
  }

  function RenderSemVer(k: Kind): string
    requires k.SemVer?
  {
    Join(Decimals(k.release), '.') + Tail('-', Raws(k.prerelease)) + Tail('+', k.build)
  }

  // ---------------------------------------------------------------------- numerals

  lemma {:induction false} IntOfDecimal(n: nat)
    ensures IsNumericIdentifier(Decimal(n)) && IntOf(Decimal(n)) == n
    decreases n
  {
    var s := Decimal(n);
    if n >= 10 {
      IntOfDecimal(n / 10);
      assert s[..|s| - 1] == Decimal(n / 10);
    } else {
      assert s[..0] == "";
    }
  }

  lemma {:induction false} DecimalOfInt(s: string)
    requires IsNumericIdentifier(s)
    ensures Decimal(IntOf(s)) == s
    decreases |s|
  {
    var last := |s| - 1;
    var d := s[last] as int - '0' as int;
    assert IsDigit(s[last]) && 0 <= d < 10 && Digit(d) == s[last];
    assert s == s[..last] + [s[last]];
    if last == 0 {
      assert IntOf(s[..0]) == 0;
      assert s == [s[last]];
    } else {
      var front := s[..last];
      assert front[0] == s[0];
      DecimalOfInt(front);
      IntOfPositive(front);
      assert IntOf(s) == IntOf(front) * 10 + d;
      assert IntOf(s) / 10 == IntOf(front) && IntOf(s) % 10 == d;
    }
  }

  lemma {:induction false} IntOfPositive(s: string)
    requires AllDigits(s) && s[0] != '0'
    ensures IntOf(s) > 0
    decreases |s|
  {
    var last := |s| - 1;
    if last > 0 {
      assert s[..last][0] == s[0];
      IntOfPositive(s[..last]);
    } else {
      assert IsDigit(s[0]);
    }
  }

  // ------------------------------------------------------------------------- pieces

  lemma CutAtMark(front: string, mark: char, parts: seq<string>)
    requires mark !in front
    requires forall i :: 0 <= i < |parts| ==> '.' !in parts[i]
    ensures Cut(front + Tail(mark, parts), mark).0 == front
    ensures DotParts(Cut(front + Tail(mark, parts), mark).1) == parts
  {
    if parts == [] {
      assert front + "" == front;
      IndexOfAbsent(front, mark);
    } else {
      var rest := Join(parts, '.');
      var s := front + [mark] + rest;
      assert front + Tail(mark, parts) == s;
      IndexOfFirst(front, mark, rest);
      assert s[..|front|] == front && s[|front| + 1..] == rest;
      SplitOfJoin(parts, '.');
    }
  }

  /** What a cut leaves, put together again. */
  lemma CutBack(s: string, mark: char)
    ensures s == Cut(s, mark).0 + Tail(mark, DotParts(Cut(s, mark).1))
  {
    var i := IndexOf(s, mark);
    if i < |s| {
      IndexOfFound(s, mark);
      JoinOfSplit(s[i + 1..], '.');
      assert s == s[..i] + ([mark] + s[i + 1..]);
    }
  }

  lemma RawParses(id: Identifier)
    requires ValidIdentifier(id)
    ensures ParseIdentifier(id.raw) == Some(id)
  {
    if id.numeric.Some? {
      IntOfDecimal(id.numeric.value);
    }
  }

  lemma {:induction false} RawsParse(ids: seq<Identifier>)
    requires forall i :: 0 <= i < |ids| ==> ValidIdentifier(ids[i])
    ensures ParseIdentifiers(Raws(ids)) == Some(ids)
    decreases |ids|
  {
    if ids != [] {
      assert Raws(ids)[1..] == Raws(ids[1..]);
      RawParses(ids[0]);
      RawsParse(ids[1..]);
      assert ids == [ids[0]] + ids[1..];
    }
  }

  lemma {:induction false} ParsedRaws(parts: seq<string>)
    requires ParseIdentifiers(parts).Some?
    requires forall i :: 0 <= i < |parts| ==> IsIdentifier(parts[i])
    ensures Raws(ParseIdentifiers(parts).value) == parts
    ensures forall i :: 0 <= i < |parts| ==> ValidIdentifier(ParseIdentifiers(parts).value[i])
    decreases |parts|
  {
    if parts != [] {
      var ids := ParseIdentifiers(parts).value;
      ParsedRaws(parts[1..]);
      assert ids == [ids[0]] + ids[1..] && parts == [parts[0]] + parts[1..];
      if AllDigits(parts[0]) {
        DecimalOfInt(parts[0]);
      }
    }
  }

  lemma DecimalsSplit(ns: seq<nat>)
    requires ns != []
    ensures Split(Join(Decimals(ns), '.'), '.') == Decimals(ns)
    ensures '-' !in Join(Decimals(ns), '.') && '+' !in Join(Decimals(ns), '.')
  {
    forall i | 0 <= i < |ns|
      ensures var d := Decimals(ns)[i]; '.' !in d && '-' !in d && '+' !in d
    {
    }
    SplitOfJoin(Decimals(ns), '.');
    JoinAvoids(Decimals(ns), '.', '-');
    JoinAvoids(Decimals(ns), '.', '+');
  }

  // -------------------------------------------------------------------- main results

  /** The pieces of a valid version are the version. */
  lemma PiecesParse(k: Kind)
    requires ValidSemVer(k)
    ensures SemVerOf(Decimals(k.release), Raws(k.prerelease), k.build) == Some(k)
  {
    forall i | 0 <= i < |k.build|
      ensures IsIdentifier(k.build[i])
    {
      SpelledExactly(k.build[i]);
    }
    forall i | 0 <= i < |k.prerelease|
      ensures IsIdentifier(Raws(k.prerelease)[i])
    {
      SpelledExactly(k.prerelease[i].raw);
    }
    RawsParse(k.prerelease);
    IntOfDecimal(k.release[0]);
    IntOfDecimal(k.release[1]);
    IntOfDecimal(k.release[2]);
    assert [k.release[0], k.release[1], k.release[2]] == k.release;
  }

  lemma ParsedPieces(core: seq<string>, pre: seq<string>, build: seq<string>)
    requires SemVerOf(core, pre, build).Some?
    ensures var k := SemVerOf(core, pre, build).value;
            ValidSemVer(k) && Decimals(k.release) == core && Raws(k.prerelease) == pre && k.build == build
  {
    ParsedRaws(pre);
    CoreIsDecimals(core);
  }

  lemma CoreIsDecimals(core: seq<string>)
    requires |core| == 3 && IsNumericIdentifier(core[0]) && IsNumericIdentifier(core[1]) && IsNumericIdentifier(core[2])
    ensures Decimals([IntOf(core[0]), IntOf(core[1]), IntOf(core[2])]) == core
  {
    DecimalOfInt(core[0]);
    DecimalOfInt(core[1]);
    DecimalOfInt(core[2]);
  }

  /** Printing, then parsing, gives the version back. */
  lemma ParseOfRender(k: Kind, text: string)
    requires ValidSemVer(k) && DropV(text) == RenderSemVer(k)
    ensures ParseSemVer(text) == Some(k)
  {
    var core, pre := Join(Decimals(k.release), '.'), Raws(k.prerelease);
    DecimalsSplit(k.release);
    FrontHasNoPlus(core, pre);
    CutAtMark(core + Tail('-', pre), '+', k.build);
    CutAtMark(core, '-', pre);
    PiecesParse(k);
  }

  lemma FrontHasNoPlus(core: string, pre: seq<string>)
    requires '+' !in core && forall i :: 0 <= i < |pre| ==> '+' !in pre[i]
    ensures '+' !in core + Tail('-', pre)
  {
    JoinAvoids(pre, '.', '+');
  }

  /** Whatever parses is a print, up to the `v` in front. */
  lemma RenderOfParse(text: string)
    requires ParseSemVer(text).Some?
    ensures ValidSemVer(ParseSemVer(text).value)
    ensures DropV(text) == RenderSemVer(ParseSemVer(text).value)
  {
    var front := Cut(DropV(text), '+');
    var back := Cut(front.0, '-');
    CutBack(DropV(text), '+');
    CutBack(front.0, '-');
    JoinOfSplit(back.0, '.');
    ParsedPieces(Split(back.0, '.'), DotParts(back.1), DotParts(front.1));
  }

  /** The printed text starts with a digit, so no `v` is taken from it. */
  lemma RenderHasNoV(k: Kind)
    requires ValidSemVer(k)
    ensures DropV(RenderSemVer(k)) == RenderSemVer(k)
  {
  }

  /** The text, or the text behind a `v` or a `V`. */
  predicate MaybeV(text: string, body: string) {
    text == body || text == "v" + body || text == "V" + body
  }

  lemma DropVIsMaybeV(text: string, body: string)
    requires DropV(body) == body
    ensures DropV(text) == body <==> MaybeV(text, body)
  {
  }

  /** A version string is SemVer exactly when it is a printed SemVer behind at most one `v` or `V`. */
  lemma SemVerIsItsPrint(text: string, k: Kind)
    ensures ParseSemVer(text) == Some(k) <==> ValidSemVer(k) && MaybeV(text, RenderSemVer(k))
  {
    if ParseSemVer(text) == Some(k) {
      RenderOfParse(text);
    }
    if ValidSemVer(k) {
      RenderHasNoV(k);
      DropVIsMaybeV(text, RenderSemVer(k));
      if DropV(text) == RenderSemVer(k) {
        ParseOfRender(k, text);
      }
    }
  }
}
