/**
 Escaping alert text for each message format, and links a client can take apart again.

 For every format there is a reader that does what the receiving client does: scan to the first
 delimiter that is not escaped, then undo the escapes.
 */
module AlertText {
  import opened Text
  import opened Wrappers

  datatype Format = Plain | SlackMrkdwn | TelegramHtml | TelegramMarkdownV2

  // ------------------------------------------------------------------- escaping

  /** `s.replace(c, sub)` for a single character. */
  function Replace(s: string, c: char, sub: string): string {
    if s == "" then "" else (if s[0] == c then sub else [s[0]]) + Replace(s[1..], c, sub)
  }

  /** `html.escape(s, quote=True)`: five replacements, the ampersand first. */
  function HtmlEscape(s: string): string {
    Replace(Replace(Replace(Replace(Replace(s, '&', "&amp;"), '<', "&lt;"), '>', "&gt;"), '"', "&quot;"), '\'', "&#x27;")
  }

  function SlackEscape(s: string): string {
    Replace(Replace(Replace(s, '&', "&amp;"), '<', "&lt;"), '>', "&gt;")
  }

  predicate IsMarkdownSpecial(c: char) {
    c in "_*[]()~`>#+-=|{}.!\\"
  }

  function MarkdownEscape(s: string): string {
    if s == "" then "" else (if IsMarkdownSpecial(s[0]) then ['\\', s[0]] else [s[0]]) + MarkdownEscape(s[1..])
  }

  function MarkdownUrl(s: string): string {
    Replace(Replace(s, '\\', "%5C"), ')', "%29")
  }

  function EscapeAlertValue(text: string, format: Format): string {
    match format
    case TelegramHtml => HtmlEscape(text)
    case TelegramMarkdownV2 => MarkdownEscape(text)
    case SlackMrkdwn => SlackEscape(text)
    case Plain => text
  }

  function EscapeAlertLinkUrl(url: string, format: Format): string {
    match format
    case TelegramMarkdownV2 => MarkdownUrl(url)
    case TelegramHtml => EscapeAlertValue(url, format)
    case SlackMrkdwn => EscapeAlertValue(url, format)
    case Plain => url
  }

  function FormatAlertLink(title: string, url: string, format: Format): string {
    var safeLabel := EscapeAlertValue(title, format);
    if url == "" || format.Plain? then safeLabel
    else
      var safeUrl := EscapeAlertLinkUrl(url, format);
      match format
      case TelegramHtml => "<a href=\"" + safeUrl + "\">" + safeLabel + "</a>"
      case TelegramMarkdownV2 => "[" + safeLabel + "](" + safeUrl + ")"
      case SlackMrkdwn => "<" + safeUrl + "|" + safeLabel + ">"
      case Plain => safeLabel
  }

  // ------------------------------------------- replacing in turn is one pass by character

  function HtmlChar(c: char): string {
    if c == '&' then "&amp;" else if c == '<' then "&lt;" else if c == '>' then "&gt;"
    else if c == '"' then "&quot;" else if c == '\'' then "&#x27;" else [c]
  }

  function SlackChar(c: char): string {
    if c == '&' then "&amp;" else if c == '<' then "&lt;" else if c == '>' then "&gt;" else [c]
  }

  function UrlChar(c: char): string {
    if c == '\\' then "%5C" else if c == ')' then "%29" else [c]
  }

  function MapChars(s: string, f: char -> string): string {
    if s == "" then "" else f(s[0]) + MapChars(s[1..], f)
  }

  lemma {:induction false} ReplaceConcat(a: string, b: string, c: char, sub: string)
    ensures Replace(a + b, c, sub) == Replace(a, c, sub) + Replace(b, c, sub)
    decreases |a|
  {
    if a == "" {
      assert a + b == b;
    } else {
      assert (a + b)[1..] == a[1..] + b;
      ReplaceConcat(a[1..], b, c, sub);
    }
  }

  lemma {:induction false} ReplaceAbsent(s: string, c: char, sub: string)
    requires c !in s
    ensures Replace(s, c, sub) == s
    decreases |s|
  {
    if s != "" {
      ReplaceAbsent(s[1..], c, sub);
    }
  }

  lemma ReplaceOne(c: char, d: char, sub: string)
    ensures Replace([c], d, sub) == if c == d then sub else [c]
  {
    assert Replace([c][1..], d, sub) == "";
  }

  lemma SlackEscapeOne(c: char)
    ensures SlackEscape([c]) == SlackChar(c)
  {
    ReplaceOne(c, '&', "&amp;");
    if c == '&' {
      ReplaceAbsent("&amp;", '<', "&lt;");
      ReplaceAbsent("&amp;", '>', "&gt;");
    } else {
      ReplaceOne(c, '<', "&lt;");
      if c == '<' {
        ReplaceAbsent("&lt;", '>', "&gt;");
      } else {
        ReplaceOne(c, '>', "&gt;");
      }
    }
  }

  lemma SlackEscapeConcat(a: string, b: string)
    ensures SlackEscape(a + b) == SlackEscape(a) + SlackEscape(b)
  {
    ReplaceConcat(a, b, '&', "&amp;");
    var a1, b1 := Replace(a, '&', "&amp;"), Replace(b, '&', "&amp;");
    ReplaceConcat(a1, b1, '<', "&lt;");
    ReplaceConcat(Replace(a1, '<', "&lt;"), Replace(b1, '<', "&lt;"), '>', "&gt;");
  }

  /** Slack: three replacements in turn are one character-wise map. */
  lemma {:induction false} SlackEscapeIsCharwise(s: string)
    ensures SlackEscape(s) == MapChars(s, SlackChar)
    decreases |s|
  {
    if s != "" {
      assert s == [s[0]] + s[1..];
      SlackEscapeConcat([s[0]], s[1..]);
      SlackEscapeOne(s[0]);
      SlackEscapeIsCharwise(s[1..]);
    }
  }

  lemma HtmlEscapeOne(c: char)
    ensures HtmlEscape([c]) == HtmlChar(c)
  {
    SlackEscapeOne(c);
    var s := SlackChar(c);
    if c == '"' {
      ReplaceOne(c, '"', "&quot;");
      ReplaceAbsent("&quot;", '\'', "&#x27;");
    } else {
      ReplaceAbsent(s, '"', "&quot;");
      if c == '\'' {
        ReplaceOne(c, '\'', "&#x27;");
      } else {
        ReplaceAbsent(s, '\'', "&#x27;");
      }
    }
  }

  /** HTML: five replacements in turn are one character-wise map. */
  lemma {:induction false} HtmlEscapeIsCharwise(s: string)
    ensures HtmlEscape(s) == MapChars(s, HtmlChar)
    decreases |s|
  {
    if s != "" {
      assert s == [s[0]] + s[1..];
      var a, b := SlackEscape([s[0]]), SlackEscape(s[1..]);
      SlackEscapeConcat([s[0]], s[1..]);
      ReplaceConcat(a, b, '"', "&quot;");
      ReplaceConcat(Replace(a, '"', "&quot;"), Replace(b, '"', "&quot;"), '\'', "&#x27;");
      HtmlEscapeOne(s[0]);
      HtmlEscapeIsCharwise(s[1..]);
    }
  }

  lemma UrlOne(c: char)
    ensures MarkdownUrl([c]) == UrlChar(c)
  {
    ReplaceOne(c, '\\', "%5C");
    if c == '\\' {
      ReplaceAbsent("%5C", ')', "%29");
    } else {
      ReplaceOne(c, ')', "%29");
    }
  }

  lemma {:induction false} UrlIsCharwise(s: string)
    ensures MarkdownUrl(s) == MapChars(s, UrlChar)
    decreases |s|
  {
    if s != "" {
      assert s == [s[0]] + s[1..];
      ReplaceConcat([s[0]], s[1..], '\\', "%5C");
      ReplaceConcat(Replace([s[0]], '\\', "%5C"), Replace(s[1..], '\\', "%5C"), ')', "%29");
      UrlOne(s[0]);
      UrlIsCharwise(s[1..]);
    }
  }

  /** A character no image contains is in no mapped text. */
  lemma {:induction false} MapCharsAvoids(s: string, f: char -> string, c: char)
    requires forall d: char :: c !in f(d)
    ensures c !in MapChars(s, f)
    decreases |s|
  {
    if s != "" {
      MapCharsAvoids(s[1..], f, c);
    }
  }

  // -------------------------------------------------------------- undoing the escapes

  /** The character reference a text starts with, as (character, length); the five the escapers write. */
  function Reference(s: string): Option<(char, nat)> {
    if "&amp;" <= s then Some(('&', 5))
    else if "&lt;" <= s then Some(('<', 4))
    else if "&gt;" <= s then Some(('>', 4))
    else if "&quot;" <= s then Some(('"', 6))
    else if "&#x27;" <= s then Some(('\'', 6))
    else None
  }

  function Unescape(s: string): string
    decreases |s|
  {
    if s == "" then ""
    else
      var r := Reference(s);
      if r.Some? then [r.value.0] + Unescape(s[r.value.1..]) else [s[0]] + Unescape(s[1..])
  }

  /** The second character tells the five references apart, so nothing after one changes it. */
  lemma ReferenceStands(entity: string, c: char, rest: string)
    requires Reference(entity) == Some((c, |entity|))
    ensures Reference(entity + rest) == Reference(entity)
  {
    var s := entity + rest;
    assert s[1] == entity[1] && s[2] == entity[2];
    assert "&amp;"[1] == 'a' && "&lt;"[1] == 'l' && "&gt;"[1] == 'g' && "&quot;"[1] == 'q' && "&#x27;"[1] == '#';
    assert entity <= s;
  }

  lemma UnescapeRef(entity: string, c: char, rest: string)
    requires Reference(entity) == Some((c, |entity|))
    ensures Unescape(entity + rest) == [c] + Unescape(rest)
  {
    ReferenceStands(entity, c, rest);
    assert (entity + rest)[|entity|..] == rest;
  }

  lemma HtmlReference(c: char)
    requires HtmlChar(c) != [c]
    ensures Reference(HtmlChar(c)) == Some((c, |HtmlChar(c)|))
  {
    var e := HtmlChar(c);
    assert e[1] == if c == '&' then 'a' else if c == '<' then 'l' else if c == '>' then 'g' else if c == '"' then 'q' else '#';
    assert "&amp;"[1] == 'a' && "&lt;"[1] == 'l' && "&gt;"[1] == 'g' && "&quot;"[1] == 'q' && "&#x27;"[1] == '#';
  }

  lemma UnescapePlain(c: char, rest: string)
    requires c != '&'
    ensures Unescape([c] + rest) == [c] + Unescape(rest)
  {
    var s := [c] + rest;
    assert s[0] == c && s[1..] == rest;
    assert Reference(s).None?;
  }

  lemma {:induction false} HtmlRoundTrip(s: string)
    ensures Unescape(MapChars(s, HtmlChar)) == s
    decreases |s|
  {
    if s != "" {
      HtmlRoundTrip(s[1..]);
      var rest := MapChars(s[1..], HtmlChar);
      if HtmlChar(s[0]) == [s[0]] {
        UnescapePlain(s[0], rest);
      } else {
        HtmlReference(s[0]);
        UnescapeRef(HtmlChar(s[0]), s[0], rest);
      }
    }
  }

  lemma {:induction false} SlackRoundTrip(s: string)
    ensures Unescape(MapChars(s, SlackChar)) == s
    decreases |s|
  {
    if s != "" {
      SlackRoundTrip(s[1..]);
      var rest := MapChars(s[1..], SlackChar);
      if SlackChar(s[0]) == [s[0]] {
        UnescapePlain(s[0], rest);
      } else {
        HtmlReference(s[0]);
        UnescapeRef(SlackChar(s[0]), s[0], rest);
      }
    }
  }

  function MarkdownUnescape(s: string): string
    decreases |s|
  {
    if s == "" then ""
    else if s[0] == '\\' && |s| > 1 then [s[1]] + MarkdownUnescape(s[2..])
    else [s[0]] + MarkdownUnescape(s[1..])
  }

  lemma {:induction false} MarkdownRoundTrip(s: string)
    ensures MarkdownUnescape(MarkdownEscape(s)) == s
    decreases |s|
  {
    if s != "" {
      MarkdownRoundTrip(s[1..]);
      var rest := MarkdownEscape(s[1..]);
      if IsMarkdownSpecial(s[0]) {
        assert (['\\', s[0]] + rest)[2..] == rest;
      } else {
        assert s[0] != '\\';
        assert ([s[0]] + rest)[1..] == rest;
      }
    }
  }

  /** Escaping is undone by the format's own unescaping: no two values share an escaped text. */
  lemma EscapingIsReversible(text: string, format: Format)
    ensures match format
            case TelegramMarkdownV2 => MarkdownUnescape(EscapeAlertValue(text, format)) == text
            case TelegramHtml => Unescape(EscapeAlertValue(text, format)) == text
            case SlackMrkdwn => Unescape(EscapeAlertValue(text, format)) == text
            case Plain => EscapeAlertValue(text, format) == text
  {
    HtmlEscapeIsCharwise(text);
    HtmlRoundTrip(text);
    SlackEscapeIsCharwise(text);
    SlackRoundTrip(text);
    MarkdownRoundTrip(text);
  }

  // ------------------------------------------------------------------ taking links apart

  /** What a client reads off the front of a message: title, target, and the text after the link. */
  datatype Link = Link(title: string, url: string, tail: string)

  function ReadHtmlLink(s: string): Option<Link> {
    var open := "<a href=\"";
    if open <= s then ReadHtmlTarget(s[|open|..]) else None
  }

  function ReadHtmlTarget(body: string): Option<Link> {
    var i := IndexOf(body, '"');
    if "\">" <= body[i..] then ReadHtmlLabel(body[i..][2..], Unescape(body[..i])) else None
  }

  function ReadHtmlLabel(rest: string, url: string): Option<Link> {
    var j := IndexOf(rest, '<');
    if "</a>" <= rest[j..] then Some(Link(Unescape(rest[..j]), url, rest[j + 4..])) else None
  }

  /** Position of the first `stop` not preceded by a backslash escape. */
  function ScanUnescaped(s: string, stop: char): (i: nat)
    ensures i <= |s|
    decreases |s|
  {
    if s == "" || s[0] == stop then 0
    else if s[0] == '\\' && |s| > 1 then 2 + ScanUnescaped(s[2..], stop)
    else 1 + ScanUnescaped(s[1..], stop)
  }

  function ReadMarkdownLink(s: string): Option<Link> {
    if "[" <= s then ReadMarkdownLabel(s[1..]) else None
  }

  function ReadMarkdownLabel(body: string): Option<Link> {
    var i := ScanUnescaped(body, ']');
    if "](" <= body[i..] then ReadMarkdownTarget(body[i..][2..], MarkdownUnescape(body[..i])) else None
  }

  function ReadMarkdownTarget(rest: string, title: string): Option<Link> {
    var j := ScanUnescaped(rest, ')');
    if j == |rest| then None else Some(Link(title, rest[..j], rest[j + 1..]))
  }

  function ReadSlackLink(s: string): Option<Link> {
    if !("<" <= s) then None
    else
      var body := s[1..];
      var i := IndexOf(body, '|');
      if i == |body| then None
      else
        var rest := body[i + 1..];
        var j := IndexOf(rest, '>');
        if j == |rest| then None
        else Some(Link(Unescape(rest[..j]), Unescape(body[..i]), rest[j + 1..]))
  }

  lemma TakeApart(a: string, c: char, b: string)
    ensures var s := a + [c] + b;
            s[..|a|] == a && s[|a|] == c && s[|a|..] == [c] + b && s[|a| + 1..] == b
  {
  }

  lemma HtmlEscapedAvoids(s: string)
    ensures '"' !in HtmlEscape(s) && '<' !in HtmlEscape(s)
  {
    HtmlEscapeIsCharwise(s);
    MapCharsAvoids(s, HtmlChar, '"');
    MapCharsAvoids(s, HtmlChar, '<');
  }

  /** An HTML link reads back as exactly its label and URL, whatever follows it. */
  lemma HtmlLinkRoundTrip(title: string, url: string, tail: string)
    requires url != ""
    ensures ReadHtmlLink(FormatAlertLink(title, url, TelegramHtml) + tail) == Some(Link(title, url, tail))
  {
    var open, u, l := "<a href=\"", HtmlEscape(url), HtmlEscape(title);
    EscapingIsReversible(url, TelegramHtml);
    EscapingIsReversible(title, TelegramHtml);
    HtmlEscapedAvoids(url);
    HtmlEscapedAvoids(title);
    HtmlLinkShape(open, u, l, tail);
    ReadHtmlAt(u, l, tail);
  }

  lemma {:induction false} ReadHtmlLabelAt(l: string, tail: string, url: string)
    requires '<' !in l
    ensures ReadHtmlLabel(l + ['<'] + ("/a>" + tail), url) == Some(Link(Unescape(l), url, tail))
  {
    var after := "/a>" + tail;
    var rest := l + ['<'] + after;
    IndexOfFirst(l, '<', after);
    TakeApart(l, '<', after);
    assert rest[|l| + 4..] == rest[|l| + 1..][3..] == tail;
  }

  lemma ReadHtmlTargetAt(u: string, rest: string)
    requires '"' !in u
    ensures ReadHtmlTarget(u + ['"'] + (">" + rest)) == ReadHtmlLabel(rest, Unescape(u))
  {
    IndexOfFirst(u, '"', ">" + rest);
    TakeApart(u, '"', ">" + rest);
    assert (['"'] + (">" + rest))[2..] == rest;
  }

  lemma {:induction false} ReadHtmlAt(u: string, l: string, tail: string)
    requires '"' !in u && '<' !in l
    ensures ReadHtmlLink("<a href=\"" + (u + ['"'] + (">" + (l + ['<'] + ("/a>" + tail)))))
         == Some(Link(Unescape(l), Unescape(u), tail))
  {
    var inner := l + ['<'] + ("/a>" + tail);
    var body := u + ['"'] + (">" + inner);
    AfterPrefix("<a href=\"", body);
    ReadHtmlTargetAt(u, inner);
    ReadHtmlLabelAt(l, tail, Unescape(u));
  }

  lemma HtmlLinkShape(open: string, u: string, l: string, tail: string)
    ensures open + u + "\">" + l + "</a>" + tail
         == open + (u + ['"'] + (">" + (l + ['<'] + ("/a>" + tail))))
  {
    assert "\">" == ['"'] + ">" && "</a>" == ['<'] + "/a>";
  }

  lemma {:induction false} ScanEscaped(s: string, stop: char, rest: string)
    requires IsMarkdownSpecial(stop) && stop != '\\'
    ensures ScanUnescaped(MarkdownEscape(s) + [stop] + rest, stop) == |MarkdownEscape(s)|
    decreases |s|
  {
    if s == "" {
      assert (MarkdownEscape(s) + [stop] + rest)[0] == stop;
    } else {
      var next := MarkdownEscape(s[1..]) + [stop] + rest;
      ScanEscaped(s[1..], stop, rest);
      if IsMarkdownSpecial(s[0]) {
        assert MarkdownEscape(s) + [stop] + rest == ['\\', s[0]] + next;
        assert (['\\', s[0]] + next)[2..] == next;
      } else {
        assert MarkdownEscape(s) + [stop] + rest == [s[0]] + next;
        assert ([s[0]] + next)[1..] == next;
      }
    }
  }

  lemma {:induction false} ScanPlain(s: string, stop: char, rest: string)
    requires stop !in s && '\\' !in s
    ensures ScanUnescaped(s + [stop] + rest, stop) == |s|
    decreases |s|
  {
    if s != "" {
      assert (s + [stop] + rest)[1..] == s[1..] + [stop] + rest;
      ScanPlain(s[1..], stop, rest);
    }
  }

  /** A MarkdownV2 link reads back as its exact label and the URL with `\` and `)` percent-encoded. */
  lemma MarkdownLinkRoundTrip(title: string, url: string, tail: string)
    requires url != ""
    ensures ReadMarkdownLink(FormatAlertLink(title, url, TelegramMarkdownV2) + tail)
         == Some(Link(title, MarkdownUrl(url), tail))
  {
    var u, l := MarkdownUrl(url), MarkdownEscape(title);
    UrlIsCharwise(url);
    MapCharsAvoids(url, UrlChar, ')');
    MapCharsAvoids(url, UrlChar, '\\');
    MarkdownRoundTrip(title);
    MarkdownLinkShape(u, l, tail);
    ScanEscaped(title, ']', "(" + (u + [')'] + tail));
    ReadMarkdownAt(u, l, tail);
  }

  lemma ReadMarkdownTargetAt(u: string, tail: string, title: string)
    requires ')' !in u && '\\' !in u
    ensures ReadMarkdownTarget(u + [')'] + tail, title) == Some(Link(title, u, tail))
  {
    ScanPlain(u, ')', tail);
    TakeApart(u, ')', tail);
  }

  lemma {:induction false} ReadMarkdownLabelAt(l: string, rest: string)
    requires ScanUnescaped(l + [']'] + ("(" + rest), ']') == |l|
    ensures ReadMarkdownLabel(l + [']'] + ("(" + rest)) == ReadMarkdownTarget(rest, MarkdownUnescape(l))
  {
    TakeApart(l, ']', "(" + rest);
    assert ([']'] + ("(" + rest))[2..] == rest;
  }

  lemma {:induction false} ReadMarkdownAt(u: string, l: string, tail: string)
    requires ')' !in u && '\\' !in u
    requires ScanUnescaped(l + [']'] + ("(" + (u + [')'] + tail)), ']') == |l|
    ensures ReadMarkdownLink("[" + (l + [']'] + ("(" + (u + [')'] + tail))))
         == Some(Link(MarkdownUnescape(l), u, tail))
  {
    var inner := u + [')'] + tail;
    AfterPrefix("[", l + [']'] + ("(" + inner));
    ReadMarkdownLabelAt(l, inner);
    ReadMarkdownTargetAt(u, tail, MarkdownUnescape(l));
  }

  lemma MarkdownLinkShape(u: string, l: string, tail: string)
    ensures "[" + l + "](" + u + ")" + tail == "[" + (l + [']'] + ("(" + (u + [')'] + tail)))
  {
    assert "](" == [']'] + "(";
  }

  lemma SlackEscapedAvoids(s: string)
    ensures '>' !in SlackEscape(s)
    ensures '|' in SlackEscape(s) <==> '|' in s
    decreases |s|
  {
    SlackEscapeIsCharwise(s);
    MapCharsAvoids(s, SlackChar, '>');
    PipeKept(s);
  }

  lemma {:induction false} PipeKept(s: string)
    ensures '|' in MapChars(s, SlackChar) <==> '|' in s
    decreases |s|
  {
    if s != "" {
      PipeKept(s[1..]);
      assert s == [s[0]] + s[1..];
      assert '|' in SlackChar(s[0]) <==> s[0] == '|';
    }
  }

  lemma SlackLinkShape(u: string, l: string, tail: string)
    ensures "<" + u + "|" + l + ">" + tail == "<" + (u + ['|'] + (l + ['>'] + tail))
  {
  }

  lemma {:induction false} ReadSlackAt(u: string, l: string, tail: string)
    requires '|' !in u && '>' !in l
    ensures ReadSlackLink("<" + (u + ['|'] + (l + ['>'] + tail))) == Some(Link(Unescape(l), Unescape(u), tail))
  {
    var inner := l + ['>'] + tail;
    var body := u + ['|'] + inner;
    assert ("<" + body)[1..] == body;
    IndexOfFirst(u, '|', inner);
    TakeApart(u, '|', inner);
    IndexOfFirst(l, '>', tail);
    TakeApart(l, '>', tail);
  }

  lemma SlackKeepsItself(s: string)
    ensures Unescape(SlackEscape(s)) == s
  {
    SlackEscapeIsCharwise(s);
    SlackRoundTrip(s);
  }

  lemma SplitAtPipe(url: string) returns (before: string, after: string)
    requires '|' in url
    ensures url == before + (['|'] + after) && '|' !in before
  {
    var k := IndexOf(url, '|');
    IndexOfFound(url, '|');
    assert url[..|url|] == url;
    before, after := url[..k], url[k + 1..];
  }

  /** A URL with a pipe is cut at it: the client's URL is the part before, never the whole. */
  lemma SlackCutsAtPipe(url: string, rest: string)
    requires '|' in url
    ensures var s := SlackEscape(url) + ['|'] + rest;
            Unescape(s[..IndexOf(s, '|')]) != url
  {
    var before, after := SplitAtPipe(url);
    SlackEscapeConcat(before, ['|'] + after);
    SlackEscapeConcat(['|'], after);
    SlackEscapeOne('|');
    SlackEscapedAvoids(before);
    SlackKeepsItself(before);
    CutAt(SlackEscape(before), SlackEscape(after), rest);
    assert |before| < |url|;
  }

  lemma CutAt(a: string, b: string, rest: string)
    requires '|' !in a
    ensures var s := a + (['|'] + b) + ['|'] + rest;
            s[..IndexOf(s, '|')] == a
  {
    var more := b + ['|'] + rest;
    assert a + (['|'] + b) + ['|'] + rest == a + ['|'] + more;
    IndexOfFirst(a, '|', more);
    TakeApart(a, '|', more);
  }

  /** A Slack link reads back exactly when the URL has no pipe; the label may have any. */
  lemma SlackLinkRoundTrip(title: string, url: string, tail: string)
    requires url != ""
    ensures ReadSlackLink(FormatAlertLink(title, url, SlackMrkdwn) + tail) == Some(Link(title, url, tail))
       <==> '|' !in url
  {
    var u, l := SlackEscape(url), SlackEscape(title);
    SlackLinkShape(u, l, tail);
    SlackEscapedAvoids(url);
    SlackEscapedAvoids(title);
    var body := u + ['|'] + (l + ['>'] + tail);
    if '|' !in url {
      ReadSlackAt(u, l, tail);
      SlackKeepsItself(url);
      SlackKeepsItself(title);
    } else {
      SlackCutsAtPipe(url, l + ['>'] + tail);
      assert ("<" + body)[1..] == body;
    }
  }

  // ------------------------------------------------------- percent-encoding keeps the target

  function HexValue(c: char): Option<nat> {
    if '0' <= c <= '9' then Some(c as int - '0' as int)
    else if 'A' <= c <= 'F' then Some(c as int - 'A' as int + 10)
    else if 'a' <= c <= 'f' then Some(c as int - 'a' as int + 10)
    else None
  }

  predicate StartsTriplet(s: string) {
    |s| >= 3 && s[0] == '%' && HexValue(s[1]).Some? && HexValue(s[2]).Some?
  }

  /** The octets a URL stands for; a `%` that starts no triplet stands for itself. */
  function PercentDecode(s: string): seq<int>
    decreases |s|
  {
    if s == "" then []
    else if StartsTriplet(s) then [16 * HexValue(s[1]).value + HexValue(s[2]).value] + PercentDecode(s[3..])
    else [s[0] as int] + PercentDecode(s[1..])
  }

  lemma DecodeTriplet(triplet: string, rest: string)
    requires |triplet| == 3 && StartsTriplet(triplet)
    ensures PercentDecode(triplet + rest)
         == [16 * HexValue(triplet[1]).value + HexValue(triplet[2]).value] + PercentDecode(rest)
  {
    assert (triplet + rest)[3..] == rest;
  }

  /** Encoding never makes or breaks a triplet of the original. */
  lemma {:induction false} TripletsKept(s: string)
    requires s != "" && UrlChar(s[0]) == [s[0]]
    ensures var e := MapChars(s, UrlChar);
            && e != "" && e[0] == s[0] && e[1..] == MapChars(s[1..], UrlChar)
            && (StartsTriplet(e) <==> StartsTriplet(s))
            && (StartsTriplet(s) ==> e[1] == s[1] && e[2] == s[2] && e[3..] == MapChars(s[3..], UrlChar))
  {
  }

  /** The encoded MarkdownV2 target is the same resource: both decode to the same octets. */
  lemma MarkdownUrlKeepsTarget(url: string)
    ensures PercentDecode(MarkdownUrl(url)) == PercentDecode(url)
  {
    UrlIsCharwise(url);
    CharwiseKeepsTarget(url);
  }

  lemma {:induction false} CharwiseKeepsTarget(s: string)
    ensures PercentDecode(MapChars(s, UrlChar)) == PercentDecode(s)
    decreases |s|
  {
    if s != "" {
      var rest := MapChars(s[1..], UrlChar);
      if UrlChar(s[0]) != [s[0]] {
        CharwiseKeepsTarget(s[1..]);
        DecodeTriplet(UrlChar(s[0]), rest);
      } else {
        TripletsKept(s);
        if StartsTriplet(s) {
          CharwiseKeepsTarget(s[3..]);
        } else {
          CharwiseKeepsTarget(s[1..]);
        }
      }
    }
  }
}
