/**
 Which characters an escaped text may hold, format by format: what a client would read as markup stands
 escaped, and nothing else is escaped.
 */
module AlertEscapes {
  import opened Text
  import opened Wrappers
  import opened AlertText

  // ------------------------------------------------------------------------ MarkdownV2

  /** The characters MarkdownV2 reserves. */
  const RESERVED := "_*[]()~`>#+-=|{}.!\\"

  /** Read left to right, a backslash taking the next character: reserved ones stand escaped, and only those. */
  predicate MarkdownSafe(s: string)
    decreases |s|
  {
    s != "" ==>
      if s[0] == '\\' then |s| > 1 && s[1] in RESERVED && MarkdownSafe(s[2..])
      else s[0] !in RESERVED && MarkdownSafe(s[1..])
  }

  lemma {:induction false} MarkdownIsSafe(s: string)
    ensures MarkdownSafe(EscapeAlertValue(s, TelegramMarkdownV2))
    decreases |s|
  {
    if s != "" {
      MarkdownIsSafe(s[1..]);
      var e, rest := MarkdownEscape(s), MarkdownEscape(s[1..]);
      if s[0] in RESERVED {
        assert e == ['\\', s[0]] + rest && e[2..] == rest;
      } else {
        assert e == [s[0]] + rest && e[1..] == rest;
      }
    }
  }

  /** A safe text is the escape of what it reads back as: safety and reading back fix the escaping. */
  lemma {:induction false} SafeIsTheEscape(e: string)
    requires MarkdownSafe(e)
    ensures e == EscapeAlertValue(MarkdownUnescape(e), TelegramMarkdownV2)
    decreases |e|
  {
    if e != "" {
      var n := if e[0] == '\\' then 2 else 1;
      SafeIsTheEscape(e[n..]);
      var back := MarkdownUnescape(e);
      assert back[1..] == MarkdownUnescape(e[n..]);
      assert e == e[..n] + e[n..];
    }
  }

  // --------------------------------------------------------------------- HTML and Slack

  predicate StartsOneOf(s: string, refs: seq<string>) {
    exists k :: 0 <= k < |refs| && refs[k] <= s
  }

  predicate CleanAt(e: string, i: nat, bare: string, refs: seq<string>)
    requires i < |e|
  {
    e[i] !in bare && (e[i] == '&' ==> StartsOneOf(e[i..], refs))
  }

  /** No character of `bare`, and an ampersand only where one of the references starts. */
  ghost predicate Clean(e: string, bare: string, refs: seq<string>) {
    forall i: nat :: i < |e| ==> CleanAt(e, i, bare, refs)
  }

  lemma CleanConcat(a: string, b: string, bare: string, refs: seq<string>)
    requires Clean(a, bare, refs) && Clean(b, bare, refs)
    ensures Clean(a + b, bare, refs)
  {
    forall i: nat | i < |a + b|
      ensures CleanAt(a + b, i, bare, refs)
    {
      if i < |a| {
        assert CleanAt(a, i, bare, refs);
        assert (a + b)[i..] == a[i..] + b;
        if a[i] == '&' {
          var k :| 0 <= k < |refs| && refs[k] <= a[i..];
          assert refs[k] <= (a + b)[i..];
        }
      } else {
        assert CleanAt(b, i - |a|, bare, refs);
        assert (a + b)[i..] == b[i - |a|..];
      }
    }
  }

  lemma {:induction false} MapCharsClean(s: string, f: char -> string, bare: string, refs: seq<string>)
    requires forall c :: Clean(f(c), bare, refs)
    ensures Clean(MapChars(s, f), bare, refs)
    decreases |s|
  {
    if s != "" {
      MapCharsClean(s[1..], f, bare, refs);
      CleanConcat(f(s[0]), MapChars(s[1..], f), bare, refs);
    }
  }

  /** A reference: an ampersand and then neither a character of `bare` nor an ampersand. */
  lemma ReferenceIsClean(e: string, bare: string, refs: seq<string>, k: nat)
    requires k < |refs| && refs[k] == e && e != "" && '&' !in bare
    requires forall i :: 1 <= i < |e| ==> e[i] !in bare && e[i] != '&'
    requires e[0] == '&'
    ensures Clean(e, bare, refs)
  {
    assert e[0..] == e;
    forall i: nat | i < |e|
      ensures CleanAt(e, i, bare, refs)
    {
      assert i == 0 ==> refs[k] <= e[i..];
    }
  }

  lemma PlainIsClean(c: char, bare: string, refs: seq<string>)
    requires c !in bare && c != '&'
    ensures Clean([c], bare, refs)
  {
  }

  const MARKUP := "<>\"'"

  const HTML_REFERENCES: seq<string> := ["&amp;", "&lt;", "&gt;", "&quot;", "&#x27;"]

  lemma HtmlCharIsClean(c: char)
    ensures Clean(HtmlChar(c), MARKUP, HTML_REFERENCES)
  {
    var e := HtmlChar(c);
    if c == '&' {
      ReferenceIsClean(e, MARKUP, HTML_REFERENCES, 0);
    } else if c == '<' {
      ReferenceIsClean(e, MARKUP, HTML_REFERENCES, 1);
    } else if c == '>' {
      ReferenceIsClean(e, MARKUP, HTML_REFERENCES, 2);
    } else if c == '"' {
      ReferenceIsClean(e, MARKUP, HTML_REFERENCES, 3);
    } else if c == '\'' {
      ReferenceIsClean(e, MARKUP, HTML_REFERENCES, 4);
    } else {
      PlainIsClean(c, MARKUP, HTML_REFERENCES);
    }
  }

  /** HTML text keeps no angle bracket and no quote, and an ampersand only as one of five references. */
  lemma HtmlIsClean(text: string)
    ensures Clean(EscapeAlertValue(text, TelegramHtml), "<>\"'", ["&amp;", "&lt;", "&gt;", "&quot;", "&#x27;"])
  {
    HtmlEscapeIsCharwise(text);
    forall c
      ensures Clean(HtmlChar(c), MARKUP, HTML_REFERENCES)
    {
      HtmlCharIsClean(c);
    }
    MapCharsClean(text, HtmlChar, MARKUP, HTML_REFERENCES);
  }

  const SLACK_REFERENCES: seq<string> := ["&amp;", "&lt;", "&gt;"]

  lemma SlackCharIsClean(c: char)
    ensures Clean(SlackChar(c), "<>", SLACK_REFERENCES)
  {
    var e := SlackChar(c);
    if c == '&' {
      ReferenceIsClean(e, "<>", SLACK_REFERENCES, 0);
    } else if c == '<' {
      ReferenceIsClean(e, "<>", SLACK_REFERENCES, 1);
    } else if c == '>' {
      ReferenceIsClean(e, "<>", SLACK_REFERENCES, 2);
    } else {
      PlainIsClean(c, "<>", SLACK_REFERENCES);
    }
  }

  /** Slack text keeps no angle bracket, and an ampersand only as one of three references: quotes stay as they are. */
  lemma SlackIsClean(text: string)
    ensures Clean(EscapeAlertValue(text, SlackMrkdwn), "<>", ["&amp;", "&lt;", "&gt;"])
  {
    SlackEscapeIsCharwise(text);
    forall c
      ensures Clean(SlackChar(c), "<>", SLACK_REFERENCES)
    {
      SlackCharIsClean(c);
    }
    MapCharsClean(text, SlackChar, "<>", SLACK_REFERENCES);
  }

  function UrlPart(c: char): string {
    if c == ')' then "%29" else if c == '\\' then "%5C" else [c]
  }

  /** In a MarkdownV2 target the closing parenthesis and the backslash are percent-encoded, every other character stands. */
  lemma {:induction false} UrlExactly(url: string)
    ensures EscapeAlertLinkUrl(url, TelegramMarkdownV2) == MapChars(url, UrlPart)
    decreases |url|
  {
    UrlIsCharwise(url);
    SameMap(url, UrlChar, UrlPart);
  }

  lemma {:induction false} SameMap(s: string, f: char -> string, g: char -> string)
    requires forall c :: f(c) == g(c)
    ensures MapChars(s, f) == MapChars(s, g)
    decreases |s|
  {
    if s != "" {
      SameMap(s[1..], f, g);
    }
  }

  /** No URL, or a format without links: the escaped label alone. */
  lemma BareLabel(title: string, url: string, format: Format)
    requires url == "" || format == Plain
    ensures FormatAlertLink(title, url, format) == EscapeAlertValue(title, format)
  {
  }
}
