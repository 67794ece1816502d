/**
 Alert templates: which ones are accepted, and what rendering does with the `${name}` placeholders.

 Both read a template with one grammar, left to right: at each position a placeholder if one starts
 there, else a literal character.
 */
module AlertTemplates {
  import opened Text
  import opened Wrappers

  // ------------------------------------------------------------------- the grammar

  predicate IsNameStart(c: char) {
    'a' <= c <= 'z' || 'A' <= c <= 'Z' || c == '_'
  }

  predicate IsNameChar(c: char) {
    IsNameStart(c) || '0' <= c <= '9'
  }

  /** How many name characters a text starts with. */
  function NameLength(s: string): (n: nat)
    ensures n <= |s|
  {
    if s == "" || !IsNameChar(s[0]) then 0 else 1 + NameLength(s[1..])
  }

  /** The name of the placeholder a text starts with. */
  function PlaceholderAt(s: string): (name: Option<string>)
    ensures name.Some? ==> Placeholder(name.value) <= s
  {
    if |s| < 4 || s[0] != '$' || s[1] != '{' || !IsNameStart(s[2]) then None
    else
      var n := NameLength(s[2..]);
      if 2 + n < |s| && s[2 + n] == '}' then
        assert s[..2 + n + 1] == "${" + s[2..2 + n] + "}";
        Some(s[2..2 + n])
      else None
  }

  function Placeholder(name: string): string {
    "${" + name + "}"
  }

  datatype Part = Literal(c: char) | Variable(name: string)

  function Parts(t: string): seq<Part>
    decreases |t|
  {
    if t == "" then []
    else
      var name := PlaceholderAt(t);
      if name.Some? then [Variable(name.value)] + Parts(t[|name.value| + 3..])
      else [Literal(t[0])] + Parts(t[1..])
  }

  function TextOf(parts: seq<Part>): string {
    if parts == [] then ""
    else (match parts[0] case Literal(c) => [c] case Variable(name) => Placeholder(name)) + TextOf(parts[1..])
  }

  function NamesIn(parts: seq<Part>): set<string> {
    if parts == [] then {}
    else (match parts[0] case Literal(_) => {} case Variable(name) => {name}) + NamesIn(parts[1..])
  }

  // ------------------------------------------------------------ accepting and rendering

  function NormalizeTemplate(value: Option<string>): Option<string> {
    if value.None? || Strip(value.value) == "" then None else Some(Strip(value.value))
  }

  datatype Checked =
    | Accepted(format: string, message: Option<string>, items: Option<string>)
    | UnsupportedFormat
    | UnknownVariables(names: set<string>)
    | UnknownItemVariables(names: set<string>)

  function UnknownIn(template: Option<string>, known: set<string>): set<string> {
    if template.None? then {} else NamesIn(Parts(template.value)) - known
  }

  function ValidateTemplateConfiguration(supported: set<string>, format: Option<string>,
                                         message: Option<string>, items: Option<string>,
                                         messageNames: set<string>, itemNames: set<string>): Checked
  {
    var fmt := if format.None? || format.value == "" then "plain" else format.value;
    var msg, its := NormalizeTemplate(message), NormalizeTemplate(items);
    if fmt !in supported then UnsupportedFormat
    else if UnknownIn(msg, messageNames) != {} then UnknownVariables(UnknownIn(msg, messageNames))
    else if UnknownIn(its, itemNames) != {} then UnknownItemVariables(UnknownIn(its, itemNames))
    else Accepted(fmt, msg, its)
  }

  /** The substitution pass: a known name's value, any other placeholder as it stands. */
  function Render(t: string, vars: map<string, string>): string
    decreases |t|
  {
    if t == "" then ""
    else
      var name := PlaceholderAt(t);
      if name.Some? then
        (if name.value in vars then vars[name.value] else Placeholder(name.value))
        + Render(t[|name.value| + 3..], vars)
      else [t[0]] + Render(t[1..], vars)
  }

  // -------------------------------------------------------------------- what it means

  lemma SplitAtPrefix(p: string, t: string)
    requires p <= t
    ensures t == p + t[|p|..]
  {
  }

  /** The parts are the template, nothing lost and nothing added. */
  lemma {:induction false} PartsAreTheTemplate(t: string)
    ensures TextOf(Parts(t)) == t
    decreases |t|
  {
    if t != "" {
      var name := PlaceholderAt(t);
      if name.Some? {
        PartsAreTheTemplate(t[|name.value| + 3..]);
        SplitAtPrefix(Placeholder(name.value), t);
      } else {
        PartsAreTheTemplate(t[1..]);
        SplitAtPrefix([t[0]], t);
      }
    }
  }

  /** One value per placeholder between the literal characters, each value copied as it is. */
  function Fill(parts: seq<Part>, vars: map<string, string>): string
    requires NamesIn(parts) <= vars.Keys
  {
    if parts == [] then ""
    else
      assert parts[0].Variable? ==> parts[0].name in NamesIn(parts);
      (match parts[0] case Literal(c) => [c] case Variable(name) => vars[name]) + Fill(parts[1..], vars)
  }

  lemma {:induction false} RenderFills(t: string, vars: map<string, string>)
    requires NamesIn(Parts(t)) <= vars.Keys
    ensures Render(t, vars) == Fill(Parts(t), vars)
    decreases |t|
  {
    if t != "" {
      var name := PlaceholderAt(t);
      var rest := if name.Some? then t[|name.value| + 3..] else t[1..];
      assert Parts(t)[1..] == Parts(rest);
      RenderFills(rest, vars);
      if name.Some? {
        assert Parts(t)[0] == Variable(name.value);
      }
    }
  }

  /**
   What the check buys: an accepted message template, rendered where every documented variable has a
   value, is its literal characters with one value for each placeholder. Every placeholder is replaced
   and no value is scanned again. The item template likewise.
   */
  lemma AcceptedTemplatesFill(supported: set<string>, format: Option<string>,
                              message: Option<string>, items: Option<string>,
                              messageNames: set<string>, itemNames: set<string>,
                              vars: map<string, string>, itemVars: map<string, string>)
    requires messageNames <= vars.Keys && itemNames <= itemVars.Keys
    ensures var r := ValidateTemplateConfiguration(supported, format, message, items, messageNames, itemNames);
            && (r.Accepted? && r.message.Some? ==>
                  && NamesIn(Parts(r.message.value)) <= vars.Keys
                  && Render(r.message.value, vars) == Fill(Parts(r.message.value), vars))
            && (r.Accepted? && r.items.Some? ==>
                  && NamesIn(Parts(r.items.value)) <= itemVars.Keys
                  && Render(r.items.value, itemVars) == Fill(Parts(r.items.value), itemVars))
  {
    var r := ValidateTemplateConfiguration(supported, format, message, items, messageNames, itemNames);
    if r.Accepted? {
      assert UnknownIn(r.message, messageNames) == {} && UnknownIn(r.items, itemNames) == {};
      if r.message.Some? {
        forall n | n in NamesIn(Parts(r.message.value))
          ensures n in messageNames
        {
          assert n !in UnknownIn(r.message, messageNames);
        }
        RenderFills(r.message.value, vars);
      }
      if r.items.Some? {
        forall n | n in NamesIn(Parts(r.items.value))
          ensures n in itemNames
        {
          assert n !in UnknownIn(r.items, itemNames);
        }
        RenderFills(r.items.value, itemVars);
      }
    }
  }

  /** The placeholder of each name, as its own value. */
  function Standing(names: set<string>): map<string, string> {
    map n | n in names :: Placeholder(n)
  }

  /** Rendering with whatever is known is filling in, the unknown placeholders standing as they are. */
  lemma {:induction false} RenderKeepsUnknown(t: string, vars: map<string, string>, unknown: set<string>)
    requires NamesIn(Parts(t)) <= vars.Keys + unknown && unknown !! vars.Keys
    ensures Render(t, vars) == Fill(Parts(t), vars + Standing(unknown))
    decreases |t|
  {
    if t != "" {
      var name := PlaceholderAt(t);
      var rest := if name.Some? then t[|name.value| + 3..] else t[1..];
      assert Parts(t)[1..] == Parts(rest);
      RenderKeepsUnknown(rest, vars, unknown);
      if name.Some? {
        assert Parts(t)[0] == Variable(name.value);
      }
    }
  }

  /**
   What a refusal names: exactly the placeholders that rendering under the documented variables would
   leave standing in the text. Each of them is in the template and none has a value.
   */
  lemma RefusedNamesWouldStand(supported: set<string>, format: Option<string>,
                               message: Option<string>, items: Option<string>,
                               messageNames: set<string>, itemNames: set<string>,
                               vars: map<string, string>, itemVars: map<string, string>)
    requires vars.Keys == messageNames && itemVars.Keys == itemNames
    ensures var r := ValidateTemplateConfiguration(supported, format, message, items, messageNames, itemNames);
            && (r.UnknownVariables? ==>
                  && NormalizeTemplate(message).Some?
                  && WouldStand(NormalizeTemplate(message).value, vars, r.names))
            && (r.UnknownItemVariables? ==>
                  && NormalizeTemplate(items).Some?
                  && WouldStand(NormalizeTemplate(items).value, itemVars, r.names))
  {
    var r := ValidateTemplateConfiguration(supported, format, message, items, messageNames, itemNames);
    if r.UnknownVariables? {
      UnknownWouldStand(NormalizeTemplate(message).value, vars);
    } else if r.UnknownItemVariables? {
      UnknownWouldStand(NormalizeTemplate(items).value, itemVars);
    }
  }

  /** The names are in the template without a value, and the rest of it is filled in around them. */
  ghost predicate WouldStand(t: string, vars: map<string, string>, names: set<string>) {
    && names != {} && names <= NamesIn(Parts(t)) && names !! vars.Keys
    && NamesIn(Parts(t)) <= vars.Keys + names
    && Render(t, vars) == Fill(Parts(t), vars + Standing(names))
  }

  lemma UnknownWouldStand(t: string, vars: map<string, string>)
    requires UnknownIn(Some(t), vars.Keys) != {}
    ensures WouldStand(t, vars, UnknownIn(Some(t), vars.Keys))
  {
    RenderKeepsUnknown(t, vars, UnknownIn(Some(t), vars.Keys));
  }

  /** A template as it is checked and stored: stripped, and none if nothing is left. */
  lemma NormalizedExactly(template: Option<string>)
    ensures NormalizeTemplate(template) == None <==> template == None || Strip(template.value) == ""
    ensures NormalizeTemplate(template) != None ==> NormalizeTemplate(template) == Some(Strip(template.value))
  {
  }

  /**
   What the check decides: the format first, `plain` unless another is named; then both templates. Refused
   on the format exactly when the destination does not support it, else accepted exactly when every name is
   documented, with the templates stripped.
   */
  lemma DecidesExactly(supported: set<string>, format: Option<string>, message: Option<string>, items: Option<string>,
                       messageNames: set<string>, itemNames: set<string>)
    ensures var r := ValidateTemplateConfiguration(supported, format, message, items, messageNames, itemNames);
            var chosen := if format == None || format == Some("") then "plain" else format.value;
            var m, i := NormalizeTemplate(message), NormalizeTemplate(items);
            var known := && (m != None ==> NamesIn(Parts(m.value)) <= messageNames)
                         && (i != None ==> NamesIn(Parts(i.value)) <= itemNames);
            && (r == UnsupportedFormat <==> chosen !in supported)
            && (chosen in supported ==> (r == Accepted(chosen, m, i) <==> known))
            && (r.UnknownItemVariables? && m != None ==> NamesIn(Parts(m.value)) <= messageNames)
  {
    NothingUnknown(NormalizeTemplate(message), messageNames);
    NothingUnknown(NormalizeTemplate(items), itemNames);
  }

  lemma NothingUnknown(t: Option<string>, known: set<string>)
    ensures UnknownIn(t, known) == {} <==> (t != None ==> NamesIn(Parts(t.value)) <= known)
  {
    if t != None && UnknownIn(t, known) == {} {
      forall n | n in NamesIn(Parts(t.value))
        ensures n in known
      {
        assert n !in UnknownIn(t, known);
      }
    }
  }

  /** A template renders to itself when no placeholder has a value. */
  lemma {:induction false} NothingKnownChangesNothing(t: string)
    ensures Render(t, map[]) == t
    decreases |t|
  {
    if t != "" {
      var name := PlaceholderAt(t);
      if name.Some? {
        NothingKnownChangesNothing(t[|name.value| + 3..]);
        SplitAtPrefix(Placeholder(name.value), t);
      } else {
        NothingKnownChangesNothing(t[1..]);
        SplitAtPrefix([t[0]], t);
      }
    }
  }

  // ---------------------------------------------------------- the grammar, independently

  predicate IsLetter(c: char) {
    'a' <= c <= 'z' || 'A' <= c <= 'Z' || c == '_'
  }

  /** A name: an ASCII letter or underscore, then letters, underscores and digits. */
  predicate IsName(name: string) {
    name != "" && IsLetter(name[0]) && forall i :: 0 <= i < |name| ==> IsLetter(name[i]) || '0' <= name[i] <= '9'
  }

  lemma {:induction false} NameRun(s: string)
    ensures forall i :: 0 <= i < NameLength(s) ==> IsNameChar(s[i])
    ensures NameLength(s) < |s| ==> !IsNameChar(s[NameLength(s)])
    decreases |s|
  {
    if s != "" && IsNameChar(s[0]) {
      NameRun(s[1..]);
    }
  }

  lemma {:induction false} NameEnds(name: string, rest: string)
    requires forall i :: 0 <= i < |name| ==> IsNameChar(name[i])
    requires rest != "" && !IsNameChar(rest[0])
    ensures NameLength(name + rest) == |name|
    decreases |name|
  {
    if name == "" {
      assert name + rest == rest;
    } else {
      NameEnds(name[1..], rest);
      assert (name + rest)[1..] == name[1..] + rest;
    }
  }

  lemma NameFound(s: string, name: string)
    requires PlaceholderAt(s) == Some(name)
    ensures IsName(name)
  {
    var rest := s[2..];
    NameRun(rest);
    assert IsNameStart(rest[0]) && NameLength(rest) > 0;
    assert name == rest[..NameLength(rest)] && name[0] == rest[0];
    forall i | 0 <= i < |name|
      ensures IsLetter(name[i]) || '0' <= name[i] <= '9'
    {
      assert name[i] == rest[i] && IsNameChar(rest[i]);
    }
  }

  lemma PlaceholderFound(name: string, rest: string)
    requires IsName(name)
    ensures PlaceholderAt("${" + name + ("}" + rest)) == Some(name)
  {
    var s := "${" + name + ("}" + rest);
    assert s[2..] == name + ("}" + rest);
    NameEnds(name, "}" + rest);
    assert s[2..2 + |name|] == name;
  }

  /** A placeholder starts here exactly when the text begins with a dollar sign, a brace, a name and a brace. */
  lemma PlaceholderExactly(s: string, name: string)
    ensures PlaceholderAt(s) == Some(name) <==> IsName(name) && "${" + name + "}" <= s
  {
    if PlaceholderAt(s) == Some(name) {
      NameFound(s, name);
    }
    if IsName(name) && "${" + name + "}" <= s {
      var p := "${" + name + "}";
      PlaceholderFound(name, s[|p|..]);
      assert s == "${" + name + ("}" + s[|p|..]);
    }
  }

  /** Where a part starts in the text, a placeholder starts exactly if the part is a variable, and of its name. */
  lemma {:induction false} PartsExactly(t: string, j: nat)
    requires j < |Parts(t)|
    ensures PlaceholderAt(TextOf(Parts(t)[j..]))
         == match Parts(t)[j] case Variable(name) => Some(name) case Literal(_) => None
    decreases |t|
  {
    var name := PlaceholderAt(t);
    var rest := if name.Some? then t[|name.value| + 3..] else t[1..];
    assert Parts(t)[1..] == Parts(rest);
    if j == 0 {
      assert Parts(t)[0..] == Parts(t);
      PartsAreTheTemplate(t);
    } else {
      PartsExactly(rest, j - 1);
      assert Parts(t)[j..] == Parts(rest)[j - 1..];
    }
  }

  ghost predicate OccursAt(t: string, i: int, name: string) {
    0 <= i < |t| && PlaceholderAt(t[i..]) == Some(name)
  }

  /** The names found are the names of all placeholders in the text, wherever they stand: none overlaps another. */
  lemma {:induction false} NamesExactly(t: string, name: string)
    ensures name in NamesIn(Parts(t)) <==> exists i :: OccursAt(t, i, name)
    decreases |t|
  {
    if t != "" {
      var first := PlaceholderAt(t);
      var n := if first.Some? then |first.value| + 3 else 1;
      NamesExactly(t[n..], name);
      assert Parts(t)[1..] == Parts(t[n..]);
      assert t[0..] == t;
      assert OccursAt(t, 0, name) <==> first == Some(name);
      if first.Some? {
        InsideNoneStarts(t, first.value, name);
      }
      OccursShift(t, n, name);
      OccursSplit(t, n, name);
      assert name in NamesIn(Parts(t)) <==> first == Some(name) || name in NamesIn(Parts(t[n..]));
    }
  }

  lemma OccursSplit(t: string, n: nat, name: string)
    requires n >= 1 && forall i :: 1 <= i < n ==> !OccursAt(t, i, name)
    ensures (exists i :: OccursAt(t, i, name)) <==> OccursAt(t, 0, name) || exists i :: i >= n && OccursAt(t, i, name)
  {
  }

  /** A placeholder has one dollar sign, its first character. */
  lemma InsideNoneStarts(t: string, own: string, name: string)
    requires PlaceholderAt(t) == Some(own)
    ensures forall i :: 1 <= i < |own| + 3 ==> !OccursAt(t, i, name)
  {
    NameFound(t, own);
    assert forall i :: 2 <= i < |own| + 2 ==> t[i] == own[i - 2];
    forall i | 1 <= i < |own| + 3
      ensures !OccursAt(t, i, name)
    {
      assert t[i] != '$' && t[i..][0] == t[i];
    }
  }

  lemma OccursShift(t: string, n: nat, name: string)
    requires n <= |t|
    ensures (exists i :: OccursAt(t[n..], i, name)) <==> exists i :: i >= n && OccursAt(t, i, name)
  {
    if i :| OccursAt(t[n..], i, name) {
      assert t[n..][i..] == t[n + i..];
      assert OccursAt(t, n + i, name);
    }
    if i :| i >= n && OccursAt(t, i, name) {
      assert t[n..][i - n..] == t[i..];
      assert OccursAt(t[n..], i - n, name);
    }
  }

  // ------------------------------------------- placeholders in the rendered text

  ghost predicate HasPlaceholder(s: string) {
    exists i :: 0 <= i < |s| && PlaceholderAt(s[i..]).Some?
  }

  lemma NestedScan()
    ensures PlaceholderAt("${${a}}").None? && PlaceholderAt("{${a}}").None? && PlaceholderAt("}").None?
    ensures PlaceholderAt("${a}}") == Some("a")
    ensures "${${a}}"[1..] == "{${a}}" && "{${a}}"[1..] == "${a}}" && "${a}}"[4..] == "}" && "}"[1..] == ""
  {
    var t := "${a}}";
    assert t[2..] == "a}}" && "a}}"[1..] == "}}";
    assert NameLength("a}}") == 1 && t[2..3] == "a";
  }

  lemma NestedParts()
    ensures Parts("${${a}}") == [Literal('$'), Literal('{'), Variable("a"), Literal('}')]
    ensures NamesIn(Parts("${${a}}")) == {"a"}
  {
    NestedScan();
    assert Parts("}") == [Literal('}')];
    assert Parts("${a}}") == [Variable("a")] + Parts("}");
    NamesOf(Literal('$'), [Literal('{'), Variable("a"), Literal('}')]);
    NamesOf(Literal('{'), [Variable("a"), Literal('}')]);
    NamesOf(Variable("a"), [Literal('}')]);
    NamesOf(Literal('}'), []);
  }

  lemma NestedRender()
    ensures Render("${${a}}", map["a" := "b"]) == Placeholder("b")
  {
    NestedScan();
    var vars := map["a" := "b"];
    assert Render("}", vars) == "}";
    assert Render("${a}}", vars) == "b" + "}";
    assert Render("{${a}}", vars) == "{" + ("b" + "}");
  }

  lemma IsAPlaceholder()
    ensures HasPlaceholder(Placeholder("b"))
  {
    var p := Placeholder("b");
    assert p[0..] == p && p[2..] == "b}" && "b}"[1..] == "}";
    assert NameLength("}") == 0 && NameLength("b}") == 1;
    assert PlaceholderAt(p[0..]).Some?;
  }

  /** The template is used as it is: no space to strip. */
  lemma NestedIsNormal()
    ensures NormalizeTemplate(Some("${${a}}")) == Some("${${a}}")
  {
    var t := "${${a}}";
    assert t[0] == '$' && t[|t| - 1] == '}';
    assert StripLeft(t) == t && StripRight(t) == t;
  }

  /**
   "No placeholder left" does not mean the rendered text has none: `${${a}}` is accepted where only `a`
   is documented, and with `b` for `a`, a value without a dollar sign, it renders to `${b}`, which one
   pass leaves alone.
   */
  lemma LiteralsCanMakeAPlaceholder()
    ensures ValidateTemplateConfiguration({"plain"}, None, Some("${${a}}"), None, {"a"}, {})
         == Accepted("plain", Some("${${a}}"), None)
    ensures '$' !in "b"
    ensures HasPlaceholder(Render("${${a}}", map["a" := "b"]))
  {
    NestedIsNormal();
    NestedParts();
    NestedRender();
    IsAPlaceholder();
  }

  lemma NamesOf(first: Part, rest: seq<Part>)
    ensures NamesIn([first] + rest) == (match first case Literal(_) => {} case Variable(name) => {name}) + NamesIn(rest)
  {
    assert ([first] + rest)[1..] == rest;
  }

  // ----------------------------------- which templates can leave a placeholder

  /** Name characters, the first a name start unless the name has begun, and then a variable. */
  predicate NameThenVariable(parts: seq<Part>, begun: bool) {
    parts != [] &&
    match parts[0]
    case Variable(_) => true
    case Literal(c) => (if begun then IsNameChar(c) else IsNameStart(c)) && NameThenVariable(parts[1..], true)
  }

  /**
   A literal dollar sign that a value can complete: a variable follows it, or an open brace, possibly
   the start of a name, and then a variable.
   */
  predicate Opens(parts: seq<Part>) {
    && |parts| > 1 && parts[0] == Literal('$')
    && (parts[1].Variable? || (parts[1] == Literal('{') && NameThenVariable(parts[2..], false)))
  }

  ghost predicate CanLeaveOne(parts: seq<Part>) {
    exists i :: 0 <= i < |parts| && Opens(parts[i..])
  }

  /** Every placeholder has a value, and no value a dollar sign. */
  ghost predicate DollarFree(t: string, vars: map<string, string>) {
    NamesIn(Parts(t)) <= vars.Keys && forall n :: n in NamesIn(Parts(t)) ==> '$' !in vars[n]
  }

  /** Name characters, the first a name start unless the name has begun, and then a close brace. */
  predicate Closes(s: string, begun: bool) {
    s != "" &&
    ((begun && s[0] == '}')
     || ((if begun then IsNameChar(s[0]) else IsNameStart(s[0])) && Closes(s[1..], true)))
  }

  lemma {:induction false} ClosesByLength(s: string)
    ensures Closes(s, true) <==> NameLength(s) < |s| && s[NameLength(s)] == '}'
  {
    if s != "" && IsNameChar(s[0]) {
      ClosesByLength(s[1..]);
    }
  }

  lemma PlaceholderCloses(s: string)
    ensures PlaceholderAt(s).Some? <==> |s| > 2 && s[0] == '$' && s[1] == '{' && Closes(s[2..], false)
  {
    if |s| > 2 {
      ClosesByLength(s[2..]);
      ClosesByLength(s[2..][1..]);
    }
  }

  lemma DropOwn(own: string, rest: string, k: nat)
    requires |own| <= k <= |own + rest|
    ensures (own + rest)[k..] == rest[k - |own|..]
  {
  }

  function TextFor(part: Part, vars: map<string, string>): string
    requires part.Variable? ==> part.name in vars
  {
    match part case Literal(c) => [c] case Variable(name) => vars[name]
  }

  lemma FillFirst(parts: seq<Part>, vars: map<string, string>)
    requires parts != [] && NamesIn(parts) <= vars.Keys
    ensures NamesIn(parts[1..]) <= vars.Keys && (parts[0].Variable? ==> parts[0].name in vars)
    ensures Fill(parts, vars) == TextFor(parts[0], vars) + Fill(parts[1..], vars)
  {
    assert parts[0].Variable? ==> parts[0].name in NamesIn(parts);
  }

  lemma TailOfTail<T>(xs: seq<T>, i: nat)
    requires 0 < i <= |xs|
    ensures xs[1..][i - 1..] == xs[i..]
  {
  }

  /** A placeholder after the first parts is one in the whole text. */
  lemma {:induction false} PlaceholderAfter(parts: seq<Part>, i: nat, vars: map<string, string>) returns (k: nat)
    requires i <= |parts| && NamesIn(parts) <= vars.Keys
    ensures NamesIn(parts[i..]) <= vars.Keys
    ensures k <= |Fill(parts, vars)| && Fill(parts, vars)[k..] == Fill(parts[i..], vars)
    decreases i
  {
    if i == 0 {
      k := 0;
      assert parts[0..] == parts;
    } else {
      FillFirst(parts, vars);
      TailOfTail(parts, i);
      var m := PlaceholderAfter(parts[1..], i - 1, vars);
      k := |TextFor(parts[0], vars)| + m;
      DropOwn(TextFor(parts[0], vars), Fill(parts[1..], vars), k);
    }
  }

  lemma {:induction false} NamesOfTail(parts: seq<Part>, i: nat)
    requires i <= |parts|
    ensures NamesIn(parts[i..]) <= NamesIn(parts)
    decreases i
  {
    if i > 0 {
      NamesOfTail(parts[1..], i - 1);
      assert parts[1..][i - 1..] == parts[i..];
    }
  }

  /** The value that completes every name. */
  lemma {:induction false} FillCloses(parts: seq<Part>, vars: map<string, string>, begun: bool)
    requires NamesIn(parts) <= vars.Keys && forall n :: n in NamesIn(parts) ==> vars[n] == "a}"
    requires NameThenVariable(parts, begun)
    ensures Closes(Fill(parts, vars), begun)
    decreases |parts|
  {
    var s := Fill(parts, vars);
    match parts[0]
    case Variable(name) =>
      assert name in NamesIn(parts);
      assert s == "a}" + Fill(parts[1..], vars);
      assert s[0] == 'a' && s[1] == '}' && s[1..][0] == '}';
    case Literal(c) =>
      FillCloses(parts[1..], vars, true);
      assert s[0] == c && s[1..] == Fill(parts[1..], vars);
  }

  lemma FillOpens(parts: seq<Part>, names: set<string>) returns (vars: map<string, string>)
    requires Opens(parts) && NamesIn(parts) <= names
    ensures vars.Keys == names && forall n :: n in names ==> '$' !in vars[n]
    ensures PlaceholderAt(Fill(parts, vars)).Some?
  {
    vars := map n | n in names :: if parts[1].Variable? then "{a}" else "a}";
    var s := Fill(parts, vars);
    var rest := Fill(parts[1..], vars);
    assert s == "$" + rest && s[2..] == rest[1..];
    PlaceholderCloses(s);
    if parts[1].Variable? {
      assert parts[1].name in NamesIn(parts[1..]);
      var more := Fill(parts[1..][1..], vars);
      assert rest == "{a}" + more;
      assert rest[1..] == ['a'] + (['}'] + more);
    } else {
      assert parts[1..][1..] == parts[2..];
      FillCloses(parts[2..], vars, false);
      assert rest == "{" + Fill(parts[2..], vars);
    }
  }

  /** Filled in, the text closes a name that the template text does not: a variable helped. */
  lemma {:induction false} VariableHelped(r: string, vars: map<string, string>, begun: bool)
    requires NamesIn(Parts(r)) <= vars.Keys
    requires Closes(Fill(Parts(r), vars), begun) && !Closes(r, begun)
    ensures NameThenVariable(Parts(r), begun)
    decreases |r|
  {
    if PlaceholderAt(r).None? {
      assert Parts(r) == [Literal(r[0])] + Parts(r[1..]);
      assert Parts(r)[1..] == Parts(r[1..]);
      VariableHelped(r[1..], vars, true);
    }
  }

  lemma LiteralDollarOpens(t: string, vars: map<string, string>)
    requires t != "" && PlaceholderAt(t).None? && NamesIn(Parts(t)) <= vars.Keys
    requires PlaceholderAt(Fill(Parts(t), vars)).Some?
    ensures Opens(Parts(t))
  {
    var s, rest := Fill(Parts(t), vars), t[1..];
    assert Parts(t) == [Literal(t[0])] + Parts(rest);
    assert Parts(t)[1..] == Parts(rest);
    var filled := Fill(Parts(rest), vars);
    assert s == [t[0]] + filled && s[2..] == filled[1..];
    PlaceholderCloses(s);
    PlaceholderCloses(t);
    if PlaceholderAt(rest).None? {
      var more := rest[1..];
      assert Parts(rest) == [Literal(rest[0])] + Parts(more);
      assert Parts(rest)[1..] == Parts(more) && Parts(t)[2..] == Parts(more);
      assert filled == [rest[0]] + Fill(Parts(more), vars) && t[2..] == more;
      VariableHelped(more, vars, false);
    }
  }

  lemma CanLeaveOneShift(first: Part, rest: seq<Part>)
    ensures CanLeaveOne([first] + rest) <==> Opens([first] + rest) || CanLeaveOne(rest)
  {
    var all := [first] + rest;
    assert all[0..] == all;
    if i :| 0 <= i < |rest| && Opens(rest[i..]) {
      assert all[i + 1..] == rest[i..];
    }
    if i :| 0 <= i < |all| && Opens(all[i..]) {
      assert i > 0 ==> all[i..] == rest[i - 1..];
    }
  }

  lemma StartsWithDollar(s: string, k: nat)
    requires k < |s| && PlaceholderAt(s[k..]).Some?
    ensures s[k] == '$'
  {
    assert s[k..][0] == s[k];
  }

  /** The template's first part, its text, and the rest of the template. */
  lemma FirstPart(t: string, vars: map<string, string>) returns (own: string, rest: string)
    requires t != "" && NamesIn(Parts(t)) <= vars.Keys
    ensures |rest| < |t| && Parts(t) == [Parts(t)[0]] + Parts(rest)
    ensures NamesIn(Parts(rest)) <= NamesIn(Parts(t)) && Fill(Parts(t), vars) == own + Fill(Parts(rest), vars)
    ensures PlaceholderAt(t).None? ==> |own| == 1
    ensures PlaceholderAt(t).Some? ==> PlaceholderAt(t).value in NamesIn(Parts(t)) && own == vars[PlaceholderAt(t).value]
  {
    var name := PlaceholderAt(t);
    rest := if name.Some? then t[|name.value| + 3..] else t[1..];
    assert Parts(t)[1..] == Parts(rest);
    own := if name.Some? then vars[name.value] else [t[0]];
  }

  /** A dollar sign in the first part's text is a literal one, the whole of it. */
  lemma DollarIsLiteral(t: string, vars: map<string, string>, own: string, k: nat)
    requires DollarFree(t, vars) && t != "" && k < |own| && own[k] == '$'
    requires PlaceholderAt(t).None? ==> |own| == 1
    requires PlaceholderAt(t).Some? ==> PlaceholderAt(t).value in NamesIn(Parts(t)) && own == vars[PlaceholderAt(t).value]
    ensures PlaceholderAt(t).None? && k == 0
  {
  }

  lemma OpenAtTheFirst(t: string, vars: map<string, string>, own: string, s: string, k: nat)
    requires DollarFree(t, vars) && t != "" && s == Fill(Parts(t), vars)
    requires k < |own| && own <= s && PlaceholderAt(s[k..]).Some?
    requires PlaceholderAt(t).None? ==> |own| == 1
    requires PlaceholderAt(t).Some? ==> PlaceholderAt(t).value in NamesIn(Parts(t)) && own == vars[PlaceholderAt(t).value]
    ensures Opens(Parts(t))
  {
    StartsWithDollar(s, k);
    DollarIsLiteral(t, vars, own, k);
    assert s[0..] == s;
    LiteralDollarOpens(t, vars);
  }

  lemma {:induction false} LeftMeansOpen(t: string, vars: map<string, string>, s: string, k: nat)
    requires DollarFree(t, vars) && s == Fill(Parts(t), vars)
    requires k < |s| && PlaceholderAt(s[k..]).Some?
    ensures CanLeaveOne(Parts(t))
    decreases |t|
  {
    var own, rest := FirstPart(t, vars);
    CanLeaveOneShift(Parts(t)[0], Parts(rest));
    if k >= |own| {
      DropOwn(own, Fill(Parts(rest), vars), k);
      LeftMeansOpen(rest, vars, Fill(Parts(rest), vars), k - |own|);
    } else {
      OpenAtTheFirst(t, vars, own, s, k);
    }
  }

  /**
   Exactly which templates can leave a placeholder behind values that hold no dollar sign: those with a
   literal dollar sign right before a variable, or before an open brace, the start of a name and then a
   variable. The condition is on the template alone, so it can be checked when the template is saved.
   */
  lemma LeavesAPlaceholderExactly(t: string)
    ensures (exists vars :: DollarFree(t, vars) && HasPlaceholder(Render(t, vars))) <==> CanLeaveOne(Parts(t))
  {
    if vars :| DollarFree(t, vars) && HasPlaceholder(Render(t, vars)) {
      RenderFills(t, vars);
      var k :| 0 <= k < |Render(t, vars)| && PlaceholderAt(Render(t, vars)[k..]).Some?;
      LeftMeansOpen(t, vars, Render(t, vars), k);
    }
    if i :| 0 <= i < |Parts(t)| && Opens(Parts(t)[i..]) {
      SomeValuesLeaveOne(t, i);
    }
  }

  lemma SomeValuesLeaveOne(t: string, i: nat)
    requires i < |Parts(t)| && Opens(Parts(t)[i..])
    ensures exists vars :: DollarFree(t, vars) && HasPlaceholder(Render(t, vars))
  {
    var parts := Parts(t);
    NamesOfTail(parts, i);
    var vars := FillOpens(parts[i..], NamesIn(parts));
    RenderFills(t, vars);
    var k := PlaceholderAfter(parts, i, vars);
    assert PlaceholderAt(Render(t, vars)[k..]).Some?;
    assert DollarFree(t, vars);
  }

  /** With no literal dollar sign in the template and none in a value, the rendered text holds no placeholder. */
  lemma {:induction false} NoDollarNoPlaceholder(t: string, vars: map<string, string>)
    requires DollarFree(t, vars) && Literal('$') !in Parts(t)
    ensures !HasPlaceholder(Render(t, vars))
  {
    LeavesAPlaceholderExactly(t);
    assert forall i :: 0 <= i < |Parts(t)| ==> Parts(t)[i..][0] == Parts(t)[i];
  }
}
