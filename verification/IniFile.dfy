/** A whole INI file: the callbacks its lines give rise to, and the way back from fields to text. */
module IniFile {
  import opened Schema
  import opened Characters
  import opened Text
  import opened IniText
  import opened Expansion
  import opened Runtime
  import opened IniEmitter
  import opened CliEmitter
  import opened Dispatch
  import opened Lifecycle

  // ----- Cutting a file into lines -----

  /** The line buffer of the reader, its terminator included. */
  const BUFFER: nat := 4096

  /** How much one call of `fgets` takes: up to and with a newline, and never more than fits. */
  function LineLength(text: string): (n: nat)
    ensures n <= |text| && n < BUFFER && (text != [] ==> n > 0)
  {
    var head := Head(text, '\n');
    var n := if |head| < |text| then |head| + 1 else |head|;
    if n < BUFFER then n else BUFFER - 1
  }

  /** The file as the successive calls deliver it. */
  function Lines(text: string): seq<string>
    decreases |text|
  {
    if text == [] then [] else [text[..LineLength(text)]] + Lines(text[LineLength(text)..])
  }

  /** The buffer is read as a C string. */
  function LineEffectOf(line: string): LineEffect {
    EffectOf(Head(line, '\0'))
  }

  // ----- What the lines do -----

  /** The section after one line. */
  function SectionAfter(section: string, line: string): string {
    match LineEffectOf(line)
    case NewSection(s, _) => s
    case _ => section
  }

  /** The callbacks of one line. */
  function CallbacksOf(section: string, line: string): seq<IniEvent> {
    match LineEffectOf(line)
    case NewSection(s, true) => [IniEvent(s, Header)]
    case Assignment(k, v) => [IniEvent(section, Line(k, v))]
    case _ => []
  }

  predicate IsSyntaxError(line: string) {
    LineEffectOf(line) == NoBracket || LineEffectOf(line) == NoEquals
  }

  function EventsOf(section: string, lines: seq<string>): seq<IniEvent>
    decreases |lines|
  {
    if lines == [] then []
    else CallbacksOf(section, lines[0]) + EventsOf(SectionAfter(section, lines[0]), lines[1..])
  }

  predicate AnyError(lines: seq<string>) {
    exists i :: 0 <= i < |lines| && IsSyntaxError(lines[i])
  }

  lemma EventsTurn(done: seq<IniEvent>, section: string, lines: seq<string>)
    requires lines != []
    ensures done + EventsOf(section, lines)
         == (done + CallbacksOf(section, lines[0])) + EventsOf(SectionAfter(section, lines[0]), lines[1..])
  {
  }

  /** One turn of the reading loop. */
  method TakeLine(section: string, line: string) returns (section': string, callbacks: seq<IniEvent>, bad: bool)
    ensures section' == SectionAfter(section, line) && callbacks == CallbacksOf(section, line) && bad == IsSyntaxError(line)
  {
    section', callbacks, bad := section, [], false;
    var e := ReadLine(Head(line, '\0'));
    match e {
      case NewSection(s, isElement) =>
        section' := s;
        if isElement {
          callbacks := [IniEvent(s, Header)];
        }
      case Assignment(k, v) =>
        callbacks := [IniEvent(section, Line(k, v))];
      case Ignored =>
      case _ =>
        bad := true;
    }
  }

  lemma LinesTurn(done: seq<string>, rest: string)
    requires rest != []
    ensures done + Lines(rest) == done + [rest[..LineLength(rest)]] + Lines(rest[LineLength(rest)..])
  {
  }

  /** `cfg_parse_ini` on a whole file: a bad line is reported and skipped, and reading goes on. */
  method ParseIni(text: string) returns (events: seq<IniEvent>, success: bool)
    ensures events == EventsOf("", Lines(text))
    ensures success <==> !AnyError(Lines(text))
  {
    var section := "";
    events := [];
    success := true;
    var rest := text;
    ghost var done: seq<string> := [];
    assert done + Lines(text) == Lines(text);
    while rest != []
      invariant Lines(text) == done + Lines(rest)
      invariant events + EventsOf(section, Lines(rest)) == EventsOf("", Lines(text))
      invariant success <==> !AnyError(done)
      decreases |rest|
    {
      var n := LineLength(rest);
      var line := rest[..n];
      LinesTurn(done, rest);
      EventsTurn(events, section, Lines(rest));
      AnyErrorGrows(done, line);
      var bad, more;
      section, more, bad := TakeLine(section, line);
      events := events + more;
      success := success && !bad;
      done := done + [line];
      rest := rest[n..];
    }
    assert done + [] == done && Lines(rest) == [];
  }

  lemma AnyErrorGrows(lines: seq<string>, line: string)
    ensures AnyError(lines + [line]) <==> AnyError(lines) || IsSyntaxError(line)
  {
    assert (lines + [line])[|lines|] == line;
    if AnyError(lines) {
      var k :| 0 <= k < |lines| && IsSyntaxError(lines[k]);
      assert IsSyntaxError((lines + [line])[k]);
    }
  }

  // ----- What no file can say -----

  lemma LineIsLine(text: string)
    requires text != []
    ensures IsLine(Head(text[..LineLength(text)], '\0'))
  {
    var line := text[..LineLength(text)];
    var front := Head(text, '\n');
    assert forall i :: 0 <= i < |line| - 1 ==> line[i] == front[i];
  }

  /** Whatever the file, the text of a line that it assigns has no newline and no NUL and is shorter than
      the buffer: such values cannot be saved at all. */
  lemma {:induction false} AssignedTextsFitALine(section: string, text: string)
    ensures forall k :: 0 <= k < |EventsOf(section, Lines(text))| ==>
              var e := EventsOf(section, Lines(text))[k].event;
              e.Line? ==> '\n' !in e.val && '\0' !in e.val && |e.val| + 1 < BUFFER
    decreases |text|
  {
    if text != [] {
      var n := LineLength(text);
      var line := text[..n];
      LineIsLine(text);
      if LineEffectOf(line).Assignment? {
        AssignedIsWithin(Head(line, '\0'));
      }
      assert Lines(text)[0] == line && Lines(text)[1..] == Lines(text[n..]);
      AssignedTextsFitALine(SectionAfter(section, line), text[n..]);
    }
  }

  // ----- Writing a configuration down -----

  /** `[S.a.b]` and `k = "v"` for a leaf with path `a.b.k`. */
  function SectionOf(root: string, l: Leaf): string
    requires l.path != []
  {
    Join([root] + l.path[..|l.path| - 1], '.')
  }

  function HeaderLine(section: string): string {
    "[" + (section + ("]" + "\n"))
  }

  function ValueLine(key: string, v: string): string {
    [] + (key + " " + ("=" + (" " + ("\"" + v + "\"" + ("\n" + [])))))
  }

  /** A value that fits between quotes on one line of the reader's buffer. */
  predicate IsSavable(key: string, v: string) {
    '"' !in v && '\n' !in v && '\0' !in v && |ValueLine(key, v)| < BUFFER
  }

  lemma {:induction false} HeadIsAll(s: string, c: char)
    requires c !in s
    ensures Head(s, c) == s
  {
    HeadOf(s, "", c);
    assert s + "" == s;
  }

  lemma ValueLineText(key: string, v: string)
    ensures ValueLine(key, v) == key + " = \"" + v + "\"" + "\n"
  {
  }

  lemma ValueLineReadsBack(key: string, v: string)
    requires IsName(key) && IsSavable(key, v)
    ensures LineEffectOf(ValueLine(key, v)) == Assignment(key, v)
    ensures EndsLine(ValueLine(key, v))
  {
    NameIsKey(key);
    ValueLineText(key, v);
    var front := key + " = \"" + v + "\"";
    assert '\n' !in front && '\0' !in front + "\n";
    LineEnds(front);
    HeadIsAll(ValueLine(key, v), '\0');
    QuotedLineIsVerbatim([], key, " ", " ", v, "\n", []);
  }

  lemma HeaderLineReadsBack(section: string)
    requires IsSectionName(section) && '\n' !in section && '\0' !in section
    ensures LineEffectOf(HeaderLine(section)) == NewSection(section, false)
    ensures EndsLine(HeaderLine(section))
  {
    var front := "[" + section + "]";
    assert HeaderLine(section) == front + "\n";
    LineEnds(front);
    HeadIsAll(HeaderLine(section), '\0');
    HeaderReadsBack(section, "\n");
  }

  /** One newline, at the end, and short enough for the buffer. */
  predicate EndsLine(s: string) {
    0 < |s| < BUFFER && Head(s, '\n') == s[..|s| - 1] && s[|s| - 1] == '\n'
  }

  lemma LineEnds(front: string)
    requires '\n' !in front && |front| + 1 < BUFFER
    ensures EndsLine(front + "\n")
  {
    HeadOf(front, "\n", '\n');
  }

  /** The first line of a text is cut where it was written to end. */
  lemma LinesOfText(line: string, rest: string)
    requires EndsLine(line)
    ensures Lines(line + rest) == [line] + Lines(rest)
  {
    var front, text := line[..|line| - 1], line + rest;
    assert text == front + ("\n" + rest);
    assert '\n' !in front;
    HeadOf(front, "\n" + rest, '\n');
    assert text[..|line|] == line && text[|line|..] == rest;
  }

  lemma NameIsKey(n: string)
    requires IsName(n)
    ensures IsKey(n)
  {
    assert IsNameChar(n[0]) && IsNameChar(n[|n| - 1]);
  }

  /** The two lines of a leaf, as text. */
  function LeafText(root: string, l: Leaf, v: string): string
    requires l.path != []
  {
    HeaderLine(SectionOf(root, l)) + ValueLine(l.path[|l.path| - 1], v)
  }

  /** A leaf written as a section header and a quoted value is addressed by exactly that line, with
      the value untouched, whatever section was open before and whatever text follows. */
  lemma LeafReadsBack(u: Unit, root: string, l: Leaf, v: string, before: string, rest: string)
    requires Ready(u) && ProgramNamed(u.prog) && IsDeclared(u.prog, root)
    requires l in RootLeaves(u, root) && Fits(root, l) && IsSavable(l.path[|l.path| - 1], v)
    ensures (var e := IniEvent(SectionOf(root, l), Line(l.path[|l.path| - 1], v));
             EventsOf(before, Lines(LeafText(root, l, v) + rest)) == [e] + EventsOf(e.section, Lines(rest)) &&
             (AnyError(Lines(LeafText(root, l, v) + rest)) <==> AnyError(Lines(rest))) &&
             Addressed(root, l, e))
  {
    var header, line := HeaderLine(SectionOf(root, l)), ValueLine(l.path[|l.path| - 1], v);
    LeafIsAddressed(u, root, l, v);
    assert LeafText(root, l, v) + rest == header + (line + rest);
    LinesOfText(header, line + rest);
    LinesOfText(line, rest);
    TwoLines(before, header, line, SectionOf(root, l), l.path[|l.path| - 1], v, Lines(rest));
  }

  lemma LeafIsAddressed(u: Unit, root: string, l: Leaf, v: string)
    requires Ready(u) && ProgramNamed(u.prog) && IsDeclared(u.prog, root)
    requires l in RootLeaves(u, root) && Fits(root, l) && IsSavable(l.path[|l.path| - 1], v)
    ensures Addressed(root, l, IniEvent(SectionOf(root, l), Line(l.path[|l.path| - 1], v)))
    ensures (var header, line := HeaderLine(SectionOf(root, l)), ValueLine(l.path[|l.path| - 1], v);
             LineEffectOf(header) == NewSection(SectionOf(root, l), false) && EndsLine(header) &&
             LineEffectOf(line) == Assignment(l.path[|l.path| - 1], v) && EndsLine(line))
  {
    BodyIsBelow(u, root);
    var i := FindSchemaIndex(u.prog, root);
    LeavesAreNamed(u, Body(u, root), Rank(u, root), [], root, l);
    var full, key := [root] + l.path[..|l.path| - 1], l.path[|l.path| - 1];
    NamesSplit(full);
    TokensOfJoin(full, '.');
    NamesLackBrackets(full);
    HeaderLineReadsBack(SectionOf(root, l));
    ValueLineReadsBack(key, v);
  }

  lemma NamesLackBrackets(names: seq<string>)
    requires AreNames(names)
    ensures '[' !in Join(names, '.') && ']' !in Join(names, '.')
    ensures '\n' !in Join(names, '.') && '\0' !in Join(names, '.')
  {
    JoinLacks(names, '.', '[');
    JoinLacks(names, '.', ']');
    JoinLacks(names, '.', '\n');
    JoinLacks(names, '.', '\0');
  }

  lemma TwoLines(before: string, header: string, line: string, section: string, key: string, v: string, more: seq<string>)
    requires LineEffectOf(header) == NewSection(section, false) && LineEffectOf(line) == Assignment(key, v)
    ensures EventsOf(before, [header] + ([line] + more)) == [IniEvent(section, Line(key, v))] + EventsOf(section, more)
    ensures AnyError([header] + ([line] + more)) <==> AnyError(more)
  {
    var lines := [header] + ([line] + more);
    assert lines[1..] == [line] + more && lines[1..][1..] == more;
    assert EventsOf(section, [line] + more) == [IniEvent(section, Line(key, v))] + EventsOf(section, more);
    assert EventsOf(before, lines) == [] + EventsOf(section, lines[1..]);
    AnyErrorCons(header, [line] + more);
    AnyErrorCons(line, more);
  }

  lemma AnyErrorCons(line: string, more: seq<string>)
    requires !IsSyntaxError(line)
    ensures AnyError([line] + more) <==> AnyError(more)
  {
    var lines := [line] + more;
    if AnyError(more) {
      var k :| 0 <= k < |more| && IsSyntaxError(more[k]);
      assert IsSyntaxError(lines[k + 1]);
    }
    if AnyError(lines) {
      var k :| 0 <= k < |lines| && IsSyntaxError(lines[k]);
      assert lines[k] == more[k - 1];
    }
  }

  // ----- A whole configuration -----

  datatype Entry = Entry(leaf: Leaf, value: string)

  predicate CanBeSaved(u: Unit, root: string, es: seq<Entry>)
    requires Ready(u) && IsDeclared(u.prog, root)
  {
    forall i :: 0 <= i < |es| ==>
      && es[i].leaf in RootLeaves(u, root) && Fits(root, es[i].leaf)
      && IsSavable(es[i].leaf.path[|es[i].leaf.path| - 1], es[i].value)
  }

  function EventFor(root: string, e: Entry): IniEvent
    requires e.leaf.path != []
  {
    IniEvent(SectionOf(root, e.leaf), Line(e.leaf.path[|e.leaf.path| - 1], e.value))
  }

  /** The text of a file that saves the entries. */
  function Saved(root: string, es: seq<Entry>): string
    requires forall i :: 0 <= i < |es| ==> es[i].leaf.path != []
  {
    if es == [] then [] else LeafText(root, es[0].leaf, es[0].value) + Saved(root, es[1..])
  }

  /** The values saved for a path, in order. */
  function ValuesFor(path: seq<string>, es: seq<Entry>): seq<string> {
    if es == [] then [] else (if es[0].leaf.path == path then [es[0].value] else []) + ValuesFor(path, es[1..])
  }

  /** Another leaf's line is not addressed to this one. */
  lemma AddressedByPath(u: Unit, root: string, l: Leaf, e: Entry)
    requires Ready(u) && ProgramNamed(u.prog) && IsDeclared(u.prog, root)
    requires l.path != [] && e.leaf in RootLeaves(u, root) && Fits(root, e.leaf)
    requires IsSavable(e.leaf.path[|e.leaf.path| - 1], e.value)
    ensures Addressed(root, l, EventFor(root, e)) <==> e.leaf.path == l.path
  {
    LeafIsAddressed(u, root, e.leaf, e.value);
    assert HandlerParts(SectionOf(root, e.leaf)) == [root] + e.leaf.path[..|e.leaf.path| - 1];
    PathsFromParts(root, e.leaf.path, l.path);
  }

  lemma PathsFromParts(root: string, p: seq<string>, q: seq<string>)
    requires p != [] && q != []
    ensures p == q <==> [root] + p[..|p| - 1] == [root] + q[..|q| - 1] && p[|p| - 1] == q[|q| - 1]
  {
    var a, b := [root] + p[..|p| - 1], [root] + q[..|q| - 1];
    assert p == a[1..] + [p[|p| - 1]];
    assert q == b[1..] + [q[|q| - 1]];
  }

  /** Reading a saved file back: no line is malformed, and each leaf is addressed by the values saved
      for it and no others. */
  lemma {:induction false} SavedFileReadsBack(u: Unit, root: string, l: Leaf, es: seq<Entry>, before: string)
    requires Ready(u) && ProgramNamed(u.prog) && IsDeclared(u.prog, root)
    requires l.path != [] && CanBeSaved(u, root, es)
    ensures IniTexts(root, l, EventsOf(before, Lines(Saved(root, es)))) == ValuesFor(l.path, es)
    ensures !AnyError(Lines(Saved(root, es)))
    decreases |es|
  {
    if es != [] {
      var e := es[0];
      var section := SectionOf(root, e.leaf);
      LeafReadsBack(u, root, e.leaf, e.value, before, Saved(root, es[1..]));
      var more := EventsOf(section, Lines(Saved(root, es[1..])));
      SavedFileReadsBack(u, root, l, es[1..], section);
      AddressedByPath(u, root, l, e);
      TextsCons(root, l, EventFor(root, e), more);
    }
  }

  lemma TextsCons(root: string, l: Leaf, e: IniEvent, more: seq<IniEvent>)
    ensures IniTexts(root, l, [e] + more) == (if Addressed(root, l, e) then [e.event.val] else []) + IniTexts(root, l, more)
  {
    assert ([e] + more)[1..] == more;
  }

  /** Saving and loading: after a load of a saved file a leaf holds its default, overridden by what was
      saved for it, before the environment and the command line have their say. */
  lemma SavedValuesAreLoaded(u: Unit, root: string, l: Leaf, es: seq<Entry>, env: map<string, string>, args: seq<string>)
    requires Ready(u) && ProgramNamed(u.prog) && IsDeclared(u.prog, root)
    requires l in RootLeaves(u, root) && l.path != [] && l.field.Field? && CanBeSaved(u, root, es)
    requires Load(u, root, EventsOf("", Lines(Saved(root, es))), env, args).Some?
    ensures (var cfg := Load(u, root, EventsOf("", Lines(Saved(root, es))), env, args).value;
             Get(cfg, Names(l.path)) ==
             CliLayer(Names(l.path), ParseFrom(RootFlags(u, root), args, 1),
               EnvLayer(l, env, ConvertAll(IniConversion(u, l.field, l.parent), DefaultLayer(l, Zero), ValuesFor(l.path, es)))))
  {
    SavedFileReadsBack(u, root, l, es, "");
    LoadIsLayered(u, root, l, EventsOf("", Lines(Saved(root, es))), env, args);
  }
}
