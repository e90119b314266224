/**
 * clilib/command.py: the help and epilog a command derives from its
 * docstring, and the decision logic of the built-in `help` and `config`
 * commands.
 */
module Command {
  import opened Wrappers
  import opened Strings
  import opened TextWrap
  import opened ConfigStore

  // ------------------------------------------------------ help and epilog

  /** `Command.help()`: the first paragraph of the dedented docstring, stripped. */
  function DocHelp(doc: string): (r: string)
    ensures r == [] || (!IsSpace(r[0]) && !IsSpace(r[|r| - 1]))
  {
    var first := SplitOn(Dedent(doc), "\n\n")[0];
    StripSpec(first);
    Strip(first)
  }

  /** `Command.epilog()`: the paragraphs after the first, joined by blank lines, stripped. */
  function DocEpilog(doc: string): (r: string)
    ensures r == [] || (!IsSpace(r[0]) && !IsSpace(r[|r| - 1]))
  {
    var rest := JoinWith(SplitOn(Dedent(doc), "\n\n")[1..], "\n\n");
    StripSpec(rest);
    Strip(rest)
  }

  /**
   * The help is the dedented text before its first blank line ("\n\n"),
   * stripped; the epilog is the text after it, stripped, and empty when the
   * text has no blank line.
   */
  lemma HelpAndEpilog(doc: string)
    ensures var d := Dedent(doc); var i := Find(d, "\n\n");
      && DocHelp(doc) == Strip(d[..i])
      && DocEpilog(doc) == (if i == |d| then "" else Strip(d[i + 2..]))
  {
    SplitFirst(Dedent(doc), "\n\n");
    StripUnchanged("");
  }

  /** A text in which `sep` never occurs is found to have none. */
  lemma NoBlankLineIn(x: string)
    requires '\n' !in x
    ensures Find(x, "\n\n") == |x|
  {
    forall j | 0 <= j < |x| ensures !OccursAt(x, "\n\n", j) {
      assert x[j] in x;
      if j + 2 <= |x| {
        assert x[j..j + 2][0] == x[j];
      }
    }
    FindIs(x, "\n\n", |x|);
  }

  /** Dedenting one line: a blank one is emptied, any other loses its indent. */
  lemma OneLineDedent(doc: string)
    requires '\n' !in doc
    ensures Dedent(doc) == if BlankLine(doc) then "" else doc[|Indent(doc)|..]
  {
    FindChar(doc, '\n', |doc|);
    assert doc[..|doc|] == doc;
    assert Lines(doc) == [doc];
    if !BlankLine(doc) {
      assert Margin([doc]) == Some(Indent(doc));
    }
  }

  /** Removing the indent of a single line keeps it single and changes nothing `strip()` keeps. */
  lemma IndentRemoved(doc: string)
    requires '\n' !in doc
    ensures var x := doc[|Indent(doc)|..]; '\n' !in x && Strip(x) == Strip(doc)
  {
    var m := Indent(doc);
    var x := doc[|m|..];
    assert AllSpace(m) by {
      forall i | 0 <= i < |m| ensures IsSpace(m[i]) { assert IsBlank(m[i]); }
    }
    assert '\n' !in x by {
      forall i | 0 <= i < |x| ensures x[i] != '\n' { assert x[i] == doc[|m| + i]; }
    }
    assert doc == m + x by { assert IsPrefix(m, doc); }
    StripSpacePrefix(m, x);
  }

  /** A one-line docstring is its own help, stripped, and has no epilog. */
  lemma OneLineDoc(doc: string)
    requires '\n' !in doc
    ensures DocHelp(doc) == Strip(doc) && DocEpilog(doc) == ""
  {
    OneLineDedent(doc);
    HelpAndEpilog(doc);
    var x := Dedent(doc);
    if BlankLine(doc) {
      StripIs(doc, |doc|, |doc|);
    } else {
      IndentRemoved(doc);
    }
    NoBlankLineIn(x);
    assert x[..|x|] == x;
  }

  /**
   * A line of only spaces and tabs between two others ends the first
   * paragraph: dedent empties it, so the dedented text holds a blank line
   * right after its first `k` lines, and the help stops there or earlier.
   */
  lemma BlankLineEndsParagraph(doc: string, k: nat)
    requires 1 <= k < |Lines(doc)| - 1 && BlankLine(Lines(doc)[k])
    ensures var d := Dedent(doc); var p := |JoinWith(DedentLines(Lines(doc))[..k], "\n")|;
      Find(d, "\n\n") <= p < |d| && DocHelp(doc) == Strip(d[..Find(d, "\n\n")])
  {
    DedentLineByLine(doc, k);
    EmptyLineJoined(DedentLines(Lines(doc)), k);
    HelpAndEpilog(doc);
  }

  /** Joining lines by newlines, an empty line `k` shows up as a blank line after the first `k`. */
  lemma EmptyLineJoined(dl: seq<string>, k: nat)
    requires 1 <= k < |dl| - 1 && dl[k] == ""
    ensures var d := JoinWith(dl, "\n"); var p := |JoinWith(dl[..k], "\n")|;
      p + 2 <= |d| && OccursAt(d, "\n\n", p)
  {
    var d := JoinWith(dl, "\n");
    assert dl == dl[..k] + ([dl[k]] + dl[k + 1..]);
    JoinWithAppend(dl[..k], [dl[k]] + dl[k + 1..], "\n");
    JoinWithAppend([dl[k]], dl[k + 1..], "\n");
    var p := |JoinWith(dl[..k], "\n")|;
    var tail := JoinWith(dl[k + 1..], "\n");
    assert d == JoinWith(dl[..k], "\n") + "\n" + "" + "\n" + tail;
    assert d[p..p + 2] == "\n\n";
  }

  /** An empty first line changes neither the margin nor how the other lines are dedented. */
  lemma DedentLinesEmptyFirst(ls: seq<string>)
    ensures DedentLines([""] + ls) == [""] + DedentLines(ls)
  {
    assert ([""] + ls)[1..] == ls;
    assert Margin([""] + ls) == Margin(ls);
  }

  /** The first dedented line of a text whose first line is not blank is not empty. */
  lemma DedentFirstChar(doc: string)
    requires !BlankLine(Lines(doc)[0])
    ensures Dedent(doc) != [] && Dedent(doc)[0] != '\n'
  {
    var ls := Lines(doc);
    var dl := DedentLines(ls);
    DedentLineByLine(doc, 0);
    var m := Margin(ls).value;
    assert dl[0] == ls[0][|m|..];
    SplitOnCharPieces(doc, '\n');
    assert ls[0][|m|] in ls[0];
    JoinWithHead(dl, "\n");
    assert Dedent(doc)[0] == dl[0][0];
  }

  /** Dedenting a docstring that starts with a newline: the first line stays empty. */
  lemma DedentLeadingNewline(doc: string)
    ensures Dedent("\n" + doc) == "\n" + Dedent(doc)
  {
    LinesLeadingNewline(doc);
    var dl := DedentLines(Lines(doc));
    DedentLinesEmptyFirst(Lines(doc));
    assert ([""] + dl)[1..] == dl;
  }

  /** `sep` found in `"\n" + d`, where `d` does not start with a newline. */
  lemma FindAfterNewline(d: string)
    requires d != [] && d[0] != '\n'
    ensures var i := Find(d, "\n\n");
      Find("\n" + d, "\n\n") == (if i == |d| then |d| + 1 else i + 1)
  {
    var s := "\n" + d;
    var i := Find(d, "\n\n");
    var target := if i == |d| then |s| else i + 1;
    forall j | 1 <= j < target ensures !OccursAt(s, "\n\n", j) {
      assert !OccursAt(d, "\n\n", j - 1);
      if j + 2 <= |s| {
        assert s[j..j + 2] == d[j - 1..j + 1];
      }
    }
    assert s[..2] == ['\n', d[0]];
    assert !OccursAt(s, "\n\n", 0);
    if i < |d| {
      assert s[i + 1..i + 3] == d[i..i + 2];
    }
    if i == |d| {
      FindIs(s, "\n\n", |s|);
    } else {
      FindIs(s, "\n\n", i + 1);
    }
  }

  /** The paragraphs of `"\n" + d` are those of `d` with the newline kept in front of the first. */
  lemma ParagraphsAfterNewline(d: string)
    requires d != [] && d[0] != '\n'
    ensures var s := "\n" + d; var i := Find(d, "\n\n"); var i' := Find(s, "\n\n");
      && Strip(s[..i']) == Strip(d[..i])
      && (i' == |s| <==> i == |d|)
      && (i < |d| ==> s[i' + 2..] == d[i + 2..])
  {
    FindAfterNewline(d);
    var s := "\n" + d;
    var i := Find(d, "\n\n");
    var i' := Find(s, "\n\n");
    assert s[..i'] == "\n" + d[..i];
    StripSpacePrefix("\n", d[..i]);
  }

  /**
   * Whether or not the docstring starts with a newline, help and epilog are
   * the same, provided the summary line itself is not blank.
   */
  lemma LeadingNewlineIgnored(doc: string)
    requires !BlankLine(Lines(doc)[0])
    ensures DocHelp("\n" + doc) == DocHelp(doc)
    ensures DocEpilog("\n" + doc) == DocEpilog(doc)
  {
    DedentLeadingNewline(doc);
    DedentFirstChar(doc);
    ParagraphsAfterNewline(Dedent(doc));
    HelpAndEpilog(doc);
    HelpAndEpilog("\n" + doc);
  }

  /**
   * A docstring that opens with a blank line has an empty help, even when
   * paragraphs follow: the help is always the first piece of the split, not
   * the first non-empty paragraph. The text after the blank line is the epilog.
   */
  lemma LeadingBlankLineEmptiesHelp(rest: string)
    ensures DocHelp("\n\n" + rest) == ""
    ensures DocEpilog("\n\n" + rest) == Strip(Dedent(rest))
  {
    assert "\n\n" + rest == "\n" + ("\n" + rest);
    DedentLeadingNewline("\n" + rest);
    DedentLeadingNewline(rest);
    var d := Dedent("\n\n" + rest);
    assert d == "\n\n" + Dedent(rest);
    assert d[0..2] == "\n\n";
    FindIs(d, "\n\n", 0);
    HelpAndEpilog("\n\n" + rest);
    StripUnchanged("");
    assert d[2..] == Dedent(rest);
  }

  // ------------------------------------------------------------------ help

  /** What `help [SUBCOMMAND]` does. */
  datatype HelpAction =
    | FullHelp
    | ShowAlias(alias: string, expansion: string)
    | UnknownSubcommand(name: string)
    | SubcommandHelp(name: string)

  /** An optional argument that is present and not empty (Python truthiness). */
  predicate Given(arg: Option<string>) {
    arg.Some? && arg.value != ""
  }

  /**
   * `Help.__call__`: no subcommand asks for the full help; otherwise an alias
   * is reported first, then a name that is not a command, and only then is
   * help for that command requested.
   */
  function HelpCall(subcommand: Option<string>, aliases: map<string, string>, commands: set<string>): (r: HelpAction)
    ensures r == FullHelp <==> !Given(subcommand)
    ensures r.ShowAlias? <==> Given(subcommand) && subcommand.value in aliases
    ensures r.ShowAlias? ==> r.alias == subcommand.value && r.expansion == aliases[r.alias]
    ensures r.UnknownSubcommand? <==>
      Given(subcommand) && subcommand.value !in aliases && subcommand.value !in commands
    ensures r.SubcommandHelp? <==>
      Given(subcommand) && subcommand.value !in aliases && subcommand.value in commands
    ensures r.UnknownSubcommand? || r.SubcommandHelp? ==> r.name == subcommand.value
  {
    if !Given(subcommand) then FullHelp
    else if subcommand.value in aliases then ShowAlias(subcommand.value, aliases[subcommand.value])
    else if subcommand.value !in commands then UnknownSubcommand(subcommand.value)
    else SubcommandHelp(subcommand.value)
  }

  // ---------------------------------------------------------------- config

  /** The parsed arguments of `config [--list|-l] [NAME] [--remove] [VALUE]`. */
  datatype ConfigArgs = ConfigArgs(list: bool, name: Option<string>, remove: bool, value: Option<string>)

  /** What `config` reports (it prints these). */
  datatype ConfigOutcome =
    | Listed(entries: set<string>)
    | Removed(name: string)
    | Updated(name: string, oldValue: Option<string>, newValue: string)
    | Shown(name: string, value: string)

  datatype ConfigError =
    | UserWarning(message: string)
    | StoreFailure(cause: StoreError)

  /**
   * How an exception from the store reaches the caller: the hook's
   * `UserWarning` stays a user warning, ConfigParser's own errors are store failures.
   */
  function Raised(e: StoreError): (r: ConfigError)
    ensures r.UserWarning? <==> e.HookWarning?
    ensures r.UserWarning? ==> r.message == e.message
    ensures r.StoreFailure? ==> r.cause == e
  {
    if e.HookWarning? then UserWarning(e.message) else StoreFailure(e)
  }

  const NotAvailable := "Configuration not available."
  const NoOptionGiven := "No configuration option given."
  const InvalidOption := "Invalid configuration option."

  /** The last index below `k` holding `c`, if any. */
  function LastIndexBelow(s: string, c: char, k: nat): (r: Option<nat>)
    requires k <= |s|
    ensures r.Some? ==> r.value < k && s[r.value] == c
    ensures forall m :: (if r.Some? then r.value + 1 else 0) <= m < k ==> s[m] != c
  {
    if k == 0 then None
    else if s[k - 1] == c then Some(k - 1)
    else LastIndexBelow(s, c, k - 1)
  }

  /**
   * `name.rsplit('.', 1)` followed by the check that both parts are
   * non-empty: the section is everything before the last dot, the option
   * everything after it.
   */
  function SplitOptionName(name: string): (r: Option<(string, string)>)
    ensures r.Some? ==> var (section, option) := r.value;
      section != "" && option != "" && '.' !in option && name == section + "." + option
  {
    match LastIndexBelow(name, '.', |name|)
    case None => None
    case Some(k) =>
      if k == 0 || k == |name| - 1 then None
      else
        assert name == name[..k] + "." + name[k + 1..];
        Some((name[..k], name[k + 1..]))
  }

  /** Every well-formed `section.option` name is split back into its two parts. */
  lemma SplitOptionNameJoin(section: string, option: string)
    requires section != "" && option != "" && '.' !in option
    ensures SplitOptionName(section + "." + option) == Some((section, option))
  {
    var name := section + "." + option;
    var k := |section|;
    assert name[k] == '.';
    forall m | k < m < |name| ensures name[m] != '.' {
      assert name[m] == option[m - k - 1];
    }
    var r := LastIndexBelow(name, '.', |name|);
    assert r == Some(k);
    assert name[..k] == section && name[k + 1..] == option;
  }

  /** The lines `config --list` prints, `section.option=value`, one per stored option. */
  function Listing(st: Sections): set<string> {
    set section, option | section in st && option in st[section] :: section + "." + option + "=" + st[section][option]
  }

  /** The value of `option` in `section`, if there is one. */
  function Lookup(st: Sections, section: string, option: string): Option<string> {
    if section in st && option in st[section] then Some(st[section][option]) else None
  }

  /**
   * `Config.__call__` on a store that is present: the outcome and the store
   * afterwards, as functions of the arguments and the store before.
   */
  function ConfigStep(args: ConfigArgs, st: Sections, check: string -> Option<string>): (r: (Result<ConfigOutcome, ConfigError>, Sections))
    ensures r.1 != st ==> r.0.Success? && (r.0.value.Updated? || r.0.value.Removed?)
  {
    if args.list then (Success(Listed(Listing(st))), st)
    else if !Given(args.name) then (Failure(UserWarning(NoOptionGiven)), st)
    else
      var name := args.name.value;
      match SplitOptionName(name)
      case None => (Failure(UserWarning(InvalidOption)), st)
      case Some((section, option)) =>
        if args.remove then
          if section !in st then (Failure(StoreFailure(NoSectionError(section))), st)
          else
            var opts := st[section] - {option};
            (Success(Removed(name)), if opts == map[] then st - {section} else st[section := opts])
        else if Given(args.value) then
          if section !in st && check(section).Some? then (Failure(UserWarning(check(section).value)), st)
          else
            var opts := if section in st then st[section] else map[];
            var previous := if option in opts then Some(opts[option]) else None;
            (Success(Updated(name, previous, args.value.value)), st[section := opts[option := args.value.value]])
        else if section !in st then (Failure(StoreFailure(NoSectionError(section))), st)
        else if option !in st[section] then (Failure(StoreFailure(NoOptionError(section, option))), st)
        else (Success(Shown(name, st[section][option])), st)
  }

  /** `config NAME VALUE`, `config NAME` and `config NAME --remove`. */
  function SetArgs(name: string, value: string): ConfigArgs {
    ConfigArgs(false, Some(name), false, Some(value))
  }

  /** `config NAME` shows the value whenever VALUE is absent or empty. */
  function ShowArgs(name: string, value: Option<string>): ConfigArgs {
    ConfigArgs(false, Some(name), false, value)
  }

  /** `config NAME --remove` removes, whatever VALUE says. */
  function RemoveArgs(name: string, value: Option<string>): ConfigArgs {
    ConfigArgs(false, Some(name), true, value)
  }

  /**
   * No name, or a name that is not `section.option` with both parts
   * non-empty, is a user warning that leaves the store alone.
   */
  lemma ConfigBadName(args: ConfigArgs, st: Sections, check: string -> Option<string>)
    requires !args.list
    requires !Given(args.name) || SplitOptionName(args.name.value).None?
    ensures ConfigStep(args, st, check).1 == st
    ensures ConfigStep(args, st, check).0 ==
      Failure(UserWarning(if !Given(args.name) then NoOptionGiven else InvalidOption))
  {
  }

  /** `--list` reports exactly the stored `section.option=value` entries. */
  lemma ConfigListed(args: ConfigArgs, st: Sections, check: string -> Option<string>, section: string, option: string)
    requires args.list
    ensures ConfigStep(args, st, check).1 == st
    ensures ConfigStep(args, st, check).0.Success? && ConfigStep(args, st, check).0.value.Listed?
    ensures Lookup(st, section, option).Some? ==>
      section + "." + option + "=" + Lookup(st, section, option).value in ConfigStep(args, st, check).0.value.entries
    ensures forall e :: e in ConfigStep(args, st, check).0.value.entries ==>
      exists s, o :: Lookup(st, s, o).Some? && e == s + "." + o + "=" + Lookup(st, s, o).value
  {
    forall e | e in Listing(st)
      ensures exists s, o :: Lookup(st, s, o).Some? && e == s + "." + o + "=" + Lookup(st, s, o).value
    {
      var s, o :| s in st && o in st[s] && e == s + "." + o + "=" + st[s][o];
      assert Lookup(st, s, o) == Some(st[s][o]);
    }
  }

  /**
   * Setting an option whose section exists or is accepted by the hook
   * stores the value, reports the previous one, and changes no other option.
   */
  lemma ConfigSet(section: string, option: string, value: string, st: Sections, check: string -> Option<string>)
    requires section != "" && option != "" && '.' !in option && value != ""
    requires section in st || check(section).None?
    ensures var name := section + "." + option;
      var (r, st') := ConfigStep(SetArgs(name, value), st, check);
      && r == Success(Updated(name, Lookup(st, section, option), value))
      && Lookup(st', section, option) == Some(value)
      && (forall s, o :: (s, o) != (section, option) ==> Lookup(st', s, o) == Lookup(st, s, o))
      && st'.Keys == st.Keys + {section}
  {
    SplitOptionNameJoin(section, option);
  }

  /** A new section the hook rejects is the hook's user warning; no section is created and nothing is set. */
  lemma ConfigSetRejected(section: string, option: string, value: string, st: Sections, check: string -> Option<string>)
    requires section != "" && option != "" && '.' !in option && value != ""
    requires section !in st && check(section).Some?
    ensures ConfigStep(SetArgs(section + "." + option, value), st, check) ==
      (Failure(UserWarning(check(section).value)), st)
  {
    SplitOptionNameJoin(section, option);
  }

  /** Showing an option reads it without changing the store; a missing one is an error. */
  lemma ConfigShow(section: string, option: string, value: Option<string>, st: Sections, check: string -> Option<string>)
    requires section != "" && option != "" && '.' !in option && !Given(value)
    ensures var name := section + "." + option;
      var (r, st') := ConfigStep(ShowArgs(name, value), st, check);
      && st' == st
      && (Lookup(st, section, option).Some? ==> r == Success(Shown(name, Lookup(st, section, option).value)))
      && (section !in st ==> r == Failure(StoreFailure(NoSectionError(section))))
      && (section in st && option !in st[section] ==> r == Failure(StoreFailure(NoOptionError(section, option))))
  {
    SplitOptionNameJoin(section, option);
  }

  /**
   * Removing an option of an existing section deletes it, and drops the
   * section when that was its last option; nothing else changes. Removing
   * from a missing section is an error.
   */
  lemma ConfigRemove(section: string, option: string, value: Option<string>, st: Sections, check: string -> Option<string>)
    requires section != "" && option != "" && '.' !in option
    ensures var name := section + "." + option;
      var (r, st') := ConfigStep(RemoveArgs(name, value), st, check);
      && (section !in st ==> r == Failure(StoreFailure(NoSectionError(section))) && st' == st)
      && (section in st ==> r == Success(Removed(name)))
      && Lookup(st', section, option) == None
      && (forall s, o :: (s, o) != (section, option) ==> Lookup(st', s, o) == Lookup(st, s, o))
      && (section in st' <==> section in st && st[section].Keys - {option} != {})
      && (forall s :: s != section ==> (s in st' <==> s in st))
  {
    SplitOptionNameJoin(section, option);
    var st' := ConfigStep(RemoveArgs(section + "." + option, value), st, check).1;
    if section in st {
      var opts := st[section] - {option};
      assert opts == map[] <==> st[section].Keys - {option} == {};
    }
  }

  /** A value set is what is shown next. */
  lemma ConfigSetThenShow(section: string, option: string, value: string, st: Sections, check: string -> Option<string>)
    requires section != "" && option != "" && '.' !in option && value != ""
    requires section in st || check(section).None?
    ensures var name := section + "." + option;
      var st' := ConfigStep(SetArgs(name, value), st, check).1;
      ConfigStep(ShowArgs(name, None), st', check) == (Success(Shown(name, value)), st')
  {
    var name := section + "." + option;
    ConfigSet(section, option, value, st, check);
    ConfigShow(section, option, None, ConfigStep(SetArgs(name, value), st, check).1, check);
  }

  /**
   * An option removed is not shown afterwards: the store reports a missing
   * section or option (a store error, not a user warning).
   */
  lemma ConfigRemoveThenShow(section: string, option: string, st: Sections, check: string -> Option<string>)
    requires section != "" && option != "" && '.' !in option
    ensures var name := section + "." + option;
      var st' := ConfigStep(RemoveArgs(name, None), st, check).1;
      var r := ConfigStep(ShowArgs(name, None), st', check).0;
      r == Failure(StoreFailure(NoSectionError(section))) || r == Failure(StoreFailure(NoOptionError(section, option)))
  {
    var name := section + "." + option;
    ConfigRemove(section, option, None, st, check);
    ConfigShow(section, option, None, ConfigStep(RemoveArgs(name, None), st, check).1, check);
  }

  /** No section of the store is empty. */
  predicate NoEmptySection(st: Sections) {
    forall s :: s in st ==> st[s] != map[]
  }

  /** `config` never leaves an empty section behind in a store that had none. */
  lemma ConfigKeepsSectionsNonEmpty(args: ConfigArgs, st: Sections, check: string -> Option<string>)
    requires NoEmptySection(st)
    ensures NoEmptySection(ConfigStep(args, st, check).1)
  {
  }

  /**
   * `Config.__call__`: no store is a user warning; otherwise the store
   * changes as ConfigStep says. Writing the file back is not modelled.
   */
  method RunConfig(args: ConfigArgs, config: Store?) returns (r: Result<ConfigOutcome, ConfigError>)
    modifies config
    ensures config == null ==> r == Failure(UserWarning(NotAvailable))
    ensures config != null ==> (r, config.sections) == ConfigStep(args, old(config.sections), config.checkSection)
  {
    if config == null {
      return Failure(UserWarning(NotAvailable));
    }
    if args.list {
      return Success(Listed(Listing(config.sections)));
    }
    if !Given(args.name) {
      return Failure(UserWarning(NoOptionGiven));
    }
    var name := args.name.value;
    var parts := SplitOptionName(name);
    if parts.None? {
      return Failure(UserWarning(InvalidOption));
    }
    var (section, option) := parts.value;
    if args.remove {
      ghost var before := config.sections;
      var removed := config.RemoveOption(section, option);
      if removed.Failure? {
        return Failure(StoreFailure(removed.error));
      }
      ghost var opts := before[section] - {option};
      assert config.sections == before[section := opts];
      var items := config.Items(section);
      if items.Success? && items.value == map[] {
        var _ := config.RemoveSection(section);
        assert config.sections == before - {section};
      }
      return Success(Removed(name));
    } else if Given(args.value) {
      ghost var before := config.sections;
      ghost var opts := if section in before then before[section] else map[];
      if !config.HasSection(section) {
        var err := config.AddSection(section);
        if err.Some? {
          return Failure(Raised(err.value));
        }
      }
      var current := config.Get(section, option);
      var oldValue := if current.Success? then Some(current.value) else None;
      assert config.sections == before[section := opts];
      assert oldValue == (if option in opts then Some(opts[option]) else None);
      var err := config.Set(section, option, args.value.value);
      assert err.None?;
      assert config.sections == before[section := opts[option := args.value.value]];
      return Success(Updated(name, oldValue, args.value.value));
    } else {
      var current := config.Get(section, option);
      if current.Failure? {
        return Failure(StoreFailure(current.error));
      }
      return Success(Shown(name, current.value));
    }
  }
}
