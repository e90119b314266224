# clilib in Dafny

A model of the logic inside clilib, a small Python 2 library for building
command-line programs out of `Command` classes. There are four pieces of
logic, each proved against a specification:

- **The dispatcher's command registry.** Built-in `help` and `config`
  commands are added according to two flags. `add_command` is set insertion
  and refuses classes that are not commands.
- **User-defined aliases.** The "alias" section of the configuration maps an
  alias to an expansion. The epilog lists the aliases in name order. Before
  the arguments are parsed, the first alias found ahead of any command name
  is replaced in place by the words of its expansion.
- **Help text from docstrings.** A command's help is the first paragraph of
  its dedented docstring, and its epilog is the remaining paragraphs.
- **The built-in `help` and `config` commands.** `config` lists, shows, sets
  or removes `section.option` values in a section → option → value store.

Modules:

- `Wrappers`: `Option` and `Result`.
- `Strings`: the Python string operations the code relies on, each related
  to an independent characterization or an inverse. These are `strip()`,
  `split(sep)`, `sep.join`, `split()`, `lower()`, `sorted` and
  `'{:20}'.format`.
- `TextWrap`: `textwrap.dedent` as it behaves in Python 2.7.9 and later 2.7 releases.
- `ConfigStore`: the configuration store, a class over a mutable map of maps
  plus the `check_section` hook.
- `Command`: `help()`/`epilog()`, `Help.__call__` and `Config.__call__`.
- `Dispatch`: the `Dispatcher` class, the alias epilog and the alias splice.

Printed output is modelled as returned values. `Help`'s requests to
argparse ("print the full help", "print help for X") become the tagged
values of `HelpAction`. `config`'s printed lines become `ConfigOutcome`, and
every exception it raises becomes a `ConfigError`.

Which errors are user warnings follows the code. `Config.__call__` raises
`UserWarning` itself for a missing store, a missing name and a malformed name
(clilib/command.py:108-123), and `check_section` is documented to raise
`UserWarning` for a section it rejects (clilib/__init__.py:96-98); the model
returns `UserWarning` in exactly those cases. Showing a missing option, for
instance after removing it, calls `ConfigParser.get`, which raises
`NoSectionError` or `NoOptionError` rather than `UserWarning`
(clilib/command.py:141); the model returns `StoreFailure` there (see
`ConfigShow` and `ConfigRemoveThenShow`).

The class documentation calls the help "the first non-empty paragraph" of
the docstring (clilib/command.py:33-35), but `help()` takes the first piece of
the split even when it is empty: a docstring that opens with a blank line
has an empty help, and the text after that line becomes the epilog. The model
follows the code (see `LeadingBlankLineEmptiesHelp`).

## Model

| member | source | states |
|---|---|---|
| Strings.StripSpec | clilib/command.py:60 | `strip()` returns an infix of the input with only whitespace around it, and that infix neither begins nor ends with whitespace |
| Strings.StripIs | clilib/command.py:60 | any infix meeting that description is what `strip()` returns, so the description determines the result |
| Strings.StripSpacePrefix | clilib/command.py:60 | leading whitespace does not change the result of `strip()` |
| Strings.Find | clilib/command.py:60 | the first index where the separator occurs, with no occurrence before it; the length when there is none |
| Strings.JoinSplit | clilib/command.py:64-65 | joining the pieces of `split(sep)` with `sep` gives back the original text |
| Strings.SplitFirst | clilib/command.py:60-66 | the first piece of a split is the text before the first separator; the other pieces, rejoined, are the text after it |
| Strings.SplitJoinChar | clilib/dispatch.py:77 | splitting on one character undoes a join on it, for pieces that do not contain it |
| Strings.SplitWs | clilib/dispatch.py:107 | `split()` yields non-empty words that contain no whitespace |
| Strings.SplitWsJoin | clilib/dispatch.py:107 | `split()` undoes joining whitespace-free words with single spaces |
| Strings.SplitWsSpacePrefix | clilib/dispatch.py:107 | leading whitespace of any kind and length adds no word to `split()` |
| Strings.SplitWsWordPrefix | clilib/dispatch.py:107 | a word followed by any non-empty run of whitespace is the first word of `split()`, which then goes on with the text after the run |
| Strings.Lower | clilib/dispatch.py:98 | `lower()` keeps the length and lower-cases each ASCII letter in place |
| Strings.LessTransitive | clilib/dispatch.py:75 | Python's string order is transitive (irreflexivity and totality are proved beside it) |
| Strings.Sorted | clilib/dispatch.py:75 | `sorted` over a set of names lists each element exactly once, in strictly ascending order |
| Strings.SortedUnique | clilib/dispatch.py:75 | a strictly ascending sequence of exactly the set's elements is `sorted` of the set |
| Strings.PadRight | clilib/dispatch.py:74 | `'{:20}'` left-justifies: the text itself, then spaces up to width 20; a longer text is not cut |
| TextWrap.Indent | clilib/command.py:60 | the whole leading run of spaces and tabs of a line: a prefix made of them, followed by a character that is neither or by the end; shorter than the line exactly when the line is not blank |
| TextWrap.Margin | clilib/command.py:60 | no margin exactly when every line is blank; otherwise the margin is made of spaces and tabs and begins the indent of every non-blank line |
| TextWrap.MarginLongest | clilib/command.py:60 | no longer margin is shared by the indents of all non-blank lines |
| TextWrap.Dedent | clilib/command.py:60 | dedent works line by line: the lines of the result are the input's lines, each dedented against the common margin, none added or merged |
| TextWrap.DedentLineByLine | clilib/command.py:60 | dedent empties whitespace-only lines and strips the margin from each other line |
| ConfigStore.Store.Get | clilib/command.py:135-141 | `get` succeeds exactly when the option exists; a missing section or a missing option is the matching ConfigParser error |
| ConfigStore.Store.Items | clilib/command.py:128 | `items(section)` is the section's options, or NoSectionError |
| ConfigStore.Store.AddSection | clilib/config.py:47-51 | the `check_section` hook decides first, then an existing section is refused; otherwise an empty section is added |
| ConfigStore.Store.Set | clilib/command.py:137 | `set` updates one option of an existing section; a missing section is an error and the store is unchanged |
| ConfigStore.Store.RemoveOption | clilib/command.py:127 | `remove_option` deletes the option and reports whether it existed; a missing section is an error |
| ConfigStore.Store.RemoveSection | clilib/command.py:129 | `remove_section` deletes the section and reports whether it existed |
| Command.DocHelp | clilib/command.py:58-60 | `help()` is stripped: empty, or it begins and ends with a non-whitespace character |
| Command.DocEpilog | clilib/command.py:62-66 | `epilog()` is stripped: empty, or it begins and ends with a non-whitespace character |
| Command.HelpAndEpilog | clilib/command.py:58-66 | help is the stripped dedented text before the first blank line; the epilog is the stripped text after it, or empty when there is none |
| Command.OneLineDoc | clilib/command.py:58-66 | a one-line docstring is its own help, stripped, and its epilog is empty |
| Command.BlankLineEndsParagraph | clilib/command.py:59-66 | a whitespace-only line between two others ends the first paragraph: the help stops at or before the line above it |
| Command.DedentLeadingNewline | clilib/command.py:60 | a leading newline survives dedent as an empty first line |
| Command.LeadingNewlineIgnored | clilib/command.py:58-66 | when the summary line is not blank, help and epilog are the same whether or not the docstring starts with a newline |
| Command.LeadingBlankLineEmptiesHelp | clilib/command.py:58-66 | a docstring that opens with a blank line has an empty help, and its epilog is the rest of the docstring, dedented and stripped |
| Command.HelpCall | clilib/command.py:153-165 | no subcommand gives full help; otherwise an alias is reported first, then a name that is not a command is unknown, and only then is scoped help requested |
| Command.SplitOptionName | clilib/command.py:118-123 | a name that is accepted is `section.option` with both parts non-empty and no dot in the option: the split is at the last dot |
| Command.SplitOptionNameJoin | clilib/command.py:118-123 | every such `section.option` name is accepted and split back into its two parts |
| Command.RunConfig | clilib/command.py:107-142 | no store gives the "Configuration not available." warning; otherwise the outcome and the new store are those of ConfigStep, built with the store's own operations |
| Command.ConfigStep | clilib/command.py:107-142 | `config` on a present store changes the store only on a successful set or remove |
| Command.ConfigBadName | clilib/command.py:115-123 | a missing or empty name, or one that does not split, gives the matching user warning and leaves the store unchanged |
| Command.ConfigListed | clilib/command.py:111-114 | `--list` reports a `section.option=value` entry for every stored option, every entry it reports is one of those, and it changes nothing |
| Command.ConfigSet | clilib/command.py:131-139 | setting reports the old value or None, stores the new one, changes no other option and adds at most the one section |
| Command.ConfigSetRejected | clilib/command.py:133-134 | a new section that the hook rejects is the hook's `UserWarning`, and the store is unchanged |
| Command.ConfigShow | clilib/command.py:140-142 | with VALUE absent or empty, showing returns the stored value without changing the store; a missing section or option is a store error |
| Command.ConfigRemove | clilib/command.py:125-130 | `--remove` wins over any VALUE: removal deletes the option and drops its section when that was the last option; other options and sections are untouched; a missing section is an error |
| Command.ConfigSetThenShow | clilib/command.py:131-142 | a value that is set is the value that is shown next |
| Command.ConfigRemoveThenShow | clilib/command.py:125-142 | after removal, showing the option fails with NoSectionError or NoOptionError |
| Command.ConfigKeepsSectionsNonEmpty | clilib/command.py:125-139 | `config` never leaves an empty section behind in a store that had none |
| Dispatch.InitialCommands | clilib/dispatch.py:52-57 | help is registered exactly when `with_help` holds and config exactly when `with_config` holds, and nothing else is registered |
| Dispatch.InitialCommandsDefaults | clilib/dispatch.py:29-57 | the default flags give exactly the help command; both flags off give an empty registry |
| Dispatch.Register | clilib/dispatch.py:59-65 | a class that is not a command raises TypeError; any other class is inserted and only it is added |
| Dispatch.RegisterInsertion | clilib/dispatch.py:65 | adding a command that is already present changes nothing; adding a new one grows the registry by one |
| Dispatch.RegisterIdempotent | clilib/dispatch.py:65 | adding the same command twice gives the registry that adding it once gives |
| Dispatch.CommandNames | clilib/dispatch.py:98 | commands are invoked by their lower-cased class names |
| Dispatch.BuiltinNames | clilib/dispatch.py:98 | the built-ins are invoked as `help` and `config` |
| Dispatch.ScanStop | clilib/dispatch.py:104-111 | the scan stops at the first token that is an alias or a command name |
| Dispatch.ExpandAliases | clilib/dispatch.py:103-111 | the loop that walks the tokens and splices the first alias in place computes Resolve |
| Dispatch.ResolveAlias | clilib/dispatch.py:104-108 | when the first alias-or-command token is an alias, only that token is replaced, by the words of its expansion, even when it is also a command name |
| Dispatch.ResolveCommandFirst | clilib/dispatch.py:109-111 | a command name before any alias leaves the tokens unchanged, even when a later token is an alias |
| Dispatch.ResolveNoStop | clilib/dispatch.py:104-111 | with no alias and no command among the tokens, nothing changes |
| Dispatch.Resolve | clilib/dispatch.py:103-111 | the result is the input or a single splice at an alias that has no alias or command before it |
| Dispatch.ResolveNotRescanned | clilib/dispatch.py:107-108 | for every alias at the first stop, the words of its expansion appear verbatim in the result, even those that are alias names themselves; the arguments before it and after it are unchanged, so the expansion is spliced once and never rescanned |
| Dispatch.ResolveNotRescannedExample | clilib/dispatch.py:107-108 | an example of that: with `first = second` and `second = third`, `first` becomes `second`, not `third` |
| Dispatch.ResolveExample | clilib/dispatch.py:103-111 | `reop 123` becomes `update --status REOPENED 123`, and `update reop` is left alone |
| Dispatch.FormatAlias | clilib/dispatch.py:74 | a listing line is four spaces, the alias in a column at least 20 wide, then the target |
| Dispatch.AliasEpilog | clilib/dispatch.py:71-77 | there is no epilog exactly when there are no aliases |
| Dispatch.AliasEpilogJoined | clilib/dispatch.py:71-77 | for any non-empty alias map, the epilog is the header and one formatted line per alias in ascending order, joined by newlines |
| Dispatch.AliasEpilogLines | clilib/dispatch.py:71-77 | when no alias name or target contains a newline, the epilog's lines are the header and then one formatted line per alias, in ascending alias order; AliasEpilogJoined gives the text for any map |
| Dispatch.AliasEpilogExample | clilib/test_dispatch.py:35-53 | two aliases given out of order are listed as `close` then `reop` |
| Dispatch.Dispatcher.constructor | clilib/dispatch.py:29-57 | a new dispatcher holds the given configuration and the built-ins its flags ask for |
| Dispatch.Dispatcher.AddCommand | clilib/dispatch.py:59-65 | the registry afterwards is what Register computes; on TypeError it is unchanged; every registered class stays a command |
| Dispatch.Dispatcher.Aliases | clilib/dispatch.py:67-69 | the "alias" section of the configuration, or no aliases without a configuration or without that section |
| Dispatch.Dispatcher.Epilog | clilib/dispatch.py:71-77 | the epilog is None exactly when there are no aliases |
| Dispatch.Dispatcher.ResolveArgv | clilib/dispatch.py:98-111 | the alias step of `dispatch` against the registered command names and the configured aliases |

## Left out

- argparse: parsing global and subcommand arguments, building subparsers, rendering help, and `parse_args(['--help'])`. It is a foreign library; the model receives the residual argument list and the parsed `config`/`help` arguments as values.
- Invoking the chosen command, and the exact text of every printed line. The model returns values instead.
- File I/O in clilib/config.py: reading the file in `__init__`, `write()`, `os.path.expanduser`, and the process-wide `_instances` cache. clilib/util.py `add_arg_to_parser` is not part of this model either; it only forwards to argparse.
- ConfigParser behaviour beyond the map of maps: the lower-casing of option names (`optionxform`), the DEFAULT section (its values seen through `items` and `get`, and the ValueError that `add_section` raises for any case variant of "default"), and `%` interpolation in the values that `get`, `items` and `set` handle (clilib/dispatch.py:68, clilib/command.py:113, 128, 135-141).
- ConfigStore.Store.AddSection: `check_section` is modelled as either accepting the name or raising `UserWarning` with a message. A hook that returns a different section name, which would then be added under that name, is not modelled.
- TextWrap.Dedent: follows the margin computation of Python 2.7.9 and later, which keeps the longest common prefix of two conflicting indents. Releases before 2.7.9 reset the margin to the empty string in that case (so `"  \tA\n   B"` dedents differently); that behaviour is not modelled.
- Strings.IsSpace: docstrings, alias values and arguments are modelled as Python 2 byte strings (`str`), whose `strip()` and `split()` treat exactly six characters as whitespace (space, tab, newline, carriage return, vertical tab, form feed). A `unicode` docstring or value would be stripped and split on a wider set, for example u'\xa0' and '\x1c' to '\x1f'; that is not modelled.
- Command.HelpAndEpilog: a command without a docstring (`__doc__` is None, which makes `dedent` raise) is not modelled; docstrings are strings.
- Dispatch.CommandNames: a command class is identified by its name, so two distinct classes with the same `__name__` are one entry in the model but two in the registry; two classes whose names differ only in case map to one command name, and which class the dictionary then keeps depends on set iteration order. clilib/__init__.py:104-107 calls both cases undefined behaviour.
- Command.ConfigListed: the order in which `--list` prints entries, which follows ConfigParser's section order, is not modelled; the outcome is the set of entries.
- Dispatch.AliasEpilogExample: states the listing through FormatAlias, not as one literal string.
- setup.py, scripts/calculator.py and clilib/__init__.py hold packaging, a demo program and documentation, with no library logic.
