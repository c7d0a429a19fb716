# QUIQQER Composer wrapper: the text-processing layer, in Dafny

QUIQQER's Composer wrapper runs the Composer package manager in one of two ways: in-process, through the
Composer `Application` (the `Web` transport), or as a shell command (the `CLI` transport). It turns the
lines Composer prints into package data. This project models the part of that wrapper that is pure
text handling and bookkeeping, and proves what it does:

- **`Utils\Parser::parsePackageLineToArray`** (module `Parser`). It cuts one `show`/`outdated` line into
  a package name and a version.
- **`ArrayOutput`** (module `ArrayOutputs`, class `ArrayOutput`). The output sink that collects whole
  lines from the fragments Composer writes.
- **`Web`** (module `Web`). The result shaping of the in-process transport:
  - the options that `install`, `update`, `requirePackage` and `show` add;
  - the line loops of `getVersions`, `outdated`, `updatesAvailable`, `getOutdatedPackages`, `search`,
    `show` and `why`;
  - how `executeComposer` decides, from the status code and the captured lines, that a run failed.
- **`CLI`** (module `Cli`). The shell transport's `getOptionString`, the command `requirePackage`
  builds, the line loops of `outdated`, `show` and `search`, and `updatesAvailable`.
- **`Utils\Events`** (module `EventRegistry`, class `Events`). The event registry:
  - `addEvent`/`addEvents` with duplicate suppression;
  - `removeEvent`/`removeEvents`;
  - `fireEvent`, which normalises the name to `on` + `ucfirst`, has a per-event recursion guard, runs
    the listeners in stable ascending priority and collects their exceptions;
  - `getList`.

Module `EventScenarios` replays the registry's unit tests as verified methods.

A Composer run is an input to the model: a status code and the sequence of captured lines.

Helper modules:

- `Php` defines the PHP built-ins once: `trim` with the set `" \t\n\r\0\x0B"`, `ltrim`, `strpos`
  (None for `false`), `substr` (a `false` length reads as 0), `explode`, `str_replace`, `implode`,
  `empty` (true for `""` and `"0"`), `ucfirst`, and the space squeezing of the `~ +~` and
  `#([ ]){2,}#` patterns.
- `Json` is `json_encode` of a string.
- `Options` is a PHP option array: an ordered list of key/value pairs.
- `Lines` holds the two loop shapes every parser uses: "append what each line yields" (`Collect`) and
  "store the pair each line yields, the last one winning" (`Assoc`).

The imperative loops are methods proved against these functions. The lemmas then state what the
functions mean. The registry and the sink are classes whose methods state their whole new state.

## Model

| member | source | states |
|---|---|---|
| Parser.ParsePackageLine | src/QUI/Composer/Utils/Parser.php:23-61 | The result is empty for an empty input (including "0"). Otherwise it is empty exactly when the line, with backspaces removed and trimmed, is chatter. Neither column holds a space, and the version never starts with `v`. |
| Parser.FieldsHaveNoSpace | src/QUI/Composer/Utils/Parser.php:51-58 | The package and version columns cut at the space positions never contain a space. |
| Parser.CleanKeeps | src/QUI/Composer/Utils/Parser.php:29-30 | A line without backspaces or surrounding white space passes the clean-up unchanged. |
| Parser.NotChatter | src/QUI/Composer/Utils/Parser.php:32-46 | A line that starts with a plain name followed by a space is not one of the skipped lines. |
| Parser.FieldsOfRow | src/QUI/Composer/Utils/Parser.php:51-58 | For `name  padding  version more...`, the package is the name and the version is the second column with its leading `v`s stripped. |
| Parser.FieldsAtLast | src/QUI/Composer/Utils/Parser.php:51-57 | With no second space, the version as written is empty, while the intended reading keeps the whole remainder. |
| Parser.RowLine | src/QUI/Composer/Utils/Parser.php:29-46 | A well-formed row is its own cleaned form and is not chatter. |
| Parser.ParseRow | src/QUI/Composer/Utils/Parser.php:23-61 | Round trip: columns `n`, padding, `v` and trailing text parse back to `(n, v without leading v)`. This covers `quiqqer/core   dev-dev 0572859 ...` giving `dev-dev`. |
| Parser.ParseSingleWord | src/QUI/Composer/Utils/Parser.php:51-57 | A single word yields the record `("", "")`, not the empty result. |
| Parser.ParseChatter | src/QUI/Composer/Utils/Parser.php:36-46 | Lines starting with `Reading`, `Failed` or `Importing` yield the empty result. |
| Parser.ParseWarning | src/QUI/Composer/Utils/Parser.php:32-34 | A line containing `<warning>You` anywhere yields the empty result. |
| Parser.ChatterSkipped | src/QUI/Composer/Utils/Parser.php:25-46 | A line that cleaning leaves unchanged and that is Composer chatter yields the empty result. |
| Parser.ParseTwoColumnsDropsVersion | src/QUI/Composer/Utils/Parser.php:53-57 | As written, a two-column row `name version` parses to `(name, "")`. |
| Parser.ParsePackageLineIntended | src/QUI/Composer/Utils/Parser.php:23-61 | Same empty/chatter behaviour as the original, with the version reaching to the end of the line when there is no second space. |
| Parser.ParseIntendedRow | src/QUI/Composer/Utils/Parser.php:53-57 | Corrected: a two-column row keeps its version. With further columns, the corrected reading agrees with the original. |
| Parser.FieldsIntendedAt | src/QUI/Composer/Utils/Parser.php:53-57 | Both readings agree whenever a space follows the version column. |
| Parser.TwoColumns | src/QUI/Composer/Utils/Parser.php:53-57 | On a two-column row, the original reading gives an empty version and the corrected one gives the version. |
| Parser.TwoColumnLine | src/QUI/Composer/Utils/Parser.php:29-46 | A two-column row is clean and not chatter. |
| Json.EncodeStringMarkers | src/QUI/Composer/ArrayOutput.php:52 | `json_encode` of a string never holds a raw line break. It contains `\b` exactly when the string holds chr(8) or a backslash followed by `b`, and it starts with `"`. |
| Json.EscapeBackslashB | src/QUI/Composer/ArrayOutput.php:52 | The escaped body has `\b` exactly when the text has chr(8) or `\b`, never has a raw line break, and starts with `b` only when the text does. |
| Json.EscapeCharShape | src/QUI/Composer/ArrayOutput.php:52 | How the escape of one character begins and ends, that it holds `\b` only for chr(8), and that it has no raw line break. |
| ArrayOutputs.ForcesLineBreakIff | src/QUI/Composer/ArrayOutput.php:52 | A write completes the line without a newline request exactly when the message holds chr(8) or a literal backslash followed by `b`. An embedded line break alone never does. |
| ArrayOutputs.ConcatAppend | src/QUI/Composer/ArrayOutput.php:61 | Appending a line appends its text to the concatenation of all lines. |
| ArrayOutputs.ArrayOutput.constructor | src/QUI/Composer/ArrayOutput.php:38-41 | A new sink has no lines and an empty current line. |
| ArrayOutputs.ArrayOutput.DoWrite | src/QUI/Composer/ArrayOutput.php:48-63 | With a newline request or a forcing message, exactly one line (old current line + message) is appended and the current line is reset. Otherwise only the current line grows. No character is lost: `Concat(lines) + curLine` grows by exactly the message. |
| ArrayOutputs.ArrayOutput.GetLines | src/QUI/Composer/ArrayOutput.php:69-72 | Returns the completed lines and changes nothing. |
| ArrayOutputs.ArrayOutput.ClearLines | src/QUI/Composer/ArrayOutput.php:77-80 | Drops the completed lines and keeps the line being written. |
| ArrayOutputs.WritesAndCollectsLines | tests/QUI/Composer/ArrayOutputTest.php:10-19 | A plain write leaves no lines, and `writeln` of the rest then gives exactly one line holding both. |
| ArrayOutputs.DetectsSpecialContentAsNewLineAndCanClear | tests/QUI/Composer/ArrayOutputTest.php:21-35 | A write holding chr(8) completes a line, `writeln` adds a second, and clearing leaves none. |
| Lines.CollectMembers | src/QUI/Composer/Web.php:479-491 | The appending loop collects a value exactly when some line yields it. |
| Lines.AssocKeys | src/QUI/Composer/Web.php:159-171 | The storing loop has a key exactly when some line yields that key. |
| Lines.AssocLastWins | src/QUI/Composer/Web.php:159-171 | The stored value of a key comes from the last line that yields that key. |
| Lines.FindFirst | src/QUI/Composer/Web.php:624-634 | The loop that stops at the first passing line returns its index, or None when no line passes. |
| Lines.CollectEach | src/QUI/Composer/Web.php:479-491 | The appending foreach computes `Collect`. |
| Lines.AssocEach | src/QUI/Composer/Web.php:424-454 | The storing foreach computes `Assoc`. |
| Lines.ListedName | src/QUI/Composer/CLI.php:137-146 | A listed word is never empty, never "0", never starts with chr(8) and is not on the ignore list. |
| Lines.ListedNameOfRow | src/QUI/Composer/CLI.php:137-146 | The first word of a row is listed when it passes the filter. |
| Lines.ListedNameSkips | src/QUI/Composer/CLI.php:137-146 | An indented line, an empty line and a line whose first word is ignored are not listed. |
| Options.PutSpec | src/QUI/Composer/Web.php:187 | `$options[$k] = $v` stores `v` under `k`, changes no other key, keeps the key order (appending a new key) and keeps keys unique. |
| Web.GetVersions | src/QUI/Composer/Web.php:159-171 | The loop stores each non-warning line's first word with its second. |
| Web.GetVersionsRows | src/QUI/Composer/Web.php:159-171 | A name is in the result exactly when a non-warning line starts with it. Its version comes from the last such line. |
| Web.VersionEntryOfRow | src/QUI/Composer/Web.php:164-170 | `name` plus any run of spaces plus `version` maps the name to the version. |
| Web.VersionEntryOfLongRow | src/QUI/Composer/Web.php:164-170 | The same with further columns after the version. |
| Web.InstallOptions | src/QUI/Composer/Web.php:186-188 | `--prefer-dist` is set afterwards. It is added as true only when not set, and every other option is unchanged. |
| Web.UpdateOptions | src/QUI/Composer/Web.php:203-205 | `--prefer-dist` is added as true only when neither `--prefer-dist` nor `prefer-source` is set. Every other option is unchanged. |
| Web.RequiredPackages | src/QUI/Composer/Web.php:226-232 | A list passes through. A name gets `:version` only when the version is not empty, and is wrapped into a one-element list. |
| Web.RequireOptions | src/QUI/Composer/Web.php:222-234 | `packages` holds the package list. `--prefer-dist` is added unless `prefer-dist` or `prefer-source` (no dashes) is set. Nothing else changes. |
| Web.Outdated | src/QUI/Composer/Web.php:279-311 | With no data line, the result is []. Otherwise the first line that is not chatter is decoded, and each installed entry becomes `{package, version}` in order. |
| Web.UpdatesAvailable | src/QUI/Composer/Web.php:247-255 | True exactly when the decoded list of the first data line is not empty. |
| Web.GetOutdatedPackages | src/QUI/Composer/Web.php:329-389 | The loop keeps the first update announced per package. The lemmas below state that each package appears once, exactly the announced ones, at their first announcement, in order. |
| Web.IsStored | src/QUI/Composer/Web.php:378-380 | The isset test: true exactly when the package is already stored. |
| Web.FirstPerPackageUnique | src/QUI/Composer/Web.php:378-389 | Each package is reported at most once. |
| Web.FirstPerPackageCovers | src/QUI/Composer/Web.php:378-389 | A package is reported exactly when some line announces an update of it. |
| Web.FirstPerPackageKeepsFirst | src/QUI/Composer/Web.php:378-389 | The entry reported for a package is its first announcement. |
| Web.FirstPerPackageOrder | src/QUI/Composer/Web.php:378-389 | The reported entries keep the order of their first announcements: an earlier entry was first announced before a later one. |
| Web.NewFormatRow | src/QUI/Composer/Web.php:339-356 | `X (old => new)` yields package X, version new and oldVersion old. |
| Web.UpdateEntryOfRow | src/QUI/Composer/Web.php:329-356 | `- Updating X (old => new)` and `- Upgrading X (old => new)` both yield `{X, new, old}`. |
| Web.RowHoldsNoVerb | src/QUI/Composer/Web.php:335-339 | Removing the verbs leaves such a row alone. It holds the arrow and ends in `)`. |
| Web.VersionsSplit | src/QUI/Composer/Web.php:344-349 | `old => new` splits into the two versions. |
| Web.RowColumns | src/QUI/Composer/Web.php:340-341 | The package is the text before ` (`. |
| Web.VersionsClosed | src/QUI/Composer/Web.php:342 | Only the closing parenthesis is removed. |
| Web.VersionWhole | src/QUI/Composer/Web.php:350-356 | A version without a space is kept whole. |
| Web.StripFirstVerb | src/QUI/Composer/Web.php:335-337 | Trimming and removing the leading verb leaves the row. |
| Web.StripSecondVerb | src/QUI/Composer/Web.php:335-337 | The same when the leading verb is the second one removed. |
| Web.OutdatedPackagesOfTwoRows | src/QUI/Composer/Web.php:329-389 | An update and an upgrade of different packages, plus a line announcing nothing, are both reported in order with their versions. |
| Web.OutdatedPackagesOfThree | src/QUI/Composer/Web.php:329-389 | Two announcements of different packages and one other line give exactly those two entries, in order. |
| Web.FirstPerPackageOfTwo | src/QUI/Composer/Web.php:378-389 | Updates of two different packages are both kept, in first-seen order. |
| Web.SearchEntry | src/QUI/Composer/Web.php:424-454 | A line yields a pair exactly when its cleaned text is not noise and holds a space. The cleaned text is then the name, a space and the description, and the name has no space. |
| Web.SearchLineLacksBackspace | src/QUI/Composer/Web.php:425-429 | The cleaned text holds no backspace. |
| Web.Search | src/QUI/Composer/Web.php:424-454 | The loop stores the pair `SearchEntry` gives for each line, so only non-noise lines with a space are stored, under their first word. |
| Web.NotSearchNoise | src/QUI/Composer/Web.php:431-446 | A line whose first word holds a `/` is not dropped as noise. |
| Web.SearchLineKeeps | src/QUI/Composer/Web.php:425-429 | A line without backspaces, edge white space, `- Updating ` or `Reading ` passes the clean-up unchanged. |
| Web.SearchEntryOfRow | src/QUI/Composer/Web.php:424-454 | `vendor/name description` maps the name to the whole description. |
| Web.SearchSkipsReading | src/QUI/Composer/Web.php:428-443 | A `Reading ...` line is dropped. |
| Php.PadBeforeLeading | src/QUI/Composer/Web.php:428-429 | Putting padding (the search clean-up uses a line break) before the one leading occurrence of a prefix such as `Reading ` and trimming gives back the line. |
| Web.SearchOfReadingAndRow | src/QUI/Composer/Web.php:424-454 | A progress line followed by one result row gives exactly that row's pair. |
| Web.ShowOptions | src/QUI/Composer/Web.php:471-473 | A non-empty package name is passed as `package`. Nothing else changes. |
| Web.Show | src/QUI/Composer/Web.php:479-491 | The loop appends each line's listed first word. |
| Web.ShowNames | src/QUI/Composer/Web.php:479-491 | Every listed name is non-empty, not "0", does not start with chr(8), is not `Reading`, and is the first word of some line. |
| Web.ShowOfRowAndReading | src/QUI/Composer/Web.php:479-491 | `vendor/pkg 1.0.0 ...` followed by `Reading ...` lists just the package. |
| Web.Why | src/QUI/Composer/Web.php:550-577 | The loop appends a dependent for each non-chatter line the pattern matches. |
| Web.WhyOfRow | src/QUI/Composer/Web.php:550-577 | A row `name version word (constraint)` yields `{package: name, version, constraint}`, when name, version, word and the constraint are non-empty and hold no white space or parentheses, and word has two characters or more. |
| Web.WhyOfRowAndReading | src/QUI/Composer/Web.php:550-577 | A dependent row of that token shape (no white space or parentheses in any token, the constraint included) followed by progress output gives that one dependent. |
| Web.ExecuteComposer | src/QUI/Composer/Web.php:617-672 | Computes the outcome classification of a run. |
| Web.ThrowForMarker | src/QUI/Composer/Web.php:650-658 | The closure's loop raises the line after the first line that holds the marker. |
| Web.MarkerFailureIff | src/QUI/Composer/Web.php:650-670 | A marker without a line break fails the run exactly when some line holds it. The message is the line after the first such line, "" when there is none. |
| Web.MarkersOnOneLine | src/QUI/Composer/Web.php:660-670 | None of the three markers spans a line break. |
| Web.ClassifyNonZero | src/QUI/Composer/Web.php:617-640 | A non-zero status always fails. It keeps its code and the lines, with `Something went wrong`, exactly when no line names an exception. |
| Web.ClassifyExceptionLine | src/QUI/Composer/Web.php:624-634 | With a non-zero status, the message is the two lines after the first line holding `Exception`, `[` and `]`, trimmed and joined. |
| Web.ClassifyZero | src/QUI/Composer/Web.php:660-672 | A zero status gives back the lines unchanged exactly when no line holds one of the three markers. |
| Web.ClassifyRuntimeFirst | src/QUI/Composer/Web.php:660-662 | `[RuntimeException]` is checked first: the line after its first occurrence is the message. |
| Cli.OptionName | src/QUI/Composer/CLI.php:308 | The option name starts with exactly two dashes. |
| Cli.GetOptionString | src/QUI/Composer/CLI.php:304-317 | The loop returns `OptionString(options)`: the segments of the options in order, or failure when some value is a list. The lemmas below state what that string holds. |
| Cli.SegmentShape | src/QUI/Composer/CLI.php:309-313 | A value other than a list gives a segment starting with ` --name`. |
| Cli.OptionStringFails | src/QUI/Composer/CLI.php:312 | A list value makes `trim` fail, so the whole call fails. |
| Cli.OptionStringDefined | src/QUI/Composer/CLI.php:306-316 | No options give "". The string exists exactly when no value is a list. |
| Cli.OptionStringGrows | src/QUI/Composer/CLI.php:306-316 | The string of a prefix of the options is a prefix of the string, and each option adds at least three characters. |
| Cli.OptionStringNamesEach | src/QUI/Composer/CLI.php:306-316 | Every option's `--name` appears in the string after a space. |
| Cli.OptionNameOfDashed | src/QUI/Composer/CLI.php:308 | Dashes written into the key do not change the name. |
| Cli.RequireTokenRoundTrip | src/QUI/Composer/CLI.php:95-99 | Round trip: the token reads back as the package and the version. An empty version ("" or "0") is left out. |
| Cli.RequireCommandShape | src/QUI/Composer/CLI.php:95-101 | The command is `--prefer-dist  require 'pkg'` followed by the optional version and ` 2>&1`. |
| Cli.Outdated | src/QUI/Composer/CLI.php:132-147 | The loop appends each line's first word that passes the filter with `<warning>You` and `Reading` ignored. |
| Cli.UpdatesAvailable | src/QUI/Composer/CLI.php:159-162 | True exactly when some line is listed by the outdated filter. |
| Cli.HasEntryIff | src/QUI/Composer/CLI.php:159-162 | The outdated list is non-empty exactly when some line is listed. |
| Cli.OutdatedOfRowAndReading | src/QUI/Composer/CLI.php:135-147 | A package row is listed by its name, and a following `Reading ...` line is skipped. |
| Cli.OutdatedSkipsWarning | src/QUI/Composer/CLI.php:134-146 | A line starting with `<warning>You` is skipped. |
| Cli.Show | src/QUI/Composer/CLI.php:235-250 | The loop uses the same filter as the in-process `show`, with only `Reading` ignored. |
| Cli.SearchEntry | src/QUI/Composer/CLI.php:204-208 | A line yields a pair exactly when it holds a space. The line is then the name, a space and the description, and the name has no space. |
| Cli.Search | src/QUI/Composer/CLI.php:203-209 | The loop stores each line's name/description pair. |
| Cli.SearchLastWins | src/QUI/Composer/CLI.php:203-209 | A name is stored exactly when some line starts with it and a space. The last such line gives the description. |
| EventRegistry.AddedSpec | src/QUI/Composer/Utils/Events.php:53-70 | After addEvent the event lists the callback. A new callback is appended at the end with its priority, a registered one changes nothing, and no other event changes. |
| EventRegistry.AddedTwice | src/QUI/Composer/Utils/Events.php:59-64 | Adding a callback twice is adding it once, whatever the second priority. |
| EventRegistry.AddedKeepsDistinct | src/QUI/Composer/Utils/Events.php:59-69 | No event ever lists a callback twice. |
| EventRegistry.AddedKeeps | src/QUI/Composer/Utils/Events.php:55-69 | Adding removes nothing. |
| EventRegistry.AddedAllRegisters | src/QUI/Composer/Utils/Events.php:77-82 | After addEvents every given callback is registered under its event. |
| EventRegistry.AddedAllKeeps | src/QUI/Composer/Utils/Events.php:77-82 | addEvents keeps every earlier registration. |
| EventRegistry.WithoutMembers | src/QUI/Composer/Utils/Events.php:102-106 | An entry survives the removal loop exactly when it is not selected, and the list never grows. |
| EventRegistry.WithoutNothing | src/QUI/Composer/Utils/Events.php:102-106 | When nothing is selected, the list is unchanged and in order. |
| EventRegistry.WithoutKeepsDistinct | src/QUI/Composer/Utils/Events.php:102-106 | Removal keeps a list without repeats. |
| EventRegistry.Coerce | src/QUI/Composer/Utils/Events.php:90 | The parameter typed callable or bool: a closure or a callable name stays a callback, and exactly those do. A name that is not callable becomes a boolean, true exactly when it is neither "" nor "0". A boolean stays as it is. |
| EventRegistry.RemovedSpec | src/QUI/Composer/Utils/Events.php:90-107 | A missing event is left alone. After the coercion, a falsy selector drops the event key. Any other selector keeps the key, even with an empty list, and keeps exactly the entries the coerced selector does not select. No other event changes. |
| EventRegistry.RemovedUncallableName | src/QUI/Composer/Utils/Events.php:90-106 | A name that is not callable and is neither "" nor "0" removes like `true`: every closure and every name except "" and "0" is dropped from the event. |
| EventRegistry.RemovedKeepsDistinct | src/QUI/Composer/Utils/Events.php:90-107 | removeEvent keeps addEvent's invariant. |
| EventRegistry.RemovedAbsent | src/QUI/Composer/Utils/Events.php:90-106 | Removing an unregistered closure or callable name changes nothing. |
| EventRegistry.RemoveUndoesAdd | src/QUI/Composer/Utils/Events.php:102-106 | Removing a just-added callback (a closure or a callable name, as addEvent takes) restores the registry. |
| EventRegistry.RemovedAllShrinks | src/QUI/Composer/Utils/Events.php:114-119 | removeEvents keeps the invariant and adds no event. |
| EventRegistry.EventName | src/QUI/Composer/Utils/Events.php:137-139 | The fired name starts with `on`. A name that already does is kept. |
| EventRegistry.EventNameIdempotent | src/QUI/Composer/Utils/Events.php:137-139 | Normalising twice is normalising once. |
| EventRegistry.EventNameOfLower | src/QUI/Composer/Utils/Events.php:137-139 | `run` fires `onRun`: `on` plus the name with its first letter upper-cased. |
| EventRegistry.InsertSame | src/QUI/Composer/Utils/Events.php:161-167 | Inserting keeps every entry and adds one. |
| EventRegistry.InsertSorted | src/QUI/Composer/Utils/Events.php:161-167 | Inserting into a list in ascending priority keeps it in ascending priority. |
| EventRegistry.InsertStable | src/QUI/Composer/Utils/Events.php:161-167 | Inserting keeps the order of entries of each priority. |
| EventRegistry.SortSpec | src/QUI/Composer/Utils/Events.php:161-167 | The sorted copy is in ascending priority and is a permutation of the list. |
| EventRegistry.SortStable | src/QUI/Composer/Utils/Events.php:161-167 | The sort is stable: entries of equal priority keep their registration order. |
| EventRegistry.SortKeepsSorted | src/QUI/Composer/Utils/Events.php:161-167 | A list already in ascending priority is left as it is. |
| EventRegistry.SortSwapsPair | src/QUI/Composer/Utils/Events.php:161-167 | Two entries in descending priority are swapped. |
| EventRegistry.BracesKeepDoubleBackslash | src/QUI/Composer/Utils/Events.php:189 | As written, `a\\b` (two backslashes) is left unchanged, which the intended collapse reduces to one backslash. |
| EventRegistry.BracesRewriteQuantifierText | src/QUI/Composer/Utils/Events.php:189 | As written, the text `{2,}` is replaced by a backslash. The intended collapse leaves it alone. |
| EventRegistry.CollapseSpec | src/QUI/Composer/Utils/Events.php:189 | Corrected: the result has no doubled backslash, keeps every other character and the first one, and is the identity when no backslash is doubled. |
| EventRegistry.BracesAgreeOnPlainNames | src/QUI/Composer/Utils/Events.php:189 | On a name with no doubled backslash and no text `{2,}`, the call as written and the corrected collapse both leave the name unchanged. |
| EventRegistry.RunListeners | src/QUI/Composer/Utils/Events.php:170-225 | The loop over the sorted copy computes the run, stopping where an Error escapes. |
| EventRegistry.RunCallsAll | src/QUI/Composer/Utils/Events.php:170-225 | Without an Error, a failing callback does not stop the rest. Every closure and every callable name is called, in order. A failure is collected exactly when one of those calls threw. |
| EventRegistry.RunResultKeys | src/QUI/Composer/Utils/Events.php:189-209 | Results are stored only for callable string callbacks, under their normalised names. |
| EventRegistry.RunResultValues | src/QUI/Composer/Utils/Events.php:199-209 | The value stored under a name is what the call of that name returned. |
| EventRegistry.RunStoresReturned | src/QUI/Composer/Utils/Events.php:189-209 | Without an Error, every callable string callback whose call returns has its value stored under its normalised name. |
| EventRegistry.RunSameArgs | src/QUI/Composer/Utils/Events.php:174-207 | `true` and `false` as the arguments make the same run. Neither passes an argument. |
| EventRegistry.RunStaysFatal | src/QUI/Composer/Utils/Events.php:170-225 | After an Error nothing more runs. |
| EventRegistry.FireBlocked | src/QUI/Composer/Utils/Events.php:143-149 | An unforced fire of a running event returns no results, calls nothing and changes no flag. |
| EventRegistry.FireClearsFlag | src/QUI/Composer/Utils/Events.php:155-227 | Without an Error the flag is false afterwards, forced or not. No other flag changes. |
| EventRegistry.FatalBlocksLater | src/QUI/Composer/Utils/Events.php:155-227 | After an escaped Error the flag stays set, so every later unforced fire of that event runs nothing. |
| EventRegistry.FireRunsSorted | src/QUI/Composer/Utils/Events.php:158-225 | A fire calls the callbacks in the order of the stable priority sort. It raises exactly when one of them threw. |
| EventRegistry.FireSingle | src/QUI/Composer/Utils/Events.php:143-233 | An unblocked fire of an event that lists one callback runs that callback alone. It leaves the flag set only when an Error escaped. Its result is that one run's. |
| EventRegistry.Events.constructor | src/QUI/Composer/Utils/Events.php:31-36 | A new registry has no events and no running flags. |
| EventRegistry.Events.GetList | src/QUI/Composer/Utils/Events.php:41-44 | Returns the registry unchanged. |
| EventRegistry.Events.AddEvent | src/QUI/Composer/Utils/Events.php:53-70 | The duplicate-checking loop leaves the registry as `Added` describes and no flag changes. |
| EventRegistry.Events.AddEvents | src/QUI/Composer/Utils/Events.php:77-82 | Adds every pair in order, with priority 0. |
| EventRegistry.Events.RemoveEvent | src/QUI/Composer/Utils/Events.php:90-107 | The argument is coerced, then the unset loop leaves the registry as `Removed` describes. |
| EventRegistry.Events.RemoveEvents | src/QUI/Composer/Utils/Events.php:114-119 | Removes every pair in order, each argument coerced as for removeEvent. |
| EventRegistry.Events.StartFire | src/QUI/Composer/Utils/Events.php:135-167 | Normalises the name and applies the recursion and existence checks. When the fire goes ahead, it sets the flag and returns the sorted copy. |
| EventRegistry.Events.FinishFire | src/QUI/Composer/Utils/Events.php:227-233 | Clears the flag, then raises the collected failures or returns the results. |
| EventRegistry.Events.FireEvent | src/QUI/Composer/Utils/Events.php:133-234 | The result, the new flags and the calls made are those of `Fire` on the old state. The registry is unchanged. |
| EventScenarios.DuplicateAddedOnce | tests/QUI/Composer/Utils/EventsTest.php:25-36 | Adding one closure twice leaves one entry. |
| EventScenarios.PriorityOrder | tests/QUI/Composer/Utils/EventsTest.php:38-54 | The closure with the lower priority, added second, runs first. |
| EventScenarios.NamedResult | tests/QUI/Composer/Utils/EventsTest.php:56-64 | A string callable's value is returned under its name. |
| EventScenarios.RemoveOneThenOther | tests/QUI/Composer/Utils/EventsTest.php:66-84 | Removing one closure leaves one entry. Removing the other leaves the event with none, but still present. |
| EventScenarios.RemoveSteps | tests/QUI/Composer/Utils/EventsTest.php:66-84 | The registries the removal test passes through: one closure, then two, then the second alone, then an empty list under the event. |
| EventScenarios.AddManyThenDropEvent | tests/QUI/Composer/Utils/EventsTest.php:86-103 | An addEvents closure runs once. `removeEvent` with false drops the event. |
| EventScenarios.MissingAndForced | tests/QUI/Composer/Utils/EventsTest.php:105-124 | An unknown event returns no results. A forced nested fire runs again, and the flag is clear afterwards. |
| EventScenarios.GuardedLoop | tests/QUI/Composer/Utils/EventsTest.php:126-138 | A closure that fires its own event runs once. |
| EventScenarios.ThrowingClosure | tests/QUI/Composer/Utils/EventsTest.php:140-150 | A throwing closure makes the fire raise its one failure. |
| EventScenarios.ClosureWithTrue | tests/QUI/Composer/Utils/EventsTest.php:152-178 | `true` as the arguments calls the closure once. |
| EventScenarios.NamedWithoutArguments | tests/QUI/Composer/Utils/EventsTest.php:152-178 | A string callable returns its value with false and with true as the arguments, and runs both times. |
| EventScenarios.NotCallableSkipped | src/QUI/Composer/Utils/Events.php:195-197 | A registered name that is not callable is skipped when the event fires: nothing runs and nothing is returned. This is the fire-time `is_callable` guard only; the test at tests/QUI/Composer/Utils/EventsTest.php:176 registers such a name through `addEvent`, whose `callable` parameter type is not modelled. |

## Left out

- Running Composer is not modelled (`exec`, `system`, `chdir`, `putenv`, the `Application` object, `$_SERVER`/`$GLOBALS`, and the construction checks with `file_exists`/`is_dir`). It is I/O and a foreign library. A run is given as its status code and captured lines.
- The command strings the CLI transport builds for `outdated`, `show`, `search` and the raw `executeComposer` are not modelled. They depend on paths and a shell. Only the `require` token and the option string are.
- `ArrayOutput`'s verbosity, decoration and formatter belong to the Symfony base class and are not part of this model. A `json_encode` failure cannot happen on the strings modelled here, which are sequences of characters.
- Web.Outdated: `json_decode` is a parameter `installedOf` that gives the decoded `installed` list of a line. A line that does not decode to such a list is modelled as the empty list.
- Web.UpdatesAvailable: inherits the `json_decode` parameter of `outdated`.
- Web.Why: PCRE is not modelled. `preg_match` is a parameter giving the groups. `WhyGroups` gives the groups for lines of the shape `name version word (constraint)` whose tokens, the constraint included, hold no white space and no parentheses, and the lemmas assume the matcher agrees with it there. Rows whose tokens hold white space or a parenthesis, where `\s*`, `\S+` and the backtracking to `\(` would cut differently, are not covered. The `why` options are not modelled.
- Web.GetOutdatedPackages: the legacy ` to ` form (`LegacyFormat`) is modelled as the code reads it, but nothing is proved about it. Its `$line[1]` may not exist, and the model then reads it as "", as PHP's null would be.
- Web.ClassifyNonZero: the exception context array and the codes of QUI exceptions are kept only as status code and lines. Exception traces are not modelled.
- Option arrays are modelled with string keys and values null, boolean, string or list. Integer keys and numeric values are left out. In the CLI option string, false and null read as "", as PHP's `trim` makes them.
- EventRegistry: only the two kinds of callbacks are modelled: closures, told apart by an identity, and string callables. Array callables (`[$object, 'method']`) are left out. Loose `==` between a named callable and a closure is false, and between two callable names it is string equality. A name that is not callable never reaches that comparison, since the `callable|bool` parameter of `removeEvent` turns it into a boolean (`Coerce`); whether a name is callable is the parameter `isCallable`. The numeric-string comparisons of PHP's `==` are left out.
- RemovedAbsent: stated for closures and callable names only. A name that is not callable removes like a boolean instead (`RemovedUncallableName`).
- EventRegistry: the `callable` type check of `addEvent` (a TypeError for a non-callable) is left out. The model accepts any name, so `EventScenarios.NotCallableSkipped` registers a name PHP would reject at `addEvent` and shows only the fire-time guard.
- EventRegistry: `unset` leaves integer keys with gaps. The model keeps only the order of the entries, which is all `fireEvent` and the sort use.
- EventRegistry: calling a callback is an oracle. `isCallable` gives `is_callable` of a name, and `outcome` gives what a call returns, throws or raises as an Error. `preg_replace` returning null (a PCRE failure) is left out.
- EventRegistry.Step: normalises a string callable with the corrected `CollapseBackslashes` (see Findings), not with the literal `{2,}` replacement that `src/QUI/Composer/Utils/Events.php:189` performs as written (`BracesReplaced`). The two agree on names without a doubled backslash and without the text `{2,}` (`BracesAgreeOnPlainNames`).
- EventRegistry.Invoked: normalises a string callable with the corrected `CollapseBackslashes` (see Findings), not with the literal `{2,}` replacement that `src/QUI/Composer/Utils/Events.php:189` performs as written (`BracesReplaced`). The two agree on names without a doubled backslash and without the text `{2,}` (`BracesAgreeOnPlainNames`).
- RunListeners: its run normalises a string callable with the corrected `CollapseBackslashes` (see Findings), not with the literal `{2,}` replacement that `src/QUI/Composer/Utils/Events.php:189` performs as written (`BracesReplaced`). The two agree on names without a doubled backslash and without the text `{2,}` (`BracesAgreeOnPlainNames`).
- RunCallsAll: the calls it states are those of `Invoked`, which normalises a string callable with the corrected `CollapseBackslashes` (see Findings), not with the literal `{2,}` replacement that `src/QUI/Composer/Utils/Events.php:189` performs as written (`BracesReplaced`). The two agree on names without a doubled backslash and without the text `{2,}` (`BracesAgreeOnPlainNames`).
- RunResultKeys: the result keys it states are names after `CollapseBackslashes`; as written they would be names after `BracesReplaced`. The two agree on names without a doubled backslash and without the text `{2,}`.
- RunResultValues: the keys and the called names are those after `CollapseBackslashes`, not `BracesReplaced`, as for RunResultKeys.
- RunStoresReturned: the stored key and the `is_callable` test use the name after `CollapseBackslashes`, not `BracesReplaced`, as for RunResultKeys.
- FireRunsSorted: the call list it states is that of `Invoked`, which normalises a string callable with the corrected `CollapseBackslashes` (see Findings), not with the literal `{2,}` replacement that `src/QUI/Composer/Utils/Events.php:189` performs as written (`BracesReplaced`). The two agree on names without a doubled backslash and without the text `{2,}` (`BracesAgreeOnPlainNames`).
- EventRegistry.Events.FireEvent: equals `Fire`, which normalises a string callable with the corrected `CollapseBackslashes` (see Findings), not with the literal `{2,}` replacement that `src/QUI/Composer/Utils/Events.php:189` performs as written (`BracesReplaced`). The two agree on names without a doubled backslash and without the text `{2,}` (`BracesAgreeOnPlainNames`).
- EventRegistry: the exception stack is modelled as the list of collected messages and codes. The traces are not modelled.
- EventRegistry.Events.FireEvent: there is no nested fire inside the loop. A callback that fires events again is modelled in `EventScenarios` by calling `StartFire`, then the nested fire, then `FinishFire`.
- EventScenarios: the tests' literal strings are replaced by parameters (any event name, any callable name). The lemmas hold for every such name.
- The `Lines.Assoc` result is a Dafny map, so the insertion order of PHP's associative arrays in `getVersions` and `search` is not modelled.
- `src/QUI/Composer/Composer.php` and the interfaces hold only delegation and signatures, and are not part of this model.
- `tests/QUI/Composer/CLIUnitTest.php` tests methods that `src/QUI/Composer/CLI.php` does not have, so its expectations are not used.

Where the code's doc comments and tests suggest otherwise, the model follows the code:
- A line with no space is parsed to `("", "")`, not skipped (`Parser.ParseSingleWord`).
- The empty check comes before the backspaces are removed, so a line of blanks gives `("", "")`.
- `vendor/pkg v1.2.3` gives an empty version (see Findings).
- A raw line break in a message never completes the sink's line, since `json_encode` escapes it (`ArrayOutputs.ForcesLineBreakIff`).
- A non-zero status with a `[RuntimeException]` line reports the two following lines, joined (`Web.ClassifyExceptionLine`). Only a zero status reports the one detail line.

`tests/QUI/Composer/Utils/ParserTest.php:28-39` expects `null` for the skipped lines and for a single word, where the code returns an empty array and `("", "")`.

## Findings

| source | as written | input that shows it | evidently intended | confidence | as-written member | corrected member |
|---|---|---|---|---|---|---|
| src/QUI/Composer/Utils/Parser.php:53-57 | With no second space after the version, `strpos` gives false and `substr($versionTemp, 0, false)` gives "". The row loses its version. | `vendor/pkg v1.2.3` parses to package `vendor/pkg` and version "" | When no space follows, the version is the rest of the line: `1.2.3` | not executed | Parser.ParseTwoColumnsDropsVersion | Parser.ParseIntendedRow |
| src/QUI/Composer/Utils/Events.php:189 | The single-quoted `'/\\{2,}/'` reaches PCRE as `/\{2,}/`, which matches the literal text `{2,}`. Doubled backslashes are kept, and `{2,}` inside a name is replaced by a backslash. | `a\\b` (two backslashes) stays `a\\b`; `{2,}` becomes `\` | Every run of two or more backslashes becomes one | not executed | EventRegistry.BracesKeepDoubleBackslash | EventRegistry.CollapseSpec |
