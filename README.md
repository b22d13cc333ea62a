# grunt-bower-update: the version-selection engine in Dafny

grunt-bower-update is a Grunt task (`bower-update`) that updates the targets
in a project's `bower.json`. It reads the manifest and decides which packages
to look at. It fetches the published versions of each package from the Bower
registry. It then keeps the packages that have a latest version different
from their minimum satisfying version. That includes a package whose latest
version is below its minimum, and one that no published version satisfies.
For each kept package it picks a new target, either by a caller-supplied
function, by forcing the latest version, or by asking the operator. Finally it writes the chosen endpoints back and
reports how many targets changed.

This project models the decision core of `tasks/bower-update.js` and proves
what each step promises:

- `semver.dfy` (module `Semver`) holds release versions as (major, minor,
  patch) triples with the order of `semver.compare`. It models `minSatisfying`
  and the library's `maxSatisfying` as filter, sort and pick. The semver
  functions `validRange`, `valid` and `satisfies` are fields of a `Library`
  value, so every result holds whatever they do. The truthiness test on
  `validRange`'s result (tasks/bower-update.js:108) is written out: null and
  the empty string are both falsy.
- `json.dfy` (module `Json`) holds a manifest section as the ordered list of
  its members. Assigning and deleting keys follow JavaScript: assigning a
  present key replaces it in place, assigning a new key appends it. The class
  `Manifest` is the parsed `bower.json` that the writer updates.
- `choices.dfy` (module `Choices`) models `versionChoices` and the question
  and list-entry values that inquirer receives.
- `packages.dfy` (module `Packages`) models the package descriptor
  (class `Package`) and `getPackages`, with the derivation of `range` and
  `rangeChar`. It also models what `getInfo` attaches and the selection
  precedence of `prepareDeps`: `filter`, then `pickAll`, then the operator's
  checkbox.
- `selector.dfy` (module `Selector`) models `chooseVersions`:
  - the candidacy filter, which sets `min` and `max` on every package;
  - the policy chain: `choose`, then `forceLatest`, then one question per
    candidate;
  - the construction of each question and its default.
- `writer.dfy` (module `Writer`) models `saveJSON`: the merge into
  `dependencies` or `devDependencies`, the deletion of `resolutions` entries,
  and the change count.
- `logging.dfy` (module `Logging`) models how `defineLogger` routes a
  registry log event, by boolean, by predicate or by severity threshold. The
  severity numbers are bower-logger's `LEVELS` table, which is not part of
  this model and is taken as given (error 5, conflict 4, warn 3, action 2,
  info 1, debug 0). `Logging.DefaultShowsWarnings` depends on those numbers.

Things the engine gets from people or from outside become values:
- The operator is an `Operator`: which checkbox entries stay checked, and the
  answers to a batch of questions.
- bower-endpoint-parser is an `EndpointParser` with its decompose and compose
  functions.
- The fetched registry data are arguments of `Package.AttachInfo`.

JavaScript truthiness is written out:
- an empty `value` means no value was chosen, and `value || target` falls
  back to the target;
- an empty `rangeChar` is falsy in `options.rangeChar || pkg.rangeChar`;
- `null` and `undefined` become `None`;
- `pkg.dev` is `true` for a dev dependency and undefined for any other
  (tasks/bower-update.js:110, 117). The model writes `false` for undefined.
  This agrees with every truthiness test, but a `filter` or `choose` that
  compares `pkg.dev === false` would see a difference.

Two behaviours of the source are stated as lemmas:
- a target like `1.x` has the digit `1` as its range character, so
  `forceLatest` with latest 2.0.0 writes `12.0.0` (`Selector.DigitRangeCharGlues`);
- a target like `>=1.0.0` has range character `>`, so without a forced range
  character the question's default is `>2.0.0`. That range excludes 2.0.0
  itself, and no choice of the question carries it unless it is the current
  target (`Selector.DefaultNotOffered`).

The task's defaults (tasks/bower-update.js:16-26) are `Packages.Defaults`.

The write step receives only the packages that `chooseVersions` returns
(tasks/bower-update.js:51-52). So `clearResolutions` deletes the resolutions
of updated packages only, not of every selected package. The count
likewise covers updated packages only.

## Model

| member | source | states |
|---|---|---|
| Semver.Le | tasks/bower-update.js:68 | `semver.compare(a, b) <= 0` on release triples: by major, then minor, then patch |
| Semver.Satisfies | tasks/bower-update.js:66 | `semver.satisfies(version, range)`, false for a range that failed to parse |
| Semver.Text | tasks/bower-update.js:175 | the registry's `major.minor.patch` string of a version, non-empty and starting with a digit; `TextInjective` makes it one-to-one |
| Semver.LeIsTotalOrder | tasks/bower-update.js:68 | the order `semver.compare` sorts by is total, antisymmetric and transitive |
| Semver.Satisfying | tasks/bower-update.js:64-67 | a version is kept exactly when it is in the list and satisfies the range; an unparsable range keeps none |
| Semver.Insert | tasks/bower-update.js:68 | places a version in front of the first element it is at or below, adding one element; `InsertPermutes` and `InsertSorted` characterise it |
| Semver.Sort | tasks/bower-update.js:68 | `.sort(semver.compare)` as an insertion sort of the same length; `SortPermutes` and `SortSorts` characterise it |
| Semver.InsertPermutes | tasks/bower-update.js:68 | inserting adds exactly one occurrence of the inserted version |
| Semver.InsertSorted | tasks/bower-update.js:68 | inserting into an ascending list keeps it ascending |
| Semver.SortPermutes | tasks/bower-update.js:68 | the sorted list is a permutation of its input |
| Semver.SortSorts | tasks/bower-update.js:68 | the sorted list is ascending and has exactly the members of its input |
| Semver.SortedBounds | tasks/bower-update.js:68 | the first element of an ascending list is its least and the last its greatest |
| Semver.MinSatisfying | tasks/bower-update.js:63-69 | null exactly when no version satisfies; otherwise a satisfying member of the list that is at or below every satisfying member |
| Semver.MaxSatisfying | tasks/bower-update.js:174 | null exactly when no version satisfies; otherwise a satisfying member at or above every satisfying member |
| Semver.MinNotAboveMax | tasks/bower-update.js:173-174 | min and max are null together, and min is at or below max |
| Semver.MinIgnoresDuplicates | tasks/bower-update.js:63-69 | repeating a published version does not change the minimum |
| Semver.TextInjective | tasks/bower-update.js:175 | two versions render to the same string only when they are the same version, so comparing strings compares versions |
| Json.Manifest | tasks/bower-update.js:251-266 | the parsed `bower.json` whose `dependencies`, `devDependencies` and `resolutions` the writer updates in place |
| Json.Keys | tasks/bower-update.js:104 | `Object.keys(o)`: one key per member, in member order |
| Json.Get | tasks/bower-update.js:263 | a key is undefined exactly when it is absent, and a present key's value is a member of the object |
| Json.Put | tasks/bower-update.js:263 | `o[k] = v`: replaces the value of a present key in place, else appends the member; `GetPut`, `PutKeys` and `PutWellFormed` characterise it |
| Json.Remove | tasks/bower-update.js:266 | `delete o[k]`: drops the members under k; `GetRemove`, `RemoveKeepsOthers` and `RemoveWellFormed` characterise it |
| Json.GetPut | tasks/bower-update.js:263 | after `o[k] = v`, `o[k]` is v and every other key keeps its value |
| Json.PutKeys | tasks/bower-update.js:263 | assigning a present key keeps the key order; a new key goes last |
| Json.PutWellFormed | tasks/bower-update.js:263 | assigning never duplicates a key |
| Json.GetRemove | tasks/bower-update.js:266 | after `delete o[k]`, k is undefined and every other key keeps its value |
| Json.RemoveKeepsOthers | tasks/bower-update.js:266 | deleting keeps exactly the members under other keys |
| Json.RemoveWellFormed | tasks/bower-update.js:266 | deleting never duplicates a key |
| Choices.Prefixes | tasks/bower-update.js:79-101 | one prefix under a forced range character, three otherwise |
| Choices.VersionChoices | tasks/bower-update.js:79-101 | with a non-empty range character, exactly one choice, `rangeChar + version`; with an empty one, exactly `version`, `^version`, `~version`, in that order |
| Choices.PrefixedTextInjective | tasks/bower-update.js:79-101 | two offered targets are equal only with the same prefix and the same version |
| Choices.VersionChoicesDistinct | tasks/bower-update.js:89-100 | the strict, caret and tilde forms are pairwise distinct |
| Packages.Defaults | tasks/bower-update.js:16-26 | dev dependencies included, resolutions cleared, no pickAll, no forceLatest, an empty rangeChar, no filter or choose, and logging from `'warn'` up |
| Packages.Truthy | tasks/bower-update.js:108 | a range is truthy exactly when it is present and non-empty |
| Packages.FirstChar | tasks/bower-update.js:108 | `target.charAt(0)`: empty exactly for the empty target, else the first character |
| Packages.RangeChar | tasks/bower-update.js:107-108 | at most one character and a prefix of the target; empty exactly when validRange gives null or the empty string, the target is `*`, the target is a bare version, or the target is empty |
| Packages.Package.IsCandidate | tasks/bower-update.js:175 | `latest && pkg.min !== latest`: a latest version exists and differs from min |
| Packages.Package.Written | tasks/bower-update.js:256 | the target written back: the chosen value, else the declared target |
| Packages.Package.View | tasks/bower-update.js:122 | what a `filter` or `choose` function sees of a package |
| Packages.Views | tasks/bower-update.js:122 | the views of the listed packages, one per package, in order |
| Packages.Package.Declares | tasks/bower-update.js:105-110 | what one step of `getPackages` yields for a manifest entry: the key as name, the parser's source and target, the range, the range character derived from the target, and the dev flag, with no versions, latest, min, max or value yet |
| Packages.Package.constructor | tasks/bower-update.js:105-110 | the descriptor holds the manifest key as its name, the decomposed source and target, the range, the range character and the given dev flag, with nothing attached yet |
| Packages.Package.AttachInfo | tasks/bower-update.js:161-162 | versions become the fetched list or the empty list; latest becomes the fetched latest version |
| Packages.GetPackages | tasks/bower-update.js:103-113 | one fresh descriptor per manifest entry, in key order, each declared by its entry and all with the same dev flag |
| Packages.Positions | tasks/bower-update.js:122-124 | the positions below n that a test accepts, at most n of them; `PositionsMembers` characterises it |
| Packages.Keep | tasks/bower-update.js:120-153 | whether the i-th listed package is passed on: the filter's verdict on it when a filter is given, else always under pickAll, else whether the operator left it checked |
| Packages.PositionsMembers | tasks/bower-update.js:122-124 | the positions kept are exactly those below n that the test accepts, in increasing order |
| Packages.Selected | tasks/bower-update.js:120-153 | the selected positions are increasing positions of the listed packages |
| Packages.Pick | tasks/bower-update.js:122-129 | the picked packages are the listed ones at the selected positions, in order |
| Packages.FilterDecides | tasks/bower-update.js:120-125 | a filter function keeps exactly the packages it accepts, whatever `pickAll` says |
| Packages.PositionsOfAll | tasks/bower-update.js:127-130 | a test that accepts everything selects every position in order |
| Packages.PickAllKeepsAll | tasks/bower-update.js:127-130 | without a filter, `pickAll` keeps every listed package in order |
| Packages.CheckboxDecides | tasks/bower-update.js:132-153 | otherwise exactly the entries the operator leaves checked are kept |
| Packages.Lists | tasks/bower-update.js:115-118 | the listing: one descriptor per dependency, then one per dev dependency when they are included, each declared by its entry |
| Packages.ListPackages | tasks/bower-update.js:115-118 | the dependencies are listed first, one fresh distinct descriptor per entry in key order, then the dev dependencies if included; a descriptor is dev exactly when it comes from the dev section |
| Packages.PrepareDeps | tasks/bower-update.js:115-154 | the dependencies are listed first, then the dev dependencies if included; the result is the selection from that list, without duplicates; no dev package appears unless dev dependencies are included; dev packages come after the others |
| Logging.Levels | tasks/bower-update.js:281 | bower-logger's `LEVELS` table, taken as given: error 5, conflict 4, warn 3, action 2, info 1, debug 0 |
| Logging.Severity | tasks/bower-update.js:281 | `BowerLogger.LEVELS[msg.level]`, undefined for an unknown level |
| Logging.NumberOrZero | tasks/bower-update.js:294 | the number a string stands for when it is decimal digits, else 0 |
| Logging.Threshold | tasks/bower-update.js:289-294 | the threshold a criterion stands for: a level name's severity, else the number it converts to, else 0 |
| Logging.Route | tasks/bower-update.js:280-298 | `error` exactly for events of severity 3 or more (warn, conflict, error); a boolean sends to the log exactly when true; a function exactly when it accepts the event; a level name or number exactly when the event's known severity is at or above it |
| Logging.ThresholdMonotone | tasks/bower-update.js:290-294 | under a threshold, an event at least as severe as one that is logged is logged too |
| Logging.DefaultShowsWarnings | tasks/bower-update.js:23 | under the default `'warn'`, exactly warn, conflict and error events reach the log, through `error` |
| Selector.EffectiveChar | tasks/bower-update.js:189 | the forced range character when it is non-empty, else the package's |
| Selector.LatestTarget | tasks/bower-update.js:189 | the effective range character followed by the latest version; both the forced value and the question's default (line 223) |
| Selector.QuestionFor | tasks/bower-update.js:195-224 | the question about one package: its name, the keep-current choice, the maximum part, the latest part, and the default; `QuestionShape` and `OfferedTargets` characterise it |
| Selector.MaxPart | tasks/bower-update.js:206-211 | the separator saying max is the same when min equals max, else the separator naming max followed by the forms of max |
| Selector.LatestPart | tasks/bower-update.js:213-216 | when max differs from latest, the separator naming latest followed by the forms of latest; nothing otherwise |
| Selector.Offered | tasks/bower-update.js:198-216 | the operator can pick the value: some choice of the question carries it |
| Selector.QuestionShape | tasks/bower-update.js:195-224 | the question is named after the package; the first choice keeps the current target; the separator after it reports the maximum as the same exactly when min equals max; the latest-version separator appears exactly when max differs from latest; the default is the effective range character plus latest |
| Selector.BuildQuestion | tasks/bower-update.js:196-224 | building the choices by push and concat yields the question above |
| Selector.OfferedTargets | tasks/bower-update.js:198-216 | every value the operator can pick is the current target, a form of the maximum when it differs from the minimum, or a form of latest when it differs from the maximum |
| Selector.MaxFormsOfferedIff | tasks/bower-update.js:206-211 | a form of the maximum other than the current target is offered exactly when min differs from max |
| Selector.LatestFormsOfferedIff | tasks/bower-update.js:206-216 | a form of latest other than the current target is offered exactly when max differs from latest, or when it is the maximum and that differs from min |
| Selector.DefaultOffered | tasks/bower-update.js:213-223 | for a candidate, the default is offered whenever the effective range character is one the choices use |
| Selector.DefaultNotOffered | tasks/bower-update.js:210-223 | without a forced range character, a package range character other than `^`, `~` or a digit gives a default no choice carries, unless the default is the current target |
| Selector.DigitRangeCharGlues | tasks/bower-update.js:186-189 | a target like `1.x` has range character `1`, so forcing latest 2.0.0 writes `12.0.0` |
| Selector.Resolved | tasks/bower-update.js:173-174 | min and max hold the minimum and maximum satisfying versions of the package's versions and range |
| Selector.Resolve | tasks/bower-update.js:173-174 | sets min and max to the minimum and maximum satisfying versions |
| Selector.Candidates | tasks/bower-update.js:171-176 | `deps.filter(...)`: the candidates in their order; `CandidatesMembers`, `CandidatesStep` and `CandidatesDistinct` characterise it |
| Selector.CandidatesMembers | tasks/bower-update.js:171-176 | the kept packages are exactly those with a latest version that differs from min |
| Selector.CandidatesStep | tasks/bower-update.js:171-176 | the filter keeps the packages in their order: one more package adds itself at the end exactly when it is a candidate |
| Selector.CandidatesDistinct | tasks/bower-update.js:171-176 | filtering a duplicate-free list keeps it duplicate-free |
| Selector.FilterCandidates | tasks/bower-update.js:171-176 | min and max are set on every package, dropped ones included; the result is the candidates in order, and each can be asked about |
| Selector.ApplyChoose | tasks/bower-update.js:178-184 | every candidate's value is what `choose` returns for it |
| Selector.ApplyForceLatest | tasks/bower-update.js:186-193 | every candidate's value is the effective range character (the forced one, else the package's) plus latest |
| Selector.Askable | tasks/bower-update.js:195-224 | a question can be built for the package: it has a latest version, and min and max are present together |
| Selector.QuestionAbout | tasks/bower-update.js:195-224 | the question about one package, built from its view |
| Selector.Questions | tasks/bower-update.js:195 | `updated.map(...)`: one question per candidate, in order |
| Selector.Prompt | tasks/bower-update.js:228 | the batch of questions passed to `inquirer.prompt` |
| Selector.AnswerFor | tasks/bower-update.js:230 | `answers[pkg.name]`: the answer under the name, or no value when the name was not answered |
| Selector.QuestionAt | tasks/bower-update.js:195 | the k-th question is about the k-th candidate |
| Selector.ViewsAskable | tasks/bower-update.js:195 | every candidate a question can be asked about still admits one when seen through its view |
| Selector.BuildQuestions | tasks/bower-update.js:195-225 | one question per candidate, built from the candidates' views (name, target, range character, min, max, latest), in order |
| Selector.StoreAnswers | tasks/bower-update.js:228-233 | every candidate's value becomes the answer under its name, undefined when unanswered, and nothing a question is built from changes |
| Selector.AskOperator | tasks/bower-update.js:227-234 | every candidate's value is the operator's answer under its name from the one batch of questions, undefined when unanswered |
| Selector.Chosen | tasks/bower-update.js:178-234 | a candidate's value is what `choose` returns when a chooser is given; else, under forceLatest, the latest target; else the operator's answer to the batch |
| Selector.ApplyPolicy | tasks/bower-update.js:178-234 | every candidate stays a candidate with the same latest, min and max, and its value is what the first applicable policy gives (`Chosen`): `choose` wins over `forceLatest`, which wins over asking |
| Selector.ChooseVersions | tasks/bower-update.js:170-235 | every package is resolved; the result is the candidates; only candidates get a value; each value comes from the first policy that applies (`Chosen`) |
| Writer.Updates | tasks/bower-update.js:254-262 | one update per package, in order, each with the endpoint of the written target (the value, else the declared target) and whether that differs from the declared target |
| Writer.UpdateOf | tasks/bower-update.js:254-270 | for one package: its name, the endpoint composed from the written target, its dev flag, and whether that target differs from the declared one |
| Writer.Merge | tasks/bower-update.js:255-263 | `dest[pkg.name] = endpoint[pkg.name]` for each package of the section, in order; `MergeGet`, `MergeKeys` and `MergeWellFormed` characterise it |
| Writer.Clear | tasks/bower-update.js:265-267 | `delete resolutions[pkg.name]` for each package, in order; `ClearGet` characterises it |
| Writer.CountChanged | tasks/bower-update.js:269-271 | `num++` for each package whose target changed; `CountChangedCounts` and `CountChangedBounds` characterise it |
| Writer.LastEntry | tasks/bower-update.js:263 | undefined exactly when no update of the section names the key; otherwise the entry of such an update |
| Writer.MergeGet | tasks/bower-update.js:255-263 | after the writes, a key of the section holds the entry of the last update naming it, or what it held when none does |
| Writer.MergeKeys | tasks/bower-update.js:263 | the writes keep every key and add only keys of updated packages of that section |
| Writer.MergeWellFormed | tasks/bower-update.js:263 | the writes never duplicate a key |
| Writer.MergeIdempotent | tasks/bower-update.js:254-272 | writing the same updates again changes no value |
| Writer.ClearGet | tasks/bower-update.js:265-267 | after clearing, no updated package has a resolution and all other resolutions remain |
| Writer.ClearWellFormed | tasks/bower-update.js:265-267 | clearing never duplicates a key |
| Writer.CountChangedBounds | tasks/bower-update.js:269-271 | the count is at most the number of packages and is zero exactly when no target changed |
| Writer.CountChangedCounts | tasks/bower-update.js:269-271 | the count equals the number of packages whose written target differs from the declared one |
| Writer.SectionWrite | tasks/bower-update.js:255-263 | a package whose name no other package of its section repeats ends up under its name with the endpoint of its written target (the value, else the declared target) |
| Writer.UnchangedWritesBack | tasks/bower-update.js:256-270 | if the parser's compose undoes its decompose, a package left at its target writes back its declared entry and is not counted |
| Writer.Step | tasks/bower-update.js:254-271 | one more package advances the merge of its own section, leaves the other section alone, clears its name, and counts one exactly when its target changed |
| Writer.WriteBack | tasks/bower-update.js:255-267 | one package's endpoint goes into its own section only, and its name leaves the resolutions when `clearResolutions` is set |
| Writer.SaveJSON | tasks/bower-update.js:250-272 | the two sections become the merges of the updates; resolutions are cleared of the updated names only when `clearResolutions` is set; the returned number is the change count |

## Left out

- Grunt task registration, `this.async`, and the option overrides from the command line (tasks/bower-update.js:14-61). This is framework plumbing.
- Reading and writing `bower.json`, and the success message (tasks/bower-update.js:237-248, 274-277). This is file I/O. The manifest is the in-memory `Json.Manifest`.
- The registry lookup and its concurrent fan-out (`getInfo`, tasks/bower-update.js:156-168). This is network access. The fetched versions and latest version are arguments of `Packages.Package.AttachInfo`.
- The inquirer prompts (tasks/bower-update.js:142-153, 227-234). The operator is an abstract `Operator`. The checkbox is modelled by the positions it leaves checked, and the list questions by a map from question name to answer.
- The checkbox's headings, counts and labels, the colours, and the log texts. These are cosmetic.
- semver internals, including prerelease and build tags, and bower-endpoint-parser internals. These are foreign libraries and are taken as given functions.
- The logger listener added and removed around the run (tasks/bower-update.js:46, 59). This is an event-emitter side effect.
- The `grunt[dest][method].bind` at the end of `defineLogger` (tasks/bower-update.js:297). Only the routing decision is modelled.
- `filter` and `choose` also receive `options` in the source. Here they see only the package, since a caller's function can close over its options.
- Packages.Package.constructor: the descriptor's name is taken to be the manifest key. The source takes `pkg.name` from the object bower-endpoint-parser returns (tasks/bower-update.js:105). The parser is a pair of total functions here, so its own failures are not modelled either.
- Logging.Route: a level-name criterion that is not a level is converted by `Number(...) || 0` only for strings of decimal digits. Any other string counts as 0, including signs, whitespace, hexadecimal and exponents.
- Json.Put: JavaScript's ordering of integer-like keys before other keys is not modelled. Keys keep insertion order.
- Writer.SaveJSON: a section missing from the manifest is modelled as an empty section. The source assigns into it only when it exists, and no dev package exists without it.
- Selector.ChooseVersions: it requires the packages to be distinct objects. The source does not demand this, but the list from `Packages.PrepareDeps` always satisfies it.
- Selector.ApplyChoose: `choose` is modelled as returning a string, and an empty string means no value. A non-string result is not modelled.
