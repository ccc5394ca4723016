# docs-utils validation and cross-reference core, in Dafny

This project models the documentation checker in `index.js` of enactjs/docs-utils. It has two
phases that share one module-level registry.

- **`validate`** runs once per parsed source directory. It checks the parser's doclets:
  - at most one top-level doclet;
  - the first doclet is a module named after its directory;
  - no repeated static member names;
  - `@see` descriptions look like links.

  It also records in the registry:
  - the `memberof.name` of each static member, in `allStatics`;
  - every `@extends`/`@mixes` citation, in `allRefs`;
  - every link URL with the modules that cite it, in `allLinks`;
  - the module, in `allModules`, and its library, in `allLibraries`.
- **`postValidate`** runs over the finished registry:
  - every cited reference must name a registered static member;
  - every link is classified with the pattern `^((\w+\/\w+)(\.\w+)?)` and the exception
    `spotlight/Spotlight`. A link with a member part must name a registered static member, and a
    link without one must name a registered module.

  With `ignoreExternal`, keys whose library was never scanned are skipped.
- **`warn`** prints a line. In strict mode it also sets the process exit code to 1 unless a code
  is already set. A directory whose parse fails sets code 2.

Module layout:

- `Text`: the string operations the source uses (`indexOf`, `lastIndexOf`, `includes`, `split`,
  `join`, decimal rendering).
- `DocTypes`: the parser output and the finding datatype.
- `Dict`: a JavaScript object used as a dictionary of arrays. It keeps the key order
  `Object.keys` reports.
- `Diagnostics`: `docNameAndPosition` and the exit-code rule.
- `Messages`: the exact text of each warning line.
- `LinkPattern`: the link pattern, matched by hand.
- `Ingest` and `Resolve`: what `validate` and `postValidate` emit and record, stated as functions
  of their inputs.
- `Engine`: the `Registry` class.
  - Its fields are the module-level registry, the warnings printed so far and the exit code.
  - Its methods are the imperative loops of `validate`, `pushRef`, `warn` and `postValidate`.
  - Each method is proved to leave exactly the state the `Ingest`/`Resolve` functions describe.
- `Paths`: the `validPaths` and `componentDirectory` derivation of `getDocumentation`.
- `Driver`: `getDocumentation` and the standalone entry point, run sequentially over given parse
  results.
- `Search`: the search-index ids.
- `FrontMatter`: `prependTableOfContents`.

Modelling notes:

- **Warnings.** A warning is a structured value, so that counts and membership can be stated.
  `Messages.Render` gives its text.
- **Exit code.** `exitCode == 0` stands for an unset `process.exitCode`.
- **Parser output and queries are inputs.** The parser's output is given as data. So are the
  `@see` and link query results on the first doclet.
- **Missing text fields.** A text field the parser leaves out is the empty string. It is falsy
  in the truthiness tests, as a missing field is (`doc.name ? …`, `path.split(sep)[1] || …`).
  Where the source interpolates or dereferences a missing field, the model differs; "## Left out"
  lists those places.

Where the code differs from the behaviour its design describes, the model follows the code:

- A doclet whose `path` is empty is not reported as "not a module". The code dereferences
  `path[0]` and throws, so `Validate` requires a non-empty path. `Processable` states the same
  for the driver.
- Statics are registered under the doclet's own `memberof.name`, not under the name derived
  from the directory.
- A failed parse sets exit code 2 even in non-strict mode, which is what the rejection handler
  at index.js:159-162 does.
- The `@see` check does not pair each tag with its owner. The comment at index.js:205 says it
  does, but the query at index.js:206 returns two arrays:
  - `tags`: the `@see` tags of all owners, flattened;
  - `context`: one context per owner.

  The loop at index.js:245-251 pairs them by index. After an owner with two or more `@see` tags,
  later tags are named with the file of a later owner. A suspicious tag past the last context
  throws when its `file` is read. That rejects `validate`'s promise, so the links, the module and
  its library are not recorded. `Ingest.ScanSees` models the loop as written.
  `Ingest.SeePairingShifts` shows the shift on two owners. `Ingest.SinglySeenAligned` shows that
  the code and the comment agree when no owner has more than one `@see` tag.

## Model

| member | source | states |
|---|---|---|
| Engine.Registry.constructor | index.js:36-40 | The registry starts empty, with no warnings and no exit code set. |
| Engine.Registry.Warn | index.js:173-178 | Appends the line. The exit code becomes 1 only in strict mode when no code is set; otherwise it is unchanged. |
| Engine.Registry.FailParse | index.js:159-162 | A rejected parse sets exit code 2. |
| Diagnostics.ExitCodeAfter | index.js:173-178 | After any number of warnings: <ul><li>non-strict mode never changes the code;</li><li>a set code is never overwritten;</li><li>in strict mode an unset code becomes set exactly when some warning occurred, and then it is 1.</li></ul> |
| Diagnostics.ExitCodeAfterAdds | index.js:173-178 | Warning in two batches leaves the same code as warning all at once. |
| Engine.Registry.PushRef | index.js:198-203 | `allRefs[ref]` gains the entry `{type, name, context}` at its end, creating the list if absent. |
| Dict.Push | index.js:198-203 | The list under the key gains the value at its end. Other keys keep their lists. A new key goes to the end of the key order. |
| Dict.PushUnique | index.js:257-262 | As `Push`, except that a value the list already holds is not added again. |
| Dict.PushUniqueDistinct | index.js:257-262 | A deduplicating push never puts a value twice in one list. |
| Engine.Registry.PushTagRefs | index.js:233-240 | The tag loop of one member leaves `allRefs` as `TagRefs` describes. |
| Ingest.TagRefsGet | index.js:233-240 | For every key, the tag loop appends exactly the `extends`/`mixes` citations of that key, in order. Other keys are unchanged. |
| Ingest.TagRefsKeys | index.js:233-240 | The tag loop creates lists exactly for the keys its reference tags name. It keeps the existing key order and only adds keys after it. |
| Engine.Registry.CheckStatics | index.js:223-242 | The static-member loop appends the duplicate warnings and the first-occurrence identifiers. It harvests the citations of every member, duplicates included. The exit code follows the warnings. |
| Engine.Registry.CheckMember | index.js:225-241 | One member: a duplicate warning citing the first member of the same name, or registration of its `memberof.name`. Then its reference tags are pushed. The name-to-first-member map stays exact. |
| Engine.FirstMembersSnoc | index.js:224-230 | The `uniques` map after one more member maps each name seen to its first member and holds nothing else. |
| Ingest.MemberWarningsCount | index.js:224-232 | One duplicate warning per repeated occurrence of a name: as many as members minus distinct names. |
| Ingest.NewStaticsCount | index.js:224-232 | Exactly one identifier is registered per distinct member name. |
| Ingest.FirstOccurrencesRegistered | index.js:227-231 | The first member of every name is registered. |
| Ingest.RegisteredIffFirst | index.js:226-231 | An identifier is registered iff it is `memberof.name` of the first member of some name. |
| Ingest.DistinctNamesRegisterAll | index.js:224-232 | With distinct names there is no duplicate warning, and every member is registered, in order. |
| Ingest.MemberWarningsKind | index.js:227-228 | The static-member loop emits duplicate warnings only. |
| Ingest.HarvestRefsGet | index.js:225-240 | For every key, `allRefs[key]` gains exactly the citations of that key on all static members, duplicates included, in order. |
| Ingest.HarvestRefsKeys | index.js:225-240 | The member loop creates lists exactly for the targets of reference tags. It keeps the key order valid and only adds keys after the existing ones. |
| Engine.Registry.CheckSees | index.js:206-252 | The `@see` loop leaves the warnings and the exit code as `ScanSees` describes. It reports completion exactly when `ScanSees` does not throw. |
| Ingest.ScanSeesSpec | index.js:244-252 | The loop throws iff some suspicious tag has no context at its index. Its warnings are those of the tags before the first such tag, each paired with the context at its index. |
| Ingest.SeeWarningsCount | index.js:245-251 | While every tag has a context at its index, the number of `@see` warnings equals the number of suspicious descriptions. |
| Ingest.SuspiciousSeeWarned | index.js:246-250 | A warning is emitted iff it is that of a suspicious tag, named with the file of the context at the tag's index. |
| Ingest.SeeWarningsKind | index.js:246-250 | The `@see` loop emits invalid-`@see` warnings only. |
| Ingest.SinglySeenAligned | index.js:205-252 | When no owner has more than one `@see` tag, there are as many contexts as tags. The loop then never throws, and names each tag with its own owner's file. |
| Ingest.SeePairingShifts | index.js:206-250 | With an owner `a.js` holding two suspicious tags and an owner `b.js` holding one: <ul><li>the loop names the second tag with `b.js` and throws on the third;</li><li>pairing by owner names the second with `a.js` and reports the third with `b.js`.</li></ul> |
| Engine.Registry.RecordLinks | index.js:254-264 | The link loop leaves `allLinks` as `AddLinks` describes. |
| Ingest.AddLinksGet | index.js:254-264 | Each harvested URL's list gains the module once, unless it already lists it. Every other list is unchanged. |
| Ingest.AddLinksValid | index.js:256-263 | The link loop keeps the key order valid and never puts a module twice in one list. |
| Ingest.AddLinksKeys | index.js:256-259 | Existing link keys keep their order, and new keys come after them. |
| Ingest.LinkCitesModuleOnce | index.js:256-263 | After the loop, every harvested URL lists the citing module exactly once. |
| Engine.Registry.CheckHeader | index.js:211-221 | The doclet-count and module-identity checks append their warnings. The exit code follows the warnings. |
| Engine.Registry.Validate | index.js:188-268 | One validation appends exactly `ValidationWarnings` and sets the exit code by the `warn` rule. It registers `NewStatics` and harvests the references. It completes iff the `@see` loop does not throw, and only then does it: <ul><li>record the links with deduplicated citers;</li><li>append `docs[0].name` to `allModules`;</li><li>add its library to `allLibraries`.</li></ul> The registry stays well formed. |
| Ingest.ValidationFindingCounts | index.js:211-252 | Per validation: <ul><li>one "Too many doclets" iff there is more than one doclet;</li><li>a name mismatch iff the first step is a module whose name differs from the directory;</li><li>"not a module" iff it is not a module;</li><li>one duplicate per repeat;</li><li>one invalid `@see` per suspicious tag that has a context at its index;</li><li>nothing else.</li></ul> |
| Ingest.ValidationKindCount | index.js:211-252 | The findings of each kind in one validation, counted part by part. |
| DocTypes.LibraryOf | index.js:266 | The library is the text before the first `/`, or the whole name when it has none. |
| Engine.Registry.ReportRef | index.js:286-289 | An unresolved reference prints its header, then one "type" line per citing entry. |
| Engine.Registry.CheckRef | index.js:282-291 | The callback for one key of `allRefs` prints that key's block exactly when the key is unresolved. |
| Engine.Registry.CheckRefs | index.js:282-291 | The reference pass prints the blocks of the unresolved keys, in `Object.keys` order. |
| Engine.Registry.ReportLink | index.js:306-309 | An invalid link prints its header, then one "Used in" line per citing module. |
| Engine.Registry.CheckLink | index.js:293-318 | The callback for one key of `allLinks` prints that key's block exactly when the link classifies as unresolved. |
| Engine.Registry.CheckLinks | index.js:293-318 | The link pass prints the blocks of the invalid links, in `Object.keys` order. |
| Engine.Registry.PostValidate | index.js:278-319 | Appends exactly the reference findings, then the link findings. Only the warnings and the exit code change; the registry is not modified. |
| Resolve.ReferenceWarnedIff | index.js:282-291 | A reference is reported iff `allRefs` holds it, it is not ignored as external, and `allStatics` does not list it. |
| Resolve.ReferenceBlock | index.js:286-289 | An unresolved reference's header is immediately followed by one line per entry of `allRefs[key]`, in order. |
| Resolve.LinkWarnedIff | index.js:293-318 | A link is reported iff `allLinks` holds it and it classifies as unresolved. |
| Resolve.LinkFindingsOf | index.js:297-317 | The block printed for one link: its header and "Used in" lines when unresolved, and nothing otherwise. |
| Resolve.LinkBlock | index.js:306-315 | An invalid link's header is immediately followed by one "Used in" line per citing module, in order, after all reference findings. |
| Resolve.MemberLinkVerdict | index.js:301-310 | A link `lib/mod.mem…` is reported iff all of these hold: <ul><li>its library was scanned, or external links are checked;</li><li>`lib/mod` is not `spotlight/Spotlight`;</li><li>`lib/mod.mem` is not in `allStatics`.</li></ul> |
| Resolve.ModuleLinkVerdict | index.js:311-316 | A link `lib/mod…` with no member part is reported iff all of these hold: <ul><li>its library was scanned, or external links are checked;</li><li>the pair is not the exception;</li><li>`lib/mod` is not in `allModules`.</li></ul> |
| Resolve.UnmatchedLinkSkipped | index.js:301-303 | A link that does not start with word, `/`, word is never reported. |
| Resolve.MatchMemberLink | index.js:279 | On `lib/mod.mem` the pattern yields `match[0] = lib/mod.mem`, `match[2] = lib/mod` and `match[3] = .mem`. |
| Resolve.MatchModuleLink | index.js:279 | On `lib/mod` followed by no member part, the pattern yields `lib/mod` as both `match[0]` and `match[2]`, with no group 3. |
| LinkPattern.MatchModuleRegexMatches | index.js:279 | The pattern matches iff the text starts with a word run, a slash and a word run. |
| LinkPattern.MatchModuleRegexShape | index.js:279 | <ul><li>A match takes both word runs whole.</li><li>`match[0]` is `match[2]` followed by `match[3]`.</li><li>Group 3 takes part exactly when `.` and a word character follow the pair, and then it takes the whole word run.</li></ul> |
| LinkPattern.WordRunSpec | index.js:279 | `\w+` takes the longest run of `[A-Za-z0-9_]`. |
| Diagnostics.DocNameAndPosition | index.js:168-171 | The text is "<name> in " (when there is a name), then the file, then ":<line>". On a one-line file name the whole text is: <ul><li>without `/raw/enact/`: the name part, the file, and ":<line>";</li><li>with it: the name part, the text after the last `/raw/enact/` (which holds no other), and ":<line>".</li></ul> |
| Diagnostics.RawPrefixStripped | index.js:169 | On a one-line file name, the greedy replacement removes everything up to and including the last `/raw/enact/`, and leaves a name without it unchanged. |
| Messages.Render | index.js:211-316 | Each warning line starts with the fixed text of its kind. |
| Messages.LeadsDiffer | index.js:211-316 | The fixed texts of two kinds differ at some position both cover. |
| Messages.RenderKind | index.js:211-316 | A line's text determines its kind. |
| Text.JoinSplit | index.js:125-127 | Splitting on a separator and joining with it gives the string back. |
| Text.SplitPieces | index.js:125 | No piece of a split holds the separator. |
| Paths.DirNameSpec | index.js:103 | A file's directory is the text before its last `/`, or empty when it has none. |
| Paths.ValidPathsMembers | index.js:99-106 | A directory is parsed iff some given file lies in it. |
| Paths.ValidPathsDistinct | index.js:99-106 | No directory is parsed twice. |
| Paths.SecondPieceSpec | index.js:120 | `path.split(sep)[1]` is the text between the first occurrence of `sep` and the next one, or the end. It is empty (falsy) when there is no occurrence. |
| Paths.LastTwoSpec | index.js:120 | The last two pieces: the whole name when its directory has no `/`; otherwise the text after the `/` that precedes the last one. |
| Paths.SplitLast | index.js:125-126 | A split has more than one piece iff the text holds a `/`. The last piece holds none and follows the final `/`. |
| Paths.StripSrcSpec | index.js:125-128 | A name ending in `/src` loses that ending, and any other name is kept. |
| Driver.ProcessDirectory | index.js:130-163 | One directory's callbacks leave the whole registry as `Processed` says: <ul><li>a failure sets exit code 2 and changes nothing else;</li><li>an empty output changes nothing;</li><li>otherwise the state is that of `validate` on the output against the derived directory name.</li></ul> |
| Driver.ProcessedAccount | index.js:130-163 | For one directory: <ul><li>the warnings gain exactly those of its validation;</li><li>`allModules` gains its name iff the validation completed;</li><li>a failure leaves code 2;</li><li>a parsed output leaves the code `warn` gives.</li></ul> |
| Driver.ParseAll | index.js:114-165 | The loop over the directories leaves the whole registry as `ParsedAll` says: each directory's callbacks, in order. |
| Driver.ParsedAllAccount | index.js:114-165 | After every directory: <ul><li>the warnings gain those of each directory, in order;</li><li>`allModules` gains one name per completed validation, in order;</li><li>any failure leaves exit code 2, which no later warning overwrites;</li><li>without failures, the code is the one `warn` leaves after all those warnings.</li></ul> |
| Driver.GetDocumentation | index.js:96-166 | The whole registry ends as `ParsedAll` says for the directories `validPaths` derives from the given files. |
| Driver.Standalone | index.js:686-689 | The registry ends as `postValidate` with `ignoreExternal` leaves it after `getDocumentation`. |
| Driver.StandaloneExitCode | index.js:686-689 | A standalone run only appends warnings. Any parse failure leaves exit code 2. Otherwise the code is the one `warn` leaves after every line reported while parsing or resolving. |
| Search.ModuleSearchIdRoundTrip | index.js:623 | A module's search id reads back as its title and `docs/modules/<title>` when the title holds no `\|`. |
| Search.PageSearchIdRoundTrip | index.js:647 | A page's search id reads back as its title and relative path when the title holds no `\|`. |
| Search.StripMdSuffix | index.js:643 | A name ending in `.md` loses it, and a name not ending in `md` is kept. |
| FrontMatter.SplitFrontMatter | index.js:347-350 | The front matter and the body together are the page. A page without an opening fence has no front matter. The cut is at `indexOf('---', 4) + 3`. |
| FrontMatter.ClosedFrontMatter | index.js:348-350 | A closed block runs from the opening fence to the end of the first `---` at index 4 or later. |
| FrontMatter.UnclosedFrontMatter | index.js:348-350 | With no closing fence, `indexOf` gives -1, so the front matter is the first two dashes and the body starts at index 2. |
| FrontMatter.PrependTableOfContentsSpec | index.js:342-356 | A page without front matter gains only a leading newline. Otherwise the table and a newline are inserted where the front matter ends. |

## Left out

- Terminal output is not modelled: the `chalk` colouring, the progress bar, and the blank line
  `prettyWarn` prints before a directory's first warning. Warnings are the sequence of lines
  `warn` receives.
- The Windows branches of `getDocumentation` are not modelled (the backslash separators and
  the rewriting of `path[0].name`). Only the `/` branch is modelled.
- `documentation.build` (the parser) and the two `jsonata` queries are not modelled, because
  they are foreign code. Their results are inputs: `ParseResult`, and the `@see` and link
  sequences.
- The JSON serialisation replacer and the write of `index.json` (index.js:139-157) are not
  modelled, because they are file output.
- Concurrency is not modelled. The parses run in parallel under `Promise.all`, and the async
  `validate` is not awaited before `postValidate`, so its awaited queries can race with it.
  Ingestion is modelled as a sequential loop over the parse results in directory order,
  followed by `postValidate`. The unhandled rejection of a throwing `validate` is not modelled.
- JavaScript object semantics beyond a string dictionary are not modelled:
  - keys inherited from `Object.prototype` (such as `constructor`) make `uniques[name]`,
    `allRefs[ref]` and `allLibraries[lib]` truthy;
  - `Object.keys` lists integer-like keys first.

  `Dict` uses plain insertion order.
- `parseTableOfContents` (which runs `markdown-toc`) is a parameter of
  `PrependTableOfContents`.
- The rest of `generateIndex` is not modelled: the file walk, `gray-matter` and `elasticlunr`.
  `pathModule.relative` is not modelled either; the relative path is an input of
  `PageSearchId`.
- Search.PageTarget: is not proved equal to `pathModule.dirname`. It uses the same directory
  function as `validPaths`, the text before the last `/`. That differs from `pathModule.dirname`
  in three cases:
  - a name without a `/` gives the empty string, not `.`;
  - `/x` gives the empty string, not `/`;
  - `a/b/` gives `a/b`, not `a`.
- `getValidFiles`, `copyStaticDocs`, `getDocsConfig`, `extractLibraryDescription`,
  `makeDataDir` and `saveLibraryDescriptions` are outside this core. They are shell and
  file-system work.
- A parse output whose first doclet has an empty `path` is excluded by precondition, because
  the source throws on it (index.js:220).
- Diagnostics.DocNameAndPosition: does not state its full text for a file name spanning several
  lines. `StripRawPrefix` computes it, line by line as the regular expression's `.` does, but
  it is not specified further.
- A missing field that the source interpolates or dereferences is the empty string in the model:
  - a static member without `memberof` is registered as `undefined.<name>` (index.js:231), and
    as `.<name>` in the model;
  - a first doclet without `name` makes `docs[0].name.split` throw (index.js:266), and the model
    records the library `""`;
  - an `@see` tag without a description is reported as `'undefined'` (index.js:247-249), and
    with an empty description in the model;
  - a missing name or kind in the other messages prints `undefined` in the source.
- An `@see` owner without a `context` is not modelled. Every owner carries one.
- What Node does with the rejection of the unawaited `validate` promise (a warning, or ending
  the process, depending on its `--unhandled-rejections` mode) is not modelled. The model
  carries on with the next directory.
