# Pine design-token build, modelled in Dafny

This project models the core of the token build in `packages/styles`:

- the custom `css/variables-with-dark-mode` format, which turns design tokens into CSS custom properties. It covers:
  - variable names;
  - `var(...)` references;
  - the light/dark split;
  - the `:root`, `@media (prefers-color-scheme: dark)` and `[data-theme="dark"]` blocks;
  - the auto-generated header.
- the merge of the separately built light and dark core/semantic files.
- the theme filter that keeps `kajabi_products-light/dark` and turns `light-light`/`dark-dark` into `pine-light/dark`.
- the `tokenSets` and `themeableSets` lists.
- the per-theme destination, source list and token filter.
- the `attribute/themeable` transform.
- the component file generator.
- the lint-mapping script:
  - `buildHexToCore` (hex value to core colour token);
  - `parseColorReference` and `buildContextMappings` (core token to semantic name, per context);
  - `buildAmbiguous` (core tokens with several semantic names).

Modules, one per file:

| file | module | what it holds |
|---|---|---|
| `wrappers.dfy` | `Wrappers` | `Option`, `Result` |
| `strings.dfy` | `Strings` | the JavaScript string operations the code uses (`includes`, `split`, `join`, `toLowerCase`, `trim`, the `-+` collapse) |
| `collections.dfy` | `Collections` | `filter`, `[...new Set(...)]`, and insertion-ordered objects as `Dict` |
| `tokens.dfy` | `Tokens` | a token as style-dictionary hands it to a format |
| `variables_format.dfy` | `VariablesFormat` | the format |
| `header_merge.dfy` | `HeaderMerge` | the header-stripping merge |
| `themes.dfy` | `Themes` | theme filtering, `themeGroups`, `tokenSets`, `themeableSets` |
| `theme_targets.dfy` | `ThemeTargets` | per-theme configuration and the themeable transform |
| `component_files.dfy` | `ComponentFiles` | `generateComponentFiles` |
| `json_values.dfy` | `JsonValues` | parsed JSON with JavaScript truthiness and property access |
| `hex_to_core.dfy` | `HexToCore` | `buildHexToCore` |
| `context_mappings.dfy` | `ContextMappings` | `parseColorReference`, `processTokens`, `buildContextMappings` |
| `ambiguous.dfy` | `Ambiguous` | `buildAmbiguous` |

How the code maps to Dafny:

- Where the code builds something step by step, the model has a `method` with a loop. Examples: `output +=`, `sourceFiles.push`, `themes[...] =`, `colorGroups[...][hex] =`, the recursive `processTokens` and the `coreToSemantics` sets.
- Each such method is proved equal to a specification function. The lemmas are stated about those functions.
- A thrown `TypeError` is a `Failure` result. Examples: `Object.entries(null)`, `.toLowerCase()` on a non-string, a token without `filePath` in `isPartOfEnabledSet`, a `null` token tree.
- Regular expressions are written out as the search a backtracking engine performs: leftmost start, lazy `*?` and greedy `\s*`/`[^}]+`. The unescaped `.` in `/.json$/` matches any character except a line terminator.

Behaviour of the code a reader might not expect (the model follows the code):

- A token set is themeable when some kept theme does not list it. Differing token values are not looked at.
- Invalid theme permutations are dropped silently, not one by one with a warning.
- A `var(...)` name may contain upper-case letters. A reference `{}` gives the empty name `var(--pine-)`.
- Only single-mode outputs carry the header comment. Theme files are rendered in mode `all` and have none.
- A merged light/dark file starts with the header only when the light output is non-empty. With no light tokens the light file is empty, and the merged file opens with a blank line and no header (`HeaderMerge.MergedFileWithoutLight`).
- A merged light/dark file whose dark output is empty ends with two blank lines: the trimmed light file, `"\n\n"`, the empty dark half and a final newline (`HeaderMerge.MergedFileWithoutDark`).
- Two outputs can share a destination:
  - two kept theme names that differ only in letter case, such as `kajabi_products-light` and `KAJABI_PRODUCTS-LIGHT`, are both kept and both go to `kajabi_products/light.scss`;
  - the listing entries `button` and `button.json` give the same component file.
- The lint-mapping script reads the JSON token trees, not the emitted CSS.
- Colour families are last-write-wins on a shared hex value. Only the semantic maps keep the first name.
- The rewrite `^<context>-<context>` is not anchored at a hyphen, so `text-textured` is recorded as `textured` (`ContextMappings.DoubledContextDropped`).

## Model

| member | source | states |
|---|---|---|
| VariablesFormat.ReplaceInvalid | packages/styles/src/lib/transform/index.js:25 | same length; each character outside `[A-Za-z0-9-]` becomes `-` and every other character is kept |
| VariablesFormat.TrimHyphenEndsCleans | packages/styles/src/lib/transform/index.js:25 | removing one hyphen at each end of a hyphen-run-free name of valid characters gives a clean name, and a clean name is unchanged |
| VariablesFormat.SanitizeName | packages/styles/src/lib/transform/index.js:24-26 | the result holds only `[A-Za-z0-9-]`, has no hyphen runs and no hyphen at either end; a name already in that form is returned unchanged |
| VariablesFormat.SanitizeNameWords | packages/styles/src/lib/transform/index.js:24-26 | the result is exactly the non-empty hyphen-separated words left after invalid characters become hyphens, in order, joined by single hyphens |
| VariablesFormat.AtText | packages/styles/src/lib/transform/index.js:24-26 | `@-text` is named `text` |
| VariablesFormat.SanitizeNameIdempotent | packages/styles/src/lib/transform/index.js:24-26 | sanitizing twice is sanitizing once |
| VariablesFormat.DefaultSegmentDropped | packages/styles/src/lib/transform/index.js:67 | for every path, a final `@` segment leaves no trace in the variable name (`color-text-@` is named like `color-text`; `@` alone gives the empty name) |
| VariablesFormat.FormatTokenValue | packages/styles/src/lib/transform/index.js:29-42 | a `{...}` original value (falling back to the resolved value when falsy) becomes `var(--<prefix>-<clean name>)`; any other value is the resolved value unchanged |
| VariablesFormat.DottedToHyphenated | packages/styles/src/lib/transform/index.js:36 | splitting a dot-joined path on `.` and joining with `-` gives the hyphen-joined path when no segment holds a dot |
| VariablesFormat.ReferenceNamesReferencedVariable | packages/styles/src/lib/transform/index.js:29-42 | a reference spelling another token's path becomes exactly the variable that token is declared under |
| VariablesFormat.DarkPathSimplified | packages/styles/src/lib/transform/index.js:86-90 | the five dark-path tests together are equivalent to `dark.json` in any case, `/dark/`, or a final `/dark` in any case |
| VariablesFormat.ModeGroupsPartition | packages/styles/src/lib/transform/index.js:48-91 | the light filter is the negation of the dark filter: every token lands in exactly one group, and the groups together are a permutation of the input |
| VariablesFormat.RegroupModes | packages/styles/src/lib/transform/index.js:48-91 | light tokens of one list followed by dark tokens of another split back into exactly those two groups |
| VariablesFormat.AppendDecls | packages/styles/src/lib/transform/index.js:66-70 | the `forEach` appends one declaration line per token, in order |
| VariablesFormat.AppendLight | packages/styles/src/lib/transform/index.js:46-76 | the light half of the format computes the specified light section of the tokens the light filter keeps |
| VariablesFormat.AppendDark | packages/styles/src/lib/transform/index.js:78-118 | the dark half appends the specified dark section of the tokens the dark filter keeps to what the light half wrote |
| VariablesFormat.Format | packages/styles/src/lib/transform/index.js:18-121 | the format's output is the light section followed by the dark section, with `pine` and `all` as the option defaults |
| VariablesFormat.HeaderOnlyInSingleMode | packages/styles/src/lib/transform/index.js:61-117 | the output starts with the header iff the mode is `light` with light tokens or `dark` with dark tokens |
| VariablesFormat.EmptyGroupsEmitNothing | packages/styles/src/lib/transform/index.js:61-117 | the output is empty iff no group the mode asks for has tokens |
| VariablesFormat.AllModeLayout | packages/styles/src/lib/transform/index.js:93-117 | in mode `all`, the `:root` block, a blank line, then the dark blocks |
| VariablesFormat.LightModeFile | packages/styles/src/lib/transform/index.js:61-75 | mode `light` writes the header, the light `:root` rule and a blank line, whatever the dark tokens |
| VariablesFormat.DarkModeFile | packages/styles/src/lib/transform/index.js:93-117 | mode `dark` writes the header and the two dark rules, whatever the light tokens |
| HeaderMerge.FindHeader | packages/styles/src/lib/transform/index.js:512 | a match found from position i starts at a `/**` at or after i and spans at least the 7 characters of `/***/\n\n` |
| HeaderMerge.StripHeader | packages/styles/src/lib/transform/index.js:512 | without a match the text is unchanged; a match removes at least the 7 characters of `/***/\n\n` |
| HeaderMerge.Merge | packages/styles/src/lib/transform/index.js:512-513 | the combined file opens with the trimmed light file and a blank line, and ends with a newline |
| HeaderMerge.StripHeaderWithoutComment | packages/styles/src/lib/transform/index.js:512 | a text in which no `/**` occurs is left unchanged |
| HeaderMerge.CommentMatch | packages/styles/src/lib/transform/index.js:512 | a leading `/**...*/` with a slash-free body, followed by a blank line and non-blank text, is matched from its start to the end of that blank line |
| HeaderMerge.StripWrittenHeader | packages/styles/src/lib/transform/index.js:512 | the pattern removes exactly the header the format writes |
| HeaderMerge.TrimmedLightFile | packages/styles/src/lib/transform/index.js:513 | the trimmed light file is the header plus the `:root` rule up to its `}` |
| HeaderMerge.TrimmedDarkFile | packages/styles/src/lib/transform/index.js:512-513 | the dark file without its header, trimmed, is the two dark rules up to the final `}` |
| HeaderMerge.MergedFileIsAllMode | packages/styles/src/lib/transform/index.js:512-513 | when both the light group of the first list and the dark group of the second are non-empty, merging their light-mode and dark-mode outputs gives one header followed by the mode-`all` output of the light tokens then the dark tokens |
| HeaderMerge.MergedFileWithoutLight | packages/styles/src/lib/transform/index.js:512-513 | when the light group is empty, the merged file has no header: it is a blank line, the two dark rules up to their final `}`, and a newline |
| HeaderMerge.MergedFileWithoutDark | packages/styles/src/lib/transform/index.js:512-513 | when the dark group is empty, the merged file is the header, the `:root` rule up to its `}`, and three newlines |
| Themes.HeadAndTail | packages/styles/src/lib/transform/index.js:146-148 | the first part has no hyphen, and first part, hyphen and rest give the lower-cased name back |
| Themes.KeptNameShape | packages/styles/src/lib/transform/index.js:153-169 | a kept name is, in lower case, `kajabi_products-light`, `kajabi_products-dark`, `light-light` or `dark-dark` |
| Themes.ThemeKeyCases | packages/styles/src/lib/transform/index.js:145-171 | `kajabi_products-light/dark` (any case) are kept under their own name, `light-light` and `dark-dark` become `pine-light` and `pine-dark`, everything else (including `light-dark`) is dropped |
| Themes.FilterThemes | packages/styles/src/lib/transform/index.js:145-171 | the `forEach` over the permuted themes computes the kept-theme dictionary |
| Themes.KeptThemeIsLastWriter | packages/styles/src/lib/transform/index.js:156-168 | a kept theme holds the token sets of the last permuted theme mapped to its key |
| Themes.LastKeptFrom | packages/styles/src/lib/transform/index.js:145-171 | every kept key comes from some permuted theme |
| Themes.KeptKeys | packages/styles/src/lib/transform/index.js:145-171 | kept keys are distinct and each is `pine-light`, `pine-dark` or a `kajabi_products-light/dark` name |
| Themes.ThemeGroups | packages/styles/src/lib/transform/index.js:138-143 | the loop builds the id-to-group map |
| Themes.GroupsComeFromThemes | packages/styles/src/lib/transform/index.js:138-143 | every stored group is a non-empty group some theme with that id declares, and the last theme overall, if it declares a group, has it stored |
| Themes.LastGroupWins | packages/styles/src/lib/transform/index.js:138-143 | for every id, the group stored is that of the last theme with that id that declares a group |
| Themes.TokenSets | packages/styles/src/lib/transform/index.js:175-180 | duplicate-free, and a set is listed iff some kept theme lists it |
| Themes.FirstThemeLeads | packages/styles/src/lib/transform/index.js:175-180 | the first kept theme's sets lead `tokenSets` in first-occurrence order |
| Themes.ThemeableSets | packages/styles/src/lib/transform/index.js:182-184 | duplicate-free, and a set is themeable iff some theme lists it and some theme does not |
| Themes.SharedSetNotThemeable | packages/styles/src/lib/transform/index.js:182-184 | a set every kept theme lists is never themeable |
| Themes.SingleThemeNothingThemeable | packages/styles/src/lib/transform/index.js:182-184 | with a single kept theme no set is themeable |
| ThemeTargets.ModeOf | packages/styles/src/lib/transform/index.js:348 | an empty mode becomes `null`, so a present mode is non-empty |
| ThemeTargets.DestinationOfName | packages/styles/src/lib/transform/index.js:346-357 | a `kajabi_products`/`pine` theme named `<brand>-<mode>` is written to `<brand>/<mode>.scss` |
| ThemeTargets.Destination | packages/styles/src/lib/transform/index.js:346-357 | every destination ends in `.scss` |
| ThemeTargets.KeptThemeDestinations | packages/styles/src/lib/transform/index.js:344-357 | every kept theme has a mode and goes to one of the four brand/mode files |
| ThemeTargets.SourceFiles | packages/styles/src/lib/transform/index.js:360-377 | the source list starts with core/light, core/dark, semantic/light, semantic/dark in that order, then the pushed set files |
| ThemeTargets.PushedFilesMembers | packages/styles/src/lib/transform/index.js:369-377 | a file is pushed iff it is the file of a listed set that names the brand outside core/semantic or is a component set of the mode |
| ThemeTargets.PushedTwice | packages/styles/src/lib/transform/index.js:369-376 | a component set that also names the brand is pushed twice |
| ThemeTargets.CoreAndSemanticRejected | packages/styles/src/lib/transform/index.js:394-400 | a path holding `core/` or `semantic/` is rejected whatever the themeable flag |
| ThemeTargets.ThemeTokenFilter | packages/styles/src/lib/transform/index.js:394-425 | a kept token's file path holds neither `core/` nor `semantic/` |
| ThemeTargets.MissingFilePath | packages/styles/src/lib/transform/index.js:394-425 | a token without a file path is kept iff it is themeable and the theme lists the empty set name |
| ThemeTargets.ThemeSetReadBack | packages/styles/src/lib/transform/index.js:415-417 | the filter reads a set's file path back as that set |
| ThemeTargets.ThemeableSetFileKept | packages/styles/src/lib/transform/index.js:413-421 | a themeable token from the file of a listed set outside core/semantic is kept |
| ThemeTargets.StripLeadingSlashes | packages/styles/src/lib/transform/index.js:463 | every removed character is a slash and the rest does not start with one |
| ThemeTargets.StripLooseJson | packages/styles/src/lib/transform/index.js:464 | the result is a prefix of the input, shorter by five characters or not at all |
| ThemeTargets.NoJsonKept | packages/styles/src/lib/transform/index.js:464 | a name that does not end in a non-line-terminator followed by `json` comes back unchanged |
| ThemeTargets.LooseJsonOfJson | packages/styles/src/lib/transform/index.js:464 | a final `.json` is removed |
| ThemeTargets.OneSlash | packages/styles/src/lib/transform/index.js:463 | the single slash after the base path is removed |
| ThemeTargets.EnabledSetReadBack | packages/styles/src/lib/transform/index.js:459-466 | `isPartOfEnabledSet` reads a set's file path back as that set |
| ThemeTargets.IsPartOfEnabledSet | packages/styles/src/lib/transform/index.js:459-467 | throws iff the file path is missing; otherwise answers whether the path's set is themeable |
| ThemeTargets.LooseExtension | packages/styles/src/lib/transform/index.js:464 | any non-line-terminator character in place of the dot before `json` is removed as well |
| ThemeTargets.SharedSetFileNotThemeable | packages/styles/src/lib/transform/index.js:459-467 | a token from the file of a set every theme lists is not part of an enabled set |
| ThemeTargets.SomeIff | packages/styles/src/lib/transform/index.js:480 | `some` answers true iff an element passes before any element throws, and does not throw when no test does |
| ThemeTargets.FirstPass | packages/styles/src/lib/transform/index.js:480 | when no test throws, a passing element means a first passing element |
| ThemeTargets.AllDecided | packages/styles/src/lib/transform/index.js:480 | when no test throws, `some` answers whether some element passes |
| ThemeTargets.ReferencesCase | packages/styles/src/lib/transform/index.js:478-480 | with every referenced file path known, the references mark a token iff one of them is in a themeable set |
| ThemeTargets.ThemeableAttributeCases | packages/styles/src/lib/transform/index.js:458-486 | no file path throws; otherwise the token is marked iff its own set is themeable or it uses references and one of them is |
| ThemeTargets.ThemeableAttribute | packages/styles/src/lib/transform/index.js:455-487 | a missing file path throws, a token of a themeable set is marked, and without references the answer is its own set's |
| ComponentFiles.Components | packages/styles/src/lib/transform/generators/component.js:15 | one component per listing entry, in order, each the entry without its final `.json` |
| ComponentFiles.GenerateComponentFiles | packages/styles/src/lib/transform/generators/component.js:11-37 | exactly one descriptor per listing entry, in listing order, for the entry's component |
| ComponentFiles.DescriptorsShareSettings | packages/styles/src/lib/transform/generators/component.js:21-34 | every descriptor has format `css/variables-host`, selector `:host`, prefix `pine`, output references on, and the destination `pine/components/pds-<comp>/pds-<comp>.tokens.scss` |
| ComponentFiles.DestinationsDiffer | packages/styles/src/lib/transform/generators/component.js:33 | different components never share a destination |
| ComponentFiles.JsonEntryNamesComponent | packages/styles/src/lib/transform/generators/component.js:15 | `<stem>.json` names the component `<stem>` |
| ComponentFiles.MissingFilePathRejected | packages/styles/src/lib/transform/generators/component.js:24-26 | a token without (or with an empty) file path is rejected |
| ComponentFiles.LightPathsAccepted | packages/styles/src/lib/transform/generators/component.js:25-26 | a path containing `components/<comp>/light.json` or `components/<comp>/light/` is accepted |
| ComponentFiles.AcceptedPathsSayLight | packages/styles/src/lib/transform/generators/component.js:23-27 | every accepted path contains `/light`, so dark files are rejected |
| JsonValues.LowerValue | packages/styles/scripts/generate-lint-mappings.js:101 | `toLowerCase` succeeds iff the value is a string, and gives the lower-case form of that string (`Strings.Lower`), lower-case and of the same length |
| HexToCore.FamilyGroup | packages/styles/scripts/generate-lint-mappings.js:77-96 | a family has a group iff it is one of the fourteen listed, and that group is the one paired with it |
| HexToCore.EmptyGroups | packages/styles/scripts/generate-lint-mappings.js:48-63 | exactly the fourteen group keys in declaration order, all empty |
| HexToCore.ShadesFailureSticks | packages/styles/scripts/generate-lint-mappings.js:99-105 | once a shade throws, the rest of the family's loop does not run |
| HexToCore.FamiliesFailureSticks | packages/styles/scripts/generate-lint-mappings.js:95-106 | once a family throws, the rest of the loop does not run |
| HexToCore.AddShades | packages/styles/scripts/generate-lint-mappings.js:99-105 | the shades loop computes the fold over the family's entries |
| HexToCore.AddFamilies | packages/styles/scripts/generate-lint-mappings.js:95-106 | the families loop computes the fold over the colour entries |
| HexToCore.BuildHexToCore | packages/styles/scripts/generate-lint-mappings.js:47-109 | the function's result or thrown error is the specification's |
| HexToCore.SetHexWellFormed | packages/styles/scripts/generate-lint-mappings.js:103 | storing a lower-case hex under a listed group keeps the groups well formed and keeps every earlier hex |
| HexToCore.SpecialWellFormed | packages/styles/scripts/generate-lint-mappings.js:69-74 | `white`/`black` with a truthy string value are stored lower-cased in `neutrals`, mapped to their own name; the groups stay well formed and lose no hex |
| HexToCore.ShadeStepWellFormed | packages/styles/scripts/generate-lint-mappings.js:100-104 | a colour leaf is stored in its family's group under its lower-cased hex as `<family>-<shade>`; a truthy colour value that is not a string throws; anything else changes nothing; the groups stay well formed and lose no hex |
| HexToCore.FoldShadesWellFormed | packages/styles/scripts/generate-lint-mappings.js:99-105 | the shades loop keeps the groups well formed and never removes a hex |
| HexToCore.FoldFamiliesWellFormed | packages/styles/scripts/generate-lint-mappings.js:95-106 | the families loop keeps the groups well formed and never removes a hex |
| HexToCore.HexToCoreWellFormed | packages/styles/scripts/generate-lint-mappings.js:47-109 | a result has exactly the fourteen groups in order and lower-case hex keys; every name is `white` or `black` in `neutrals` or starts with `<family>-` for a family of that group |
| HexToCore.HexToCoreSound | packages/styles/scripts/generate-lint-mappings.js:47-109 | every entry of a result comes from the input: `white`/`black` stored under their own lower-cased value, or a colour leaf of a listed family stored under its lower-cased hex as `<family>-<shade>` |
| HexToCore.HexToCoreComplete | packages/styles/scripts/generate-lint-mappings.js:95-106 | every colour leaf of a listed family has its lower-cased hex as a key of the family's group in the result |
| HexToCore.NoColorsNoEntries | packages/styles/scripts/generate-lint-mappings.js:65-66 | without a truthy `color` the fourteen groups come back empty; a `null` tree throws |
| HexToCore.SpecialColourRecorded | packages/styles/scripts/generate-lint-mappings.js:69-74 | a truthy string `white`/`black` value stays a key of `neutrals` in the final result |
| ContextMappings.MatchColor | packages/styles/scripts/generate-lint-mappings.js:116 | a captured group is non-empty and holds no `}` |
| ContextMappings.ParseColorReference | packages/styles/scripts/generate-lint-mappings.js:113-129 | a parsed core token name is never empty |
| ContextMappings.NotAReference | packages/styles/scripts/generate-lint-mappings.js:114-117 | non-strings, empty strings and strings without `{color.` give `null` |
| ContextMappings.WholeReference | packages/styles/scripts/generate-lint-mappings.js:116 | `{color.<path>}` captures `<path>` |
| ContextMappings.SimpleReference | packages/styles/scripts/generate-lint-mappings.js:120-122 | `{color.white}` gives `white` |
| ContextMappings.ShadeReference | packages/styles/scripts/generate-lint-mappings.js:123-125 | `{color.grey.900}` gives `grey-900` |
| ContextMappings.DeepReference | packages/styles/scripts/generate-lint-mappings.js:119-128 | three or more segments give `null` |
| ContextMappings.SemanticName | packages/styles/scripts/generate-lint-mappings.js:167-188 | every semantic name starts with its context, has no repeated hyphens and does not end with a hyphen |
| ContextMappings.CleanNameOk | packages/styles/scripts/generate-lint-mappings.js:169-178 | the same for the name before the special cases, for any hyphen-free context |
| ContextMappings.SpecialCasesChangeNothing | packages/styles/scripts/generate-lint-mappings.js:180-188 | the two special cases never change the cleaned name |
| ContextMappings.PlainPathKept | packages/styles/scripts/generate-lint-mappings.js:167-178 | a clean path `<context>-<x>` keeps its name |
| ContextMappings.DoubledContextDropped | packages/styles/scripts/generate-lint-mappings.js:175-176 | `<context>-<context><y>` is named `<context><y>` |
| ContextMappings.ProcessTokens | packages/styles/scripts/generate-lint-mappings.js:151-200 | the recursive loop computes the specification's mappings |
| ContextMappings.ProcessObjKeeps | packages/styles/scripts/generate-lint-mappings.js:151-200 | processing adds only well-formed names, keeps core tokens distinct, and never replaces a truthy entry |
| ContextMappings.FirstNameWins | packages/styles/scripts/generate-lint-mappings.js:190-193 | the first semantic name recorded for a core token is never overwritten |
| ContextMappings.TopLevelAtNamesContext | packages/styles/scripts/generate-lint-mappings.js:155-156 | a colour token under `@` directly below a context records the context's own name (`text.@` gives `text`) |
| ContextMappings.AtKeyNamesGroup | packages/styles/scripts/generate-lint-mappings.js:154-160 | a colour token under `@` in group `<context>-<x>` records `<context>-<x>` |
| ContextMappings.ValuedObjectIsLeaf | packages/styles/scripts/generate-lint-mappings.js:163-198 | an object with a truthy `value` records at most its own core token and is not descended into |
| ContextMappings.BuildContextMappings | packages/styles/scripts/generate-lint-mappings.js:135-214 | the function's result or thrown error is the specification's |
| ContextMappings.ContextMapWellFormed | packages/styles/scripts/generate-lint-mappings.js:203-211 | each context map has distinct core tokens and well-formed names of that context |
| ContextMappings.ContextMappingsWellFormed | packages/styles/scripts/generate-lint-mappings.js:135-214 | all three maps of a result are well formed |
| Ambiguous.CollectContext | packages/styles/scripts/generate-lint-mappings.js:223-229 | the inner loop adds one context's names to the sets |
| Ambiguous.BuildAmbiguous | packages/styles/scripts/generate-lint-mappings.js:219-241 | the two loops compute the specification's dictionary |
| Ambiguous.CollectGet | packages/styles/scripts/generate-lint-mappings.js:223-229 | a core token's set gains that context's name for it, if any, and nothing else changes |
| Ambiguous.KeepAmbiguousGet | packages/styles/scripts/generate-lint-mappings.js:233-238 | an entry is kept iff its set has more than one name |
| Ambiguous.CoreToSemanticsGet | packages/styles/scripts/generate-lint-mappings.js:222-230 | a core token's set is its distinct names in order text, background, border, and exists iff it has a name |
| Ambiguous.AmbiguousEntry | packages/styles/scripts/generate-lint-mappings.js:219-241 | `ambiguous[core]` is the distinct names in context order, present iff there are two or more |
| Ambiguous.DedupMany | packages/styles/scripts/generate-lint-mappings.js:235 | a set has more than one element iff its source list holds two different names |
| Ambiguous.AmbiguousShape | packages/styles/scripts/generate-lint-mappings.js:219-241 | listed iff two contexts give different names; each list is duplicate-free, of length 2 or 3, in order text, background, border |
| Ambiguous.SameNameNotAmbiguous | packages/styles/scripts/generate-lint-mappings.js:233-238 | a core token named the same everywhere it appears is not ambiguous |
| Ambiguous.BuiltAmbiguousShape | packages/styles/scripts/generate-lint-mappings.js:245-246 | on the mappings the script builds, every ambiguous list has that shape |

## Left out

- File-system I/O is not modelled: reading `$themes.json` and the token files, `mkdir`, `cleanAllPlatforms`, the reads, writes and `unlink` around the merge, the `try`/`catch` warnings, and the lint script's `existsSync`, `process.exit`, JSON reading and writing.
- Console output is not modelled.
- `permutateThemes`, `register` and the StyleDictionary builds are library calls: the permuted themes are an input (`Themes.FilterThemes`), and the format receives its tokens.
- The `color/hex`, `ts/resolveMath` and `size/px` transforms are library code, and so is the resolved `token.value` the format prints.
- `usesReferences` and `getReferences` are library calls. Whether a value uses references, and the file paths of the referenced tokens, are inputs of `ThemeTargets.ThemeableAttribute`. `getReferences` throwing is not modelled.
- Composite typography/border formatting, px normalisation, reference-chain resolution and cycle detection do not occur in this code.
- `fs.readdirSync` in `generateComponentFiles` is replaced by the listing as a parameter.
- ThemeTargets.StripLooseJson: strings are modelled as sequences of Unicode scalar values, while JavaScript strings are UTF-16 code units. A regular expression without the `u` flag, such as `/.json$/`, lets `.` match a single code unit. So for a name like `"a😀json"` the code removes only the low surrogate with `json`, leaving a lone high surrogate, while the model removes the whole character. This also affects `ComponentFiles.Components`, which uses that replace. The other operations treat characters outside the Basic Multilingual Plane the same under both readings.
- `Strings.Lower` maps ASCII letters only. Non-ASCII case mapping (such as the Kelvin sign) is not modelled.
- Keys inherited from `Object.prototype` are not modelled: `familyToGroup["constructor"]`, `mappings.text["constructor"]`, and the `coreToSemantics["constructor"].add` that would throw.
- `Object.entries` lists integer-like keys first. The model iterates an object's fields in the order they are given.
- `Object.entries` of a string yields its characters. None of them is a colour token or a group, so the model treats a string as having no entries.
- `themeGroups` is built but nothing reads it. It is modelled (`Themes.ThemeGroups`) and not used further.
- vite.config.js, copy-tokens.js and eslint.config.js are bundler plumbing, file copying and lint configuration, so they are not part of this model.
- ThemeTargets.ThemeTokenFilter: the `basePath` escaping in the filter's regular expression is not modelled. The base path is removed as a literal prefix, which is what the escaped pattern matches.
