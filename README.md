# Build-time theme resolution of a multi-bank component library

The library ships each UI component (Button, DatePicker, …) as a shared
implementation plus optional per-bank overrides, and one bank theme is
chosen per build through `BUILD_THEME`. This project models, in Dafny, the
part of the build that makes that choice:

- **Theme selection** (`next.config.ts`): `BUILD_THEME || 'BBOG'`, checked
  exactly against `BBOG, BOCC, BAVV, BPOP`; the brand-key table; the output
  directory, `build/` followed by the lower-cased theme; the Sass prelude built from the theme's variables
  file and the shared mixins file.
- **Component alias resolution** (`createThemeResolveConfig`): for every
  directory under `src/components`, the first existing path among
  `<theme>/Name.tsx`, `<theme>/Name.ts`, `<theme>/index.tsx`,
  `<theme>/index.ts`, and failing those `Name.tsx`, `Name.ts`, is bound to both
  `@/components/Name$` and `@/components/Name/Name$`. "Existing" is
  `existsSync`, which is true of a directory as well, so a candidate path
  that is a directory is bound like a file. It is written as a loop
  (`CreateThemeResolveConfig`) proved equal to a specification function
  (`ThemeResolveConfig`), and the precedence, totality and key properties are
  lemmas about that function.
- **The webpack callback**: the alias merge, the extension list, and the
  appended rule whose patterns `src/components/[^/]+/<theme>/` name the three
  themes not being built. The regular expression is modelled as a predicate
  over path segments (`ThemeExclusion.MatchesAt`), and the rule is proved
  sound (it matches no file at any depth under the active theme's directory
  of a component, provided no segment above `src` or below that directory
  is named `components`) and complete (it matches every script file under a
  rejected theme's directory).
- **Runtime helpers** (`src/lib/theme-resolver.ts`): `getCurrentTheme`, which
  lower-cases before validating and so is case-insensitive;
  `getComponentResolutionPattern`; and `getThemeFromClient`.

The environment is a parameter: `BUILD_THEME` and `NEXT_PUBLIC_THEME` are
`Option<string>`, and the empty string behaves like absence, as it does under
JavaScript's `||`. The file system is a `FileSystem.Snapshot`: a map from file paths to
contents and a map from directory paths to their listings. Paths are
sequences of segments relative to the project root. A thrown `Error` is an
`Err` result.

The two validators differ, and the model keeps both as written. The build
check in `next.config.ts` compares the raw value, so `BUILD_THEME=bbog` stops
the build (`NextConfig.SelectThemeIsCaseSensitive`). The runtime helper
accepts any letter case. The alias keys carry webpack's exact-match `$`
suffix, and the alias values are file paths from the project root.

Modules: `Wrappers` (Option, Result, `||`), `Text` (lower-casing, `join`,
`split`, substring and suffix tests), `FileSystem`, `ThemeResolver`,
`ComponentResolver`, `ThemeExclusion`, `NextConfig`.

## Model

| member | source | states |
|---|---|---|
| Wrappers.OrElse | next.config.ts:8 | an absent or empty value gives the fallback; any other value is kept |
| Text.ToLower | next.config.ts:23 | lower-casing keeps the length and maps every character through the ASCII lower-case mapping |
| Text.ToLowerEqualIffSameUpToCase | src/lib/theme-resolver.ts:8 | two strings lower-case to the same string exactly when they differ only in letter case |
| Text.ToLowerNormalises | src/lib/theme-resolver.ts:8 | the lower-cased string contains no upper-case letter; lower-casing is idempotent and leaves lower-case strings alone |
| Text.Join | next.config.ts:12 | `Array.prototype.join`: the elements in order with the separator between neighbours, `""` for an empty list |
| Text.JoinContainsEach | next.config.ts:12 | every element of a joined list occurs as a substring of the joined text |
| FileSystem.Exists | next.config.ts:27 | `fs.existsSync`: true for a regular file and for a directory |
| FileSystem.IsDirectory | next.config.ts:28 | the path is a directory and not a regular file, so reading it throws |
| FileSystem.Render | next.config.ts:53-62 | `path.join` of the segments, written with `/` separators |
| FileSystem.RenderSplit | next.config.ts:53-62 | a path written with `/` separators can be split back into the same segments |
| ThemeResolver.InvalidThemeMessage | src/lib/theme-resolver.ts:11-13 | the message starts `Invalid BUILD_THEME: ` followed by the value, and contains every valid theme |
| ThemeResolver.GetCurrentTheme | src/lib/theme-resolver.ts:7-17 | succeeds exactly when some valid theme equals the raw value up to letter case, and then returns that theme; otherwise the Invalid BUILD_THEME error with the lower-cased value |
| ThemeResolver.GetCurrentThemeDefault | src/lib/theme-resolver.ts:8 | an absent or empty `BUILD_THEME` yields `bbog` |
| ThemeResolver.GetCurrentThemeCaseInsensitive | src/lib/theme-resolver.ts:8 | inputs that differ only in letter case give the same result, success or error |
| ThemeResolver.GetCurrentThemeIsLowerCased | src/lib/theme-resolver.ts:8-16 | a successful result is the lower-cased input and contains no upper-case letter |
| ThemeResolver.GetCurrentThemeErrorListsThemes | src/lib/theme-resolver.ts:10-14 | the error message names each of `bbog`, `bocc`, `bavv`, `bpop` |
| ThemeResolver.GetCurrentThemeDoesNotTrim | src/lib/theme-resolver.ts:8-10 | surrounding blanks are kept: any value starting or ending with a space, tab or line break is rejected |
| ThemeResolver.ResolutionPattern.ComponentPattern | src/lib/theme-resolver.ts:21-24 | two entries; for a slash-free name the first reads as the segments `@, components, n, theme, n` and the second as `@, components, n, n`, so the theme's own path is tried first |
| ThemeResolver.ComponentPatternPrecedence | src/lib/theme-resolver.ts:19-26 | for a slash-free name `n`, `getComponentResolutionPattern(theme).componentPattern(n)` lists the theme-specific path (segments `@, components, n, theme, n`) before the shared one (segments `@, components, n, n`) |
| ThemeResolver.GetThemeFromClient | src/lib/theme-resolver.ts:28-33 | a non-empty public theme is returned, otherwise `BBOG`, independently of whether a browser window exists |
| ComponentResolver.ComponentDirs | next.config.ts:48-50 | a name is kept exactly when the listing has a directory entry with that name; file entries are dropped |
| ComponentResolver.ComponentPath | next.config.ts:53 | the component's directory `src/components/Name` |
| ComponentResolver.ThemeCandidates | next.config.ts:57-62 | the theme-specific candidates in probe order: `Name.tsx`, `Name.ts`, `index.tsx`, `index.ts` inside the theme subdirectory |
| ComponentResolver.SharedCandidates | next.config.ts:67-70 | the shared candidates in probe order: `Name.tsx`, `Name.ts` inside the component directory |
| ComponentResolver.CandidatesLocation | next.config.ts:53-70 | there are four theme-specific candidates, each a path directly in the theme subdirectory, and two shared ones, each a path directly in the component directory |
| ComponentResolver.AnyExists | next.config.ts:64-72 | `some(existsSync)`: some candidate exists |
| ComponentResolver.FirstExisting | next.config.ts:64-83 | finds a candidate exactly when some candidate exists; the one found exists and is the first existing candidate in list order |
| ComponentResolver.ResolveComponent | next.config.ts:53-90 | a resolved path exists (in the `existsSync` sense) and lies inside the component's directory; nothing is resolved exactly when no theme-specific and no shared candidate exists |
| ComponentResolver.ThemeSpecificOrder | next.config.ts:57-80 | within the theme directory the first existing path in the order `Name.tsx`, `Name.ts`, `index.tsx`, `index.ts` is chosen |
| ComponentResolver.ThemeSpecificOverShared | next.config.ts:74-81 | if any theme-specific candidate exists, the chosen path is theme-specific, is none of the shared candidates, and lies in the theme subdirectory |
| ComponentResolver.SharedFallbackOrder | next.config.ts:67-90 | without a theme-specific candidate, the shared `Name.tsx` is chosen over `Name.ts` |
| ComponentResolver.NoSharedIndexFallback | next.config.ts:67-70 | with no theme-specific candidate and neither shared `Name.tsx` nor `Name.ts`, nothing is bound, whatever `index` files exist |
| ComponentResolver.BareKey | next.config.ts:78-86 | the bare alias key `@/components/Name$` |
| ComponentResolver.NestedKey | next.config.ts:79-88 | the nested alias key `@/components/Name/Name$` |
| ComponentResolver.AddComponent | next.config.ts:74-90 | one loop iteration: both keys bound to the rendered resolved path, or the table unchanged when nothing resolves |
| ComponentResolver.AliasKeysDistinct | next.config.ts:78-79 | the bare and nested spellings of slash-free names never collide, and each spelling determines the name |
| ComponentResolver.AddComponentKeepsOthers | next.config.ts:77-88 | processing one component leaves the alias entries of every other component unchanged |
| ComponentResolver.AliasesFor | next.config.ts:52-91 | each key of the table is a spelling of a listed, resolved component and maps to that component's rendered file |
| ComponentResolver.AliasesForLookup | next.config.ts:52-91 | after the loop, both spellings of a component are present exactly when it is listed and resolved, and both map to its resolved path |
| ComponentResolver.ThemeResolveConfig | next.config.ts:38-94 | a missing components directory yields the empty table; an error occurs exactly when the components path is a file |
| ComponentResolver.CreateThemeResolveConfig | next.config.ts:38-94 | the loop that fills the alias table returns exactly `ThemeResolveConfig` |
| ComponentResolver.ResolvedComponentAliases | next.config.ts:47-91 | for each component directory, both spellings map to the same existing path (file or directory; `existsSync` does not tell them apart) inside it when one resolves, and neither spelling is present otherwise |
| ComponentResolver.AliasesPointIntoComponents | next.config.ts:74-90 | every alias is a spelling of a listed component directory and names an existing path (file or directory; `existsSync` does not tell them apart) inside that directory |
| ComponentResolver.ButtonOnlyResolves | next.config.ts:67-83 | in a tree with only a shared `Button/Button.tsx`, the build for `bocc` chooses that file |
| ComponentResolver.SharedOnlyScenario | next.config.ts:67-91 | with only `Button/Button.tsx`, the `bocc` table is exactly the two Button spellings bound to the shared file |
| ComponentResolver.OverrideScenario | next.config.ts:74-80 | with a shared DatePicker and a `bbog/` override, the `bbog` table binds both spellings to the override |
| ThemeExclusion.IgnoredThemes | next.config.ts:136-138 | the result never holds the active theme, holds the lower-cased form of every other listed theme, and holds nothing else |
| ThemeExclusion.IgnoredThemesNoneActive | next.config.ts:136-138 | if no theme lower-cases to the active one, every theme is kept |
| ThemeExclusion.IgnoredThemesDropsOne | next.config.ts:136-138 | with distinct lower-cased names, one of which is active, exactly one theme is dropped |
| ThemeExclusion.IgnoredThemesAreTheOthers | next.config.ts:136-138 | with distinct lower-cased names, one of which is active, the kept themes are exactly the other lower-cased names |
| ThemeExclusion.IsScriptFile | next.config.ts:141 | the rule's `test`: the last segment ends in `.ts`, `.tsx`, `.js` or `.jsx` |
| ThemeExclusion.MatchesAt | next.config.ts:143 | one match position of `src/components/[^/]+/<theme>/`: a segment ending in `src`, then `components`, one non-empty segment, the theme, and a further segment |
| ThemeExclusion.PatternMatches | next.config.ts:143 | the unanchored pattern matches at some position of the path |
| ThemeExclusion.Excludes | next.config.ts:140-145 | the pushed rule excludes a path exactly when its `test` accepts the path as a script file and some rejected theme's pattern matches it |
| ThemeExclusion.ActiveThemeNeverExcluded | next.config.ts:140-145 | no pattern of the rule matches any path `src/components/C/<active>/…` at any depth, when neither the root above `src`, nor the part below the theme directory, nor the theme has a `components` segment |
| ThemeExclusion.RejectedThemeExcluded | next.config.ts:140-145 | every script file anywhere below `src/components/C/<rejected>/` is excluded by the rule |
| NextConfig.InvalidThemeMessage | next.config.ts:12 | the message starts `Invalid theme: ` followed by the value as given, and contains every accepted theme |
| NextConfig.SelectTheme | next.config.ts:8-13 | a success is one of the four themes and equals a non-empty input; an error comes only from a present value outside the list, and its message names all four themes |
| NextConfig.SelectThemeDefault | next.config.ts:8 | an absent or empty `BUILD_THEME` yields `BBOG` |
| NextConfig.SelectThemeIsCaseSensitive | next.config.ts:11 | `bbog` is refused by the build check although the runtime helper accepts it |
| NextConfig.SelectThemeAgreesWithRuntime | next.config.ts:8-13 | every value the build accepts is accepted by `getCurrentTheme`, which returns its lower-cased form |
| NextConfig.BrandKeyIsIdentity | next.config.ts:15-20 | the brand-key table `BrandKey` is defined for exactly the four themes and maps each to itself |
| NextConfig.DistDir | next.config.ts:109 | the output directory is `build/` followed by the lower-cased theme |
| NextConfig.DistDirsDistinct | next.config.ts:109 | different themes get different output directories |
| NextConfig.ThemeVariablesPath | next.config.ts:26 | the theme's variables file `src/styles/themes/<theme>/_variables.scss` |
| NextConfig.ReadIfExists | next.config.ts:27-35 | a missing file reads as `""`, a file as its contents, and reading a path that is only a directory is an error |
| NextConfig.FileText | next.config.ts:27-35 | the text a style path contributes when reading it does not throw: the file contents, or `""` when there is no file |
| NextConfig.PrependData | next.config.ts:101 | the prelude is the variables text, a newline, the mixins text and a newline |
| NextConfig.LoadConfig | next.config.ts:8-109 | an invalid theme throws before any file is read; otherwise loading fails exactly when a style path is a directory; on success the prelude is the variables file text (or `""`), a newline, the mixins file text (or `""`) and a newline, both environment values equal the theme, the output directory is `build/` plus its lower-cased form, the client sees that theme, and `getCurrentTheme` yields its lower-cased form |
| NextConfig.MergeAliases | next.config.ts:116-120 | the merged table has the union of the keys; resolver entries win on collisions and every other existing entry is kept |
| NextConfig.PrependExtensions | next.config.ts:123-130 | `.tsx, .ts, .jsx, .js, .json` come first, followed unchanged by the old list |
| NextConfig.ThemeExclusionRule | next.config.ts:136-145 | the pushed rule excludes the patterns of the themes `IgnoredThemes` keeps |
| NextConfig.ThemeExclusionRuleThemes | next.config.ts:136-144 | for an accepted theme the rule names exactly the three other lower-case themes and never the active one |
| NextConfig.WebpackConfig.constructor | next.config.ts:111 | the configuration object handed to the callback, with its alias table, extension list and rule list |
| NextConfig.Webpack | next.config.ts:111-148 | on success the aliases are merged, the extensions prepended and the exclusion rule appended after the unchanged old rules; if resolution throws, the configuration is unchanged |

## Left out

- The components themselves (Button, the DatePicker variants and their date helpers), the demo page and the type declaration files: they are presentational markup or types and take no part in the resolution.
- Real `fs` and `path` calls: a `Snapshot` stands in for them. Only "missing", "file" and "directory" are distinguished. Permission and I/O failures are not modelled; the only errors are `readdirSync` on a components path that is a file and `readFileSync` on a style path that is a directory.
- `path.join` normalisation and the absolute `__dirname` prefix: paths are segment lists relative to the project root, and a segment such as `..` or an empty theme is not normalised away.
- Text.ToLower: models ASCII letters only, because JavaScript's full Unicode case mapping is outside what the themes and component names need.
- The regular-expression engine: the two regular expressions become the predicates `MatchesAt` and `IsScriptFile` over path segments.
- What webpack does with the appended rule: the rule has `test` and `exclude` but no loader. The model states which paths its patterns match, not how webpack's module graph uses them.
- The `isServer` argument of the callback, which the code never reads; `reactCompiler` and `includePaths` appear only as constant fields of `Config`.
- Absent `config.resolve`, `resolve.alias`, `resolve.extensions`, `config.module` and `module.rules`: they are modelled as already present and empty, which is what the code turns them into: `|| {}` for `config.resolve` and `config.module`, `|| []` for `resolve.extensions` and `module.rules`, and the spread `...config.resolve.alias`, which contributes nothing when the table is absent.
- Separate statements of idempotence: every operation is a function of its explicit inputs, so two runs on the same snapshot and theme give the same table by construction.
