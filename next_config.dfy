/** The build configuration of `next.config.ts`: theme selection with its
    fail-fast check, the brand-key table, the Sass prelude, the output
    directory, and the webpack callback that installs the component aliases,
    the resolution extensions and the theme exclusion rule. */
module NextConfig {
  import opened Wrappers
  import opened Text
  import opened FileSystem
  import opened ComponentResolver
  import opened ThemeExclusion
  import ThemeResolver

  /** The accepted values of `BUILD_THEME`, spelled exactly as compared. */
  const BuildThemes: seq<string> := ["BBOG", "BOCC", "BAVV", "BPOP"]

  const DefaultTheme: string := "BBOG"

  /** The error thrown for an unknown theme: it quotes the value as given
      and lists every accepted theme. */
  function InvalidThemeMessage(theme: string): (r: string)
    ensures |r| > 15 + |theme|
    ensures r[..15] == "Invalid theme: " && r[15..15 + |theme|] == theme
    ensures forall t :: t in BuildThemes ==> Contains(r, t)
  {
    var prefix := "Invalid theme: " + theme + ". Use: ";
    JoinContainsEach(BuildThemes, ", ");
    forall t | t in BuildThemes ensures Contains(prefix + Join(BuildThemes, ", "), t) {
      ContainsInRight(prefix, Join(BuildThemes, ", "), t);
    }
    prefix + Join(BuildThemes, ", ")
  }

  lemma BuildThemesLowerCased()
    ensures forall k :: 0 <= k < 4 ==> ToLower(BuildThemes[k]) == ThemeResolver.ValidThemes[k]
  {
  }

  /** `process.env.BUILD_THEME || 'BBOG'`, thrown out unless it is one of
      the four names exactly; the error message lists all four. */
  function SelectTheme(buildTheme: Option<string>): (r: Result<string>)
    ensures r.Ok? ==> r.value in BuildThemes
    ensures r.Ok? && buildTheme.Some? && buildTheme.value != "" ==> r.value == buildTheme.value
    ensures r.Err? ==> buildTheme.Some? && buildTheme.value !in BuildThemes
    ensures r.Err? ==> forall t :: t in BuildThemes ==> Contains(r.message, t)
  {
    var theme := OrElse(buildTheme, DefaultTheme);
    if theme in BuildThemes then Ok(theme) else Err(InvalidThemeMessage(theme))
  }

  /** Without `BUILD_THEME`, or with it empty, the theme is `BBOG`. */
  lemma SelectThemeDefault()
    ensures SelectTheme(None) == Ok("BBOG")
    ensures SelectTheme(Some("")) == Ok("BBOG")
  {
  }

  /** The build check compares exactly: a lower-case spelling that the
      runtime helper accepts is refused here. */
  lemma SelectThemeIsCaseSensitive()
    ensures SelectTheme(Some("bbog")).Err?
    ensures ThemeResolver.GetCurrentTheme(Some("bbog")) == Ok("bbog")
  {
    assert ToLower("bbog") == "bbog";
  }

  /** Whatever the build accepts, the runtime helper accepts too, and it
      yields the lower-cased name. */
  lemma SelectThemeAgreesWithRuntime(buildTheme: Option<string>)
    requires SelectTheme(buildTheme).Ok?
    ensures ThemeResolver.GetCurrentTheme(buildTheme) == Ok(ToLower(SelectTheme(buildTheme).value))
  {
    BuildThemesLowerCased();
    ThemeResolver.GetCurrentThemeIsLowerCased(buildTheme);
  }

  /** `BRAND_KEY`, defined together with the theme list. */
  const BrandKey: map<string, string> := map["BBOG" := "BBOG", "BOCC" := "BOCC", "BAVV" := "BAVV", "BPOP" := "BPOP"]

  /** The brand-key table covers exactly the accepted themes and maps each to itself. */
  lemma BrandKeyIsIdentity()
    ensures BrandKey.Keys == set t | t in BuildThemes
    ensures forall t :: t in BuildThemes ==> BrandKey[t] == t
  {
  }

  /** `build/${themeLower}`. */
  function DistDir(themeLower: string): (r: string)
    ensures |r| == 6 + |themeLower| && r[..6] == "build/" && r[6..] == themeLower
  {
    "build/" + themeLower
  }

  /** Builds for different themes never share an output directory. */
  lemma DistDirsDistinct(i: nat, j: nat)
    requires i < 4 && j < 4 && i != j
    ensures DistDir(ToLower(BuildThemes[i])) != DistDir(ToLower(BuildThemes[j]))
  {
    BuildThemesLowerCased();
    var lower := ThemeResolver.ValidThemes;
    assert lower[i] != lower[j];
    assert DistDir(lower[i])[6..] == lower[i];
    assert DistDir(lower[j])[6..] == lower[j];
  }

  const StylesDir: Path := ["src", "styles"]

  function ThemeVariablesPath(themeLower: string): Path
  {
    StylesDir + ["themes", themeLower, "_variables.scss"]
  }

  const MixinsPath: Path := StylesDir + ["_mixins.scss"]

  /** `fs.existsSync(p) ? fs.readFileSync(p, 'utf8') : ''`: a missing file
      reads as empty text, and reading a directory throws. */
  function ReadIfExists(fs: Snapshot, p: Path): (r: Result<string>)
    ensures !Exists(fs, p) ==> r == Ok("")
    ensures p in fs.files ==> r == Ok(fs.files[p])
    ensures r.Err? <==> IsDirectory(fs, p)
  {
    if p in fs.files then Ok(fs.files[p])
    else if p in fs.dirs then Err("EISDIR: illegal operation on a directory, read")
    else Ok("")
  }

  /** What `ReadIfExists` yields when it does not throw. */
  function FileText(fs: Snapshot, p: Path): string
  {
    if p in fs.files then fs.files[p] else ""
  }

  /** The Sass `prependData`: the theme variables, a newline, the mixins, a newline. */
  function PrependData(themeVariables: string, mixins: string): (r: string)
    ensures |r| == |themeVariables| + |mixins| + 2
    ensures r[..|themeVariables|] == themeVariables && r[|themeVariables|] == '\n'
    ensures r[|themeVariables| + 1..|r| - 1] == mixins && r[|r| - 1] == '\n'
  {
    themeVariables + "\n" + mixins + "\n"
  }

  /** The evaluated configuration object, without the webpack callback. */
  datatype Config = Config(
    reactCompiler: bool,
    includePaths: seq<Path>,
    prependData: string,
    env: map<string, string>,
    distDir: string)

  /** Evaluating `next.config.ts` against the environment value and the
      project tree. It throws on an invalid theme before reading any file. */
  function LoadConfig(buildTheme: Option<string>, fs: Snapshot): (r: Result<Config>)
    ensures SelectTheme(buildTheme).Err? ==> r == Err(SelectTheme(buildTheme).message)
    ensures r.Err? <==>
      SelectTheme(buildTheme).Err? ||
      IsDirectory(fs, ThemeVariablesPath(ToLower(SelectTheme(buildTheme).value))) || IsDirectory(fs, MixinsPath)
    ensures r.Ok? ==>
      r.value.prependData ==
        FileText(fs, ThemeVariablesPath(ToLower(SelectTheme(buildTheme).value))) + "\n" + FileText(fs, MixinsPath) + "\n"
    ensures SelectTheme(buildTheme).Ok? ==>
      !Exists(fs, ThemeVariablesPath(ToLower(SelectTheme(buildTheme).value))) && !Exists(fs, MixinsPath) ==>
      r.Ok? && r.value.prependData == "\n\n"
    ensures r.Ok? ==>
      var theme := SelectTheme(buildTheme).value;
      "NEXT_PUBLIC_THEME" in r.value.env && "NEXT_PUBLIC_BRAND_KEY" in r.value.env &&
      r.value.env["NEXT_PUBLIC_THEME"] == theme && r.value.env["NEXT_PUBLIC_BRAND_KEY"] == theme &&
      r.value.distDir == DistDir(ToLower(theme)) &&
      (forall windowDefined: bool :: ThemeResolver.GetThemeFromClient(Some(r.value.env["NEXT_PUBLIC_THEME"]), windowDefined) == theme) &&
      ThemeResolver.GetCurrentTheme(buildTheme) == Ok(ToLower(theme))
  {
    match SelectTheme(buildTheme)
    case Err(message) => Err(message)
    case Ok(theme) =>
      var themeLower := ToLower(theme);
      match ReadIfExists(fs, ThemeVariablesPath(themeLower))
      case Err(message) => Err(message)
      case Ok(themeVariables) =>
        match ReadIfExists(fs, MixinsPath)
        case Err(message) => Err(message)
        case Ok(mixinsContent) =>
          SelectThemeAgreesWithRuntime(buildTheme);
          assert theme != "";
          Ok(Config(
            true,
            [StylesDir],
            PrependData(themeVariables, mixinsContent),
            map["NEXT_PUBLIC_THEME" := theme, "NEXT_PUBLIC_BRAND_KEY" := BrandKey[theme]],
            DistDir(themeLower)))
  }

  /** The extensions put in front of whatever the host configuration had. */
  const ThemeExtensions: seq<string> := [".tsx", ".ts", ".jsx", ".js", ".json"]

  /** `{ ...existing, ...themeAliases }`. */
  function MergeAliases(existing: map<string, string>, themeAliases: map<string, string>): (r: map<string, string>)
    ensures r.Keys == existing.Keys + themeAliases.Keys
    ensures forall k :: k in themeAliases ==> r[k] == themeAliases[k]
    ensures forall k :: k in existing && k !in themeAliases ==> r[k] == existing[k]
  {
    existing + themeAliases
  }

  /** `['.tsx', '.ts', '.jsx', '.js', '.json', ...(existing || [])]`. */
  function PrependExtensions(existing: seq<string>): (r: seq<string>)
    ensures |r| == |ThemeExtensions| + |existing|
    ensures r[..|ThemeExtensions|] == ThemeExtensions && r[|ThemeExtensions|..] == existing
  {
    ThemeExtensions + existing
  }

  /** The theme exclusion rule for one build. */
  function ThemeExclusionRule(themeLower: string): Rule
  {
    ExclusionRule(IgnoredThemes(BuildThemes, themeLower))
  }

  /** For an accepted theme the rule names exactly the other three themes,
      lower-cased, and never the active one. */
  lemma ThemeExclusionRuleThemes(k: nat)
    requires k < 4
    ensures var active := ToLower(BuildThemes[k]);
      var excluded := ThemeExclusionRule(active).excludedThemes;
      |excluded| == 3 && active !in excluded &&
      forall t :: t in excluded <==> t in ThemeResolver.ValidThemes && t != active
  {
    BuildThemesLowerCased();
    IgnoredThemesAreTheOthers(BuildThemes, ThemeResolver.ValidThemes, ToLower(BuildThemes[k]), k);
  }

  /** The part of webpack's `Configuration` the callback touches. Absent
      `resolve.alias`, `resolve.extensions` and `module.rules` are empty. */
  class WebpackConfig {
    var alias: map<string, string>
    var extensions: seq<string>
    var rules: seq<Rule>

    constructor (alias: map<string, string>, extensions: seq<string>, rules: seq<Rule>)
      ensures this.alias == alias && this.extensions == extensions && this.rules == rules
    {
      this.alias := alias;
      this.extensions := extensions;
      this.rules := rules;
    }
  }

  /** The `webpack` callback for the active lower-case theme: merge the
      component aliases over the existing ones, put the source extensions
      first and append the exclusion rule. If resolving the components
      throws, nothing has been changed. */
  method Webpack(config: WebpackConfig, fs: Snapshot, themeLower: string) returns (outcome: Outcome)
    modifies config
    ensures outcome.Fail? <==> ThemeResolveConfig(fs, themeLower).Err?
    ensures outcome.Fail? ==>
      config.alias == old(config.alias) && config.extensions == old(config.extensions) && config.rules == old(config.rules)
    ensures outcome.Pass? ==>
      config.alias == MergeAliases(old(config.alias), ThemeResolveConfig(fs, themeLower).value) &&
      config.extensions == PrependExtensions(old(config.extensions)) &&
      config.rules == old(config.rules) + [ThemeExclusionRule(themeLower)]
  {
    var themeAliases := CreateThemeResolveConfig(fs, themeLower);
    if themeAliases.Err? {
      return Fail(themeAliases.message);
    }
    config.alias := MergeAliases(config.alias, themeAliases.value);
    config.extensions := PrependExtensions(config.extensions);
    var ignoredThemes := IgnoredThemes(BuildThemes, themeLower);
    config.rules := config.rules + [ExclusionRule(ignoredThemes)];
    return Pass;
  }
}
