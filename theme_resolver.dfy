/** The runtime theme helpers of `src/lib/theme-resolver.ts`: normalising
    the build theme, the precedence list of component import paths, and the
    public theme seen by client code. The environment is passed in. */
module ThemeResolver {
  import opened Wrappers
  import opened Text

  /** The closed list of themes, in lower case. */
  const ValidThemes: seq<string> := ["bbog", "bocc", "bavv", "bpop"]

  type Theme = t: string | t in ValidThemes witness "bbog"

  /** The raw value used when `BUILD_THEME` is absent or empty. */
  const DefaultBuildTheme: string := "BBOG"

  /** The error thrown for an unknown theme: it quotes the lower-cased value
      and lists every valid theme. */
  function InvalidThemeMessage(theme: string): (r: string)
    ensures |r| > 21 + |theme|
    ensures r[..21] == "Invalid BUILD_THEME: " && r[21..21 + |theme|] == theme
    ensures forall t :: t in ValidThemes ==> Contains(r, t)
  {
    var prefix := "Invalid BUILD_THEME: " + theme + ". Must be one of: ";
    JoinContainsEach(ValidThemes, ", ");
    forall t | t in ValidThemes ensures Contains(prefix + Join(ValidThemes, ", "), t) {
      ContainsInRight(prefix, Join(ValidThemes, ", "), t);
    }
    prefix + Join(ValidThemes, ", ")
  }

  lemma ValidThemesAreLowerCase()
    ensures forall t :: t in ValidThemes ==> ToLower(t) == t
  {
  }

  /** `getCurrentTheme()` with `process.env.BUILD_THEME` given as `buildTheme`.
      It succeeds exactly when some valid theme matches the raw value up to
      letter case, and then returns that theme. */
  function GetCurrentTheme(buildTheme: Option<string>): (r: Result<Theme>)
    ensures r.Ok? <==> exists t :: t in ValidThemes && SameUpToCase(t, OrElse(buildTheme, DefaultBuildTheme))
    ensures r.Ok? ==> SameUpToCase(r.value, OrElse(buildTheme, DefaultBuildTheme))
    ensures r.Err? ==> r.message == InvalidThemeMessage(ToLower(OrElse(buildTheme, DefaultBuildTheme)))
  {
    var raw := OrElse(buildTheme, DefaultBuildTheme);
    var theme := ToLower(raw);
    ValidThemesAreLowerCase();
    ToLowerEqualIffSameUpToCase(theme, raw);
    ToLowerNormalises(raw);
    assert forall t :: t in ValidThemes ==> (SameUpToCase(t, raw) <==> ToLower(t) == ToLower(raw)) by {
      forall t | t in ValidThemes { ToLowerEqualIffSameUpToCase(t, raw); }
    }
    if theme in ValidThemes then Ok(theme) else Err(InvalidThemeMessage(theme))
  }

  /** Without `BUILD_THEME`, or with it empty, the theme is `bbog`. */
  lemma GetCurrentThemeDefault()
    ensures GetCurrentTheme(None) == Ok("bbog")
    ensures GetCurrentTheme(Some("")) == Ok("bbog")
  {
    assert ToLower(DefaultBuildTheme) == "bbog";
  }

  /** Spellings that differ only in letter case select the same theme, or fail alike. */
  lemma GetCurrentThemeCaseInsensitive(a: string, b: string)
    requires SameUpToCase(a, b)
    ensures GetCurrentTheme(Some(a)) == GetCurrentTheme(Some(b))
  {
    ToLowerEqualIffSameUpToCase(a, b);
  }

  /** A successful result is the lower-cased raw value. */
  lemma GetCurrentThemeIsLowerCased(buildTheme: Option<string>)
    requires GetCurrentTheme(buildTheme).Ok?
    ensures GetCurrentTheme(buildTheme).value == ToLower(OrElse(buildTheme, DefaultBuildTheme))
    ensures IsLowerCase(GetCurrentTheme(buildTheme).value)
  {
  }

  /** The error message names every valid theme. */
  lemma GetCurrentThemeErrorListsThemes(buildTheme: Option<string>)
    requires GetCurrentTheme(buildTheme).Err?
    ensures forall t :: t in ValidThemes ==> Contains(GetCurrentTheme(buildTheme).message, t)
  {
  }

  /** Surrounding blanks are not trimmed: a value that starts or ends with
      one is invalid, since no theme name contains a blank. */
  lemma GetCurrentThemeDoesNotTrim(raw: string)
    requires |raw| > 0 && (IsBlank(raw[0]) || IsBlank(raw[|raw| - 1]))
    ensures GetCurrentTheme(Some(raw)).Err?
  {
    var i := if IsBlank(raw[0]) then 0 else |raw| - 1;
    forall t | t in ValidThemes ensures !SameUpToCase(t, raw) {
      if |t| == |raw| {
        assert !IsBlank(t[i]) && !IsUpper(raw[i]);
      }
    }
  }

  /** The object returned by `getComponentResolutionPattern(theme)`; its
      `componentPattern` closure is the member function below. */
  datatype ResolutionPattern = ResolutionPattern(theme: Theme)
  {
    /** The import paths tried for a component, most specific first: read
        as segments, the theme's own path, then the shared one. */
    function ComponentPattern(componentName: string): (r: seq<string>)
      ensures |r| == 2
      ensures IsSegment(componentName) ==>
        Split(r[0], '/') == ["@", "components", componentName, theme, componentName] &&
        Split(r[1], '/') == ["@", "components", componentName, componentName]
    {
      var themed := "@/components/" + componentName + "/" + theme + "/" + componentName;
      var shared := "@/components/" + componentName + "/" + componentName;
      if IsSegment(componentName) then
        PatternEntriesSplit(theme, componentName);
        [themed, shared]
      else
        [themed, shared]
    }
  }

  /** The pattern object for `theme`; what it promises is stated by
      `ComponentPatternPrecedence` below. */
  function GetComponentResolutionPattern(theme: Theme): ResolutionPattern
  {
    ResolutionPattern(theme)
  }

  /** For a slash-free name, the two entries read back as the segment lists
      of the theme's own directory and of the shared one. */
  lemma ComponentPatternPrecedence(theme: Theme, componentName: string)
    requires IsSegment(componentName)
    ensures var r := GetComponentResolutionPattern(theme).ComponentPattern(componentName);
      |r| == 2 &&
      Split(r[0], '/') == ["@", "components", componentName, theme, componentName] &&
      Split(r[1], '/') == ["@", "components", componentName, componentName]
  {
  }

  /** The two pattern strings, split at `/`. */
  lemma PatternEntriesSplit(theme: Theme, componentName: string)
    requires IsSegment(componentName)
    ensures Split("@/components/" + componentName + "/" + theme + "/" + componentName, '/') ==
            ["@", "components", componentName, theme, componentName]
    ensures Split("@/components/" + componentName + "/" + componentName, '/') ==
            ["@", "components", componentName, componentName]
  {
    var themed := ["@", "components", componentName, theme, componentName];
    var shared := ["@", "components", componentName, componentName];
    assert '/' !in theme by {
      assert theme == "bbog" || theme == "bocc" || theme == "bavv" || theme == "bpop";
    }
    JoinFiveSegments("@", "components", componentName, theme, componentName);
    assert "@/components/" == "@" + "/" + "components" + "/";
    assert Join(themed, "/") == "@/components/" + componentName + "/" + theme + "/" + componentName;
    JoinFourSegments("@", "components", componentName, componentName);
    assert Join(shared, "/") == "@/components/" + componentName + "/" + componentName;
    SplitJoin(themed, '/');
    SplitJoin(shared, '/');
  }

  /** `getThemeFromClient()` with `process.env.NEXT_PUBLIC_THEME` given as
      `publicTheme` and `windowDefined` standing for `typeof window !== 'undefined'`.
      Server and browser give the same answer. */
  function GetThemeFromClient(publicTheme: Option<string>, windowDefined: bool): (r: string)
    ensures publicTheme.Some? && publicTheme.value != "" ==> r == publicTheme.value
    ensures publicTheme.None? || publicTheme.value == "" ==> r == "BBOG"
  {
    if !windowDefined then OrElse(publicTheme, "BBOG") else OrElse(publicTheme, "BBOG")
  }
}
