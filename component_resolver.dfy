/** `createThemeResolveConfig(theme)` of `next.config.ts`: for every
    component directory under `src/components`, pick the theme's own
    implementation file if there is one and the shared one otherwise, and
    bind both import spellings of the component to it. */
module ComponentResolver {
  import opened Wrappers
  import opened Text
  import opened FileSystem

  const ComponentsDir: Path := ["src", "components"]

  /** The message `readdirSync` throws when the components path is a file. */
  const NotADirectory: string := "ENOTDIR: not a directory, scandir 'src/components'"

  /** `entries.filter(d => d.isDirectory()).map(d => d.name)`. */
  function ComponentDirs(entries: seq<Dirent>): (names: seq<string>)
    ensures |names| <= |entries|
    ensures forall n :: n in names <==> Dirent(n, true) in entries
  {
    if entries == [] then []
    else
      var rest := ComponentDirs(entries[1..]);
      assert forall e :: e in entries <==> e == entries[0] || e in entries[1..];
      if entries[0].isDirectory then [entries[0].name] + rest else rest
  }

  function ComponentPath(componentName: string): Path
  {
    ComponentsDir + [componentName]
  }

  /** The theme's own candidates, in the order they are probed. */
  function ThemeCandidates(componentName: string, theme: string): seq<Path>
  {
    var dir := ComponentPath(componentName) + [theme];
    [ dir + [componentName + ".tsx"], dir + [componentName + ".ts"],
      dir + ["index.tsx"], dir + ["index.ts"] ]
  }

  /** The shared candidates, in the order they are probed; there is no `index` file among them. */
  function SharedCandidates(componentName: string): seq<Path>
  {
    var dir := ComponentPath(componentName);
    [ dir + [componentName + ".tsx"], dir + [componentName + ".ts"] ]
  }

  /** Every theme-specific candidate is a path directly inside the theme's
      subdirectory of the component, and every shared candidate a path
      directly inside the component's directory. */
  lemma CandidatesLocation(componentName: string, theme: string)
    ensures |ThemeCandidates(componentName, theme)| == 4 && |SharedCandidates(componentName)| == 2
    ensures forall p :: p in ThemeCandidates(componentName, theme) ==>
      |p| == 5 && p[..4] == ComponentPath(componentName) + [theme]
    ensures forall p :: p in SharedCandidates(componentName) ==>
      |p| == 4 && p[..3] == ComponentPath(componentName)
  {
  }

  /** `files.some(file => fs.existsSync(file))`. */
  predicate AnyExists(fs: Snapshot, candidates: seq<Path>)
  {
    exists i :: 0 <= i < |candidates| && Exists(fs, candidates[i])
  }

  /** `files.find(file => fs.existsSync(file))`: the first candidate that exists. */
  function FirstExisting(fs: Snapshot, candidates: seq<Path>): (r: Option<Path>)
    ensures r.Some? <==> AnyExists(fs, candidates)
    ensures r.Some? ==> r.value in candidates && Exists(fs, r.value)
    ensures forall k ::
              0 <= k < |candidates| && Exists(fs, candidates[k]) && (forall j :: 0 <= j < k ==> !Exists(fs, candidates[j]))
              ==> r == Some(candidates[k])
  {
    if candidates == [] then None
    else if Exists(fs, candidates[0]) then Some(candidates[0])
    else
      var r := FirstExisting(fs, candidates[1..]);
      assert forall i :: 1 <= i < |candidates| ==> candidates[i] == candidates[1..][i - 1];
      r
  }

  /** The file one component is bound to, if any: the theme-specific
      candidates win over the shared ones. */
  function ResolveComponent(fs: Snapshot, theme: string, componentName: string): (r: Option<Path>)
    ensures r.Some? ==> Exists(fs, r.value) && |r.value| >= 4 && r.value[..3] == ComponentPath(componentName)
    ensures r.None? <==> !AnyExists(fs, ThemeCandidates(componentName, theme)) && !AnyExists(fs, SharedCandidates(componentName))
  {
    var themeSpecificFiles := ThemeCandidates(componentName, theme);
    var sharedFiles := SharedCandidates(componentName);
    if AnyExists(fs, themeSpecificFiles) then FirstExisting(fs, themeSpecificFiles)
    else if AnyExists(fs, sharedFiles) then FirstExisting(fs, sharedFiles)
    else None
  }

  /** The bare alias spelling, `@/components/Name$`. */
  function BareKey(componentName: string): string
  {
    "@/components/" + componentName + "$"
  }

  /** The nested alias spelling, `@/components/Name/Name$`. */
  function NestedKey(componentName: string): string
  {
    "@/components/" + componentName + "/" + componentName + "$"
  }

  /** One loop iteration: record both spellings for a resolved component, or nothing. */
  function AddComponent(aliases: map<string, string>, fs: Snapshot, theme: string, componentName: string): map<string, string>
  {
    match ResolveComponent(fs, theme, componentName)
    case None => aliases
    case Some(file) => aliases[BareKey(componentName) := Render(file)][NestedKey(componentName) := Render(file)]
  }

  /** The alias table after processing `componentNames` in order. */
  function AliasesFor(fs: Snapshot, theme: string, componentNames: seq<string>): (r: map<string, string>)
    ensures forall k :: k in r ==> exists n :: n in componentNames && ResolveComponent(fs, theme, n).Some? &&
                                       (k == BareKey(n) || k == NestedKey(n)) &&
                                       r[k] == Render(ResolveComponent(fs, theme, n).value)
  {
    if componentNames == [] then map[]
    else
      var last := componentNames[|componentNames| - 1];
      var before := AliasesFor(fs, theme, componentNames[..|componentNames| - 1]);
      assert forall n :: n in componentNames[..|componentNames| - 1] ==> n in componentNames;
      AddComponent(before, fs, theme, last)
  }

  /** The whole result of `createThemeResolveConfig`: no components
      directory gives no aliases, a components path that is a file throws. */
  function ThemeResolveConfig(fs: Snapshot, theme: string): (r: Result<map<string, string>>)
    ensures !Exists(fs, ComponentsDir) ==> r == Ok(map[])
    ensures r.Err? <==> ComponentsDir in fs.files && ComponentsDir !in fs.dirs
  {
    if !Exists(fs, ComponentsDir) then Ok(map[])
    else if ComponentsDir !in fs.dirs then Err(NotADirectory)
    else Ok(AliasesFor(fs, theme, ComponentDirs(fs.dirs[ComponentsDir])))
  }

  /** `createThemeResolveConfig(theme)`, filling the alias table in a loop. */
  method CreateThemeResolveConfig(fs: Snapshot, theme: string) returns (r: Result<map<string, string>>)
    ensures r == ThemeResolveConfig(fs, theme)
  {
    if !Exists(fs, ComponentsDir) {
      return Ok(map[]);
    }
    if ComponentsDir !in fs.dirs {
      return Err(NotADirectory);
    }
    var componentDirs := ComponentDirs(fs.dirs[ComponentsDir]);
    var aliases: map<string, string> := map[];
    for i := 0 to |componentDirs|
      invariant aliases == AliasesFor(fs, theme, componentDirs[..i])
    {
      var componentName := componentDirs[i];
      ghost var before := aliases;
      var themeSpecificFiles := ThemeCandidates(componentName, theme);
      var themeSpecificExists := AnyExists(fs, themeSpecificFiles);
      var sharedFiles := SharedCandidates(componentName);
      var sharedExists := AnyExists(fs, sharedFiles);
      if themeSpecificExists {
        var existingFile := FirstExisting(fs, themeSpecificFiles);
        if existingFile.Some? {
          aliases := aliases[BareKey(componentName) := Render(existingFile.value)];
          aliases := aliases[NestedKey(componentName) := Render(existingFile.value)];
        }
      } else if sharedExists {
        var existingFile := FirstExisting(fs, sharedFiles);
        if existingFile.Some? {
          aliases := aliases[BareKey(componentName) := Render(existingFile.value)];
          aliases := aliases[NestedKey(componentName) := Render(existingFile.value)];
        }
      }
      assert aliases == AddComponent(before, fs, theme, componentName);
      assert componentDirs[..i + 1][..i] == componentDirs[..i];
      assert componentDirs[..i + 1][i] == componentName;
      assert AliasesFor(fs, theme, componentDirs[..i + 1]) == AddComponent(AliasesFor(fs, theme, componentDirs[..i]), fs, theme, componentName);
    }
    assert componentDirs[..|componentDirs|] == componentDirs;
    return Ok(aliases);
  }

  /** Within the theme's directory the first existing candidate wins, in the
      order `Name.tsx`, `Name.ts`, `index.tsx`, `index.ts`. */
  lemma ThemeSpecificOrder(fs: Snapshot, theme: string, componentName: string, k: nat)
    requires k < 4
    requires Exists(fs, ThemeCandidates(componentName, theme)[k])
    requires forall j :: 0 <= j < k ==> !Exists(fs, ThemeCandidates(componentName, theme)[j])
    ensures ResolveComponent(fs, theme, componentName) == Some(ThemeCandidates(componentName, theme)[k])
  {
  }

  /** A theme-specific candidate, when one exists, is chosen over every shared candidate. */
  lemma ThemeSpecificOverShared(fs: Snapshot, theme: string, componentName: string)
    requires AnyExists(fs, ThemeCandidates(componentName, theme))
    ensures var r := ResolveComponent(fs, theme, componentName);
      r.Some? && r.value in ThemeCandidates(componentName, theme) &&
      r.value !in SharedCandidates(componentName) &&
      r.value[..4] == ComponentPath(componentName) + [theme]
  {
  }

  /** Without a theme-specific candidate the shared `Name.tsx` wins over `Name.ts`. */
  lemma SharedFallbackOrder(fs: Snapshot, theme: string, componentName: string, k: nat)
    requires !AnyExists(fs, ThemeCandidates(componentName, theme))
    requires k < 2
    requires Exists(fs, SharedCandidates(componentName)[k])
    requires forall j :: 0 <= j < k ==> !Exists(fs, SharedCandidates(componentName)[j])
    ensures ResolveComponent(fs, theme, componentName) == Some(SharedCandidates(componentName)[k])
  {
  }

  /** The shared directory has no `index` fallback: with neither `Name.tsx`
      nor `Name.ts` there, and no theme-specific candidate, nothing is bound. */
  lemma NoSharedIndexFallback(fs: Snapshot, theme: string, componentName: string)
    requires !AnyExists(fs, ThemeCandidates(componentName, theme))
    requires !Exists(fs, ComponentPath(componentName) + [componentName + ".tsx"])
    requires !Exists(fs, ComponentPath(componentName) + [componentName + ".ts"])
    ensures ResolveComponent(fs, theme, componentName) == None
  {
  }

  /** Distinct components never share an alias key. */
  lemma AliasKeysDistinct(n: string, m: string)
    requires '/' !in n
    ensures BareKey(n) != NestedKey(m)
    ensures BareKey(n) == BareKey(m) ==> n == m
    ensures NestedKey(n) == NestedKey(m) ==> n == m
  {
    if |n| == 2 * |m| + 1 {
      assert BareKey(n)[13 + |m|] == n[|m|];
      assert NestedKey(m)[13 + |m|] == '/';
    }
    if BareKey(n) == BareKey(m) {
      assert BareKey(n)[13..13 + |n|] == n;
      assert BareKey(m)[13..13 + |m|] == m;
    }
    if |n| == |m| {
      assert NestedKey(n)[13..13 + |n|] == n;
      assert NestedKey(m)[13..13 + |m|] == m;
    }
  }

  /** Adding another component leaves the aliases of `n` as they were. */
  lemma AddComponentKeepsOthers(aliases: map<string, string>, fs: Snapshot, theme: string, other: string, n: string)
    requires '/' !in n && '/' !in other && n != other
    ensures var after := AddComponent(aliases, fs, theme, other);
      (BareKey(n) in after <==> BareKey(n) in aliases) &&
      (BareKey(n) in aliases ==> after[BareKey(n)] == aliases[BareKey(n)]) &&
      (NestedKey(n) in after <==> NestedKey(n) in aliases) &&
      (NestedKey(n) in aliases ==> after[NestedKey(n)] == aliases[NestedKey(n)])
  {
    AliasKeysDistinct(n, other);
    AliasKeysDistinct(other, n);
  }

  /** After the loop, each listed component with a resolved path has both
      spellings bound to it and any other component has neither. */
  lemma {:induction false} AliasesForLookup(fs: Snapshot, theme: string, componentNames: seq<string>, n: string)
    requires forall k :: 0 <= k < |componentNames| ==> '/' !in componentNames[k]
    requires '/' !in n
    ensures var aliases := AliasesFor(fs, theme, componentNames);
      var bound := n in componentNames && ResolveComponent(fs, theme, n).Some?;
      (BareKey(n) in aliases <==> bound) && (NestedKey(n) in aliases <==> bound) &&
      (bound ==> aliases[BareKey(n)] == Render(ResolveComponent(fs, theme, n).value) &&
                 aliases[NestedKey(n)] == Render(ResolveComponent(fs, theme, n).value))
  {
    if componentNames != [] {
      var init := componentNames[..|componentNames| - 1];
      var last := componentNames[|componentNames| - 1];
      var before := AliasesFor(fs, theme, init);
      assert AliasesFor(fs, theme, componentNames) == AddComponent(before, fs, theme, last);
      assert componentNames == init + [last];
      assert forall k :: 0 <= k < |init| ==> init[k] == componentNames[k];
      AliasesForLookup(fs, theme, init, n);
      if n != last {
        assert n in componentNames <==> n in init;
        AddComponentKeepsOthers(before, fs, theme, last, n);
      }
    }
  }

  /** Both spellings of a component directory name its resolved path, which
      exists inside that component's directory; an unresolved component
      contributes no alias at all. */
  lemma ResolvedComponentAliases(fs: Snapshot, theme: string, componentName: string)
    requires WellFormed(fs)
    requires ComponentsDir in fs.dirs
    requires Dirent(componentName, true) in fs.dirs[ComponentsDir]
    ensures ThemeResolveConfig(fs, theme).Ok?
    ensures var aliases := ThemeResolveConfig(fs, theme).value;
      match ResolveComponent(fs, theme, componentName)
      case Some(file) =>
        Exists(fs, file) && file[..3] == ComponentsDir + [componentName] &&
        BareKey(componentName) in aliases && NestedKey(componentName) in aliases &&
        aliases[BareKey(componentName)] == aliases[NestedKey(componentName)] == Render(file)
      case None => BareKey(componentName) !in aliases && NestedKey(componentName) !in aliases
  {
    var names := ComponentDirs(fs.dirs[ComponentsDir]);
    forall k | 0 <= k < |names| ensures '/' !in names[k] {
      assert names[k] in names;
      assert Dirent(names[k], true) in fs.dirs[ComponentsDir];
    }
    AliasesForLookup(fs, theme, names, componentName);
  }

  /** Every alias belongs to a component directory and names an existing
      file under that component's directory. */
  lemma AliasesPointIntoComponents(fs: Snapshot, theme: string)
    requires ThemeResolveConfig(fs, theme).Ok?
    ensures var aliases := ThemeResolveConfig(fs, theme).value;
      forall k :: k in aliases ==>
        exists n :: Dirent(n, true) in fs.dirs[ComponentsDir] && (k == BareKey(n) || k == NestedKey(n)) &&
          ResolveComponent(fs, theme, n).Some? &&
          Exists(fs, ResolveComponent(fs, theme, n).value) &&
          ResolveComponent(fs, theme, n).value[..3] == ComponentsDir + [n] &&
          aliases[k] == Render(ResolveComponent(fs, theme, n).value)
  {
  }

  /** The snapshot of a library whose only component is a shared `Button.tsx`. */
  function ButtonOnlySnapshot(): Snapshot
  {
    Snapshot(
      map[["src", "components", "Button", "Button.tsx"] := ""],
      map[["src", "components"] := [Dirent("Button", true)],
          ["src", "components", "Button"] := [Dirent("Button.tsx", false)]])
  }

  lemma ButtonOnlyResolves()
    ensures ResolveComponent(ButtonOnlySnapshot(), "bocc", "Button") == Some(["src", "components", "Button", "Button.tsx"])
  {
    var fs := ButtonOnlySnapshot();
    var themed := ThemeCandidates("Button", "bocc");
    forall i | 0 <= i < 4 ensures !Exists(fs, themed[i]) {
      assert |themed[i]| == 5;
    }
    assert "Button" + ".tsx" == "Button.tsx";
    assert ComponentPath("Button") == ["src", "components", "Button"];
    assert SharedCandidates("Button")[0] == ["src", "components", "Button", "Button.tsx"];
    SharedFallbackOrder(fs, "bocc", "Button", 0);
  }

  /** A component with only a shared `Button.tsx`, built for `bocc`: the
      table holds exactly the two spellings, both naming the shared file. */
  lemma SharedOnlyScenario()
    ensures ThemeResolveConfig(ButtonOnlySnapshot(), "bocc") ==
      Ok(map[BareKey("Button") := Render(["src", "components", "Button", "Button.tsx"]),
             NestedKey("Button") := Render(["src", "components", "Button", "Button.tsx"])])
  {
    var fs := ButtonOnlySnapshot();
    assert ComponentsDir in fs.dirs;
    assert fs.dirs[ComponentsDir] == [Dirent("Button", true)];
    assert ComponentDirs(fs.dirs[ComponentsDir]) == ["Button"];
    assert ["Button"][..0] == [];
    ButtonOnlyResolves();
  }

  /** A shared `DatePicker.tsx` with an override in `bbog/`. */
  function DatePickerSnapshot(): Snapshot
  {
    Snapshot(
      map[["src", "components", "DatePicker", "DatePicker.tsx"] := "",
          ["src", "components", "DatePicker", "bbog", "DatePicker.tsx"] := ""],
      map[["src", "components"] := [Dirent("DatePicker", true)],
          ["src", "components", "DatePicker"] := [Dirent("DatePicker.tsx", false), Dirent("bbog", true)],
          ["src", "components", "DatePicker", "bbog"] := [Dirent("DatePicker.tsx", false)]])
  }

  /** Built for `bbog`, both spellings of DatePicker name the override, not the shared file. */
  lemma OverrideScenario()
    ensures ThemeResolveConfig(DatePickerSnapshot(), "bbog") ==
      Ok(map[BareKey("DatePicker") := Render(["src", "components", "DatePicker", "bbog", "DatePicker.tsx"]),
             NestedKey("DatePicker") := Render(["src", "components", "DatePicker", "bbog", "DatePicker.tsx"])])
  {
    var fs := DatePickerSnapshot();
    assert ComponentsDir in fs.dirs;
    assert fs.dirs[ComponentsDir] == [Dirent("DatePicker", true)];
    assert ComponentDirs(fs.dirs[ComponentsDir]) == ["DatePicker"];
    assert ["DatePicker"][..0] == [];
    assert "DatePicker" + ".tsx" == "DatePicker.tsx";
    assert ComponentPath("DatePicker") == ["src", "components", "DatePicker"];
    assert ThemeCandidates("DatePicker", "bbog")[0] == ["src", "components", "DatePicker", "bbog", "DatePicker.tsx"];
    ThemeSpecificOrder(fs, "bbog", "DatePicker", 0);
  }
}
