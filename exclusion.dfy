/** The module rule that keeps the other themes' component files out of a
    build: which themes it names, and which paths its patterns
    `src/components/[^/]+/<theme>/` match, read segment by segment. */
module ThemeExclusion {
  import opened Text
  import opened FileSystem

  /** `themes.filter(t => t.toLowerCase() !== active).map(t => t.toLowerCase())`. */
  function IgnoredThemes(themes: seq<string>, active: string): (r: seq<string>)
    ensures |r| <= |themes|
    ensures forall t :: t in r ==> t != active
    ensures forall k :: 0 <= k < |themes| && ToLower(themes[k]) != active ==> ToLower(themes[k]) in r
    ensures forall t :: t in r ==> exists k :: 0 <= k < |themes| && ToLower(themes[k]) == t
  {
    if themes == [] then []
    else
      var rest := IgnoredThemes(themes[1..], active);
      assert forall k :: 1 <= k < |themes| ==> themes[k] == themes[1..][k - 1];
      if ToLower(themes[0]) != active then [ToLower(themes[0])] + rest else rest
  }

  /** With no theme lower-casing to `active`, every theme is kept. */
  lemma {:induction false} IgnoredThemesNoneActive(themes: seq<string>, active: string)
    requires forall k :: 0 <= k < |themes| ==> ToLower(themes[k]) != active
    ensures |IgnoredThemes(themes, active)| == |themes|
  {
    if themes != [] {
      IgnoredThemesNoneActive(themes[1..], active);
    }
  }

  /** When the lower-cased names are distinct and one of them is the active
      theme, exactly that one is dropped. */
  lemma {:induction false} IgnoredThemesDropsOne(themes: seq<string>, active: string, k: nat)
    requires forall i, j :: 0 <= i < j < |themes| ==> ToLower(themes[i]) != ToLower(themes[j])
    requires k < |themes| && ToLower(themes[k]) == active
    ensures |IgnoredThemes(themes, active)| == |themes| - 1
  {
    if k == 0 {
      IgnoredThemesNoneActive(themes[1..], active);
    } else {
      IgnoredThemesDropsOne(themes[1..], active, k - 1);
    }
  }

  /** Given the lower-cased names `lowered`, distinct, with the active theme
      among them: the kept themes are exactly the other lower-cased names. */
  lemma IgnoredThemesAreTheOthers(themes: seq<string>, lowered: seq<string>, active: string, k: nat)
    requires |lowered| == |themes| && forall i :: 0 <= i < |themes| ==> ToLower(themes[i]) == lowered[i]
    requires forall i, j :: 0 <= i < j < |lowered| ==> lowered[i] != lowered[j]
    requires k < |lowered| && lowered[k] == active
    ensures |IgnoredThemes(themes, active)| == |themes| - 1
    ensures forall t :: t in IgnoredThemes(themes, active) <==> t in lowered && t != active
  {
    IgnoredThemesDropsOne(themes, active, k);
    var excluded := IgnoredThemes(themes, active);
    forall t | t in excluded ensures t in lowered && t != active {
      var i :| 0 <= i < |themes| && ToLower(themes[i]) == t;
    }
    forall t | t in lowered && t != active ensures t in excluded {
      var i :| 0 <= i < |lowered| && lowered[i] == t;
    }
  }

  /** The rule's `test`, `/\.(tsx?|jsx?)$/`: the path names a script source file. */
  predicate IsScriptFile(path: Path)
  {
    |path| > 0 &&
    var name := path[|path| - 1];
    EndsWith(name, ".ts") || EndsWith(name, ".tsx") || EndsWith(name, ".js") || EndsWith(name, ".jsx")
  }

  /** The pattern for `theme` matches with `src` ending at segment `i`: that
      segment ends in `src`, the next is `components`, then one non-empty
      segment, then the theme, and at least one more segment follows. */
  predicate MatchesAt(path: Path, theme: string, i: nat)
  {
    i + 4 < |path| &&
    EndsWith(path[i], "src") && path[i + 1] == "components" &&
    path[i + 2] != "" && path[i + 3] == theme
  }

  /** `new RegExp('src/components/[^/]+/' + theme + '/').test(path)`; the
      expression is not anchored, so it may match anywhere in the path. */
  ghost predicate PatternMatches(path: Path, theme: string)
  {
    exists i: nat :: MatchesAt(path, theme, i)
  }

  /** A module rule: one the host configuration already had, or the theme exclusion. */
  datatype Rule = OtherRule(name: string) | ExclusionRule(excludedThemes: seq<string>)

  /** The rule applies to script files and excludes those matching one of its patterns. */
  ghost predicate Excludes(rule: Rule, path: Path)
  {
    rule.ExclusionRule? && IsScriptFile(path) &&
    exists t :: t in rule.excludedThemes && PatternMatches(path, t)
  }

  /** Soundness: no file anywhere under the active theme's directory of any
      component is matched by a pattern of the rule, whatever the path above
      `src` is, as long as no segment there or below the theme directory is
      `components`. */
  lemma ActiveThemeNeverExcluded(themes: seq<string>, active: string, root: Path, component: string, rest: Path)
    requires active != "components"
    requires forall k :: 0 <= k < |root| ==> root[k] != "components"
    requires forall k :: 0 <= k < |rest| ==> rest[k] != "components"
    ensures !Excludes(ExclusionRule(IgnoredThemes(themes, active)), root + ["src", "components", component, active] + rest)
  {
  }

  /** Completeness: every script file anywhere under a rejected theme's
      directory of a component is excluded. */
  lemma RejectedThemeExcluded(themes: seq<string>, active: string, k: nat, root: Path, component: string, rest: Path)
    requires k < |themes| && ToLower(themes[k]) != active
    requires component != ""
    requires IsScriptFile(root + ["src", "components", component, ToLower(themes[k])] + rest)
    requires rest != []
    ensures Excludes(ExclusionRule(IgnoredThemes(themes, active)), root + ["src", "components", component, ToLower(themes[k])] + rest)
  {
    var t := ToLower(themes[k]);
    var path := root + ["src", "components", component, t] + rest;
    assert MatchesAt(path, t, |root|);
    assert t in IgnoredThemes(themes, active);
  }
}
