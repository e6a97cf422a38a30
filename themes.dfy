/** Which permuted themes the build keeps, and which token sets are themeable
    (packages/styles/src/lib/transform/index.js, `run`).

    The permuted themes arrive as an insertion-ordered object from theme name
    to the list of token-set names the theme enables. A name is read in lower
    case and split at its first `-` into a brand part and a mode part; only the
    four brand/mode pairs of the design system survive, under their own name
    (`kajabi_products-*`) or under `pine-<mode>` (the `<mode>-<mode>` names the
    permutation produces for the pine group). */
module Themes {
  import opened Wrappers
  import opened Strings
  import opened Collections

  /** Theme name to enabled token sets, in insertion order. */
  type ThemeSets = Dict<string, seq<string>>

  /** `validModes.includes(part)` */
  predicate IsMode(part: string) {
    part == "light" || part == "dark"
  }

  /** `themeName.toLowerCase().split('-')[0]` */
  function NameHead(themeName: string): string {
    Split(Lower(themeName), '-')[0]
  }

  /** `themeName.toLowerCase().split('-').slice(1).join('-')` */
  function NameTail(themeName: string): string {
    Join(Split(Lower(themeName), '-')[1..], "-")
  }

  /** The key a permuted theme is kept under, or `None` when it is dropped. */
  function ThemeKey(themeName: string): Option<string> {
    var first, second := NameHead(themeName), NameTail(themeName);
    if first == "kajabi_products" && IsMode(second) then Some(themeName)
    else if IsMode(first) && IsMode(second) then
      if first == second then Some("pine-" + first) else None
    else None
  }

  // ---------------------------------------------------------------------------
  // Reading a name

  /** A lower-cased name that is `a-b` with no hyphen in either part has head
      `a` and tail `b`. */
  lemma HeadTailOf(themeName: string, a: string, b: string)
    requires Lower(themeName) == a + "-" + b
    requires '-' !in a && '-' !in b
    ensures NameHead(themeName) == a && NameTail(themeName) == b
  {
    SplitAtSeparator(a, b, '-');
    SplitNoSeparator(b, '-');
    assert Split(Lower(themeName), '-') == [a, b];
  }

  /** The head, a hyphen and the tail give the lower-cased name back, unless
      the name has no hyphen, in which case the tail is empty. */
  lemma HeadAndTail(themeName: string)
    ensures '-' !in NameHead(themeName)
    ensures '-' in Lower(themeName) ==> Lower(themeName) == NameHead(themeName) + "-" + NameTail(themeName)
    ensures '-' !in Lower(themeName) ==> NameTail(themeName) == "" && NameHead(themeName) == Lower(themeName)
  {
    var lower := Lower(themeName);
    var parts := Split(lower, '-');
    assert parts[0] in parts;
    if |parts| >= 2 {
      SplitHeadAndRest(lower, '-');
      assert "-" == ['-'];
    } else {
      SplitJoinRoundTrip(lower, '-');
      assert parts == [parts[0]];
      assert lower == parts[0];
    }
    if '-' !in lower {
      SplitNoSeparator(lower, '-');
    }
  }

  /** The four lower-case names the filter keeps. */
  const KajabiLight := "kajabi_products" + "-" + "light"
  const KajabiDark := "kajabi_products" + "-" + "dark"
  const LightLight := "light" + "-" + "light"
  const DarkDark := "dark" + "-" + "dark"

  // A kept name is one of the four.
  lemma KeptNameShape(themeName: string)
    requires ThemeKey(themeName).Some?
    ensures var lower := Lower(themeName);
      lower == KajabiLight || lower == KajabiDark || lower == LightLight || lower == DarkDark
  {
    HeadAndTail(themeName);
  }

  /** Exactly four names (in any letter case) are kept: the two
      `kajabi_products` modes under their own name, and `light-light` and
      `dark-dark` as `pine-light` and `pine-dark`. Everything else, such as
      `light-dark` or `pine-light` itself, is dropped. */
  lemma ThemeKeyCases(themeName: string)
    ensures ThemeKey(themeName) ==
      if Lower(themeName) == KajabiLight || Lower(themeName) == KajabiDark then Some(themeName)
      else if Lower(themeName) == LightLight then Some("pine-light")
      else if Lower(themeName) == DarkDark then Some("pine-dark")
      else None
  {
    var lower := Lower(themeName);
    if lower == KajabiLight {
      HeadTailOf(themeName, "kajabi_products", "light");
    } else if lower == KajabiDark {
      HeadTailOf(themeName, "kajabi_products", "dark");
    } else if lower == LightLight {
      HeadTailOf(themeName, "light", "light");
      assert "pine-" + "light" == "pine-light";
    } else if lower == DarkDark {
      HeadTailOf(themeName, "dark", "dark");
      assert "pine-" + "dark" == "pine-dark";
    } else if ThemeKey(themeName).Some? {
      KeptNameShape(themeName);
    }
  }

  // ---------------------------------------------------------------------------
  // Filtering the permuted themes

  /** The kept themes after the entries of `allThemes` have been visited in
      order: a kept entry is written under its key (a later entry with the
      same key overwrites the value in place). */
  function KeptThemes(allThemes: ThemeSets): ThemeSets
    decreases |allThemes|
  {
    if allThemes == [] then []
    else
      var rest := KeptThemes(allThemes[..|allThemes| - 1]);
      var (themeName, tokensets) := allThemes[|allThemes| - 1];
      match ThemeKey(themeName)
      case None => rest
      case Some(key) => Put(rest, key, tokensets)
  }

  /** The theme filter: one pass over the permuted themes, writing the kept
      ones into `themes`. */
  method FilterThemes(allThemes: ThemeSets) returns (themes: ThemeSets)
    ensures themes == KeptThemes(allThemes)
  {
    themes := [];
    for i := 0 to |allThemes|
      invariant themes == KeptThemes(allThemes[..i])
    {
      var (themeName, tokensets) := allThemes[i];
      var themeParts := Split(Lower(themeName), '-');
      var firstPart := themeParts[0];
      var secondPart := Join(themeParts[1..], "-");
      if firstPart == "kajabi_products" && IsMode(secondPart) {
        themes := Put(themes, themeName, tokensets);
      } else if IsMode(firstPart) && IsMode(secondPart) {
        if firstPart == secondPart {
          themes := Put(themes, "pine-" + firstPart, tokensets);
        }
      }
      assert allThemes[..i + 1][..i] == allThemes[..i];
    }
    assert allThemes[..|allThemes|] == allThemes;
  }

  /** The value of the last entry kept under `key`. */
  function LastKept(allThemes: ThemeSets, key: string): Option<seq<string>>
    decreases |allThemes|
  {
    if allThemes == [] then None
    else if ThemeKey(allThemes[|allThemes| - 1].0) == Some(key) then Some(allThemes[|allThemes| - 1].1)
    else LastKept(allThemes[..|allThemes| - 1], key)
  }

  /** A kept theme holds the token sets of the last permuted theme that maps to
      its key; a key no permuted theme maps to is absent. */
  lemma {:induction false} KeptThemeIsLastWriter(allThemes: ThemeSets, key: string)
    ensures Get(KeptThemes(allThemes), key) == LastKept(allThemes, key)
    decreases |allThemes|
  {
    if allThemes != [] {
      KeptThemeIsLastWriter(allThemes[..|allThemes| - 1], key);
    }
  }

  /** Every kept key was produced by some permuted theme. */
  lemma {:induction false} LastKeptFrom(allThemes: ThemeSets, key: string)
    requires LastKept(allThemes, key).Some?
    ensures exists i :: 0 <= i < |allThemes| && ThemeKey(allThemes[i].0) == Some(key)
    decreases |allThemes|
  {
    var n := |allThemes|;
    if ThemeKey(allThemes[n - 1].0) != Some(key) {
      LastKeptFrom(allThemes[..n - 1], key);
      var i :| 0 <= i < n - 1 && ThemeKey(allThemes[..n - 1][i].0) == Some(key);
      assert allThemes[..n - 1][i] == allThemes[i];
    }
  }

  /** The kept themes have distinct keys, and each key is `pine-light`,
      `pine-dark`, or a `kajabi_products` name with a valid mode. */
  lemma KeptKeys(allThemes: ThemeSets)
    ensures DistinctKeys(KeptThemes(allThemes))
    ensures forall k :: k in KeysOf(KeptThemes(allThemes)) ==>
              k == "pine-light" || k == "pine-dark"
              || Lower(k) == KajabiLight || Lower(k) == KajabiDark
  {
    KeptDistinct(allThemes);
    forall k | k in KeysOf(KeptThemes(allThemes))
      ensures k == "pine-light" || k == "pine-dark"
              || Lower(k) == KajabiLight || Lower(k) == KajabiDark
    {
      GetSomeIffKey(KeptThemes(allThemes), k);
      KeptThemeIsLastWriter(allThemes, k);
      LastKeptFrom(allThemes, k);
      var i :| 0 <= i < |allThemes| && ThemeKey(allThemes[i].0) == Some(k);
      ThemeKeyCases(allThemes[i].0);
    }
  }

  lemma {:induction false} KeptDistinct(allThemes: ThemeSets)
    ensures DistinctKeys(KeptThemes(allThemes))
    decreases |allThemes|
  {
    if allThemes != [] {
      var rest := allThemes[..|allThemes| - 1];
      KeptDistinct(rest);
      var (themeName, tokensets) := allThemes[|allThemes| - 1];
      if ThemeKey(themeName).Some? {
        PutKeepsDistinct(KeptThemes(rest), ThemeKey(themeName).value, tokensets);
      }
    }
  }

  // ---------------------------------------------------------------------------
  // The theme-group map

  /** One entry of the `$themes` file, as far as the group map reads it. */
  datatype ThemeDef = ThemeDef(id: string, group: Option<string>)

  /** `theme.group` is truthy. */
  predicate HasGroup(def: ThemeDef) {
    def.group.Some? && def.group.value != ""
  }

  function GroupsOf(defs: seq<ThemeDef>): Dict<string, string>
    decreases |defs|
  {
    if defs == [] then []
    else
      var rest := GroupsOf(defs[..|defs| - 1]);
      var def := defs[|defs| - 1];
      if HasGroup(def) then Put(rest, def.id, def.group.value) else rest
  }

  /** `themeGroups[theme.id] = theme.group` for every theme with a group. */
  method ThemeGroups(defs: seq<ThemeDef>) returns (themeGroups: Dict<string, string>)
    ensures themeGroups == GroupsOf(defs)
  {
    themeGroups := [];
    for i := 0 to |defs|
      invariant themeGroups == GroupsOf(defs[..i])
    {
      var theme := defs[i];
      if theme.group.Some? && theme.group.value != "" {
        themeGroups := Put(themeGroups, theme.id, theme.group.value);
      }
      assert defs[..i + 1][..i] == defs[..i];
    }
    assert defs[..|defs|] == defs;
  }

  /** Every stored group is a non-empty group some theme with that id declares,
      and the last theme declaring a group has its group stored. */
  lemma {:induction false} GroupsComeFromThemes(defs: seq<ThemeDef>)
    ensures forall e :: e in GroupsOf(defs) ==>
              e.1 != "" && exists i :: 0 <= i < |defs| && defs[i].id == e.0 && defs[i].group == Some(e.1)
    ensures defs != [] && HasGroup(defs[|defs| - 1]) ==>
              Get(GroupsOf(defs), defs[|defs| - 1].id) == defs[|defs| - 1].group
    decreases |defs|
  {
    if defs != [] {
      var prefix := defs[..|defs| - 1];
      GroupsComeFromThemes(prefix);
      var def := defs[|defs| - 1];
      if HasGroup(def) {
        PutEntries(GroupsOf(prefix), def.id, def.group.value);
      }
      forall e | e in GroupsOf(defs)
        ensures e.1 != "" && exists i :: 0 <= i < |defs| && defs[i].id == e.0 && defs[i].group == Some(e.1)
      {
        if e in GroupsOf(prefix) {
          var i :| 0 <= i < |prefix| && prefix[i].id == e.0 && prefix[i].group == Some(e.1);
          assert defs[i] == prefix[i];
        } else {
          assert defs[|defs| - 1].id == e.0;
        }
      }
    }
  }

  /** For every id, the group stored is that of the last theme with that id
      that declares a group: later writes overwrite earlier ones. */
  lemma {:induction false} LastGroupWins(defs: seq<ThemeDef>, i: nat)
    requires i < |defs| && HasGroup(defs[i])
    requires forall j :: i < j < |defs| && defs[j].id == defs[i].id ==> !HasGroup(defs[j])
    ensures Get(GroupsOf(defs), defs[i].id) == defs[i].group
    decreases |defs|
  {
    var prefix := defs[..|defs| - 1];
    var def := defs[|defs| - 1];
    if i < |defs| - 1 {
      assert prefix[i] == defs[i];
      forall j | i < j < |prefix| && prefix[j].id == prefix[i].id
        ensures !HasGroup(prefix[j])
      {
        assert prefix[j] == defs[j];
      }
      LastGroupWins(prefix, i);
    }
  }

  // ---------------------------------------------------------------------------
  // Token sets and themeable sets

  function Values(themes: ThemeSets): (vs: seq<seq<string>>)
    ensures |vs| == |themes|
    ensures forall i :: 0 <= i < |themes| ==> vs[i] == themes[i].1
  {
    seq(|themes|, i requires 0 <= i < |themes| => themes[i].1)
  }

  /** `tokenSets`: every set some kept theme enables, once each, in order of
      first appearance. */
  function TokenSets(themes: ThemeSets): (r: seq<string>)
    ensures Distinct(r)
    ensures forall s :: s in r <==> exists i :: 0 <= i < |themes| && s in themes[i].1
  {
    Dedup(Flatten(Values(themes)))
  }

  /** `Object.values(themes).every(sets => sets.includes(set))` */
  predicate InEveryTheme(themes: ThemeSets, tokenSet: string) {
    forall i :: 0 <= i < |themes| ==> tokenSet in themes[i].1
  }

  /** `themeableSets`: the token sets that some kept theme leaves out. */
  function ThemeableSets(themes: ThemeSets): (r: seq<string>)
    ensures Distinct(r)
    ensures forall s :: s in r <==>
              (exists i :: 0 <= i < |themes| && s in themes[i].1) && (exists j :: 0 <= j < |themes| && s !in themes[j].1)
  {
    var r := Filter(TokenSets(themes), tokenSet => !InEveryTheme(themes, tokenSet));
    FilterKeepsDistinct(TokenSets(themes), tokenSet => !InEveryTheme(themes, tokenSet));
    r
  }

  /** With a single kept theme no set is themeable. */
  lemma SingleThemeNothingThemeable(themes: ThemeSets)
    requires |themes| == 1
    ensures ThemeableSets(themes) == []
  {
    FilterNone(TokenSets(themes), tokenSet => !InEveryTheme(themes, tokenSet));
  }

  /** A set every kept theme enables is never themeable. */
  lemma SharedSetNotThemeable(themes: ThemeSets, tokenSet: string)
    requires InEveryTheme(themes, tokenSet)
    ensures tokenSet !in ThemeableSets(themes)
  {
  }

  lemma {:induction false} FlattenCons<T(!new)>(x: seq<T>, ys: seq<seq<T>>)
    ensures Flatten([x] + ys) == x + Flatten(ys)
    decreases |ys|
  {
    if ys != [] {
      var last := ys[|ys| - 1];
      assert ([x] + ys)[..|ys|] == [x] + ys[..|ys| - 1];
      FlattenCons(x, ys[..|ys| - 1]);
    } else {
      assert Flatten([x]) == Flatten([]) + x;
    }
  }

  /** The first kept theme's sets lead `tokenSets`, in that theme's order. */
  lemma FirstThemeLeads(themes: ThemeSets)
    requires |themes| > 0
    ensures Dedup(themes[0].1) <= TokenSets(themes)
  {
    var vs := Values(themes);
    assert vs == [vs[0]] + vs[1..];
    FlattenCons(vs[0], vs[1..]);
    DedupPrefix(vs[0], Flatten(vs[1..]));
  }
}
