/** The per-theme build targets (packages/styles/src/lib/transform/index.js,
    `themeConfigs` and the `attribute/themeable` transform).

    Each kept theme becomes one output file: its name gives a brand and a mode,
    the brand and mode give the destination, the theme's token sets give the
    source files, and a filter decides which tokens of those files the output
    holds. Separately, every token is marked themeable when the set its file
    belongs to, or a set one of its references comes from, is themeable. */
module ThemeTargets {
  import opened Wrappers
  import opened Strings
  import opened Collections
  import opened Themes

  // ---------------------------------------------------------------------------
  // Brand, mode and destination

  /** `themeParts[0]` */
  function BrandOf(theme: string): string {
    NameHead(theme)
  }

  /** `themeParts.slice(1).join('-') || null` */
  function ModeOf(theme: string): (mode: Option<string>)
    ensures mode.Some? ==> mode.value != ""
  {
    if NameTail(theme) == "" then None else Some(NameTail(theme))
  }

  /** A mode as a template literal prints it: a missing mode is `null`. */
  function ModeText(mode: Option<string>): string {
    match mode
    case None => "null"
    case Some(m) => m
  }

  /** `fileDestination` */
  function Destination(theme: string): (dest: string)
    ensures |dest| > 5 && dest[|dest| - 5..] == ".scss"
  {
    var brand := BrandOf(theme);
    if brand == "kajabi_products" || brand == "pine" then brand + "/" + ModeText(ModeOf(theme)) + ".scss"
    else theme + "/" + theme + ".scss"
  }

  /** The four files a kept theme can be written to. */
  predicate IsThemeFile(destination: string) {
    destination == "kajabi_products" + "/" + "light" + ".scss"
    || destination == "kajabi_products" + "/" + "dark" + ".scss"
    || destination == "pine" + "/" + "light" + ".scss"
    || destination == "pine" + "/" + "dark" + ".scss"
  }

  // A name whose lower-case form is `brand-mode` (hyphen-free parts) is
  // written to `brand/mode.scss` when the brand is one of the two.
  lemma DestinationOfName(theme: string, brand: string, mode: string)
    requires Lower(theme) == brand + "-" + mode
    requires '-' !in brand && '-' !in mode && mode != ""
    requires brand == "kajabi_products" || brand == "pine"
    ensures BrandOf(theme) == brand && ModeOf(theme) == Some(mode)
    ensures Destination(theme) == brand + "/" + mode + ".scss"
  {
    HeadTailOf(theme, brand, mode);
  }

  /** Every kept theme has a mode and is written to one of the four brand/mode
      files; none falls back to the `<theme>/<theme>.scss` form. */
  lemma KeptThemeDestinations(allThemes: ThemeSets)
    ensures forall key :: key in KeysOf(KeptThemes(allThemes)) ==>
              ModeOf(key).Some? && IsThemeFile(Destination(key))
  {
    KeptKeys(allThemes);
    forall key | key in KeysOf(KeptThemes(allThemes))
      ensures ModeOf(key).Some? && IsThemeFile(Destination(key))
    {
      if key == "pine-light" {
        assert Lower(key) == "pine" + "-" + "light";
        DestinationOfName(key, "pine", "light");
      } else if key == "pine-dark" {
        assert Lower(key) == "pine" + "-" + "dark";
        DestinationOfName(key, "pine", "dark");
      } else if Lower(key) == KajabiLight {
        DestinationOfName(key, "kajabi_products", "light");
      } else {
        DestinationOfName(key, "kajabi_products", "dark");
      }
    }
  }

  // ---------------------------------------------------------------------------
  // Source files

  /** `${basePath}/${set}.json` */
  function SetFile(basePath: string, tokenSet: string): string {
    basePath + "/" + tokenSet + ".json"
  }

  /** The core and semantic files every theme reads for reference resolution. */
  function BaseSources(basePath: string): seq<string> {
    [basePath + "/core/light.json", basePath + "/core/dark.json",
     basePath + "/semantic/light.json", basePath + "/semantic/dark.json"]
  }

  /** A set naming the brand, outside core and semantic. */
  predicate BrandSet(tokenSet: string, brand: string) {
    Contains(tokenSet, brand) && !Contains(tokenSet, "core/") && !Contains(tokenSet, "semantic/")
  }

  /** A component set for the theme's mode. */
  predicate ComponentSet(tokenSet: string, mode: Option<string>) {
    Contains(tokenSet, "components/") && mode.Some? && mode.value != "" && Contains(tokenSet, "/" + mode.value)
  }

  /** The files pushed for `tokenSets`, in order; a set meeting both tests is
      pushed twice. */
  function PushedFiles(basePath: string, brand: string, mode: Option<string>, tokenSets: seq<string>): seq<string>
    decreases |tokenSets|
  {
    if tokenSets == [] then []
    else
      var tokenSet := tokenSets[|tokenSets| - 1];
      var file := SetFile(basePath, tokenSet);
      PushedFiles(basePath, brand, mode, tokenSets[..|tokenSets| - 1])
        + (if BrandSet(tokenSet, brand) then [file] else [])
        + (if ComponentSet(tokenSet, mode) then [file] else [])
  }

  /** `sourceFiles` */
  method SourceFiles(basePath: string, brand: string, mode: Option<string>, tokenSets: seq<string>)
    returns (sourceFiles: seq<string>)
    ensures sourceFiles == BaseSources(basePath) + PushedFiles(basePath, brand, mode, tokenSets)
  {
    sourceFiles := [];
    sourceFiles := sourceFiles + [basePath + "/core/light.json"];
    sourceFiles := sourceFiles + [basePath + "/core/dark.json"];
    sourceFiles := sourceFiles + [basePath + "/semantic/light.json"];
    sourceFiles := sourceFiles + [basePath + "/semantic/dark.json"];
    for i := 0 to |tokenSets|
      invariant sourceFiles == BaseSources(basePath) + PushedFiles(basePath, brand, mode, tokenSets[..i])
    {
      var tokenSet := tokenSets[i];
      var before := sourceFiles;
      if Contains(tokenSet, brand) && !Contains(tokenSet, "core/") && !Contains(tokenSet, "semantic/") {
        sourceFiles := sourceFiles + [basePath + "/" + tokenSet + ".json"];
      }
      if Contains(tokenSet, "components/") && mode.Some? && mode.value != "" && Contains(tokenSet, "/" + mode.value) {
        sourceFiles := sourceFiles + [basePath + "/" + tokenSet + ".json"];
      }
      assert sourceFiles == before
        + (if BrandSet(tokenSet, brand) then [SetFile(basePath, tokenSet)] else [])
        + (if ComponentSet(tokenSet, mode) then [SetFile(basePath, tokenSet)] else []);
      PushedFilesStep(basePath, brand, mode, tokenSets, i, before);
    }
    assert tokenSets[..|tokenSets|] == tokenSets;
  }

  lemma PushedFilesStep(basePath: string, brand: string, mode: Option<string>, tokenSets: seq<string>, i: nat,
                        before: seq<string>)
    requires i < |tokenSets| && before == BaseSources(basePath) + PushedFiles(basePath, brand, mode, tokenSets[..i])
    ensures var file := SetFile(basePath, tokenSets[i]);
      before + (if BrandSet(tokenSets[i], brand) then [file] else []) + (if ComponentSet(tokenSets[i], mode) then [file] else [])
      == BaseSources(basePath) + PushedFiles(basePath, brand, mode, tokenSets[..i + 1])
  {
    assert tokenSets[..i + 1][..i] == tokenSets[..i];
  }

  /** A pushed file is the file of one of the theme's sets that names the brand
      outside core and semantic, or is a component set for the mode; and every
      such set's file is pushed. */
  lemma {:induction false} PushedFilesMembers(basePath: string, brand: string, mode: Option<string>, tokenSets: seq<string>)
    ensures forall f :: f in PushedFiles(basePath, brand, mode, tokenSets) <==>
              exists s :: s in tokenSets && (BrandSet(s, brand) || ComponentSet(s, mode)) && f == SetFile(basePath, s)
    decreases |tokenSets|
  {
    if tokenSets != [] {
      var prefix := tokenSets[..|tokenSets| - 1];
      var last := tokenSets[|tokenSets| - 1];
      PushedFilesMembers(basePath, brand, mode, prefix);
      assert tokenSets == prefix + [last];
      forall f | (exists s :: s in tokenSets && (BrandSet(s, brand) || ComponentSet(s, mode)) && f == SetFile(basePath, s))
        ensures f in PushedFiles(basePath, brand, mode, tokenSets)
      {
        var s :| s in tokenSets && (BrandSet(s, brand) || ComponentSet(s, mode)) && f == SetFile(basePath, s);
        if s != last {
          assert s in prefix;
        }
      }
    }
  }

  /** A component set whose name also holds the brand is read twice. */
  lemma PushedTwice(basePath: string, brand: string, mode: Option<string>, tokenSet: string)
    requires BrandSet(tokenSet, brand) && ComponentSet(tokenSet, mode)
    ensures PushedFiles(basePath, brand, mode, [tokenSet]) == [SetFile(basePath, tokenSet), SetFile(basePath, tokenSet)]
  {
    assert [tokenSet][..0] == [];
  }

  // ---------------------------------------------------------------------------
  // The theme file's token filter

  /** The set a theme filter reads off a file path: the base directory and its
      slash, then a `.json` extension, are removed. */
  function ThemeTokenSet(basePath: string, filePath: string): string {
    StripSuffix(StripPrefix(filePath, basePath + "/"), ".json")
  }

  /** The `filter` of a theme file, for a token with the given file path and
      `themeable` attribute. */
  predicate ThemeTokenFilter(filePath: Option<string>, themeable: bool, basePath: string,
                             brand: string, mode: Option<string>, tokenSets: seq<string>)
    ensures ThemeTokenFilter(filePath, themeable, basePath, brand, mode, tokenSets)
            ==> !Contains(filePath.GetOr(""), "core/") && !Contains(filePath.GetOr(""), "semantic/")
  {
    var fp := filePath.GetOr("");
    if Contains(fp, "core/") || Contains(fp, "semantic/") then false
    else if Contains(fp, brand + ".json")
         || (Contains(fp, brand + "/") && !Contains(fp, "/light") && !Contains(fp, "/dark")) then true
    else if mode.Some? && mode.value != "" && Contains(fp, "components/") && Contains(fp, "/" + mode.value) then true
    else if themeable then
      var tokenSet := ThemeTokenSet(basePath, fp);
      tokenSet in tokenSets && !Contains(tokenSet, "core/") && !Contains(tokenSet, "semantic/")
    else false
  }

  /** Core and semantic tokens never go to a theme file, whatever their flags. */
  lemma CoreAndSemanticRejected(filePath: string, themeable: bool, basePath: string,
                                brand: string, mode: Option<string>, tokenSets: seq<string>)
    requires Contains(filePath, "core/") || Contains(filePath, "semantic/")
    ensures !ThemeTokenFilter(Some(filePath), themeable, basePath, brand, mode, tokenSets)
  {
  }

  /** A token with no file path is kept only when it is themeable and the
      theme enables the empty set name. */
  lemma MissingFilePath(themeable: bool, basePath: string, brand: string, mode: Option<string>, tokenSets: seq<string>)
    ensures ThemeTokenFilter(None, themeable, basePath, brand, mode, tokenSets) <==> themeable && "" in tokenSets
  {
    EmptyContainsNothing(brand + ".json");
    EmptyContainsNothing(brand + "/");
    EmptyContainsNothing("components/");
    EmptyContainsNothing("core/");
    EmptyContainsNothing("semantic/");
    assert !(basePath + "/" <= "");
    assert ThemeTokenSet(basePath, "") == "";
  }

  // The set file's name is inside its path.
  lemma SetInFile(basePath: string, tokenSet: string)
    ensures Contains(SetFile(basePath, tokenSet), tokenSet)
  {
    var f := SetFile(basePath, tokenSet);
    assert f[|basePath| + 1..|basePath| + 1 + |tokenSet|] == tokenSet;
    ContainsFromOccurs(f, tokenSet, |basePath| + 1);
  }

  lemma StripPrefixOfAppend(p: string, x: string)
    ensures StripPrefix(p + x, p) == x
  {
    assert p <= p + x;
    assert (p + x)[|p|..] == x;
  }

  lemma StripSuffixOfAppend(x: string, t: string)
    ensures StripSuffix(x + t, t) == x
  {
    assert (x + t)[|x + t| - |t|..] == t;
    assert (x + t)[..|x + t| - |t|] == x;
  }

  /** The theme filter reads a set file back as its set. */
  lemma ThemeSetReadBack(basePath: string, tokenSet: string)
    ensures ThemeTokenSet(basePath, SetFile(basePath, tokenSet)) == tokenSet
  {
    assert SetFile(basePath, tokenSet) == (basePath + "/") + (tokenSet + ".json");
    StripPrefixOfAppend(basePath + "/", tokenSet + ".json");
    StripSuffixOfAppend(tokenSet, ".json");
  }

  lemma LooseJsonOfJson(x: string)
    ensures StripLooseJson(x + ".json") == x
  {
    var s := x + ".json";
    assert s[|s| - 4..] == "json";
    assert s[|s| - 5] == '.';
    assert s[..|s| - 5] == x;
  }

  lemma OneSlash(x: string)
    requires x == [] || x[0] != '/'
    ensures StripLeadingSlashes("/" + x) == x
  {
    assert ("/" + x)[1..] == x;
  }

  /** The themeable transform reads a set file back as its set too, when the
      set name does not itself start with a slash. */
  lemma EnabledSetReadBack(basePath: string, tokenSet: string)
    requires tokenSet == [] || tokenSet[0] != '/'
    ensures EnabledSetId(basePath, SetFile(basePath, tokenSet)) == tokenSet
  {
    assert SetFile(basePath, tokenSet) == basePath + ("/" + (tokenSet + ".json"));
    StripPrefixOfAppend(basePath, "/" + (tokenSet + ".json"));
    OneSlash(tokenSet + ".json");
    LooseJsonOfJson(tokenSet);
  }

  /** A themeable token read from the file of a set the theme enables is kept,
      as long as the path is outside core and semantic. */
  lemma ThemeableSetFileKept(basePath: string, tokenSet: string, brand: string, mode: Option<string>, tokenSets: seq<string>)
    requires tokenSet in tokenSets
    requires !Contains(SetFile(basePath, tokenSet), "core/") && !Contains(SetFile(basePath, tokenSet), "semantic/")
    ensures ThemeTokenFilter(Some(SetFile(basePath, tokenSet)), true, basePath, brand, mode, tokenSets)
  {
    ThemeSetReadBack(basePath, tokenSet);
    SetInFile(basePath, tokenSet);
    if Contains(tokenSet, "core/") {
      ContainsTransitive(SetFile(basePath, tokenSet), tokenSet, "core/");
    }
    if Contains(tokenSet, "semantic/") {
      ContainsTransitive(SetFile(basePath, tokenSet), tokenSet, "semantic/");
    }
  }

  // ---------------------------------------------------------------------------
  // The themeable transform

  /** `.replace(/^\/+/g, "")` */
  function StripLeadingSlashes(s: string): (r: string)
    ensures r <= s || (|r| <= |s| && s[|s| - |r|..] == r)
    ensures r == [] || r[0] != '/'
    ensures forall i :: 0 <= i < |s| - |r| ==> s[i] == '/'
    decreases |s|
  {
    if s != [] && s[0] == '/' then StripLeadingSlashes(s[1..]) else s
  }

  /** The characters `.` does not match in a regular expression. */
  predicate IsLineTerminator(c: char) {
    c == '\n' || c == '\r' || c == '\U{2028}' || c == '\U{2029}'
  }

  /** `.replace(/.json$/g, "")`: the dot is unescaped, so any character other
      than a line terminator before a final `json` goes with it. */
  function StripLooseJson(s: string): (r: string)
    ensures |r| == |s| || |r| == |s| - 5
    ensures r <= s
  {
    if |s| >= 5 && s[|s| - 4..] == "json" && !IsLineTerminator(s[|s| - 5]) then s[..|s| - 5] else s
  }

  /** A name without a final `json` after a non-line-terminator comes back unchanged. */
  lemma NoJsonKept(s: string)
    requires !(|s| >= 5 && s[|s| - 4..] == "json" && !IsLineTerminator(s[|s| - 5]))
    ensures StripLooseJson(s) == s
  {
  }

  /** The set `isPartOfEnabledSet` reads off a file path: the base directory,
      then every leading slash, then a final `.json` are removed. */
  function EnabledSetId(basePath: string, filePath: string): string {
    StripLooseJson(StripLeadingSlashes(StripPrefix(filePath, basePath)))
  }

  /** `isPartOfEnabledSet(token)`: a token without `filePath` makes the
      transform throw. */
  function IsPartOfEnabledSet(basePath: string, themeableSets: seq<string>, filePath: Option<string>): (r: Result<bool, string>)
    ensures r.Success? <==> filePath.Some?
    ensures r.Success? ==> (r.value <==> Enabled(basePath, themeableSets, filePath))
  {
    match filePath
    case None => Failure("TypeError")
    case Some(fp) => Success(EnabledSetId(basePath, fp) in themeableSets)
  }

  /** `xs.some(test)` with a callback that may throw: left to right, stopping
      at the first element that passes or that throws. */
  function AnyPasses<T>(xs: seq<T>, test: T -> Result<bool, string>): Result<bool, string>
    decreases |xs|
  {
    if xs == [] then Success(false)
    else match test(xs[0])
      case Failure(e) => Failure(e)
      case Success(true) => Success(true)
      case Success(false) => AnyPasses(xs[1..], test)
  }

  /** `xs[i]` passes and every element before it fails without throwing. */
  predicate FirstPassAt<T>(xs: seq<T>, test: T -> Result<bool, string>, i: int) {
    0 <= i < |xs| && test(xs[i]) == Success(true)
    && forall j :: 0 <= j < i ==> test(xs[j]) == Success(false)
  }

  lemma FirstPassShift<T>(xs: seq<T>, test: T -> Result<bool, string>, i: int)
    requires xs != [] && test(xs[0]) == Success(false)
    ensures FirstPassAt(xs, test, i + 1) <==> FirstPassAt(xs[1..], test, i)
  {
    if FirstPassAt(xs[1..], test, i) {
      forall j | 0 <= j < i + 1
        ensures test(xs[j]) == Success(false)
      {
        if j > 0 {
          assert xs[j] == xs[1..][j - 1];
        }
      }
    }
    if FirstPassAt(xs, test, i + 1) {
      forall j | 0 <= j < i
        ensures test(xs[1..][j]) == Success(false)
      {
        assert xs[1..][j] == xs[j + 1];
      }
    }
  }

  /** `some` answers true exactly when an element passes before any element
      throws; and it does not throw when no element does. */
  lemma {:induction false} SomeIff<T>(xs: seq<T>, test: T -> Result<bool, string>)
    ensures AnyPasses(xs, test) == Success(true) <==> exists i :: FirstPassAt(xs, test, i)
    ensures (forall j :: 0 <= j < |xs| ==> test(xs[j]).Success?) ==> AnyPasses(xs, test).Success?
    decreases |xs|
  {
    if xs != [] {
      SomeIff(xs[1..], test);
      if test(xs[0]) == Success(false) {
        if AnyPasses(xs, test) == Success(true) {
          var i :| FirstPassAt(xs[1..], test, i);
          FirstPassShift(xs, test, i);
        }
        if exists i :: FirstPassAt(xs, test, i) {
          var i :| FirstPassAt(xs, test, i);
          assert i != 0;
          FirstPassShift(xs, test, i - 1);
        }
        if forall j :: 0 <= j < |xs| ==> test(xs[j]).Success? {
          assert forall j :: 0 <= j < |xs| - 1 ==> xs[1..][j] == xs[j + 1];
        }
      } else if test(xs[0]) == Success(true) {
        assert FirstPassAt(xs, test, 0);
      }
    }
  }

  /** When no element throws, some element passing means a first one passes. */
  lemma FirstPass<T>(xs: seq<T>, test: T -> Result<bool, string>, k: int)
    requires forall j :: 0 <= j < |xs| ==> test(xs[j]).Success?
    requires 0 <= k < |xs| && test(xs[k]) == Success(true)
    ensures exists i :: FirstPassAt(xs, test, i)
  {
    var i := 0;
    while test(xs[i]) != Success(true)
      invariant 0 <= i <= k
      invariant forall j :: 0 <= j < i ==> test(xs[j]) == Success(false)
      decreases k - i
    {
      assert test(xs[i]).Success? && !test(xs[i]).value;
      i := i + 1;
    }
    assert FirstPassAt(xs, test, i);
  }

  /** `isPartOfEnabledSet` as the callback `some` receives. */
  function EnabledTest(basePath: string, themeableSets: seq<string>): Option<string> -> Result<bool, string> {
    ref => IsPartOfEnabledSet(basePath, themeableSets, ref)
  }

  /** The `attribute/themeable` transform: `Success(true)` is `{ themeable:
      true }`, `Success(false)` is no attribute. Whether the original value
      uses references, and the file paths of the tokens it references, are
      inputs. */
  function ThemeableAttribute(basePath: string, themeableSets: seq<string>, filePath: Option<string>,
                              usesReferences: bool, refs: seq<Option<string>>): (r: Result<bool, string>)
    ensures filePath.None? ==> r.Failure?
    ensures Enabled(basePath, themeableSets, filePath) ==> r == Success(true)
    ensures filePath.Some? && !usesReferences ==> r == Success(Enabled(basePath, themeableSets, filePath))
  {
    match IsPartOfEnabledSet(basePath, themeableSets, filePath)
    case Failure(e) => Failure(e)
    case Success(true) => Success(true)
    case Success(false) => if usesReferences then AnyPasses(refs, EnabledTest(basePath, themeableSets)) else Success(false)
  }

  /** The file path belongs to a themeable set. */
  predicate Enabled(basePath: string, themeableSets: seq<string>, ref: Option<string>) {
    ref.Some? && EnabledSetId(basePath, ref.value) in themeableSets
  }

  /** With every referenced token's file path known, the references make a
      token themeable exactly when one of them comes from a themeable set. */
  lemma ReferencesCase(basePath: string, themeableSets: seq<string>, refs: seq<Option<string>>)
    requires forall j :: 0 <= j < |refs| ==> refs[j].Some?
    ensures AnyPasses(refs, EnabledTest(basePath, themeableSets))
         == Success(exists j :: 0 <= j < |refs| && Enabled(basePath, themeableSets, refs[j]))
  {
    var test := EnabledTest(basePath, themeableSets);
    var passes := (ref: Option<string>) => Enabled(basePath, themeableSets, ref);
    forall j | 0 <= j < |refs|
      ensures test(refs[j]) == Success(passes(refs[j]))
    {
      EnabledDecided(basePath, themeableSets, refs[j]);
    }
    AllDecided(refs, test, passes);
  }

  /** A known file path makes `isPartOfEnabledSet` answer, without throwing,
      whether it belongs to a themeable set. */
  lemma EnabledDecided(basePath: string, themeableSets: seq<string>, ref: Option<string>)
    requires ref.Some?
    ensures EnabledTest(basePath, themeableSets)(ref) == Success(Enabled(basePath, themeableSets, ref))
  {
  }

  /** When no test throws, `some` answers whether some element passes. */
  lemma {:induction false} AllDecided<T>(xs: seq<T>, test: T -> Result<bool, string>, passes: T -> bool)
    requires forall j :: 0 <= j < |xs| ==> test(xs[j]) == Success(passes(xs[j]))
    ensures AnyPasses(xs, test) == Success(exists j :: 0 <= j < |xs| && passes(xs[j]))
    decreases |xs|
  {
    if xs != [] {
      assert forall j :: 0 <= j < |xs| - 1 ==> xs[1..][j] == xs[j + 1];
      AllDecided(xs[1..], test, passes);
      if !passes(xs[0]) {
        if exists j :: 0 <= j < |xs| && passes(xs[j]) {
          var j :| 0 <= j < |xs| && passes(xs[j]);
          assert xs[1..][j - 1] == xs[j];
        }
      }
    }
  }

  /** A token is marked themeable when its own set is themeable or, if its
      value uses references, when one of the referenced tokens' sets is; a
      token without a file path makes the transform throw. */
  lemma ThemeableAttributeCases(basePath: string, themeableSets: seq<string>, filePath: Option<string>,
                                usesReferences: bool, refs: seq<Option<string>>)
    ensures filePath.None? ==> ThemeableAttribute(basePath, themeableSets, filePath, usesReferences, refs).Failure?
    ensures filePath.Some? && (forall j :: 0 <= j < |refs| ==> refs[j].Some?) ==>
              ThemeableAttribute(basePath, themeableSets, filePath, usesReferences, refs)
              == Success(Enabled(basePath, themeableSets, filePath)
                         || (usesReferences && exists j :: 0 <= j < |refs| && Enabled(basePath, themeableSets, refs[j])))
  {
    if filePath.Some? && (forall j :: 0 <= j < |refs| ==> refs[j].Some?) {
      ReferencesCase(basePath, themeableSets, refs);
    }
  }

  /** A set every kept theme enables is not themeable, so a token read from
      that set's file is not marked themeable through its own path. */
  lemma SharedSetFileNotThemeable(themes: ThemeSets, basePath: string, tokenSet: string)
    requires InEveryTheme(themes, tokenSet)
    requires tokenSet == [] || tokenSet[0] != '/'
    ensures IsPartOfEnabledSet(basePath, ThemeableSets(themes), Some(SetFile(basePath, tokenSet))) == Success(false)
  {
    EnabledSetReadBack(basePath, tokenSet);
    SharedSetNotThemeable(themes, tokenSet);
  }

  /** Because of the unescaped dot, any character other than a line terminator
      in front of a final `json` is removed with it: the path of a set `s`
      followed by `xjson` reads as `s`, just as `s.json` does. */
  lemma LooseExtension(basePath: string, tokenSet: string, c: char)
    requires tokenSet != [] && tokenSet[0] != '/'
    requires !IsLineTerminator(c)
    ensures EnabledSetId(basePath, basePath + "/" + tokenSet + [c] + "json") == tokenSet
  {
    var tail := tokenSet + [c] + "json";
    assert basePath + "/" + tokenSet + [c] + "json" == basePath + ("/" + tail);
    assert tail[0] == tokenSet[0];
    SlashTailKept(basePath, tail);
    LooseJsonStripped(tokenSet, c);
  }

  lemma SlashTailKept(basePath: string, tail: string)
    requires tail != [] && tail[0] != '/'
    ensures StripLeadingSlashes(StripPrefix(basePath + ("/" + tail), basePath)) == tail
  {
    assert StripPrefix(basePath + ("/" + tail), basePath) == "/" + tail;
    assert ("/" + tail)[1..] == tail;
  }

  lemma LooseJsonStripped(tokenSet: string, c: char)
    requires !IsLineTerminator(c)
    ensures StripLooseJson(tokenSet + [c] + "json") == tokenSet
  {
    var t := tokenSet + [c] + "json";
    assert t[|t| - 4..] == "json";
    assert t[|t| - 5] == c;
    assert t[..|t| - 5] == tokenSet;
  }
}
