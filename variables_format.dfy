/** The `css/variables-with-dark-mode` format registered by the token build
    (packages/styles/src/lib/transform/index.js): it names each token's CSS
    custom property after its path, writes references to other tokens as
    `var(...)`, splits the tokens into a light group (rendered into `:root`)
    and a dark group (rendered twice: inside `@media (prefers-color-scheme: dark)`
    and under `[data-theme="dark"]`), and prefixes an auto-generated header when
    it renders a single mode. */
module VariablesFormat {
  import opened Wrappers
  import opened Strings
  import opened Collections
  import opened Tokens

  // ---------------------------------------------------------------------------
  // Variable names

  /** The characters `[a-zA-Z0-9-]` a CSS variable name keeps. */
  predicate IsNameChar(c: char) {
    'a' <= c <= 'z' || 'A' <= c <= 'Z' || '0' <= c <= '9' || c == '-'
  }

  /** A name `sanitizeName` leaves alone: only name characters, no hyphen runs,
      no hyphen at either end. */
  predicate IsCleanName(s: string) {
    && (forall i :: 0 <= i < |s| ==> IsNameChar(s[i]))
    && NoDoubleHyphen(s)
    && (|s| > 0 ==> s[0] != '-' && s[|s| - 1] != '-')
  }

  /** `name.replace(/[^a-zA-Z0-9-]/g, '-')` */
  function ReplaceInvalid(name: string): (r: string)
    ensures |r| == |name|
    ensures forall i :: 0 <= i < |name| ==> r[i] == if IsNameChar(name[i]) then name[i] else '-'
  {
    seq(|name|, i requires 0 <= i < |name| => if IsNameChar(name[i]) then name[i] else '-')
  }

  /** `.replace(/^-|-$/g, '')`: one leading and one trailing hyphen go. */
  function TrimHyphenEnds(s: string): string {
    DropTrailingHyphen(if |s| > 0 && s[0] == '-' then s[1..] else s)
  }

  /** Dropping the end hyphens of a name without hyphen runs leaves a clean
      name; a clean name has no end hyphens to drop. */
  lemma TrimHyphenEndsCleans(s: string)
    requires forall c :: c in s ==> IsNameChar(c)
    requires NoDoubleHyphen(s)
    ensures IsCleanName(TrimHyphenEnds(s))
    ensures IsCleanName(s) ==> TrimHyphenEnds(s) == s
  {
    var t := if |s| > 0 && s[0] == '-' then s[1..] else s;
    assert forall i :: 0 <= i < |t| ==> t[i] in s;
    assert NoDoubleHyphen(t);
    if |s| > 1 && s[0] == '-' {
      assert t[0] == s[1];
    }
    assert |t| > 0 ==> t[0] != '-';
    if |t| > 1 && t[|t| - 1] == '-' {
      assert t[|t| - 2] != '-';
    }
  }

  lemma ReplaceInvalidKeepsClean(name: string)
    requires IsCleanName(name)
    ensures ReplaceInvalid(name) == name
  {
  }

  /** `sanitizeName`: the result is always a clean name, and a clean name is
      left unchanged (so sanitizing twice is sanitizing once). */
  function SanitizeName(name: string): (r: string)
    ensures IsCleanName(r)
    ensures IsCleanName(name) ==> r == name
  {
    var replaced := ReplaceInvalid(name);
    var collapsed := CollapseHyphens(replaced);
    assert forall c :: c in replaced ==> IsNameChar(c);
    TrimHyphenEndsCleans(collapsed);
    if IsCleanName(name) then ReplaceInvalidKeepsClean(name); TrimHyphenEnds(collapsed)
    else TrimHyphenEnds(collapsed)
  }

  lemma SanitizeNameIdempotent(name: string)
    ensures SanitizeName(SanitizeName(name)) == SanitizeName(name)
  {
  }

  // ---------------------------------------------------------------------------
  // What a sanitized name holds

  /** The non-empty hyphen-separated words of `s`, in order. */
  function Words(s: string): seq<string> {
    Filter(Split(s, '-'), NonEmpty)
  }

  predicate NonEmpty(w: string) {
    w != ""
  }

  /** Collapsing the hyphen runs and dropping one hyphen at each end: the
      last two steps of `sanitizeName`. */
  function Tidy(s: string): string {
    TrimHyphenEnds(CollapseHyphens(s))
  }

  /** `sanitizeName` keeps exactly the words made of `[A-Za-z0-9]` that its
      first step leaves, in order, joined by single hyphens: `@-text` becomes
      `text`, `a.b--c` becomes `a-b-c`. */
  lemma SanitizeNameWords(name: string)
    ensures SanitizeName(name) == Join(Words(ReplaceInvalid(name)), "-")
  {
    TidyIsWords(ReplaceInvalid(name));
  }

  /** `@-text` is named `text`: the `@` becomes a hyphen and the hyphen run it
      starts is dropped. */
  lemma AtText()
    ensures SanitizeName("@-text") == "text"
  {
    assert IsCleanName("text");
    AtPrefixDropped("text");
    assert "@-" + "text" == "@-text";
  }

  /** An `@-` in front of a clean name leaves no trace. */
  lemma AtPrefixDropped(w: string)
    requires IsCleanName(w)
    ensures SanitizeName("@-" + w) == w
  {
    SanitizeIsTidy("@-" + w);
    AtPrefixReplaced(w);
    TidyHyphen("-" + w);
    TidyHyphen(w);
    TidyClean(w);
  }

  lemma AtPrefixReplaced(w: string)
    requires IsCleanName(w)
    ensures ReplaceInvalid("@-" + w) == "-" + ("-" + w)
  {
    var x := ReplaceInvalid("@-" + w);
    forall i | 0 <= i < |x| ensures x[i] == ("-" + ("-" + w))[i] {
      if i >= 2 {
        assert ("@-" + w)[i] == w[i - 2];
      }
    }
  }

  /** A clean name is its own tidy form. */
  lemma TidyClean(s: string)
    requires IsCleanName(s)
    ensures Tidy(s) == s
  {
    TrimHyphenEndsCleans(s);
  }

  lemma SanitizeIsTidy(name: string)
    ensures SanitizeName(name) == Tidy(ReplaceInvalid(name))
  {
  }

  lemma {:induction false} TidyIsWords(s: string)
    ensures Tidy(s) == Join(Words(s), "-")
    decreases |s|
  {
    if s != [] {
      var t := s[1..];
      assert s == [s[0]] + t;
      TidyIsWords(t);
      if s[0] == '-' {
        TidyHyphen(t);
        WordsHyphen(t);
      } else {
        TidyCons(s[0], t);
        WordsCons(s[0], t);
      }
    }
  }

  /** A leading hyphen changes nothing. */
  lemma TidyHyphen(t: string)
    ensures Tidy("-" + t) == Tidy(t)
  {
    var u := CollapseHyphens(t);
    assert ("-" + t)[1..] == t;
    if !(t != [] && t[0] == '-') {
      assert CollapseHyphens("-" + t) == "-" + u;
      assert ("-" + u)[1..] == u;
    }
  }

  /** A leading word character stays, followed by what the rest becomes
      (with a hyphen between them when the rest starts a new word). */
  lemma TidyCons(c: char, t: string)
    requires c != '-'
    ensures Tidy([c] + t) == [c] + (if t != [] && t[0] != '-' then Tidy(t)
                                    else if Tidy(t) == "" then "" else "-" + Tidy(t))
  {
    var u := CollapseHyphens(t);
    assert ([c] + t)[1..] == t;
    assert CollapseHyphens([c] + t) == [c] + u;
    DropAfterLetter(c, u);
    if t != [] && t[0] == '-' {
      DropAfterHyphen(u);
    }
  }

  lemma DropAfterLetter(c: char, u: string)
    requires c != '-'
    ensures TrimHyphenEnds([c] + u) == [c] + DropTrailingHyphen(u)
  {
    var cu := [c] + u;
    if u != [] && u[|u| - 1] == '-' {
      assert cu[..|cu| - 1] == [c] + u[..|u| - 1];
    }
  }

  /** A collapsed text that opens with a hyphen: dropping its last hyphen
      keeps the opening hyphen in front of its tidy form, unless nothing else is left. */
  lemma DropAfterHyphen(u: string)
    requires u != [] && u[0] == '-' && NoDoubleHyphen(u)
    ensures DropTrailingHyphen(u) == if TrimHyphenEnds(u) == "" then "" else "-" + TrimHyphenEnds(u)
  {
    var v := u[1..];
    assert u == "-" + v;
    if v != [] {
      assert v[0] != '-';
      assert u[..|u| - 1] == "-" + v[..|v| - 1];
      if v[|v| - 1] == '-' {
        assert |v| >= 2;
        assert v[..|v| - 1][0] == v[0];
      }
    }
  }


  lemma WordsHyphen(t: string)
    ensures Words("-" + t) == Words(t)
  {
    assert ("-" + t)[1..] == t;
    assert Split("-" + t, '-') == [[]] + Split(t, '-');
    FilterAppend([[]], Split(t, '-'), NonEmpty);
  }

  lemma WordsCons(c: char, t: string)
    requires c != '-'
    ensures Join(Words([c] + t), "-")
            == [c] + (if t != [] && t[0] != '-' then Join(Words(t), "-")
                      else if Join(Words(t), "-") == "" then "" else "-" + Join(Words(t), "-"))
  {
    var parts := Split(t, '-');
    var ws := Filter(parts[1..], NonEmpty);
    WordsSplitHead(c, t);
    WordsFirstPiece(t);
    JoinNonEmpty(ws);
    if t != [] && t[0] != '-' {
      JoinConsHead(c, parts[0], ws);
    } else {
      assert [c] + parts[0] == [c];
      assert Words(t) == ws;
      JoinAfterLetter(c, ws);
    }
  }

  /** A one-letter word followed by non-empty words. */
  lemma JoinAfterLetter(c: char, ws: seq<string>)
    requires forall w :: w in ws ==> w != ""
    ensures Join([[c]] + ws, "-") == [c] + (if Join(ws, "-") == "" then "" else "-" + Join(ws, "-"))
  {
    JoinNonEmpty(ws);
    if ws == [] {
      assert [[c]] + ws == [[c]];
    } else {
      assert ([[c]] + ws)[1..] == ws;
    }
  }

  /** The words of `[c] + t` and of `t`, in terms of the pieces of `t`. */
  lemma WordsSplitHead(c: char, t: string)
    requires c != '-'
    ensures var parts := Split(t, '-');
      && Words([c] + t) == [[c] + parts[0]] + Filter(parts[1..], NonEmpty)
      && Words(t) == (if parts[0] != "" then [parts[0]] else []) + Filter(parts[1..], NonEmpty)
  {
    var parts := Split(t, '-');
    SplitCons(c, t, '-');
    assert parts == [parts[0]] + parts[1..];
    FilterAppend([[c] + parts[0]], parts[1..], NonEmpty);
    FilterAppend([parts[0]], parts[1..], NonEmpty);
  }

  /** The first piece of `t` is empty exactly when `t` is empty or starts a new word. */
  lemma WordsFirstPiece(t: string)
    ensures (Split(t, '-')[0] == "") <==> (t == [] || t[0] == '-')
  {
  }

  /** Joining non-empty words gives the empty string only for no words. */
  lemma JoinNonEmpty(ws: seq<string>)
    requires forall w :: w in ws ==> w != ""
    ensures (Join(ws, "-") == "") <==> ws == []
  {
    if ws != [] {
      assert ws[0] in ws;
      if |ws| > 1 {
        assert Join(ws, "-") == ws[0] + "-" + Join(ws[1..], "-");
      }
    }
  }

  lemma JoinConsHead(c: char, p: string, ws: seq<string>)
    ensures Join([[c] + p] + ws, "-") == [c] + Join([p] + ws, "-")
  {
    assert ([[c] + p] + ws)[1..] == ws == ([p] + ws)[1..];
  }

  /** Trailing hyphens add nothing. */
  lemma {:induction false} TidyTrailingHyphens(x: string)
    ensures Tidy(x + "--") == Tidy(x)
    decreases |x|
  {
    if x == [] {
      TidyHyphen("-");
      TidyHyphen("");
      assert "" + "--" == "-" + "-";
    } else {
      var t := x[1..];
      assert x == [x[0]] + t;
      assert x + "--" == [x[0]] + (t + "--");
      TidyTrailingHyphens(t);
      if x[0] == '-' {
        TidyHyphen(t + "--");
        TidyHyphen(t);
      } else {
        TidyCons(x[0], t + "--");
        TidyCons(x[0], t);
        if t == [] {
          TidyTrailingHyphens([]);
        }
      }
    }
  }

  /** A final `@` path segment (a group's default value) leaves no trace in
      the name: `color-text-@` is named like `color-text`, whatever the path. */
  lemma DefaultSegmentDropped(path: seq<string>)
    ensures SanitizeName(Join(path + ["@"], "-")) == SanitizeName(Join(path, "-"))
  {
    if path == [] {
      assert Join([] + ["@"], "-") == "@";
      assert ReplaceInvalid("@") == "-";
      TidyHyphen("");
    } else {
      var n := Join(path, "-");
      JoinSnoc(path, "@", "-");
      assert ReplaceInvalid(n + "-" + "@") == ReplaceInvalid(n) + "--";
      TidyTrailingHyphens(ReplaceInvalid(n));
    }
  }

  /** The variable name of a token: its sanitized, hyphen-joined path. */
  function DeclName(t: Token): string {
    SanitizeName(Join(t.path, "-"))
  }

  /** `--<prefix>-<name>` */
  function VarName(t: Token, prefix: string): string {
    "--" + prefix + "-" + DeclName(t)
  }

  // ---------------------------------------------------------------------------
  // Values

  /** `token.original?.value || token.value` */
  function OriginalOrValue(t: Token): Value {
    if t.originalValue.Some? && Truthy(t.originalValue.value) then t.originalValue.value else t.value
  }

  /** A string that starts with `{` and ends with `}` (one character cannot do both). */
  predicate IsReference(v: Value) {
    v.Str? && |v.s| >= 2 && v.s[0] == '{' && v.s[|v.s| - 1] == '}'
  }

  /** The text between the braces of a reference. */
  function ReferencePath(v: Value): string
    requires IsReference(v)
  {
    v.s[1..|v.s| - 1]
  }

  /** `formatTokenValue`: a reference `{a.b.c}` (read from the original value,
      falling back to the resolved one) becomes `var(--<prefix>-<name>)` with a
      clean name; anything else is the resolved value, unchanged. */
  function FormatTokenValue(t: Token, prefix: string): (r: Value)
    ensures IsReference(OriginalOrValue(t)) ==>
              var opening := "var(--" + prefix + "-";
              && r.Str?
              && opening <= r.s
              && EndsWith(r.s, ")")
              && |opening| < |r.s|
              && IsCleanName(r.s[|opening|..|r.s| - 1])
    ensures !IsReference(OriginalOrValue(t)) ==> r == t.value
  {
    var originalValue := OriginalOrValue(t);
    if IsReference(originalValue) then
      var refPath := ReferencePath(originalValue);
      var varName := SanitizeName(Join(Split(refPath, '.'), "-"));
      var opening := "var(--" + prefix + "-";
      var r := opening + varName + ")";
      assert r[|opening|..|r| - 1] == varName;
      Str(r)
    else
      t.value
  }

  /** Splitting a dotted path on its dots and joining with hyphens gives the
      hyphen-joined path, when no segment holds a dot itself. */
  lemma DottedToHyphenated(path: seq<string>)
    requires forall p :: p in path ==> '.' !in p
    ensures Join(Split(Join(path, "."), '.'), "-") == Join(path, "-")
  {
    JoinSplit(Join(path, "."), '.', '-');
    ReplaceInJoin(path, '.', '-');
    assert "." == ['.'] && "-" == ['-'];
  }

  /** A reference `{p}` is written as the variable named after `p` with its
      dots turned into hyphens. */
  lemma FormatReference(t: Token, prefix: string, refPath: string)
    requires OriginalOrValue(t) == Str("{" + refPath + "}")
    ensures FormatTokenValue(t, prefix) == Str("var(--" + prefix + "-" + SanitizeName(Join(Split(refPath, '.'), "-")) + ")")
  {
    var reference := "{" + refPath + "}";
    assert reference[1..|reference| - 1] == refPath;
  }

  /** A reference that spells out another token's dotted path becomes exactly
      the variable that token is declared under (`DeclName`): the name comes from the
      referenced token's path, not from the referencing one. */
  lemma ReferenceNamesReferencedVariable(t: Token, target: Token, prefix: string)
    requires forall p :: p in target.path ==> '.' !in p
    requires OriginalOrValue(t) == Str("{" + Join(target.path, ".") + "}")
    ensures FormatTokenValue(t, prefix) == Str("var(--" + prefix + "-" + DeclName(target) + ")")
  {
    FormatReference(t, prefix, Join(target.path, "."));
    DottedToHyphenated(target.path);
  }

  // ---------------------------------------------------------------------------
  // The light and dark groups

  /** The path the mode tests look at: `original.filePath`, else `filePath`, else ''. */
  function CheckPath(t: Token): string {
    var filePath := FilePathOrEmpty(t);
    var originalPath := if t.originalFilePath.Some? && t.originalFilePath.value != "" then t.originalFilePath.value else filePath;
    if originalPath != "" then originalPath else filePath
  }

  /** The dark test, clause by clause: `/dark.json` or `/dark/` anywhere, a
      `dark.json` suffix, `/\/dark(\.json)?$/i`, and `/dark\.json/i`. */
  predicate IsDarkPath(p: string) {
    || Contains(p, "/dark.json")
    || Contains(p, "/dark/")
    || EndsWith(p, "dark.json")
    || EndsWith(Lower(p), "/dark")
    || EndsWith(Lower(p), "/dark.json")
    || Contains(Lower(p), "dark.json")
  }

  /** The five clauses say no more than three: `dark.json` in any letter case,
      `/dark/`, or a final `/dark` in any letter case. */
  lemma DarkPathSimplified(p: string)
    ensures IsDarkPath(p) <==>
              Contains(Lower(p), "dark.json") || Contains(p, "/dark/") || EndsWith(Lower(p), "/dark")
  {
    DarkFileNames();
    if Contains(p, "/dark.json") {
      ContainsLower(p, "/dark.json");
      ContainsTransitive(Lower(p), "/dark.json", "dark.json");
    }
    if EndsWith(p, "dark.json") {
      EndsWithContains(p, "dark.json");
      ContainsLower(p, "dark.json");
    }
    if EndsWith(Lower(p), "/dark.json") {
      EndsWithContains(Lower(p), "/dark.json");
      ContainsTransitive(Lower(p), "/dark.json", "dark.json");
    }
  }

  lemma DarkFileNames()
    ensures Lower("/dark.json") == "/dark.json" && Lower("dark.json") == "dark.json"
    ensures Contains("/dark.json", "dark.json")
  {
    assert "/dark.json"[1..] == "dark.json";
  }

  predicate IsDarkToken(t: Token) {
    IsDarkPath(CheckPath(t))
  }

  predicate IsLightToken(t: Token) {
    !IsDarkPath(CheckPath(t))
  }

  function LightTokens(ts: seq<Token>): seq<Token> {
    Filter(ts, IsLightToken)
  }

  function DarkTokens(ts: seq<Token>): seq<Token> {
    Filter(ts, IsDarkToken)
  }

  /** The light filter is the negation of the dark one, so every token lands in
      exactly one group; each group keeps input order (it is a filter of the
      input), and together they hold the input's tokens. */
  lemma ModeGroupsPartition(ts: seq<Token>)
    ensures forall t :: t in ts ==> (t in LightTokens(ts) <==> t !in DarkTokens(ts))
    ensures |LightTokens(ts)| + |DarkTokens(ts)| == |ts|
    ensures multiset(LightTokens(ts)) + multiset(DarkTokens(ts)) == multiset(ts)
  {
    FilterPartition(ts, IsLightToken, IsDarkToken);
  }

  /** Regrouping the groups: the light tokens of one list followed by the dark
      tokens of another fall back into exactly those two groups. */
  lemma RegroupModes(a: seq<Token>, b: seq<Token>)
    ensures LightTokens(LightTokens(a) + DarkTokens(b)) == LightTokens(a)
    ensures DarkTokens(LightTokens(a) + DarkTokens(b)) == DarkTokens(b)
  {
    FilterAppend(LightTokens(a), DarkTokens(b), IsLightToken);
    FilterAppend(LightTokens(a), DarkTokens(b), IsDarkToken);
    FilterOfFiltered(a, IsLightToken, IsLightToken);
    FilterOfFiltered(a, IsLightToken, IsDarkToken);
    FilterOfFiltered(b, IsDarkToken, IsLightToken);
    FilterOfFiltered(b, IsDarkToken, IsDarkToken);
  }

  // ---------------------------------------------------------------------------
  // Rendering

  const Notice := "Do not edit directly, " + "this file was auto-generated."

  /** The text between `/**` and `*/` of the auto-generated notice. */
  const HeaderBody := "\n * " + Notice + "\n "

  /** The auto-generated notice: a block comment followed by a blank line. */
  const Header := "/**" + HeaderBody + "*/\n\n"

  /** The declaration line of one token: `<indent>--<prefix>-<name>: <value>;`. */
  function Line(t: Token, prefix: string, indent: string): string {
    indent + ("--" + prefix + "-" + DeclName(t) + ": " + Text(FormatTokenValue(t, prefix)) + ";\n")
  }

  /** One declaration line per token, in order. */
  function Decls(ts: seq<Token>, prefix: string, indent: string): string
    decreases |ts|
  {
    if ts == [] then "" else Decls(ts[..|ts| - 1], prefix, indent) + Line(ts[|ts| - 1], prefix, indent)
  }

  const RootOpen := ":root {\n"
  const BlockClose := "}\n"
  const MediaOpen := "@media (prefers-color-scheme: dark) {\n" + "  :root {\n"
  const MediaClose := "  }\n}\n\n"
  const ThemeOpen := "[data-theme=\"dark\"] {\n"

  function RootBlock(ts: seq<Token>, prefix: string): string {
    RootOpen + Decls(ts, prefix, "  ") + BlockClose
  }

  /** The dark section: the same entries, in the same order, once inside the
      media query and once under the attribute selector. */
  function DarkBlocks(ts: seq<Token>, prefix: string): string {
    MediaOpen + Decls(ts, prefix, "    ") + MediaClose + ThemeOpen + Decls(ts, prefix, "  ") + BlockClose
  }

  /** `options.prefix || 'pine'` */
  function PrefixOption(prefix: Option<string>): string {
    if prefix.Some? && prefix.value != "" then prefix.value else "pine"
  }

  /** `options.mode || 'all'` */
  function ModeOption(mode: Option<string>): string {
    if mode.Some? && mode.value != "" then mode.value else "all"
  }

  /** What the light block writes for the light group `light`. */
  function LightSection(light: seq<Token>, prefix: string, mode: string): string {
    if (mode == "light" || mode == "all") && |light| > 0 then
      if mode == "light" then Header + RootBlock(light, prefix) + "\n" else RootBlock(light, prefix)
    else ""
  }

  /** What the dark block appends, for the dark group `dark`, after `before`. */
  function DarkSection(dark: seq<Token>, prefix: string, mode: string, before: string): string {
    if (mode == "dark" || mode == "all") && |dark| > 0 then
      if mode == "dark" then Header + DarkBlocks(dark, prefix)
      else if before != "" then "\n" + DarkBlocks(dark, prefix)
      else DarkBlocks(dark, prefix)
    else ""
  }

  /** The output for a light group and a dark group. */
  function Layout(light: seq<Token>, dark: seq<Token>, prefix: string, mode: string): string {
    var lightText := LightSection(light, prefix, mode);
    lightText + DarkSection(dark, prefix, mode, lightText)
  }

  /** The text the format returns. */
  function Rendered(ts: seq<Token>, prefix: Option<string>, mode: Option<string>): string {
    Layout(LightTokens(ts), DarkTokens(ts), PrefixOption(prefix), ModeOption(mode))
  }

  lemma PrefixOfAppend(a: string, b: string)
    ensures a <= a + b
  {
  }

  lemma AppendAssoc(a: string, b: string, c: string)
    ensures (a + b) + c == a + (b + c)
  {
  }

  /** The `forEach` that appends one declaration line per token. */
  method AppendDecls(start: string, ts: seq<Token>, prefix: string, indent: string) returns (output: string)
    ensures output == start + Decls(ts, prefix, indent)
  {
    output := start;
    for i := 0 to |ts|
      invariant output == start + Decls(ts[..i], prefix, indent)
    {
      var token := ts[i];
      var name := SanitizeName(Join(token.path, "-"));
      var value := FormatTokenValue(token, prefix);
      var line := indent + ("--" + prefix + "-" + name + ": " + Text(value) + ";\n");
      assert ts[..i + 1][..i] == ts[..i];
      assert Decls(ts[..i + 1], prefix, indent) == Decls(ts[..i], prefix, indent) + line;
      AppendAssoc(start, Decls(ts[..i], prefix, indent), line);
      output := output + line;
    }
    assert ts[..|ts|] == ts;
  }

  /** The light block of the format: the `:root` rule of the light tokens,
      with the header and a trailing blank line in mode `light`. */
  method AppendLight(allTokens: seq<Token>, prefix: string, mode: string) returns (output: string)
    ensures output == LightSection(LightTokens(allTokens), prefix, mode)
  {
    output := "";
    if mode == "light" || mode == "all" {
      var lightTokens := LightTokens(allTokens);
      if |lightTokens| > 0 {
        if mode == "light" {
          output := output + Header;
        }
        ghost var before := output;
        assert before == (if mode == "light" then Header else "") by {
          assert "" + Header == Header;
        }
        output := AppendDecls(output + RootOpen, lightTokens, prefix, "  ");
        output := output + BlockClose;
        assert output == before + RootBlock(lightTokens, prefix) by {
          ghost var decls := Decls(lightTokens, prefix, "  ");
          AppendAssoc(before, RootOpen, decls);
          AppendAssoc(before, RootOpen + decls, BlockClose);
        }
        if mode == "light" {
          output := output + "\n";
        } else {
          assert output == output + "";
        }
      }
    }
  }

  /** The dark block of the format, appended to what the light block wrote:
      the header in mode `dark`, a separating newline in mode `all` after
      non-empty light output, then the media-query and attribute rules. */
  method AppendDark(light: string, allTokens: seq<Token>, prefix: string, mode: string) returns (output: string)
    ensures output == light + DarkSection(DarkTokens(allTokens), prefix, mode, light)
  {
    output := light;
    if mode == "dark" || mode == "all" {
      var darkTokens := DarkTokens(allTokens);
      if |darkTokens| > 0 {
        if mode == "dark" {
          output := output + Header;
        }
        if mode == "all" && output != "" {
          output := output + "\n";
        }
        ghost var before := output;
        ghost var media := Decls(darkTokens, prefix, "    ");
        ghost var themed := Decls(darkTokens, prefix, "  ");
        output := AppendDecls(output + MediaOpen, darkTokens, prefix, "    ");
        output := output + MediaClose;
        output := AppendDecls(output + ThemeOpen, darkTokens, prefix, "  ");
        output := output + BlockClose;
        assert output == before + DarkBlocks(darkTokens, prefix) by {
          AppendAssoc(before, MediaOpen, media);
          AppendAssoc(before, MediaOpen + media, MediaClose);
          AppendAssoc(before, MediaOpen + media + MediaClose, ThemeOpen);
          AppendAssoc(before, MediaOpen + media + MediaClose + ThemeOpen, themed);
          AppendAssoc(before, MediaOpen + media + MediaClose + ThemeOpen + themed, BlockClose);
        }
        if mode == "dark" {
          AppendAssoc(light, Header, DarkBlocks(darkTokens, prefix));
        } else if light != "" {
          AppendAssoc(light, "\n", DarkBlocks(darkTokens, prefix));
        }
      }
    }
  }

  /** The format function: the light block, then the dark block. */
  method Format(allTokens: seq<Token>, prefixOption: Option<string>, modeOption: Option<string>) returns (output: string)
    ensures output == Rendered(allTokens, prefixOption, modeOption)
  {
    var prefix := PrefixOption(prefixOption);
    var mode := ModeOption(modeOption);
    output := AppendLight(allTokens, prefix, mode);
    output := AppendDark(output, allTokens, prefix, mode);
  }

  // ---------------------------------------------------------------------------
  // What the rendered text promises

  lemma HeaderOpensComment()
    ensures |Header| > 0 && Header[0] == '/'
  {
  }

  /** The header comment opens the output exactly when a single mode was asked
      for and that mode's group is not empty; in mode `all` there is none. */
  lemma HeaderOnlyInSingleMode(light: seq<Token>, dark: seq<Token>, prefix: string, mode: string)
    ensures Header <= Layout(light, dark, prefix, mode) <==>
              (mode == "light" && |light| > 0) || (mode == "dark" && |dark| > 0)
  {
    var out := Layout(light, dark, prefix, mode);
    HeaderOpensComment();
    var lightText := LightSection(light, prefix, mode);
    var darkText := DarkSection(dark, prefix, mode, lightText);
    if mode == "light" && |light| > 0 {
      var root := RootBlock(light, prefix);
      assert Header <= out by {
        PrefixOfAppend(Header, root);
        PrefixOfAppend(Header + root, "\n");
        PrefixOfAppend(lightText, darkText);
      }
    } else if mode == "dark" && |dark| > 0 {
      assert Header <= out by {
        assert darkText == Header + DarkBlocks(dark, prefix);
        PrefixOfAppend(Header, DarkBlocks(dark, prefix));
      }
    } else if mode == "all" && |light| > 0 {
      assert out[0] == ':' by {
        assert lightText == RootBlock(light, prefix);
        assert lightText[0] == RootOpen[0];
      }
    } else if mode == "all" && |dark| > 0 {
      assert out[0] == '@' by {
        assert out == DarkBlocks(dark, prefix);
        assert out[0] == MediaOpen[0];
      }
    } else {
      assert out == "";
    }
  }

  /** A group with no tokens emits nothing: the output is empty exactly when
      the mode asks for no group that has tokens. */
  lemma EmptyGroupsEmitNothing(light: seq<Token>, dark: seq<Token>, prefix: string, mode: string)
    ensures Layout(light, dark, prefix, mode) == "" <==>
              !((mode == "light" || mode == "all") && |light| > 0)
              && !((mode == "dark" || mode == "all") && |dark| > 0)
  {
    if (mode == "light" || mode == "all") && |light| > 0 {
      assert |RootBlock(light, prefix)| > 0;
    }
    if (mode == "dark" || mode == "all") && |dark| > 0 {
      assert |DarkBlocks(dark, prefix)| > 0;
    }
  }

  /** In mode `all` the light `:root` block comes first, a blank line separates
      it from the dark section, and the dark section follows. */
  lemma AllModeLayout(light: seq<Token>, dark: seq<Token>, prefix: string)
    requires |light| > 0 && |dark| > 0
    ensures Layout(light, dark, prefix, "all") == RootBlock(light, prefix) + "\n" + DarkBlocks(dark, prefix)
  {
    assert |RootBlock(light, prefix)| > 0;
    AppendAssoc(RootBlock(light, prefix), "\n", DarkBlocks(dark, prefix));
  }

  /** Mode `light` writes only the light group: the header, its `:root` rule
      and a blank line; dark tokens leave no trace. */
  lemma LightModeFile(ts: seq<Token>, prefix: Option<string>)
    requires |LightTokens(ts)| > 0
    ensures Rendered(ts, prefix, Some("light")) == Header + RootBlock(LightTokens(ts), PrefixOption(prefix)) + "\n"
  {
  }

  /** Mode `dark` writes only the dark group: the header, then the media-query
      and attribute rules; light tokens leave no trace. */
  lemma DarkModeFile(ts: seq<Token>, prefix: Option<string>)
    requires |DarkTokens(ts)| > 0
    ensures Rendered(ts, prefix, Some("dark")) == Header + DarkBlocks(DarkTokens(ts), PrefixOption(prefix))
  {
  }

  /** Mode `light` with no light tokens writes nothing, not even the header. */
  lemma LightModeWithoutLight(ts: seq<Token>, prefix: Option<string>)
    requires |LightTokens(ts)| == 0
    ensures Rendered(ts, prefix, Some("light")) == ""
  {
  }

  /** Mode `dark` with no dark tokens writes nothing, not even the header. */
  lemma DarkModeWithoutDark(ts: seq<Token>, prefix: Option<string>)
    requires |DarkTokens(ts)| == 0
    ensures Rendered(ts, prefix, Some("dark")) == ""
  {
  }
}
