/** `parseColorReference`, `processTokens` and `buildContextMappings`
    (packages/styles/scripts/generate-lint-mappings.js): for each of the
    contexts `text`, `background` and `border`, a map from a core colour
    token such as `grey-900` to the first semantic token name found for it in
    that context's part of the semantic token tree. */
module ContextMappings {
  import opened Wrappers
  import opened Strings
  import opened Collections
  import opened JsonValues

  // ---------------------------------------------------------------------------
  // parseColorReference

  /** The opening of a colour reference. */
  const Opener := "{color."

  /** The first `}` at or after `k`. */
  function CloseBrace(s: string, k: nat): (r: Option<nat>)
    requires k <= |s|
    ensures r.Some? ==> k <= r.value < |s| && s[r.value] == '}' && forall m :: k <= m < r.value ==> s[m] != '}'
    ensures r.None? ==> forall m :: k <= m < |s| ==> s[m] != '}'
    decreases |s| - k
  {
    if k == |s| then None else if s[k] == '}' then Some(k) else CloseBrace(s, k + 1)
  }

  /** The group captured by the leftmost match of `\{color\.([^}]+)\}` at or
      after `i`. The greedy `[^}]+` runs to the first `}` after the opener
      and needs at least one character before it. */
  function MatchColor(s: string, i: nat): (r: Option<string>)
    requires i <= |s|
    ensures r.Some? ==> r.value != "" && '}' !in r.value
    decreases |s| - i
  {
    if i + |Opener| > |s| then None
    else if OccursAt(s, Opener, i) then
      match CloseBrace(s, i + |Opener|)
      case Some(c) =>
        if c > i + |Opener| then
          Some(s[i + |Opener|..c])
        else MatchColor(s, i + 1)
      case None => MatchColor(s, i + 1)
    else MatchColor(s, i + 1)
  }

  /** `parseColorReference(ref)`: `None` stands for `null`. */
  function ParseColorReference(ref: Option<Json>): (r: Option<string>)
    ensures r.Some? ==> r.value != ""
  {
    if !TruthyOpt(ref) || !ref.value.JStr? then None
    else match MatchColor(ref.value.s, 0)
      case None => None
      case Some(group) =>
        var parts := Split(group, '.');
        if |parts| == 1 then
          SplitJoinRoundTrip(group, '.');
          Some(parts[0])
        else if |parts| == 2 then Some(parts[0] + "-" + parts[1])
        else None
  }

  lemma {:induction false} NoOpenerNoMatch(s: string, i: nat)
    requires i <= |s| && !Contains(s, Opener)
    ensures MatchColor(s, i).None?
    decreases |s| - i
  {
    if i + |Opener| <= |s| {
      if OccursAt(s, Opener, i) {
        ContainsFromOccurs(s, Opener, i);
      }
      NoOpenerNoMatch(s, i + 1);
    }
  }

  /** Anything but a non-empty string, and any string without `{color.`, is
      not a colour reference. */
  lemma NotAReference(ref: Option<Json>)
    requires !TruthyOpt(ref) || !ref.value.JStr? || !Contains(ref.value.s, Opener)
    ensures ParseColorReference(ref).None?
  {
    if TruthyOpt(ref) && ref.value.JStr? {
      NoOpenerNoMatch(ref.value.s, 0);
    }
  }

  /** `{color.<path>}` captures `<path>` when the path has no `}`. */
  lemma WholeReference(path: string)
    requires path != "" && '}' !in path
    ensures MatchColor(Opener + path + "}", 0) == Some(path)
  {
    var s := Opener + path + "}";
    var k := |Opener|;
    assert s[..k] == Opener;
    assert s[k..k + |path|] == path;
    assert forall m :: k <= m < k + |path| ==> s[m] == path[m - k];
    assert s[k + |path|] == '}';
    assert CloseBrace(s, k) == Some(k + |path|) by {
      CloseAfterPath(s, k, k + |path|);
    }
  }

  lemma {:induction false} CloseAfterPath(s: string, k: nat, c: nat)
    requires k <= c < |s| && s[c] == '}'
    requires forall m :: k <= m < c ==> s[m] != '}'
    ensures CloseBrace(s, k) == Some(c)
    decreases c - k
  {
    if k < c {
      CloseAfterPath(s, k + 1, c);
    }
  }

  /** `{color.white}` names `white`. */
  lemma SimpleReference(name: string)
    requires name != "" && '.' !in name && '}' !in name
    ensures ParseColorReference(Some(JStr(Opener + name + "}"))) == Some(name)
  {
    WholeReference(name);
    SplitNoSeparator(name, '.');
  }

  /** `{color.grey.900}` names `grey-900`. */
  lemma ShadeReference(family: string, shade: string)
    requires '.' !in family && '}' !in family && '.' !in shade && '}' !in shade
    ensures ParseColorReference(Some(JStr(Opener + (family + "." + shade) + "}"))) == Some(family + "-" + shade)
  {
    var path := family + "." + shade;
    assert path[|family|] == '.';
    WholeReference(path);
    SplitAtSeparator(family, shade, '.');
    SplitNoSeparator(shade, '.');
  }

  /** A reference with three or more segments names nothing. */
  lemma DeepReference(a: string, b: string, rest: string)
    requires '.' !in a && '.' !in b && '}' !in a + "." + b + "." + rest
    ensures ParseColorReference(Some(JStr(Opener + (a + "." + b + "." + rest) + "}"))).None?
  {
    var path := a + "." + b + "." + rest;
    assert path[|a|] == '.';
    WholeReference(path);
    assert path == a + "." + (b + "." + rest);
    SplitAtSeparator(a, b + "." + rest, '.');
    SplitAtSeparator(b, rest, '.');
  }

  // ---------------------------------------------------------------------------
  // Semantic names

  /** The three contexts the script maps. */
  predicate IsContext(context: string) {
    context == "text" || context == "background" || context == "border"
  }

  /** A context is a single word: non-empty and without hyphens. */
  lemma ContextIsWord(context: string)
    requires IsContext(context)
    ensures context != [] && '-' !in context
  {
  }

  /** What a stored semantic name looks like: it starts with its context, has
      no two adjacent hyphens and does not end with a hyphen. */
  predicate NameOk(context: string, name: string) {
    context <= name && NoDoubleHyphen(name) && name != [] && name[|name| - 1] != '-'
  }

  /** `tokenPath` with the context prefixed unless it already starts with it. */
  function Prefixed(context: string, tokenPath: string): (r: string)
    ensures context <= r
  {
    if context <= tokenPath then tokenPath else context + "-" + tokenPath
  }

  /** `named.replace(new RegExp(`^${context}-${context}`), context)`; the
      contexts hold no regular-expression metacharacters. */
  function Undoubled(context: string, named: string): (r: string)
    requires context <= named
    ensures context <= r
  {
    var doubled := context + "-" + context;
    if doubled <= named then context + named[|doubled|..] else named
  }

  /** The name after the context prefix is ensured, a doubled context prefix is
      undone, hyphen runs are collapsed and one trailing hyphen is removed. */
  function CleanName(context: string, tokenPath: string): string {
    DropTrailingHyphen(CollapseHyphens(Undoubled(context, Prefixed(context, tokenPath))))
  }

  /** The semantic name recorded for a colour token at `tokenPath`. */
  function SemanticName(context: string, tokenPath: string): (r: string)
    requires IsContext(context)
    ensures NameOk(context, r)
  {
    var cleaned := CleanName(context, tokenPath);
    ContextIsWord(context);
    CleanNameOk(context, tokenPath);
    var r := if cleaned == context then context else cleaned;
    if context == "text" && tokenPath == "text" then "text" else r
  }

  lemma CollapsedStartsWith(context: string, u: string)
    requires '-' !in context && context <= u
    ensures context <= CollapseHyphens(u)
  {
    assert u == context + u[|context|..];
    CollapseKeepsPrefix(context, u[|context|..]);
  }

  lemma DropTrailingHyphenOk(context: string, c: string)
    requires context != [] && '-' !in context && context <= c && NoDoubleHyphen(c)
    ensures NameOk(context, DropTrailingHyphen(c))
  {
    assert c[|context| - 1] in context;
    if |c| > 0 && c[|c| - 1] == '-' {
      assert |c| > |context|;
      assert c[|c| - 2] != '-';
    }
  }

  lemma CleanNameOk(context: string, tokenPath: string)
    requires context != [] && '-' !in context
    ensures NameOk(context, CleanName(context, tokenPath))
  {
    var u := Undoubled(context, Prefixed(context, tokenPath));
    CollapsedStartsWith(context, u);
    DropTrailingHyphenOk(context, CollapseHyphens(u));
  }

  /** The two special cases at the end never change the cleaned name. */
  lemma SpecialCasesChangeNothing(context: string, tokenPath: string)
    requires IsContext(context)
    ensures SemanticName(context, tokenPath) == CleanName(context, tokenPath)
  {
    if context == "text" && tokenPath == "text" {
      ContextAlone(context);
    }
  }

  /** `<context>-<x>` has no doubled hyphen when `x` is hyphen-clean. */
  lemma JoinedClean(context: string, x: string)
    requires '-' !in context && x != [] && x[0] != '-' && NoDoubleHyphen(x)
    ensures NoDoubleHyphen(context + "-" + x)
  {
    var p := context + "-" + x;
    forall i | 0 <= i < |p| - 1
      ensures !(p[i] == '-' && p[i + 1] == '-')
    {
      if i >= |context| + 1 {
        assert p[i] == x[i - |context| - 1] && p[i + 1] == x[i - |context|];
      } else if i == |context| {
        assert p[i + 1] == x[0];
      } else {
        assert p[i] == context[i] && context[i] in context;
      }
    }
  }

  /** A path of the form `<context>-<x>`, where `x` is a hyphen-clean name
      that does not itself start with the context, keeps its name. */
  lemma PlainPathKept(context: string, x: string)
    requires IsContext(context)
    requires x != [] && x[0] != '-' && x[|x| - 1] != '-' && NoDoubleHyphen(x) && !(context <= x)
    ensures SemanticName(context, context + "-" + x) == context + "-" + x
  {
    ContextIsWord(context);
    SpecialCasesChangeNothing(context, context + "-" + x);
    PlainCleanName(context, x);
  }

  lemma PlainCleanName(context: string, x: string)
    requires context != [] && '-' !in context
    requires x != [] && x[0] != '-' && x[|x| - 1] != '-' && NoDoubleHyphen(x) && !(context <= x)
    ensures CleanName(context, context + "-" + x) == context + "-" + x
  {
    var p := context + "-" + x;
    assert Prefixed(context, p) == p;
    DoubledMeansPrefix(context, x);
    assert Undoubled(context, p) == p;
    JoinedClean(context, x);
    assert p[|p| - 1] == x[|x| - 1];
  }

  lemma DoubledMeansPrefix(context: string, x: string)
    ensures context + "-" + context <= context + "-" + x ==> context <= x
  {
    var p := context + "-" + x;
    if context + "-" + context <= p {
      assert x[..|context|] == p[|context| + 1..|context| + 1 + |context|];
    }
  }

  /** The doubled-prefix rewrite is not anchored at a hyphen: a path
      `<context>-<context><y>` loses its first `<context>-`, so the key
      `textured` under `text` is recorded as `textured`, not `text-textured`. */
  lemma DoubledContextDropped(context: string, y: string)
    requires IsContext(context)
    requires NoDoubleHyphen(context + y) && (y == [] || y[|y| - 1] != '-')
    ensures SemanticName(context, context + "-" + context + y) == context + y
  {
    ContextIsWord(context);
    SpecialCasesChangeNothing(context, context + "-" + context + y);
    DoubledCleanName(context, y);
  }

  lemma DoubledCleanName(context: string, y: string)
    requires context != [] && '-' !in context
    requires NoDoubleHyphen(context + y) && (y == [] || y[|y| - 1] != '-')
    ensures CleanName(context, context + "-" + context + y) == context + y
  {
    DoubledUndone(context, y);
    var r := context + y;
    assert r[|r| - 1] != '-' by {
      if y == [] {
        assert context[|context| - 1] in context;
      }
    }
    assert CollapseHyphens(r) == r;
  }

  lemma DoubledUndone(context: string, y: string)
    ensures Undoubled(context, Prefixed(context, context + "-" + context + y)) == context + y
  {
    var p := context + "-" + context + y;
    var doubled := context + "-" + context;
    assert p[..|context|] == context;
    assert Prefixed(context, p) == p;
    assert p[..|doubled|] == doubled;
    assert p[|doubled|..] == y;
  }

  // ---------------------------------------------------------------------------
  // processTokens

  /** `tokenPath` for `key` under `prefix`; `@` names its enclosing group. */
  function TokenPath(key: string, context: string, prefix: string): string {
    if key == "@" then (if prefix != "" then prefix else context)
    else if prefix != "" then prefix + "-" + key
    else key
  }

  /** `value?.value && value.type === 'color'` */
  predicate IsColorToken(value: Json) {
    TruthyOpt(OptProp(Some(value), "value")) && OptProp(Some(value), "type") == Some(JStr("color"))
  }

  /** `typeof value === 'object' && value !== null && !value.value` */
  predicate IsGroup(value: Json) {
    (value.JObj? || value.JArr?) && !TruthyOpt(Prop(value, "value"))
  }

  /** `if (!mappings[context][coreToken]) mappings[context][coreToken] = name` */
  function Record(m: Dict<string, string>, coreToken: string, name: string): Dict<string, string> {
    if Get(m, coreToken).None? || Get(m, coreToken) == Some("") then Put(m, coreToken, name) else m
  }

  /** The number of `Object.entries` of a value: the entries of a string are
      its characters, none of which is a colour token or a group, so they are
      not counted. */
  function EntryCount(obj: Json): nat {
    match obj
    case JObj(fields) => |fields|
    case JArr(items) => |items|
    case _ => 0
  }

  /** `processTokens(obj, context, prefix)` applied to the mappings `m` of
      `context`. */
  function ProcessObj(obj: Json, context: string, prefix: string, m: Dict<string, string>): Dict<string, string>
    requires IsContext(context)
    decreases obj, 1
  {
    ProcessEntries(obj, context, prefix, m, EntryCount(obj))
  }

  /** The first `n` entries of `obj`, in order. */
  function ProcessEntries(obj: Json, context: string, prefix: string, m: Dict<string, string>, n: nat): Dict<string, string>
    requires IsContext(context) && n <= EntryCount(obj)
    decreases obj, 0, n
  {
    if n == 0 then m
    else
      var before := ProcessEntries(obj, context, prefix, m, n - 1);
      match obj
      case JObj(fields) => ProcessEntry(fields[n - 1].0, fields[n - 1].1, context, prefix, before)
      case JArr(items) => ProcessEntry(IndexKey(n - 1), items[n - 1], context, prefix, before)
  }

  /** One entry: a colour token records its core token, a group is descended
      into with the token path as prefix, anything else is skipped. */
  function ProcessEntry(key: string, value: Json, context: string, prefix: string, m: Dict<string, string>): Dict<string, string>
    requires IsContext(context)
    decreases value, 2
  {
    var tokenPath := TokenPath(key, context, prefix);
    if IsColorToken(value) then
      match ParseColorReference(OptProp(Some(value), "value"))
      case None => m
      case Some(coreToken) => Record(m, coreToken, SemanticName(context, tokenPath))
    else if IsGroup(value) then ProcessObj(value, context, tokenPath, m)
    else m
  }

  /** `processTokens`: the loop over the entries, recursing into groups. */
  method ProcessTokens(obj: Json, context: string, prefix: string, m: Dict<string, string>)
    returns (mappings: Dict<string, string>)
    requires IsContext(context)
    ensures mappings == ProcessObj(obj, context, prefix, m)
    decreases obj, 1
  {
    mappings := m;
    for i := 0 to EntryCount(obj)
      invariant mappings == ProcessEntries(obj, context, prefix, m, i)
    {
      var key: string, value: Json;
      match obj {
        case JObj(fields) => key, value := fields[i].0, fields[i].1;
        case JArr(items) => key, value := IndexKey(i), items[i];
      }
      assert ProcessEntries(obj, context, prefix, m, i + 1) == ProcessEntry(key, value, context, prefix, mappings);
      var tokenPath: string;
      if key == "@" {
        tokenPath := if prefix != "" then prefix else context;
      } else if prefix != "" {
        tokenPath := prefix + "-" + key;
      } else {
        tokenPath := key;
      }
      assert tokenPath == TokenPath(key, context, prefix);
      var inner := OptProp(Some(value), "value");
      if TruthyOpt(inner) && OptProp(Some(value), "type") == Some(JStr("color")) {
        var coreToken := ParseColorReference(inner);
        if coreToken.Some? {
          var semanticName := SemanticName(context, tokenPath);
          if Get(mappings, coreToken.value).None? || Get(mappings, coreToken.value) == Some("") {
            mappings := Put(mappings, coreToken.value, semanticName);
          }
        }
      } else if (value.JObj? || value.JArr?) && !TruthyOpt(Prop(value, "value")) {
        mappings := ProcessTokens(value, context, tokenPath, mappings);
      }
    }
  }

  // ---------------------------------------------------------------------------
  // What processTokens keeps

  /** Every entry of `after` was in `before` or holds a well-formed name for
      the context; the keys stay distinct; a truthy entry is never replaced. */
  ghost predicate Keeps(context: string, before: Dict<string, string>, after: Dict<string, string>) {
    (forall e :: e in after ==> e in before || NameOk(context, e.1))
    && (DistinctKeys(before) ==> DistinctKeys(after))
    && (forall k :: Get(before, k).Some? && Get(before, k).value != "" ==> Get(after, k) == Get(before, k))
  }

  lemma RecordKeeps(context: string, m: Dict<string, string>, coreToken: string, name: string)
    requires NameOk(context, name)
    ensures Keeps(context, m, Record(m, coreToken, name))
  {
    PutEntries(m, coreToken, name);
    if DistinctKeys(m) {
      PutKeepsDistinct(m, coreToken, name);
    }
  }

  lemma {:induction false} ProcessObjKeeps(obj: Json, context: string, prefix: string, m: Dict<string, string>)
    requires IsContext(context)
    ensures Keeps(context, m, ProcessObj(obj, context, prefix, m))
    decreases obj, 1
  {
    ProcessEntriesKeeps(obj, context, prefix, m, EntryCount(obj));
  }

  lemma {:induction false} ProcessEntriesKeeps(obj: Json, context: string, prefix: string, m: Dict<string, string>, n: nat)
    requires IsContext(context) && n <= EntryCount(obj)
    ensures Keeps(context, m, ProcessEntries(obj, context, prefix, m, n))
    decreases obj, 0, n
  {
    if n > 0 {
      ProcessEntriesKeeps(obj, context, prefix, m, n - 1);
      var before := ProcessEntries(obj, context, prefix, m, n - 1);
      match obj {
        case JObj(fields) => ProcessEntryKeeps(fields[n - 1].0, fields[n - 1].1, context, prefix, before);
        case JArr(items) => ProcessEntryKeeps(IndexKey(n - 1), items[n - 1], context, prefix, before);
      }
    }
  }

  lemma {:induction false} ProcessEntryKeeps(key: string, value: Json, context: string, prefix: string, m: Dict<string, string>)
    requires IsContext(context)
    ensures Keeps(context, m, ProcessEntry(key, value, context, prefix, m))
    decreases value, 2
  {
    var tokenPath := TokenPath(key, context, prefix);
    if IsColorToken(value) {
      var coreToken := ParseColorReference(OptProp(Some(value), "value"));
      if coreToken.Some? {
        RecordKeeps(context, m, coreToken.value, SemanticName(context, tokenPath));
      }
    } else if IsGroup(value) {
      ProcessObjKeeps(value, context, tokenPath, m);
    }
  }

  /** The first semantic name recorded for a core token is never overwritten,
      and everything recorded under a context is a well-formed name of that
      context, under distinct core tokens. */
  lemma FirstNameWins(obj: Json, context: string, prefix: string, m: Dict<string, string>, coreToken: string)
    requires IsContext(context)
    requires Get(m, coreToken).Some? && Get(m, coreToken).value != ""
    ensures Get(ProcessObj(obj, context, prefix, m), coreToken) == Get(m, coreToken)
  {
    ProcessObjKeeps(obj, context, prefix, m);
  }

  /** A colour token under key `@` is named after its enclosing group: in the
      group `<context>-<x>` it records `<context>-<x>`. */
  lemma AtKeyNamesGroup(value: Json, context: string, x: string, m: Dict<string, string>, coreToken: string)
    requires IsContext(context)
    requires x != [] && x[0] != '-' && x[|x| - 1] != '-' && NoDoubleHyphen(x) && !(context <= x)
    requires IsColorToken(value) && ParseColorReference(OptProp(Some(value), "value")) == Some(coreToken)
    requires Get(m, coreToken).None?
    ensures Get(ProcessEntry("@", value, context, context + "-" + x, m), coreToken) == Some(context + "-" + x)
  {
    PlainPathKept(context, x);
  }

  /** A colour token under key `@` directly below a context (which the walk
      starts with the context as prefix) is named after the context itself:
      `text.@` records `text`, `border.@` records `border`. */
  lemma TopLevelAtNamesContext(value: Json, context: string, m: Dict<string, string>, coreToken: string)
    requires IsContext(context)
    requires IsColorToken(value) && ParseColorReference(OptProp(Some(value), "value")) == Some(coreToken)
    requires Get(m, coreToken).None?
    ensures Get(ProcessEntry("@", value, context, context, m), coreToken) == Some(context)
  {
    ContextAlone(context);
    SpecialCasesChangeNothing(context, context);
  }

  /** A path that is just the context cleans to the context. */
  lemma ContextAlone(context: string)
    requires IsContext(context)
    ensures CleanName(context, context) == context
  {
    ContextIsWord(context);
    assert Prefixed(context, context) == context;
    assert !(context + "-" + context <= context);
    assert NoDoubleHyphen(context) by {
      forall i | 0 <= i < |context| - 1 ensures context[i] != '-' {
        assert context[i] in context;
      }
    }
  }

  /** An object with a truthy `value` is a leaf: at most one core token is
      recorded for it, and nothing nested inside it is visited. */
  lemma ValuedObjectIsLeaf(key: string, value: Json, context: string, prefix: string, m: Dict<string, string>)
    requires IsContext(context)
    requires value.JObj? && TruthyOpt(Prop(value, "value"))
    ensures var r := ProcessEntry(key, value, context, prefix, m);
      r == m || exists coreToken :: r == Record(m, coreToken, SemanticName(context, TokenPath(key, context, prefix)))
  {
  }

  // ---------------------------------------------------------------------------
  // buildContextMappings

  /** The three per-context maps. */
  datatype Mappings = Mappings(text: Dict<string, string>, background: Dict<string, string>, border: Dict<string, string>)

  /** `processTokens(colors[context], context, context)` if that entry is truthy. */
  function ContextMap(colors: Json, context: string): Dict<string, string>
    requires IsContext(context) && !colors.JNull?
  {
    var part := Prop(colors, context);
    if TruthyOpt(part) then ProcessObj(part.value, context, context, []) else []
  }

  /** What `buildContextMappings(semanticTokens)` returns, or the error it throws. */
  function ContextMappingsOf(semanticTokens: Json): Result<Mappings, string> {
    match Member(semanticTokens, "color")
    case Failure(e) => Failure(e)
    case Success(colors) =>
      if !TruthyOpt(colors) then Success(Mappings([], [], []))
      else Success(Mappings(ContextMap(colors.value, "text"), ContextMap(colors.value, "background"),
                            ContextMap(colors.value, "border")))
  }

  /** `buildContextMappings(semanticTokens)` */
  method BuildContextMappings(semanticTokens: Json) returns (r: Result<Mappings, string>)
    ensures r == ContextMappingsOf(semanticTokens)
  {
    if semanticTokens.JNull? {
      return Failure("TypeError");
    }
    var colors := Prop(semanticTokens, "color");
    if !TruthyOpt(colors) {
      return Success(Mappings([], [], []));
    }
    var text: Dict<string, string> := [];
    var background: Dict<string, string> := [];
    var border: Dict<string, string> := [];
    var part := Prop(colors.value, "text");
    if TruthyOpt(part) {
      text := ProcessTokens(part.value, "text", "text", text);
    }
    part := Prop(colors.value, "background");
    if TruthyOpt(part) {
      background := ProcessTokens(part.value, "background", "background", background);
    }
    part := Prop(colors.value, "border");
    if TruthyOpt(part) {
      border := ProcessTokens(part.value, "border", "border", border);
    }
    return Success(Mappings(text, background, border));
  }

  /** Every context map has distinct core tokens, and every name stored in it
      starts with its context, has no repeated hyphens and no trailing hyphen. */
  predicate WellFormedMap(context: string, d: Dict<string, string>) {
    DistinctKeys(d) && forall e :: e in d ==> NameOk(context, e.1)
  }

  lemma ContextMapWellFormed(colors: Json, context: string)
    requires IsContext(context) && !colors.JNull?
    ensures WellFormedMap(context, ContextMap(colors, context))
  {
    var part := Prop(colors, context);
    if TruthyOpt(part) {
      ProcessObjKeeps(part.value, context, context, []);
    }
  }

  lemma ContextMappingsWellFormed(semanticTokens: Json)
    ensures var r := ContextMappingsOf(semanticTokens);
      r.Success? ==> WellFormedMap("text", r.value.text) && WellFormedMap("background", r.value.background)
                     && WellFormedMap("border", r.value.border)
  {
    if !semanticTokens.JNull? {
      var colors := Prop(semanticTokens, "color");
      if TruthyOpt(colors) {
        ContextMapWellFormed(colors.value, "text");
        ContextMapWellFormed(colors.value, "background");
        ContextMapWellFormed(colors.value, "border");
      }
    }
  }
}
