/** The last step of the build (packages/styles/src/lib/transform/index.js):
    the light and dark halves of the core and semantic files are written
    separately and then combined into one file. The dark half loses its
    auto-generated header (the first match of `/\/\*\*[\s\S]*?\*\/\s*\n\n/`),
    both halves are trimmed, and they are joined by a blank line. */
module HeaderMerge {
  import opened Wrappers
  import opened Strings
  import opened Collections
  import opened Tokens
  import opened VariablesFormat

  // ---------------------------------------------------------------------------
  // The header pattern, matched the way a backtracking regular-expression
  // engine does: leftmost start, lazy body, greedy whitespace.

  /** The end of the run of `\s` characters that starts at `k`. */
  function SpaceEnd(s: string, k: nat): (w: nat)
    requires k <= |s|
    ensures k <= w <= |s|
    ensures forall m :: k <= m < w ==> IsJsSpace(s[m])
    ensures w == |s| || !IsJsSpace(s[w])
    decreases |s| - k
  {
    if k == |s| || !IsJsSpace(s[k]) then k else SpaceEnd(s, k + 1)
  }

  /** The last position in `lo..hi` where a blank line `\n\n` starts: where
      `\s*\n\n` ends up after `\s*` has given back characters one by one. */
  function LastBlankLine(s: string, lo: nat, hi: nat): (r: Option<nat>)
    requires lo <= hi
    ensures r.Some? ==> lo <= r.value <= hi && OccursAt(s, "\n\n", r.value)
    decreases hi - lo
  {
    if OccursAt(s, "\n\n", hi) then Some(hi)
    else if hi == lo then None
    else LastBlankLine(s, lo, hi - 1)
  }

  /** The blank line found is the last one in `lo..hi`, and none is found
      only when there is none. */
  lemma {:induction false} LastBlankLineIsLast(s: string, lo: nat, hi: nat)
    requires lo <= hi
    ensures var r := LastBlankLine(s, lo, hi);
      && (r.Some? ==> forall e :: r.value < e <= hi ==> !OccursAt(s, "\n\n", e))
      && (r.None? ==> forall e :: lo <= e <= hi ==> !OccursAt(s, "\n\n", e))
    decreases hi - lo
  {
    if !OccursAt(s, "\n\n", hi) && hi != lo {
      LastBlankLineIsLast(s, lo, hi - 1);
    }
  }

  // `[\s\S]*?\*\/\s*\n\n` from position `j`: the closing `*/` is tried at
  // `j`, `j + 1`, ... and the first one followed by whitespace ending in a
  // blank line wins. The result is where the match ends.
  function LazyClose(s: string, j: nat): (r: Option<nat>)
    requires j <= |s|
    ensures r.Some? ==> j + 4 <= r.value <= |s|
    decreases |s| - j
  {
    if j + 2 > |s| then None
    else if OccursAt(s, "*/", j) then
      match LastBlankLine(s, j + 2, SpaceEnd(s, j + 2))
      case Some(e) => Some(e + 2)
      case None => LazyClose(s, j + 1)
    else LazyClose(s, j + 1)
  }

  /** The leftmost match of the header pattern starting at or after `i`: where
      it starts and where it ends. */
  function FindHeader(s: string, i: nat): (r: Option<(nat, nat)>)
    requires i <= |s|
    ensures r.Some? ==> i <= r.value.0 && r.value.0 + 7 <= r.value.1 <= |s| && OccursAt(s, "/**", r.value.0)
    decreases |s| - i
  {
    if i + 3 > |s| then None
    else if OccursAt(s, "/**", i) then
      match LazyClose(s, i + 3)
      case Some(e) => Some((i, e))
      case None => FindHeader(s, i + 1)
    else FindHeader(s, i + 1)
  }

  /** `content.replace(pattern, '')`: the first match, if any, is removed. */
  function StripHeader(s: string): (r: string)
    ensures FindHeader(s, 0).None? ==> r == s
    ensures FindHeader(s, 0).Some? ==> |r| <= |s| - 7
  {
    match FindHeader(s, 0)
    case None => s
    case Some((i, e)) => s[..i] + s[e..]
  }

  /** The combined file: the trimmed light half, a blank line, the trimmed
      dark half without its header, and a final newline. */
  function Merge(light: string, dark: string): (r: string)
    ensures Trim(light) + "\n\n" <= r && r[|r| - 1] == '\n'
  {
    Trim(light) + "\n\n" + Trim(StripHeader(dark)) + "\n"
  }

  // ---------------------------------------------------------------------------
  // What the pattern removes

  // A text in which no comment opens has no header to remove.
  lemma {:induction false} NoCommentNoMatch(s: string, i: nat)
    requires i <= |s|
    requires !Contains(s, "/**")
    ensures FindHeader(s, i).None?
    decreases |s| - i
  {
    if i + 3 <= |s| {
      if OccursAt(s, "/**", i) {
        ContainsFromOccurs(s, "/**", i);
      }
      NoCommentNoMatch(s, i + 1);
    }
  }

  lemma StripHeaderWithoutComment(s: string)
    requires !Contains(s, "/**")
    ensures StripHeader(s) == s
  {
    NoCommentNoMatch(s, 0);
  }

  // No comment close between `j` and `target`: the lazy body skips to `target`.
  lemma {:induction false} LazyCloseSkips(s: string, j: nat, target: nat)
    requires j <= target <= |s| - 2
    requires forall k :: j <= k < target ==> !OccursAt(s, "*/", k)
    ensures LazyClose(s, j) == LazyClose(s, target)
    decreases target - j
  {
    if j < target {
      LazyCloseSkips(s, j + 1, target);
    }
  }

  // A blank line followed by the end of the text or by a character that is
  // not whitespace: `\s*\n\n` matches exactly that blank line.
  lemma BlankLineThenText(s: string, k: nat)
    requires k + 2 <= |s| && s[k] == '\n' && s[k + 1] == '\n'
    requires k + 2 == |s| || !IsJsSpace(s[k + 2])
    ensures SpaceEnd(s, k) == k + 2
    ensures LastBlankLine(s, k, k + 2) == Some(k)
  {
    assert SpaceEnd(s, k + 1) == k + 2;
    assert !OccursAt(s, "\n\n", k + 2) by {
      if k + 4 <= |s| {
        assert s[k + 2..k + 4][0] == s[k + 2];
      }
    }
    assert !OccursAt(s, "\n\n", k + 1) by {
      if k + 3 <= |s| {
        assert s[k + 1..k + 3][1] == s[k + 2];
      }
    }
    assert s[k..k + 2] == "\n\n";
    assert LastBlankLine(s, k, k) == Some(k);
    assert LastBlankLine(s, k, k + 1) == Some(k);
  }

  // Inside a comment body without slashes no comment close starts.
  lemma NoCloseInBody(body: string, x: string)
    requires '/' !in body
    ensures forall k :: 3 <= k < 3 + |body| ==> !OccursAt("/**" + body + "*/\n\n" + x, "*/", k)
  {
    var s := "/**" + body + "*/\n\n" + x;
    forall k | 3 <= k < 3 + |body|
      ensures !OccursAt(s, "*/", k)
    {
      if k + 2 <= |s| {
        if k + 1 < 3 + |body| {
          assert s[k + 1] == body[k - 2];
          assert body[k - 2] in body;
        } else {
          assert s[k + 1] == '*';
        }
        assert s[k..k + 2][1] == s[k + 1];
      }
    }
  }

  // A block comment whose body has no slash, followed by a blank line and
  // then by text that does not start with whitespace, is matched from its
  // first character to the end of the blank line.
  lemma CommentMatch(body: string, x: string)
    requires '/' !in body
    requires x == [] || !IsJsSpace(x[0])
    ensures FindHeader("/**" + body + "*/\n\n" + x, 0) == Some((0, |body| + 7))
  {
    var s := "/**" + body + "*/\n\n" + x;
    NoCloseInBody(body, x);
    CommentLayout(body, x);
    HeaderAt(s, 3 + |body|);
  }

  // A comment opening at 0 whose first close at `close` is followed by a
  // blank line and then by text: the pattern matches up to that blank line.
  lemma HeaderAt(s: string, close: nat)
    requires 3 <= close && close + 4 <= |s|
    requires s[..3] == "/**" && s[close..close + 2] == "*/"
    requires forall k :: 3 <= k < close ==> !OccursAt(s, "*/", k)
    requires s[close + 2] == '\n' && s[close + 3] == '\n'
    requires close + 4 == |s| || !IsJsSpace(s[close + 4])
    ensures FindHeader(s, 0) == Some((0, close + 4))
  {
    LazyCloseSkips(s, 3, close);
    LazyCloseAt(s, close);
    assert OccursAt(s, "/**", 0) by {
      assert s[0..3] == s[..3];
    }
  }

  // A close followed by a blank line and then by text ends the match there.
  lemma LazyCloseAt(s: string, close: nat)
    requires close + 4 <= |s|
    requires s[close..close + 2] == "*/"
    requires s[close + 2] == '\n' && s[close + 3] == '\n'
    requires close + 4 == |s| || !IsJsSpace(s[close + 4])
    ensures LazyClose(s, close) == Some(close + 4)
  {
    BlankLineThenText(s, close + 2);
    assert OccursAt(s, "*/", close);
  }

  lemma CommentLayout(body: string, x: string)
    ensures var s := "/**" + body + "*/\n\n" + x;
      var close := 3 + |body|;
      && s[..3] == "/**" && s[close..close + 2] == "*/"
      && s[close + 2] == '\n' && s[close + 3] == '\n'
      && (close + 4 == |s| || s[close + 4] == x[0])
  {
  }

  lemma HeaderBodyHasNoSlash()
    ensures '/' !in HeaderBody
  {
  }

  /** The pattern removes exactly the header the format writes, whatever
      follows it, as long as that does not start with whitespace. */
  lemma StripWrittenHeader(x: string)
    requires x == [] || !IsJsSpace(x[0])
    ensures StripHeader(Header + x) == x
  {
    HeaderBodyHasNoSlash();
    CommentMatch(HeaderBody, x);
    assert Header + x == "/**" + HeaderBody + "*/\n\n" + x;
    assert |Header| == |HeaderBody| + 7;
    assert (Header + x)[|Header|..] == x;
  }

  // ---------------------------------------------------------------------------
  // The merged file

  lemma RootBlockShape(ts: seq<Token>, prefix: string)
    ensures RootBlock(ts, prefix) == RootOpen + Decls(ts, prefix, "  ") + "}" + "\n"
  {
  }

  lemma DarkBlocksShape(ts: seq<Token>, prefix: string)
    ensures DarkBlocks(ts, prefix)
         == MediaOpen + Decls(ts, prefix, "    ") + MediaClose + ThemeOpen + Decls(ts, prefix, "  ") + "}" + "\n"
  {
  }

  lemma TwoNewlines(a: string, b: string)
    ensures a + (b + "\n") + "\n" == (a + b) + "\n\n"
  {
  }

  lemma Reassemble(h: string, r: string, d: string)
    ensures h + r + "\n\n" + d + "\n" == h + ((r + "\n") + "\n" + (d + "\n"))
  {
  }

  /** The light file, trimmed: the header and the `:root` block up to its `}`. */
  lemma TrimmedLightFile(a: seq<Token>, prefix: Option<string>)
    requires |LightTokens(a)| > 0
    ensures Trim(Rendered(a, prefix, Some("light")))
         == Header + (RootOpen + Decls(LightTokens(a), PrefixOption(prefix), "  ") + "}")
  {
    var p := PrefixOption(prefix);
    var rootText := RootOpen + Decls(LightTokens(a), p, "  ") + "}";
    LightModeFile(a, prefix);
    RootBlockShape(LightTokens(a), p);
    TwoNewlines(Header, rootText);
    HeaderOpensComment();
    assert (Header + rootText)[0] == '/';
    assert (Header + rootText)[|Header + rootText| - 1] == '}';
    TrimAround(Header + rootText, "\n\n");
  }

  /** The dark file without its header, trimmed: the two dark rules up to the final `}`. */
  lemma TrimmedDarkFile(b: seq<Token>, prefix: Option<string>)
    requires |DarkTokens(b)| > 0
    ensures Trim(StripHeader(Rendered(b, prefix, Some("dark"))))
         == MediaOpen + Decls(DarkTokens(b), PrefixOption(prefix), "    ") + MediaClose + ThemeOpen
            + Decls(DarkTokens(b), PrefixOption(prefix), "  ") + "}"
  {
    var p := PrefixOption(prefix);
    var dark := DarkTokens(b);
    var darkText := MediaOpen + Decls(dark, p, "    ") + MediaClose + ThemeOpen + Decls(dark, p, "  ") + "}";
    DarkBlocksShape(dark, p);
    DarkModeFile(b, prefix);
    assert DarkBlocks(dark, p)[0] == MediaOpen[0] == '@';
    StripWrittenHeader(DarkBlocks(dark, p));
    assert darkText[0] == '@';
    TrimAround(darkText, "\n");
  }

  /** Merging the single-mode files of two token lists gives the header
      followed by what mode `all` renders for the light tokens of the first
      and the dark tokens of the second: the two-pass build and a one-pass
      build agree. */
  lemma MergedFileIsAllMode(a: seq<Token>, b: seq<Token>, prefix: Option<string>)
    requires |LightTokens(a)| > 0 && |DarkTokens(b)| > 0
    ensures Merge(Rendered(a, prefix, Some("light")), Rendered(b, prefix, Some("dark")))
         == Header + Rendered(LightTokens(a) + DarkTokens(b), prefix, Some("all"))
  {
    var p := PrefixOption(prefix);
    var light, dark := LightTokens(a), DarkTokens(b);
    var rootText := RootOpen + Decls(light, p, "  ") + "}";
    var darkText := MediaOpen + Decls(dark, p, "    ") + MediaClose + ThemeOpen + Decls(dark, p, "  ") + "}";
    MergedHalves(a, b, prefix);
    AllModeText(a, b, prefix);
    Reassemble(Header, rootText, darkText);
  }

  lemma MergedHalves(a: seq<Token>, b: seq<Token>, prefix: Option<string>)
    requires |LightTokens(a)| > 0 && |DarkTokens(b)| > 0
    ensures var p := PrefixOption(prefix);
      Merge(Rendered(a, prefix, Some("light")), Rendered(b, prefix, Some("dark")))
      == Header + (RootOpen + Decls(LightTokens(a), p, "  ") + "}") + "\n\n"
         + (MediaOpen + Decls(DarkTokens(b), p, "    ") + MediaClose + ThemeOpen + Decls(DarkTokens(b), p, "  ") + "}") + "\n"
  {
    TrimmedLightFile(a, prefix);
    TrimmedDarkFile(b, prefix);
  }

  lemma AllModeText(a: seq<Token>, b: seq<Token>, prefix: Option<string>)
    requires |LightTokens(a)| > 0 && |DarkTokens(b)| > 0
    ensures var p := PrefixOption(prefix);
      Rendered(LightTokens(a) + DarkTokens(b), prefix, Some("all"))
      == ((RootOpen + Decls(LightTokens(a), p, "  ") + "}") + "\n") + "\n"
         + ((MediaOpen + Decls(DarkTokens(b), p, "    ") + MediaClose + ThemeOpen + Decls(DarkTokens(b), p, "  ") + "}") + "\n")
  {
    var p := PrefixOption(prefix);
    RegroupModes(a, b);
    AllModeLayout(LightTokens(a), DarkTokens(b), p);
    RootBlockShape(LightTokens(a), p);
    DarkBlocksShape(DarkTokens(b), p);
  }

  /** With no light tokens the light file is empty, so the merged file has no
      header at all: it opens with the blank line and then the dark rules. */
  lemma MergedFileWithoutLight(a: seq<Token>, b: seq<Token>, prefix: Option<string>)
    requires |LightTokens(a)| == 0 && |DarkTokens(b)| > 0
    ensures var merged := Merge(Rendered(a, prefix, Some("light")), Rendered(b, prefix, Some("dark")));
            && merged == "\n\n" + (MediaOpen + Decls(DarkTokens(b), PrefixOption(prefix), "    ") + MediaClose
                                      + ThemeOpen + Decls(DarkTokens(b), PrefixOption(prefix), "  ") + "}") + "\n"
            && !(Header <= merged)
  {
    var p := PrefixOption(prefix);
    var darkText := MediaOpen + Decls(DarkTokens(b), p, "    ") + MediaClose + ThemeOpen + Decls(DarkTokens(b), p, "  ") + "}";
    LightModeWithoutLight(a, prefix);
    TrimmedDarkFile(b, prefix);
    MergeEmptyLight(Rendered(b, prefix, Some("dark")), darkText);
    HeaderOpensComment();
  }

  lemma MergeEmptyLight(dark: string, darkText: string)
    requires Trim(StripHeader(dark)) == darkText
    ensures Merge("", dark) == "\n\n" + darkText + "\n"
  {
    assert Merge("", dark) == Trim("") + "\n\n" + darkText + "\n";
    TrimEmpty();
    EmptyPrefix("\n\n");
  }

  lemma EmptyPrefix(x: string)
    ensures "" + x == x
  {
  }

  /** With no dark tokens the dark file is empty, so the merged file is the
      light file, trimmed, followed by two blank lines. */
  lemma MergedFileWithoutDark(a: seq<Token>, b: seq<Token>, prefix: Option<string>)
    requires |LightTokens(a)| > 0 && |DarkTokens(b)| == 0
    ensures Merge(Rendered(a, prefix, Some("light")), Rendered(b, prefix, Some("dark")))
         == Header + (RootOpen + Decls(LightTokens(a), PrefixOption(prefix), "  ") + "}") + "\n\n\n"
  {
    TrimmedLightFile(a, prefix);
    DarkModeWithoutDark(b, prefix);
    MergeEmptyDark(Rendered(a, prefix, Some("light")), Header + (RootOpen + Decls(LightTokens(a), PrefixOption(prefix), "  ") + "}"));
  }

  lemma MergeEmptyDark(light: string, lightText: string)
    requires Trim(light) == lightText
    ensures Merge(light, "") == lightText + "\n\n\n"
  {
    assert !Contains("", "/**");
    StripHeaderWithoutComment("");
    TrimEmpty();
    assert Merge(light, "") == lightText + "\n\n" + "" + "\n";
  }
}
