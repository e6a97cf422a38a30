/** `buildAmbiguous` (packages/styles/scripts/generate-lint-mappings.js):
    the core colour tokens that stand for different semantic names depending
    on the context, each with its names in the order text, background,
    border. A `Set` is a duplicate-free sequence in insertion order. */
module Ambiguous {
  import opened Wrappers
  import opened Collections
  import opened ContextMappings
  import opened JsonValues

  /** `coreToSemantics[core].add(semantic)`, creating the set when the core
      token has none yet. */
  function Add(existing: Option<seq<string>>, semantic: string): seq<string> {
    var semantics := existing.GetOr([]);
    if semantic in semantics then semantics else semantics + [semantic]
  }

  /** One context's entries, in order, added to `coreToSemantics`. */
  function Collect(d: Dict<string, seq<string>>, entries: Dict<string, string>): Dict<string, seq<string>>
    decreases |entries|
  {
    if entries == [] then d
    else
      var before := Collect(d, entries[..|entries| - 1]);
      var (core, semantic) := entries[|entries| - 1];
      Put(before, core, Add(Get(before, core), semantic))
  }

  /** Several contexts' entries, one context after the other. */
  function CollectAll(contexts: seq<Dict<string, string>>): Dict<string, seq<string>>
    decreases |contexts|
  {
    if contexts == [] then [] else Collect(CollectAll(contexts[..|contexts| - 1]), contexts[|contexts| - 1])
  }

  /** The contexts in the order the script visits them. */
  function Contexts(m: Mappings): seq<Dict<string, string>> {
    [m.text, m.background, m.border]
  }

  /** The entries of `coreToSemantics` with more than one name, in order. */
  function KeepAmbiguous(coreToSemantics: Dict<string, seq<string>>): Dict<string, seq<string>>
    decreases |coreToSemantics|
  {
    if coreToSemantics == [] then []
    else
      var before := KeepAmbiguous(coreToSemantics[..|coreToSemantics| - 1]);
      var (core, semantics) := coreToSemantics[|coreToSemantics| - 1];
      if |semantics| > 1 then Put(before, core, semantics) else before
  }

  /** What `buildAmbiguous(mappings)` returns. */
  function AmbiguousOf(m: Mappings): Dict<string, seq<string>> {
    KeepAmbiguous(CollectAll(Contexts(m)))
  }

  /** `buildAmbiguous(mappings)`: collect every context's names per core
      token, then keep the core tokens with more than one. */
  method BuildAmbiguous(m: Mappings) returns (ambiguous: Dict<string, seq<string>>)
    ensures ambiguous == AmbiguousOf(m)
  {
    var contexts := Contexts(m);
    var coreToSemantics: Dict<string, seq<string>> := [];
    for c := 0 to |contexts|
      invariant coreToSemantics == CollectAll(contexts[..c])
    {
      assert contexts[..c + 1][..c] == contexts[..c];
      coreToSemantics := CollectContext(coreToSemantics, contexts[c]);
    }
    assert contexts[..|contexts|] == contexts;
    ambiguous := [];
    for i := 0 to |coreToSemantics|
      invariant ambiguous == KeepAmbiguous(coreToSemantics[..i])
    {
      var (core, semantics) := coreToSemantics[i];
      assert coreToSemantics[..i + 1][..i] == coreToSemantics[..i];
      if |semantics| > 1 {
        ambiguous := Put(ambiguous, core, semantics);
      }
    }
    assert coreToSemantics[..|coreToSemantics|] == coreToSemantics;
  }

  /** The inner loop of `buildAmbiguous` over one context's entries. */
  method CollectContext(start: Dict<string, seq<string>>, entries: Dict<string, string>)
    returns (coreToSemantics: Dict<string, seq<string>>)
    ensures coreToSemantics == Collect(start, entries)
  {
    coreToSemantics := start;
    for i := 0 to |entries|
      invariant coreToSemantics == Collect(start, entries[..i])
    {
      var (core, semantic) := entries[i];
      assert entries[..i + 1][..i] == entries[..i];
      var semantics := Get(coreToSemantics, core).GetOr([]);
      if semantic !in semantics {
        semantics := semantics + [semantic];
      }
      coreToSemantics := Put(coreToSemantics, core, semantics);
    }
    assert entries[..|entries|] == entries;
  }

  // ---------------------------------------------------------------------------
  // Dictionary facts for folds that visit entries from the front

  lemma GetSnoc<K(!new), V>(d: Dict<K, V>, e: (K, V), k: K)
    ensures Get(d + [e], k) == if Get(d, k).Some? then Get(d, k) else if e.0 == k then Some(e.1) else None
    decreases |d|
  {
    if d != [] {
      assert (d + [e])[1..] == d[1..] + [e];
      GetSnoc(d[1..], e, k);
    }
  }

  /** The last key of a dictionary with distinct keys is not among the earlier ones. */
  lemma LastKeyIsNew<K(!new), V>(d: Dict<K, V>)
    requires DistinctKeys(d) && d != []
    ensures DistinctKeys(d[..|d| - 1])
    ensures Get(d[..|d| - 1], d[|d| - 1].0).None?
    ensures d == d[..|d| - 1] + [d[|d| - 1]]
  {
    var p := d[..|d| - 1];
    assert forall i :: 0 <= i < |p| ==> KeysOf(p)[i] == KeysOf(d)[i];
    forall i | 0 <= i < |p|
      ensures KeysOf(p)[i] != d[|d| - 1].0
    {
      assert KeysOf(d)[i] != KeysOf(d)[|d| - 1];
    }
    GetSomeIffKey(p, d[|d| - 1].0);
  }

  /** After collecting one context with distinct core tokens, a core token's
      set has gained that context's name for it, if any. */
  lemma {:induction false} CollectGet(d: Dict<string, seq<string>>, entries: Dict<string, string>, core: string)
    requires DistinctKeys(entries)
    ensures Get(Collect(d, entries), core) ==
      match Get(entries, core)
      case None => Get(d, core)
      case Some(semantic) => Some(Add(Get(d, core), semantic))
    decreases |entries|
  {
    if entries != [] {
      var p := entries[..|entries| - 1];
      var e := entries[|entries| - 1];
      LastKeyIsNew(entries);
      CollectGet(d, p, core);
      GetSnoc(p, e, core);
    }
  }

  lemma {:induction false} CollectDistinct(d: Dict<string, seq<string>>, entries: Dict<string, string>)
    requires DistinctKeys(d)
    ensures DistinctKeys(Collect(d, entries))
    decreases |entries|
  {
    if entries != [] {
      var before := Collect(d, entries[..|entries| - 1]);
      CollectDistinct(d, entries[..|entries| - 1]);
      var (core, semantic) := entries[|entries| - 1];
      PutKeepsDistinct(before, core, Add(Get(before, core), semantic));
    }
  }

  lemma {:induction false} KeepAmbiguousGet(d: Dict<string, seq<string>>, core: string)
    requires DistinctKeys(d)
    ensures Get(KeepAmbiguous(d), core) ==
      if Get(d, core).Some? && |Get(d, core).value| > 1 then Get(d, core) else None
    decreases |d|
  {
    if d != [] {
      var p := d[..|d| - 1];
      var e := d[|d| - 1];
      LastKeyIsNew(d);
      KeepAmbiguousGet(p, core);
      GetSnoc(p, e, core);
    }
  }

  // ---------------------------------------------------------------------------
  // What buildAmbiguous computes

  /** A present name as a list of zero or one names. */
  function Named(o: Option<string>): seq<string> {
    if o.Some? then [o.value] else []
  }

  /** The names a core token has in text, background and border, in that order. */
  function NamesOf(m: Mappings, core: string): seq<string> {
    Named(Get(m.text, core)) + Named(Get(m.background, core)) + Named(Get(m.border, core))
  }

  /** A set built from `names` in order, or no set when there are none. */
  function Gathered(names: seq<string>): Option<seq<string>> {
    if names == [] then None else Some(Dedup(names))
  }

  lemma AddGathered(names: seq<string>, semantic: string)
    ensures Some(Add(Gathered(names), semantic)) == Gathered(names + [semantic])
  {
    assert (names + [semantic])[..|names|] == names;
  }

  lemma CollectNamed(d: Dict<string, seq<string>>, entries: Dict<string, string>, core: string, names: seq<string>)
    requires DistinctKeys(entries) && Get(d, core) == Gathered(names)
    ensures Get(Collect(d, entries), core) == Gathered(names + Named(Get(entries, core)))
  {
    CollectGet(d, entries, core);
    if Get(entries, core).Some? {
      AddGathered(names, Get(entries, core).value);
    } else {
      assert names + [] == names;
    }
  }

  /** Once the three context maps each have distinct core tokens,
      `coreToSemantics[core]` is the set of the core token's names in the
      order text, background, border, and it exists iff there is one. */
  lemma CoreToSemanticsGet(m: Mappings, core: string)
    requires DistinctKeys(m.text) && DistinctKeys(m.background) && DistinctKeys(m.border)
    ensures Get(CollectAll(Contexts(m)), core) == Gathered(NamesOf(m, core))
    ensures DistinctKeys(CollectAll(Contexts(m)))
  {
    var cs := Contexts(m);
    assert cs[..0] == [] && cs[..1][..0] == [] && cs[..2][..1] == cs[..1] && cs[..3][..2] == cs[..2];
    assert CollectAll(cs[..1]) == Collect([], m.text);
    assert CollectAll(cs[..2]) == Collect(CollectAll(cs[..1]), m.background);
    assert cs[..3] == cs;
    var t := Named(Get(m.text, core));
    var b := Named(Get(m.background, core));
    assert [] + t == t;
    CollectNamed([], m.text, core, []);
    CollectNamed(CollectAll(cs[..1]), m.background, core, t);
    CollectNamed(CollectAll(cs[..2]), m.border, core, t + b);
    CollectDistinct([], m.text);
    CollectDistinct(CollectAll(cs[..1]), m.background);
    CollectDistinct(CollectAll(cs[..2]), m.border);
  }

  /** `ambiguous[core]` is the core token's distinct names in the order
      text, background, border, present exactly when there are two or more. */
  lemma AmbiguousEntry(m: Mappings, core: string)
    requires DistinctKeys(m.text) && DistinctKeys(m.background) && DistinctKeys(m.border)
    ensures Get(AmbiguousOf(m), core) ==
      if |Dedup(NamesOf(m, core))| > 1 then Some(Dedup(NamesOf(m, core))) else None
  {
    CoreToSemanticsGet(m, core);
    KeepAmbiguousGet(CollectAll(Contexts(m)), core);
  }

  /** Two or more distinct elements survive `Dedup` exactly when the list has
      two different elements. */
  lemma DedupMany(s: seq<string>)
    ensures |Dedup(s)| > 1 <==> exists i, j :: 0 <= i < |s| && 0 <= j < |s| && s[i] != s[j]
  {
    var r := Dedup(s);
    if |r| > 1 {
      assert r[0] in s && r[1] in s;
      var i :| 0 <= i < |s| && s[i] == r[0];
      var j :| 0 <= j < |s| && s[j] == r[1];
      assert s[i] != s[j];
    }
    if exists i, j :: 0 <= i < |s| && 0 <= j < |s| && s[i] != s[j] {
      var i, j :| 0 <= i < |s| && 0 <= j < |s| && s[i] != s[j];
      assert s[i] in r && s[j] in r;
      var a :| 0 <= a < |r| && r[a] == s[i];
      var b :| 0 <= b < |r| && r[b] == s[j];
      assert a != b;
    }
  }

  /** A core token is listed iff two contexts give it different names; its
      list is duplicate-free, holds two or three names, and comes in the order
      text, background, border. */
  lemma AmbiguousShape(m: Mappings, core: string)
    requires DistinctKeys(m.text) && DistinctKeys(m.background) && DistinctKeys(m.border)
    ensures var names := NamesOf(m, core);
      && (Get(AmbiguousOf(m), core).Some? <==>
            exists i, j :: 0 <= i < |names| && 0 <= j < |names| && names[i] != names[j])
      && (Get(AmbiguousOf(m), core).Some? ==>
            var list := Get(AmbiguousOf(m), core).value;
            Distinct(list) && 2 <= |list| <= 3 && list == Dedup(names))
  {
    AmbiguousEntry(m, core);
    DedupMany(NamesOf(m, core));
  }

  /** A core token named identically in every context that has it is never
      ambiguous. */
  lemma SameNameNotAmbiguous(m: Mappings, core: string, name: string)
    requires DistinctKeys(m.text) && DistinctKeys(m.background) && DistinctKeys(m.border)
    requires forall x :: x in NamesOf(m, core) ==> x == name
    ensures Get(AmbiguousOf(m), core).None?
  {
    AmbiguousShape(m, core);
    var names := NamesOf(m, core);
    forall i, j | 0 <= i < |names| && 0 <= j < |names|
      ensures names[i] == names[j]
    {
      assert names[i] in names && names[j] in names;
    }
  }

  /** The script's own pipeline: for every semantic token tree it does not
      throw on, each ambiguous list has the shape above. */
  lemma BuiltAmbiguousShape(semanticTokens: Json, core: string)
    requires ContextMappingsOf(semanticTokens).Success?
    ensures var m := ContextMappingsOf(semanticTokens).value;
      Get(AmbiguousOf(m), core).Some? ==>
        var list := Get(AmbiguousOf(m), core).value;
        Distinct(list) && 2 <= |list| <= 3 && list == Dedup(NamesOf(m, core))
  {
    ContextMappingsWellFormed(semanticTokens);
    AmbiguousShape(ContextMappingsOf(semanticTokens).value, core);
  }
}
