/** `buildHexToCore` (packages/styles/scripts/generate-lint-mappings.js):
    from the core token tree, a map per colour group from lower-case hex value
    to the core token name that has it, such as `grey-900` or `white`. */
module HexToCore {
  import opened Wrappers
  import opened Strings
  import opened Collections
  import opened JsonValues

  /** Lower-case hex value to core token name. */
  type Group = Dict<string, string>

  /** Group key to group, in the order `colorGroups` declares them. */
  type Groups = Dict<string, Group>

  /** The keys of `colorGroups`. */
  const GroupNames: seq<string> :=
    ["neutrals", "blues", "greens", "reds", "yellows", "purples", "mercury",
     "forest", "lime", "magenta", "pink", "salmon", "sky", "teal"]

  /** The keys of `familyToGroup`; family `Families[i]` goes to group
      `GroupNames[i]`. */
  const Families: seq<string> :=
    ["grey", "blue", "green", "red", "yellow", "purple", "mercury",
     "forest", "lime", "magenta", "pink", "salmon", "sky", "teal"]

  function FamilyIndex(family: string, i: nat): (r: Option<nat>)
    requires i <= |Families|
    ensures r.Some? ==> i <= r.value < |Families| && Families[r.value] == family
    ensures r.None? ==> forall j :: i <= j < |Families| ==> Families[j] != family
    decreases |Families| - i
  {
    if i == |Families| then None
    else if Families[i] == family then Some(i)
    else FamilyIndex(family, i + 1)
  }

  /** `familyToGroup[family]` */
  function FamilyGroup(family: string): (r: Option<string>)
    ensures r.Some? <==> family in Families
    ensures r.Some? ==> exists i :: 0 <= i < |Families| && Families[i] == family && GroupNames[i] == r.value
  {
    match FamilyIndex(family, 0)
    case None => None
    case Some(i) => Some(GroupNames[i])
  }

  /** The fourteen empty groups. */
  function EmptyGroups(): (groups: Groups)
    ensures KeysOf(groups) == GroupNames
    ensures forall k :: 0 <= k < |groups| ==> groups[k].1 == []
  {
    seq(|GroupNames|, i requires 0 <= i < |GroupNames| => (GroupNames[i], []))
  }

  /** `colorGroups[groupKey][hex] = name` */
  function SetHex(groups: Groups, groupKey: string, hex: string, name: string): Groups {
    Put(groups, groupKey, Put(Get(groups, groupKey).GetOr([]), hex, name))
  }

  /** The `white` or `black` entry: its value, if truthy, goes to `neutrals`
      under the entry's own name. */
  function Special(groups: Groups, colors: Json, name: string): Result<Groups, string>
    requires !colors.JNull?
  {
    var value := OptProp(Prop(colors, name), "value");
    if !TruthyOpt(value) then Success(groups)
    else match LowerValue(value.value)
      case Failure(e) => Failure(e)
      case Success(hex) => Success(SetHex(groups, "neutrals", hex, name))
  }

  /** One shade of a family: a colour token is recorded as `<family>-<shade>`. */
  function ShadeStep(groups: Groups, groupKey: string, family: string, shade: string, tokenData: Json): Result<Groups, string> {
    var value := OptProp(Some(tokenData), "value");
    if TruthyOpt(value) && OptProp(Some(tokenData), "type") == Some(JStr("color")) then
      match LowerValue(value.value)
      case Failure(e) => Failure(e)
      case Success(hex) => Success(SetHex(groups, groupKey, hex, family + "-" + shade))
    else Success(groups)
  }

  /** The number of `Object.entries` of a family's shades. */
  function ShadeCount(shades: Json): nat {
    match shades
    case JObj(fields) => |fields|
    case JArr(items) => |items|
    case _ => 0
  }

  /** The `i`-th entry of a family's shades: an array's keys are its indices. */
  function ShadeEntry(shades: Json, i: nat): (string, Json)
    requires i < ShadeCount(shades)
  {
    match shades
    case JObj(fields) => fields[i]
    case JArr(items) => (IndexKey(i), items[i])
  }

  /** The first `n` shades of a family, in order. */
  function FoldShades(groups: Groups, groupKey: string, family: string, shades: Json, n: nat): Result<Groups, string>
    requires n <= ShadeCount(shades)
  {
    if n == 0 then Success(groups)
    else match FoldShades(groups, groupKey, family, shades, n - 1)
      case Failure(e) => Failure(e)
      case Success(g) => ShadeStep(g, groupKey, family, ShadeEntry(shades, n - 1).0, ShadeEntry(shades, n - 1).1)
  }

  /** One entry of `colors`: families outside `familyToGroup` and values that
      are not objects are skipped; `null` shades make `Object.entries` throw. */
  function FamilyStep(groups: Groups, family: string, shades: Json): Result<Groups, string> {
    match FamilyGroup(family)
    case None => Success(groups)
    case Some(groupKey) =>
      if !IsObjectType(shades) then Success(groups)
      else if shades.JNull? then Failure("TypeError")
      else FoldShades(groups, groupKey, family, shades, ShadeCount(shades))
  }

  function FoldFamilies(groups: Groups, families: Dict<string, Json>): Result<Groups, string>
    decreases |families|
  {
    if families == [] then Success(groups)
    else match FoldFamilies(groups, families[..|families| - 1])
      case Failure(e) => Failure(e)
      case Success(g) => FamilyStep(g, families[|families| - 1].0, families[|families| - 1].1)
  }

  /** The families `Object.entries(colors)` visits. Only an object's keys can
      be family names (an array's or a string's keys are digits). */
  function FamilyEntries(colors: Json): Dict<string, Json> {
    if colors.JObj? then colors.fields else []
  }

  /** What `buildHexToCore(coreTokens)` returns, or the error it throws. */
  function HexToCore(coreTokens: Json): Result<Groups, string> {
    match Member(coreTokens, "color")
    case Failure(e) => Failure(e)
    case Success(colors) =>
      if !TruthyOpt(colors) then Success(EmptyGroups())
      else match Special(EmptyGroups(), colors.value, "white")
        case Failure(e) => Failure(e)
        case Success(g1) =>
          match Special(g1, colors.value, "black")
          case Failure(e) => Failure(e)
          case Success(g2) => FoldFamilies(g2, FamilyEntries(colors.value))
  }

  // ---------------------------------------------------------------------------
  // The script's loops

  lemma {:induction false} ShadesFailureSticks(groups: Groups, groupKey: string, family: string, shades: Json, i: nat, n: nat)
    requires i <= n <= ShadeCount(shades)
    requires FoldShades(groups, groupKey, family, shades, i).Failure?
    ensures FoldShades(groups, groupKey, family, shades, n) == FoldShades(groups, groupKey, family, shades, i)
    decreases n - i
  {
    if i < n {
      ShadesFailureSticks(groups, groupKey, family, shades, i, n - 1);
    }
  }

  lemma {:induction false} FamiliesFailureSticks(groups: Groups, families: Dict<string, Json>, i: nat)
    requires i <= |families|
    requires FoldFamilies(groups, families[..i]).Failure?
    ensures FoldFamilies(groups, families) == FoldFamilies(groups, families[..i])
    decreases |families| - i
  {
    if i < |families| {
      assert families[..|families| - 1][..i] == families[..i];
      FamiliesFailureSticks(groups, families[..|families| - 1], i);
      assert families[..|families|] == families;
    } else {
      assert families[..i] == families;
    }
  }

  /** The shades loop of one family, from `groups`. */
  method AddShades(groups: Groups, groupKey: string, family: string, shades: Json) returns (r: Result<Groups, string>)
    ensures r == FoldShades(groups, groupKey, family, shades, ShadeCount(shades))
  {
    var colorGroups := groups;
    for j := 0 to ShadeCount(shades)
      invariant FoldShades(groups, groupKey, family, shades, j) == Success(colorGroups)
    {
      var (shade, tokenData) := ShadeEntry(shades, j);
      var value := OptProp(Some(tokenData), "value");
      if TruthyOpt(value) && OptProp(Some(tokenData), "type") == Some(JStr("color")) {
        if !value.value.JStr? {
          ShadesFailureSticks(groups, groupKey, family, shades, j + 1, ShadeCount(shades));
          return Failure("TypeError");
        }
        var hex := Lower(value.value.s);
        var tokenName := family + "-" + shade;
        colorGroups := SetHex(colorGroups, groupKey, hex, tokenName);
      }
    }
    return Success(colorGroups);
  }

  /** `buildHexToCore(coreTokens)` */
  method BuildHexToCore(coreTokens: Json) returns (r: Result<Groups, string>)
    ensures r == HexToCore(coreTokens)
  {
    var colorGroups := EmptyGroups();
    if coreTokens.JNull? {
      return Failure("TypeError");
    }
    var colors := Prop(coreTokens, "color");
    if !TruthyOpt(colors) {
      return Success(colorGroups);
    }
    var white := OptProp(Prop(colors.value, "white"), "value");
    if TruthyOpt(white) {
      if !white.value.JStr? {
        return Failure("TypeError");
      }
      colorGroups := SetHex(colorGroups, "neutrals", Lower(white.value.s), "white");
    }
    var black := OptProp(Prop(colors.value, "black"), "value");
    if TruthyOpt(black) {
      if !black.value.JStr? {
        return Failure("TypeError");
      }
      colorGroups := SetHex(colorGroups, "neutrals", Lower(black.value.s), "black");
    }
    r := AddFamilies(colorGroups, FamilyEntries(colors.value));
  }

  /** The loop over the entries of `colors`, from `start`. */
  method AddFamilies(start: Groups, families: Dict<string, Json>) returns (r: Result<Groups, string>)
    ensures r == FoldFamilies(start, families)
  {
    var colorGroups := start;
    for i := 0 to |families|
      invariant FoldFamilies(start, families[..i]) == Success(colorGroups)
    {
      var (family, shades) := families[i];
      assert families[..i + 1][..i] == families[..i];
      var groupKey := FamilyGroup(family);
      if groupKey.Some? && IsObjectType(shades) {
        if shades.JNull? {
          FamiliesFailureSticks(start, families, i + 1);
          return Failure("TypeError");
        }
        var next := AddShades(colorGroups, groupKey.value, family, shades);
        if next.Failure? {
          FamiliesFailureSticks(start, families, i + 1);
          return next;
        }
        colorGroups := next.value;
      }
    }
    assert families[..|families|] == families;
    return Success(colorGroups);
  }

  // ---------------------------------------------------------------------------
  // What the groups hold

  /** The names a group may record: `white` and `black` in `neutrals`, and
      otherwise `<family>-<shade>` for a family mapped to that group. */
  predicate NameFrom(groupKey: string, name: string) {
    (groupKey == "neutrals" && (name == "white" || name == "black"))
    || exists i :: 0 <= i < |Families| && GroupNames[i] == groupKey && Families[i] + "-" <= name
  }

  /** Exactly the fourteen group keys, in order; every hex key is lower case
      and every name comes from a family of its group (or is white or black). */
  predicate WellFormed(groups: Groups) {
    KeysOf(groups) == GroupNames
    && forall k :: 0 <= k < |groups| ==>
         forall e :: e in groups[k].1 ==> IsLower(e.0) && NameFrom(groups[k].0, e.1)
  }

  /** `groups[groupKey][hex]` is defined. */
  predicate HasHex(groups: Groups, groupKey: string, hex: string) {
    Get(groups, groupKey).Some? && Get(Get(groups, groupKey).value, hex).Some?
  }

  /** Every hex recorded in `a` is still recorded in `b`. */
  ghost predicate Grows(a: Groups, b: Groups) {
    forall groupKey, hex :: HasHex(a, groupKey, hex) ==> HasHex(b, groupKey, hex)
  }

  lemma FoldShadesUnfold(groups: Groups, groupKey: string, family: string, shades: Json, n: nat)
    requires 0 < n <= ShadeCount(shades) && FoldShades(groups, groupKey, family, shades, n - 1).Success?
    ensures FoldShades(groups, groupKey, family, shades, n)
         == ShadeStep(FoldShades(groups, groupKey, family, shades, n - 1).value, groupKey, family,
                      ShadeEntry(shades, n - 1).0, ShadeEntry(shades, n - 1).1)
  {
  }

  lemma GrowsTransitive(a: Groups, b: Groups, c: Groups)
    requires Grows(a, b) && Grows(b, c)
    ensures Grows(a, c)
  {
  }

  lemma SetHexWellFormed(groups: Groups, groupKey: string, hex: string, name: string)
    requires WellFormed(groups)
    requires groupKey in GroupNames && IsLower(hex) && NameFrom(groupKey, name)
    ensures WellFormed(SetHex(groups, groupKey, hex, name))
    ensures Grows(groups, SetHex(groups, groupKey, hex, name))
    ensures HasHex(SetHex(groups, groupKey, hex, name), groupKey, hex)
  {
    var inner := Get(groups, groupKey).GetOr([]);
    var newInner := Put(inner, hex, name);
    var result := SetHex(groups, groupKey, hex, name);
    GetSomeIffKey(groups, groupKey);
    GetFound(groups, groupKey);
    PutSameKeys(groups, groupKey, newInner);
    PutEntries(groups, groupKey, newInner);
    PutEntries(inner, hex, name);
    forall k | 0 <= k < |result|
      ensures forall e :: e in result[k].1 ==> IsLower(e.0) && NameFrom(result[k].0, e.1)
    {
      assert result[k] in result;
      if result[k] != (groupKey, newInner) {
        var j :| 0 <= j < |groups| && groups[j] == result[k];
      } else {
        forall e | e in newInner
          ensures IsLower(e.0) && NameFrom(groupKey, e.1)
        {
          if e != (hex, name) {
            assert (groupKey, inner) in groups;
            var j :| 0 <= j < |groups| && groups[j] == (groupKey, inner);
          }
        }
      }
    }
  }

  /** A shade whose `value` is a truthy string and whose `type` is `color`. */
  predicate IsColorLeaf(tokenData: Json) {
    var value := OptProp(Some(tokenData), "value");
    TruthyOpt(value) && value.value.JStr? && OptProp(Some(tokenData), "type") == Some(JStr("color"))
  }

  /** The lower-cased `value` of a colour leaf. */
  function LeafHex(tokenData: Json): string
    requires IsColorLeaf(tokenData)
  {
    Lower(OptProp(Some(tokenData), "value").value.s)
  }

  /** `groups[groupKey][hex]`, when both are defined. */
  function NameAt(groups: Groups, groupKey: string, hex: string): Option<string> {
    match Get(groups, groupKey)
    case None => None
    case Some(group) => Get(group, hex)
  }

  /** A colour leaf is stored, lower-cased, under its family's group as
      `<family>-<shade>`; a colour-typed truthy value that is not a string
      throws; any other shade changes nothing. */
  lemma ShadeStepWellFormed(groups: Groups, groupKey: string, family: string, shade: string, tokenData: Json)
    requires WellFormed(groups) && FamilyGroup(family) == Some(groupKey)
    ensures var r := ShadeStep(groups, groupKey, family, shade, tokenData);
      r.Success? ==> WellFormed(r.value) && Grows(groups, r.value)
    ensures var r := ShadeStep(groups, groupKey, family, shade, tokenData);
      IsColorLeaf(tokenData) ==> r.Success? && NameAt(r.value, groupKey, LeafHex(tokenData)) == Some(family + "-" + shade)
    ensures var value := OptProp(Some(tokenData), "value");
      !IsColorLeaf(tokenData) ==>
        if TruthyOpt(value) && OptProp(Some(tokenData), "type") == Some(JStr("color"))
        then ShadeStep(groups, groupKey, family, shade, tokenData).Failure?
        else ShadeStep(groups, groupKey, family, shade, tokenData) == Success(groups)
  {
    var value := OptProp(Some(tokenData), "value");
    if IsColorLeaf(tokenData) {
      var i :| 0 <= i < |Families| && Families[i] == family && GroupNames[i] == groupKey;
      assert Families[i] + "-" <= family + "-" + shade;
      LowerIsLower(value.value.s);
      SetHexWellFormed(groups, groupKey, Lower(value.value.s), family + "-" + shade);
    }
  }

  lemma {:induction false} FoldShadesWellFormed(groups: Groups, groupKey: string, family: string, shades: Json, n: nat)
    requires n <= ShadeCount(shades)
    requires WellFormed(groups) && FamilyGroup(family) == Some(groupKey)
    ensures var r := FoldShades(groups, groupKey, family, shades, n);
      r.Success? ==> WellFormed(r.value) && Grows(groups, r.value)
    decreases n
  {
    if n > 0 {
      FoldShadesWellFormed(groups, groupKey, family, shades, n - 1);
      var prev := FoldShades(groups, groupKey, family, shades, n - 1);
      if prev.Success? {
        FoldShadesUnfold(groups, groupKey, family, shades, n);
        ShadeStepWellFormed(prev.value, groupKey, family, ShadeEntry(shades, n - 1).0, ShadeEntry(shades, n - 1).1);
        var r := FoldShades(groups, groupKey, family, shades, n);
        if r.Success? {
          GrowsTransitive(groups, prev.value, r.value);
        }
      }
    }
  }

  lemma {:induction false} FoldFamiliesWellFormed(groups: Groups, families: Dict<string, Json>)
    requires WellFormed(groups)
    ensures var r := FoldFamilies(groups, families);
      r.Success? ==> WellFormed(r.value) && Grows(groups, r.value)
    decreases |families|
  {
    if families != [] {
      var prefix := families[..|families| - 1];
      FoldFamiliesWellFormed(groups, prefix);
      var prev := FoldFamilies(groups, prefix);
      var (family, shades) := families[|families| - 1];
      if prev.Success? && FamilyGroup(family).Some? && IsObjectType(shades) && !shades.JNull? {
        FoldShadesWellFormed(prev.value, FamilyGroup(family).value, family, shades, ShadeCount(shades));
      }
    }
  }

  lemma SpecialWellFormed(groups: Groups, colors: Json, name: string)
    requires !colors.JNull? && WellFormed(groups)
    requires name == "white" || name == "black"
    ensures var r := Special(groups, colors, name);
      r.Success? ==> WellFormed(r.value) && Grows(groups, r.value)
    ensures var value := OptProp(Prop(colors, name), "value");
      TruthyOpt(value) && value.value.JStr? ==>
        && HasHex(Special(groups, colors, name).value, "neutrals", Lower(value.value.s))
        && NameAt(Special(groups, colors, name).value, "neutrals", Lower(value.value.s)) == Some(name)
  {
    var value := OptProp(Prop(colors, name), "value");
    if TruthyOpt(value) && value.value.JStr? {
      LowerIsLower(value.value.s);
      SetHexWellFormed(groups, "neutrals", Lower(value.value.s), name);
    }
  }

  /** Whatever the input, a successful result has exactly the fourteen group
      keys, lower-case hex keys, and names that come from `white`, `black`
      or a family listed for that group. */
  lemma HexToCoreWellFormed(coreTokens: Json)
    ensures var r := HexToCore(coreTokens);
      r.Success? ==> WellFormed(r.value) && KeysOf(r.value) == GroupNames
  {
    var empty := EmptyGroups();
    assert WellFormed(empty);
    if !coreTokens.JNull? {
      var colors := Prop(coreTokens, "color");
      if TruthyOpt(colors) {
        SpecialWellFormed(empty, colors.value, "white");
        var g1 := Special(empty, colors.value, "white");
        if g1.Success? {
          SpecialWellFormed(g1.value, colors.value, "black");
          var g2 := Special(g1.value, colors.value, "black");
          if g2.Success? {
            FoldFamiliesWellFormed(g2.value, FamilyEntries(colors.value));
          }
        }
      }
    }
  }

  /** Without a truthy `color` the fourteen groups come back empty; a `null`
      token tree makes the script throw. */
  lemma NoColorsNoEntries(coreTokens: Json)
    ensures coreTokens.JNull? ==> HexToCore(coreTokens).Failure?
    ensures !coreTokens.JNull? && !TruthyOpt(Prop(coreTokens, "color")) ==>
              HexToCore(coreTokens) == Success(EmptyGroups())
  {
  }

  /** A truthy string value of `color.white` (or `color.black`) is always
      recorded, lower-cased, in `neutrals`; a later shade with the same hex
      may take over the name but never removes the entry. */
  lemma SpecialColourRecorded(coreTokens: Json, name: string)
    requires name == "white" || name == "black"
    requires !coreTokens.JNull? && TruthyOpt(Prop(coreTokens, "color"))
    requires HexToCore(coreTokens).Success?
    ensures var value := OptProp(Prop(Prop(coreTokens, "color").value, name), "value");
      TruthyOpt(value) && value.value.JStr? ==> HasHex(HexToCore(coreTokens).value, "neutrals", Lower(value.value.s))
  {
    var empty := EmptyGroups();
    assert WellFormed(empty);
    var colors := Prop(coreTokens, "color").value;
    SpecialWellFormed(empty, colors, "white");
    var g1 := Special(empty, colors, "white").value;
    SpecialWellFormed(g1, colors, "black");
    var g2 := Special(g1, colors, "black").value;
    FoldFamiliesWellFormed(g2, FamilyEntries(colors));
  }

  // ---------------------------------------------------------------------------
  // Where each entry comes from, and which leaves are recorded

  /** `colors[name].value`, for `white` or `black`, is a truthy string whose
      lower-case form is `hex`. */
  predicate SpecialOrigin(colors: Json, hex: string, name: string) {
    && !colors.JNull?
    && (name == "white" || name == "black")
    && var value := OptProp(Prop(colors, name), "value");
       TruthyOpt(value) && value.value.JStr? && Lower(value.value.s) == hex
  }

  /** Some shade of `family` (mapped to `groupKey`) is a colour leaf with this
      hex, and `name` is `<family>-<shade>`. */
  predicate ShadeOrigin(family: string, shades: Json, groupKey: string, hex: string, name: string) {
    && FamilyGroup(family) == Some(groupKey)
    && exists k :: 0 <= k < ShadeCount(shades) && IsColorLeaf(ShadeEntry(shades, k).1)
         && LeafHex(ShadeEntry(shades, k).1) == hex && name == family + "-" + ShadeEntry(shades, k).0
  }

  /** An entry `hex -> name` of group `groupKey` can be explained by `colors`. */
  predicate Origin(colors: Json, groupKey: string, hex: string, name: string) {
    (groupKey == "neutrals" && SpecialOrigin(colors, hex, name))
    || exists e :: e in FamilyEntries(colors) && ShadeOrigin(e.0, e.1, groupKey, hex, name)
  }

  /** Every entry of every group can be explained by `colors`. */
  predicate Sound(colors: Json, groups: Groups) {
    forall k :: 0 <= k < |groups| ==>
      forall e :: e in groups[k].1 ==> Origin(colors, groups[k].0, e.0, e.1)
  }

  lemma SetHexSound(colors: Json, groups: Groups, groupKey: string, hex: string, name: string)
    requires Sound(colors, groups) && Origin(colors, groupKey, hex, name)
    ensures Sound(colors, SetHex(groups, groupKey, hex, name))
  {
    var inner := Get(groups, groupKey).GetOr([]);
    var newInner := Put(inner, hex, name);
    var result := SetHex(groups, groupKey, hex, name);
    GetFound(groups, groupKey);
    PutEntries(groups, groupKey, newInner);
    PutEntries(inner, hex, name);
    forall k | 0 <= k < |result|
      ensures forall e :: e in result[k].1 ==> Origin(colors, result[k].0, e.0, e.1)
    {
      assert result[k] in result;
      if result[k] != (groupKey, newInner) {
        var j :| 0 <= j < |groups| && groups[j] == result[k];
      } else {
        forall e | e in newInner
          ensures Origin(colors, groupKey, e.0, e.1)
        {
          if e != (hex, name) {
            var j :| 0 <= j < |groups| && groups[j] == (groupKey, inner);
          }
        }
      }
    }
  }

  lemma SpecialSound(colors: Json, groups: Groups, name: string)
    requires !colors.JNull? && Sound(colors, groups)
    requires name == "white" || name == "black"
    ensures var r := Special(groups, colors, name);
      r.Success? ==> Sound(colors, r.value)
  {
    var value := OptProp(Prop(colors, name), "value");
    if TruthyOpt(value) && value.value.JStr? {
      assert SpecialOrigin(colors, Lower(value.value.s), name);
      SetHexSound(colors, groups, "neutrals", Lower(value.value.s), name);
    }
  }

  /** A colour leaf of a family of `colors` explains its own entry. */
  lemma LeafOrigin(colors: Json, family: string, shades: Json, groupKey: string, k: nat)
    requires (family, shades) in FamilyEntries(colors) && FamilyGroup(family) == Some(groupKey)
    requires k < ShadeCount(shades) && IsColorLeaf(ShadeEntry(shades, k).1)
    ensures Origin(colors, groupKey, LeafHex(ShadeEntry(shades, k).1), family + "-" + ShadeEntry(shades, k).0)
  {
    assert ShadeOrigin(family, shades, groupKey, LeafHex(ShadeEntry(shades, k).1), family + "-" + ShadeEntry(shades, k).0);
  }

  lemma {:induction false} FoldShadesSound(colors: Json, groups: Groups, groupKey: string, family: string, shades: Json, n: nat)
    requires n <= ShadeCount(shades) && Sound(colors, groups)
    requires (family, shades) in FamilyEntries(colors) && FamilyGroup(family) == Some(groupKey)
    ensures var r := FoldShades(groups, groupKey, family, shades, n);
      r.Success? ==> Sound(colors, r.value)
    decreases n
  {
    if n > 0 {
      FoldShadesSound(colors, groups, groupKey, family, shades, n - 1);
      var prev := FoldShades(groups, groupKey, family, shades, n - 1);
      if prev.Success? {
        assert FoldShades(groups, groupKey, family, shades, n)
            == ShadeStep(prev.value, groupKey, family, ShadeEntry(shades, n - 1).0, ShadeEntry(shades, n - 1).1);
        ShadeStepSound(colors, prev.value, groupKey, family, shades, n - 1);
      }
    }
  }

  lemma ShadeStepSound(colors: Json, groups: Groups, groupKey: string, family: string, shades: Json, k: nat)
    requires Sound(colors, groups)
    requires (family, shades) in FamilyEntries(colors) && FamilyGroup(family) == Some(groupKey)
    requires k < ShadeCount(shades)
    ensures var r := ShadeStep(groups, groupKey, family, ShadeEntry(shades, k).0, ShadeEntry(shades, k).1);
      r.Success? ==> Sound(colors, r.value)
  {
    var entry := ShadeEntry(shades, k);
    ShadeStepResult(groups, groupKey, family, entry.0, entry.1);
    if IsColorLeaf(entry.1) {
      LeafStepSound(colors, groups, groupKey, family, shades, k);
    }
  }

  lemma LeafStepSound(colors: Json, groups: Groups, groupKey: string, family: string, shades: Json, k: nat)
    requires Sound(colors, groups)
    requires (family, shades) in FamilyEntries(colors) && FamilyGroup(family) == Some(groupKey)
    requires k < ShadeCount(shades) && IsColorLeaf(ShadeEntry(shades, k).1)
    ensures Sound(colors, SetHex(groups, groupKey, LeafHex(ShadeEntry(shades, k).1), family + "-" + ShadeEntry(shades, k).0))
  {
    LeafOrigin(colors, family, shades, groupKey, k);
    SetHexSound(colors, groups, groupKey, LeafHex(ShadeEntry(shades, k).1), family + "-" + ShadeEntry(shades, k).0);
  }

  /** A step that succeeds stores a colour leaf and leaves anything else alone. */
  lemma ShadeStepResult(groups: Groups, groupKey: string, family: string, shade: string, tokenData: Json)
    ensures var r := ShadeStep(groups, groupKey, family, shade, tokenData);
      r.Success? ==>
        r.value == if IsColorLeaf(tokenData) then SetHex(groups, groupKey, LeafHex(tokenData), family + "-" + shade) else groups
  {
  }

  lemma {:induction false} FoldFamiliesSound(colors: Json, groups: Groups, families: Dict<string, Json>)
    requires Sound(colors, groups)
    requires forall e :: e in families ==> e in FamilyEntries(colors)
    ensures var r := FoldFamilies(groups, families);
      r.Success? ==> Sound(colors, r.value)
    decreases |families|
  {
    if families != [] {
      var prefix := families[..|families| - 1];
      FoldFamiliesSound(colors, groups, prefix);
      var prev := FoldFamilies(groups, prefix);
      var (family, shades) := families[|families| - 1];
      assert (family, shades) in families;
      if prev.Success? && FamilyGroup(family).Some? && IsObjectType(shades) && !shades.JNull? {
        FoldShadesSound(colors, prev.value, FamilyGroup(family).value, family, shades, ShadeCount(shades));
      }
    }
  }

  /** Every entry of a result is explained by the `color` tree: `white` or
      `black` in `neutrals` with that lower-cased value, or a colour leaf of a
      family mapped to that group, with its lower-cased value as the hex and
      `<family>-<shade>` as the name. */
  lemma HexToCoreSound(coreTokens: Json)
    ensures var r := HexToCore(coreTokens);
      r.Success? ==> forall k :: 0 <= k < |r.value| ==>
        forall e :: e in r.value[k].1 ==>
          && !coreTokens.JNull? && TruthyOpt(Prop(coreTokens, "color"))
          && Origin(Prop(coreTokens, "color").value, r.value[k].0, e.0, e.1)
  {
    if !coreTokens.JNull? {
      var colors := Prop(coreTokens, "color");
      if TruthyOpt(colors) {
        var empty := EmptyGroups();
        assert Sound(colors.value, empty);
        SpecialSound(colors.value, empty, "white");
        var g1 := Special(empty, colors.value, "white");
        if g1.Success? {
          SpecialSound(colors.value, g1.value, "black");
          var g2 := Special(g1.value, colors.value, "black");
          if g2.Success? {
            FoldFamiliesSound(colors.value, g2.value, FamilyEntries(colors.value));
          }
        }
      }
    }
  }

  /** Later shades keep what the first `i` stored. */
  lemma {:induction false} ShadesGrowFrom(groups: Groups, groupKey: string, family: string, shades: Json, i: nat, n: nat)
    requires i <= n <= ShadeCount(shades)
    requires WellFormed(groups) && FamilyGroup(family) == Some(groupKey)
    requires FoldShades(groups, groupKey, family, shades, n).Success?
    ensures FoldShades(groups, groupKey, family, shades, i).Success?
    ensures Grows(FoldShades(groups, groupKey, family, shades, i).value, FoldShades(groups, groupKey, family, shades, n).value)
    decreases n - i
  {
    if i < n {
      var prev := FoldShades(groups, groupKey, family, shades, n - 1);
      ShadesGrowFrom(groups, groupKey, family, shades, i, n - 1);
      FoldShadesWellFormed(groups, groupKey, family, shades, n - 1);
      ShadeStepWellFormed(prev.value, groupKey, family, ShadeEntry(shades, n - 1).0, ShadeEntry(shades, n - 1).1);
    }
  }

  /** Later families keep what the first `i` stored. */
  lemma {:induction false} FamiliesGrowFrom(groups: Groups, families: Dict<string, Json>, i: nat)
    requires i <= |families| && WellFormed(groups)
    requires FoldFamilies(groups, families).Success?
    ensures FoldFamilies(groups, families[..i]).Success?
    ensures Grows(FoldFamilies(groups, families[..i]).value, FoldFamilies(groups, families).value)
    decreases |families|
  {
    if i == |families| {
      assert families[..i] == families;
    } else {
      var prefix := families[..|families| - 1];
      assert prefix[..i] == families[..i];
      FamiliesGrowFrom(groups, prefix, i);
      FoldFamiliesWellFormed(groups, prefix);
      var prev := FoldFamilies(groups, prefix);
      var (family, shades) := families[|families| - 1];
      if FamilyGroup(family).Some? && IsObjectType(shades) && !shades.JNull? {
        FoldShadesWellFormed(prev.value, FamilyGroup(family).value, family, shades, ShadeCount(shades));
      }
    }
  }

  /** Shade `k` of the `i`-th family, a colour leaf, is stored by the time the
      family has been processed. */
  lemma FamilyRecordsLeaf(groups: Groups, families: Dict<string, Json>, i: nat, k: nat)
    requires i < |families| && WellFormed(groups)
    requires FamilyGroup(families[i].0).Some?
    requires k < ShadeCount(families[i].1) && IsColorLeaf(ShadeEntry(families[i].1, k).1)
    requires FoldFamilies(groups, families[..i + 1]).Success?
    ensures HasHex(FoldFamilies(groups, families[..i + 1]).value, FamilyGroup(families[i].0).value,
                   LeafHex(ShadeEntry(families[i].1, k).1))
  {
    var (family, shades) := families[i];
    var groupKey := FamilyGroup(family).value;
    assert families[..i + 1][..i] == families[..i];
    FoldFamiliesWellFormed(groups, families[..i]);
    var prev := FoldFamilies(groups, families[..i]).value;
    var n := ShadeCount(shades);
    ShadesGrowFrom(prev, groupKey, family, shades, k + 1, n);
    FoldShadesWellFormed(prev, groupKey, family, shades, k);
    var before := FoldShades(prev, groupKey, family, shades, k).value;
    ShadeStepWellFormed(before, groupKey, family, ShadeEntry(shades, k).0, ShadeEntry(shades, k).1);
  }

  /** Every colour leaf of a mapped family is recorded: its lower-cased value
      is a key of the family's group (a later shade with the same hex may
      have taken over the name). */
  lemma HexToCoreComplete(coreTokens: Json, family: string, shades: Json, k: nat)
    requires HexToCore(coreTokens).Success?
    requires !coreTokens.JNull? && TruthyOpt(Prop(coreTokens, "color"))
    requires (family, shades) in FamilyEntries(Prop(coreTokens, "color").value)
    requires FamilyGroup(family).Some? && k < ShadeCount(shades) && IsColorLeaf(ShadeEntry(shades, k).1)
    ensures HasHex(HexToCore(coreTokens).value, FamilyGroup(family).value, LeafHex(ShadeEntry(shades, k).1))
  {
    var colors := Prop(coreTokens, "color").value;
    var families := FamilyEntries(colors);
    var i :| 0 <= i < |families| && families[i] == (family, shades);
    var g2 := ResultIsFold(coreTokens);
    FamiliesGrowFrom(g2, families, i + 1);
    FamilyRecordsLeaf(g2, families, i, k);
  }

  /** With a truthy `color`, a result is the families loop run from the
      groups holding `white` and `black`. */
  lemma ResultIsFold(coreTokens: Json) returns (g2: Groups)
    requires HexToCore(coreTokens).Success?
    requires !coreTokens.JNull? && TruthyOpt(Prop(coreTokens, "color"))
    ensures WellFormed(g2)
    ensures HexToCore(coreTokens) == FoldFamilies(g2, FamilyEntries(Prop(coreTokens, "color").value))
  {
    var colors := Prop(coreTokens, "color").value;
    var empty := EmptyGroups();
    assert WellFormed(empty);
    SpecialWellFormed(empty, colors, "white");
    var g1 := Special(empty, colors, "white").value;
    SpecialWellFormed(g1, colors, "black");
    g2 := Special(g1, colors, "black").value;
  }
}
