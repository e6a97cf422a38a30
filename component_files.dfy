/** `generateComponentFiles`
    (packages/styles/src/lib/transform/generators/component.js): one output
    file per entry of the `tokens/components` listing, holding that
    component's light tokens at `:host` level. The listing is an input. */
module ComponentFiles {
  import opened Wrappers
  import opened Strings
  import opened ThemeTargets

  /** `componentPrefix` */
  const ComponentPrefix := "pds"

  /** `format` */
  const HostFormat := "css/variables-host"

  datatype FileOptions = FileOptions(selector: string, prefix: string, outputReferences: bool)

  /** A file descriptor; `comp` is what its filter closure captures. */
  datatype FileDescriptor = FileDescriptor(format: string, comp: string, options: FileOptions, destination: string)

  /** The component names: each listing entry without its final `.json`. */
  function Components(listing: seq<string>): (components: seq<string>)
    ensures |components| == |listing|
    ensures forall i :: 0 <= i < |listing| ==> components[i] == StripLooseJson(listing[i])
  {
    seq(|listing|, i requires 0 <= i < |listing| => StripLooseJson(listing[i]))
  }

  /** `pine/components/pds-<comp>/pds-<comp>.tokens.scss` */
  function ComponentDestination(comp: string): string {
    var componentName := ComponentPrefix + "-" + comp;
    "pine/components/" + componentName + "/" + componentName + ".tokens.scss"
  }

  /** The descriptor pushed for one component. */
  function DescriptorFor(comp: string): FileDescriptor {
    FileDescriptor(HostFormat, comp, FileOptions(":host", "pine", true), ComponentDestination(comp))
  }

  /** `generateComponentFiles()` over the given listing. */
  method GenerateComponentFiles(listing: seq<string>) returns (filesArr: seq<FileDescriptor>)
    ensures |filesArr| == |listing|
    ensures forall i :: 0 <= i < |listing| ==> filesArr[i] == DescriptorFor(StripLooseJson(listing[i]))
  {
    var components := Components(listing);
    filesArr := [];
    for i := 0 to |components|
      invariant |filesArr| == i
      invariant forall j :: 0 <= j < i ==> filesArr[j] == DescriptorFor(components[j])
    {
      var comp := components[i];
      var componentName := ComponentPrefix + "-" + comp;
      filesArr := filesArr + [FileDescriptor(HostFormat, comp, FileOptions(":host", "pine", true),
                                             "pine/components/" + componentName + "/" + componentName + ".tokens.scss")];
    }
  }

  /** Every descriptor the generator makes writes
      `pine/components/pds-<comp>/pds-<comp>.tokens.scss` and uses the host
      format, the `:host` selector, the `pine` prefix and output references. */
  lemma DescriptorsShareSettings(listing: seq<string>, d: FileDescriptor)
    requires exists i :: 0 <= i < |listing| && d == DescriptorFor(StripLooseJson(listing[i]))
    ensures d.format == "css/variables-host"
    ensures d.options == FileOptions(":host", "pine", true)
    ensures d.destination == "pine/components/pds-" + d.comp + "/pds-" + d.comp + ".tokens.scss"
    ensures EndsWith(d.destination, ".tokens.scss") && "pine/components/pds-" <= d.destination
  {
    DestinationShape(d.comp);
  }

  lemma DestinationShape(comp: string)
    ensures var dest := ComponentDestination(comp);
      && dest == "pine/components/pds-" + comp + "/pds-" + comp + ".tokens.scss"
      && EndsWith(dest, ".tokens.scss") && "pine/components/pds-" <= dest
  {
    var dest := ComponentDestination(comp);
    assert dest == "pine/components/pds-" + (comp + "/pds-" + comp + ".tokens.scss");
    assert dest == ("pine/components/pds-" + comp + "/pds-" + comp) + ".tokens.scss";
  }

  /** Different components never share an output file. */
  lemma DestinationsDiffer(a: string, b: string)
    requires ComponentDestination(a) == ComponentDestination(b)
    ensures a == b
  {
    var da := ComponentDestination(a);
    var db := ComponentDestination(b);
    var k := |"pine/components/pds-"|;
    assert |da| == 2 * |a| + 2 * k - |"pine/components/"| + |"/"| + |".tokens.scss"|;
    assert |a| == |b|;
    assert da[k..k + |a|] == a;
    assert db[k..k + |b|] == b;
  }

  /** A `.json` listing entry names the file's stem: `button.json` gives the
      component `button`, so its tokens go to `pds-button`. */
  lemma JsonEntryNamesComponent(stem: string)
    ensures StripLooseJson(stem + ".json") == stem
  {
    var s := stem + ".json";
    assert s[|s| - 4..] == "json";
    assert s[|s| - 5] == '.';
  }

  // ---------------------------------------------------------------------------
  // The per-component token filter

  /** `filter(token)` of the descriptor for `comp`; `None` is a token without
      a `filePath`. */
  predicate ComponentFilter(comp: string, filePath: Option<string>) {
    var path := if filePath.Some? then filePath.value else "";
    Contains(path, "components/" + comp + "/light.json") || Contains(path, "components/" + comp + "/light/")
  }

  /** A token without a file path is rejected. */
  lemma MissingFilePathRejected(comp: string)
    ensures !ComponentFilter(comp, None) && !ComponentFilter(comp, Some(""))
  {
    EmptyContainsNothing("components/" + comp + "/light.json");
    EmptyContainsNothing("components/" + comp + "/light/");
  }

  /** The component's `light.json` and every file under its `light/`
      directory are accepted, wherever they sit. */
  lemma LightPathsAccepted(comp: string, dir: string, rest: string)
    ensures ComponentFilter(comp, Some(dir + ("components/" + comp + "/light.json") + rest))
    ensures ComponentFilter(comp, Some(dir + ("components/" + comp + "/light/") + rest))
  {
    ContainsMiddle(dir, "components/" + comp + "/light.json", rest);
    ContainsMiddle(dir, "components/" + comp + "/light/", rest);
  }

  lemma ContainsMiddle(dir: string, t: string, rest: string)
    ensures Contains(dir + t + rest, t)
  {
    var s := dir + t + rest;
    assert s[|dir|..|dir| + |t|] == t;
    ContainsFromOccurs(s, t, |dir|);
  }

  /** Only paths naming a `light` file or directory are accepted, so a
      component's dark files, which do not, are rejected. */
  lemma AcceptedPathsSayLight(comp: string, path: string)
    requires ComponentFilter(comp, Some(path))
    ensures Contains(path, "/light")
  {
    var a := "components/" + comp + "/light.json";
    var b := "components/" + comp + "/light/";
    var k := |"components/" + comp|;
    assert a[k..k + 6] == "/light";
    assert b[k..k + 6] == "/light";
    ContainsFromOccurs(a, "/light", k);
    ContainsFromOccurs(b, "/light", k);
    if Contains(path, a) {
      ContainsTransitive(path, a, "/light");
    } else {
      ContainsTransitive(path, b, "/light");
    }
  }
}
