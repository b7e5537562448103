/** `upload-plugin`: the plugin named on the command line, the packaged zip
    chosen for it, and the names listed when none is given. */
module UploadPlugin {
  import opened Wrappers
  import opened Seqs
  import opened Strings
  import opened Sorting
  import CreatePlugin

  // ---------------------------------------------------------------- argument

  /** The position of the first argument not starting with `--`. */
  function FirstPlain(args: seq<string>): (r: Option<nat>)
    ensures r.Some? ==> r.value < |args| && !StartsWith(args[r.value], "--")
    ensures r.Some? ==> forall j :: 0 <= j < r.value ==> StartsWith(args[j], "--")
    ensures r.None? <==> forall j :: 0 <= j < |args| ==> StartsWith(args[j], "--")
  {
    if |args| == 0 then None
    else if !StartsWith(args[0], "--") then Some(0)
    else
      var rest := FirstPlain(args[1..]);
      if rest.Some? then Some(rest.value + 1) else None
  }

  /** `getTargetPlugin`: the first argument not starting with `--`, or None
      when there is none or it is empty. */
  function GetTargetPlugin(args: seq<string>): (r: Option<string>)
    ensures r.Some? ==> r.value != "" && r.value in args && !StartsWith(r.value, "--")
    ensures r.Some? ==>
      exists k :: 0 <= k < |args| && args[k] == r.value && forall j :: 0 <= j < k ==> StartsWith(args[j], "--")
    ensures r.None? <==> FirstPlain(args).None? || args[FirstPlain(args).value] == ""
  {
    var k := FirstPlain(args);
    if k.Some? && args[k.value] != "" then Some(args[k.value]) else None
  }

  /** `["--watch", name]` selects `name`. */
  lemma FlagsAreSkipped(flags: seq<string>, name: string)
    requires forall j :: 0 <= j < |flags| ==> StartsWith(flags[j], "--")
    requires name != "" && !StartsWith(name, "--")
    ensures GetTargetPlugin(flags + [name]) == Some(name)
  {
    var args := flags + [name];
    assert !StartsWith(args[|flags|], "--");
    assert forall j :: 0 <= j < |flags| ==> StartsWith(args[j], "--");
  }

  // ---------------------------------------------------------------- zip choice

  /** A packaged zip of the plugin as the upload searches for it: any name
      starting with the plugin name (a prefix match) and ending with `.zip`. */
  predicate CandidateAsWritten(pluginName: string, f: string)
  {
    StartsWith(f, pluginName) && EndsWith(f, ".zip")
  }

  /** The newest-named candidate, `zipFiles.sort().reverse()[0]`, or None when
      there is no candidate. */
  function ChooseZipAsWritten(files: seq<string>, pluginName: string): (r: Option<string>)
    ensures r.None? <==> forall f :: f in files ==> !CandidateAsWritten(pluginName, f)
    ensures r.Some? ==> r.value in files && CandidateAsWritten(pluginName, r.value)
    ensures r.Some? ==> forall f :: f in files && CandidateAsWritten(pluginName, f) ==> StrLe(f, r.value)
  {
    Greatest(Filter(files, f => CandidateAsWritten(pluginName, f)))
  }

  /** The first element of the descending sort, None for no elements. */
  function Greatest(zips: seq<string>): (r: Option<string>)
    ensures r.None? <==> |zips| == 0
    ensures r.Some? ==> r.value in zips && forall f :: f in zips ==> StrLe(f, r.value)
  {
    if |zips| == 0 then None
    else
      SortDescHeadIsMax(zips);
      Some(SortDesc(zips)[0])
  }

  /** The greatest element is the only one that bounds all others. */
  lemma GreatestUnique(zips: seq<string>, z: string)
    requires z in zips && forall f :: f in zips ==> StrLe(f, z)
    ensures Greatest(zips) == Some(z)
  {
    var g := Greatest(zips).value;
    StrLeAntisymmetric(g, z);
  }

  /** With the packages of `test` and `test2` present, uploading `test`
      picks the package of `test2`. */
  lemma OtherPluginChosen()
    ensures ChooseZipAsWritten(["test.zip", "test2.zip"], "test") == Some("test2.zip")
  {
    var files := ["test.zip", "test2.zip"];
    assert "test.zip" == "test" + ".zip" && "test2.zip" == "test" + "2.zip";
    assert CandidateAsWritten("test", files[0]) && CandidateAsWritten("test", files[1]);
    StrLeCommonPrefix("test", "2.zip", ".zip");
    assert !StrLe("2.zip", ".zip");
  }

  /** Strings with a common prefix compare as their rests. */
  lemma {:induction false} StrLeCommonPrefix(p: string, a: string, b: string)
    ensures StrLe(p + a, p + b) <==> StrLe(a, b)
    decreases |p|
  {
    if |p| > 0 {
      assert (p + a)[0] == (p + b)[0] && |p + b| > 0;
      assert (p + a)[1..] == p[1..] + a && (p + b)[1..] == p[1..] + b;
      StrLeCommonPrefix(p[1..], a, b);
    } else {
      assert p + a == a && p + b == b;
    }
  }

  lemma {:induction false} StrLeReflexive(a: string)
    ensures StrLe(a, a)
    decreases |a|
  {
    if |a| > 0 {
      StrLeReflexive(a[1..]);
    }
  }

  // ---------------------------------------------------------------- listing

  /** `f.replace(/\.zip$/, '')`. */
  function StripZip(f: string): (r: string)
    ensures EndsWith(f, ".zip") ==> r + ".zip" == f
    ensures !EndsWith(f, ".zip") ==> r == f
  {
    if EndsWith(f, ".zip") then f[..|f| - 4] else f
  }

  /** `s.replace(/_.*$/, '')`: cut at the first `_` that has no line break
      after it (`.` does not match one and `$` is the end of the text). */
  function CutAtUnderscore(s: string): (r: string)
    ensures StartsWith(s, r)
    ensures |r| < |s| ==> s[|r|] == '_' && '\n' !in s[|r|..]
    ensures '\n' !in s ==> '_' !in r
    ensures '_' !in s ==> r == s
  {
    if |s| == 0 then s
    else if s[0] == '_' && '\n' !in s then ""
    else
      var rest := CutAtUnderscore(s[1..]);
      assert s == [s[0]] + s[1..];
      [s[0]] + rest
  }

  /** The plugin name shown for a zip in the listing. */
  function DisplayName(f: string): (r: string)
    ensures StartsWith(f, r)
  {
    CutAtUnderscore(StripZip(f))
  }

  /** The names shown when no plugin is given: each `.zip` file with its
      display name, in directory order. */
  function ListedPlugins(files: seq<string>): (r: seq<(string, string)>)
    ensures |r| == |Filter(files, f => EndsWith(f, ".zip"))|
    ensures forall i :: 0 <= i < |r| ==> r[i].1 == Filter(files, f => EndsWith(f, ".zip"))[i]
    ensures forall i :: 0 <= i < |r| ==> r[i].1 in files && EndsWith(r[i].1, ".zip") && r[i].0 == DisplayName(r[i].1)
  {
    var zips := Filter(files, f => EndsWith(f, ".zip"));
    seq(|zips|, i requires 0 <= i < |zips| => (DisplayName(zips[i]), zips[i]))
  }

  /** The package `pack-plugin` writes for a plugin, `<name>.zip`, is listed
      under the plugin's name, and so is a versioned `<name>_<version>.zip`. */
  lemma PackedZipDisplayName(name: string, version: string)
    requires '_' !in name && '\n' !in version
    ensures DisplayName(name + ".zip") == name
    ensures DisplayName(name + "_" + version + ".zip") == name
  {
    assert StripZip(name + ".zip") == name;
    var s := name + "_" + version;
    assert StripZip(s + ".zip") == s;
    CutAfterName(name, version);
  }

  lemma {:induction false} CutAfterName(name: string, version: string)
    requires '_' !in name && '\n' !in version
    ensures CutAtUnderscore(name + "_" + version) == name
    decreases |name|
  {
    var s := name + "_" + version;
    if |name| == 0 {
      assert s == "_" + version;
      assert '\n' !in s;
    } else {
      assert s[1..] == name[1..] + "_" + version;
      CutAfterName(name[1..], version);
      assert [name[0]] + name[1..] == name;
    }
  }

  // ---------------------------------------------------------------- corrected zip choice

  /** A package of the plugin: a `.zip` file listed under the plugin's name. */
  predicate Candidate(pluginName: string, f: string)
  {
    EndsWith(f, ".zip") && DisplayName(f) == pluginName
  }

  /** The zip choice restricted to the plugin's own packages. */
  function ChooseZip(files: seq<string>, pluginName: string): (r: Option<string>)
    ensures r.None? <==> forall f :: f in files ==> !Candidate(pluginName, f)
    ensures r.Some? ==> r.value in files && EndsWith(r.value, ".zip") && DisplayName(r.value) == pluginName
    ensures r.Some? ==> forall f :: f in files && Candidate(pluginName, f) ==> StrLe(f, r.value)
  {
    Greatest(Filter(files, f => Candidate(pluginName, f)))
  }

  /** The package of another plugin is never a candidate, and the plugin's
      own package always is; for names without `_`. */
  lemma OwnPackageOnly(pluginName: string, other: string)
    requires '_' !in pluginName && '_' !in other
    ensures Candidate(pluginName, pluginName + ".zip")
    ensures Candidate(pluginName, other + ".zip") <==> other == pluginName
  {
    PackedZipDisplayName(pluginName, "");
    PackedZipDisplayName(other, "");
    assert EndsWith(pluginName + ".zip", ".zip") && EndsWith(other + ".zip", ".zip");
  }

  /** With its own package present the corrected choice finds one, and it
      agrees with the choice as written whenever the prefix match only
      finds packages of the plugin itself. */
  lemma ChooseZipAgrees(files: seq<string>, pluginName: string)
    requires forall f :: f in files && CandidateAsWritten(pluginName, f) ==> Candidate(pluginName, f)
    requires forall f :: f in files && Candidate(pluginName, f) ==> CandidateAsWritten(pluginName, f)
    ensures ChooseZip(files, pluginName) == ChooseZipAsWritten(files, pluginName)
  {
    var a := Filter(files, f => Candidate(pluginName, f));
    var b := Filter(files, f => CandidateAsWritten(pluginName, f));
    FilterSame(files, f => Candidate(pluginName, f), f => CandidateAsWritten(pluginName, f));
  }

  lemma {:induction false} FilterSame(s: seq<string>, p: string -> bool, q: string -> bool)
    requires forall x :: x in s ==> p(x) == q(x)
    ensures Filter(s, p) == Filter(s, q)
  {
    if |s| > 0 {
      assert s[0] in s;
      assert forall x :: x in s[1..] ==> x in s;
      FilterSame(s[1..], p, q);
    }
  }

  /** The corrected choice for `test` among the packages of `test` and
      `test2` is the package of `test`. */
  lemma OwnPackageChosen()
    ensures ChooseZip(["test.zip", "test2.zip"], "test") == Some("test.zip")
  {
    var files := ["test.zip", "test2.zip"];
    assert files[0] == "test" + ".zip" && files[1] == "test2" + ".zip";
    OwnPackageOnly("test", "test");
    OwnPackageOnly("test", "test2");
    assert "test" != "test2";
    assert !Candidate("test", files[1]);
    var r := ChooseZip(files, "test");
    assert r.Some? && r.value in files;
  }

  // ---------------------------------------------------------------- the flow

  /** What the upload does. */
  datatype Upload =
    | Usage(listed: seq<(string, string)>)   // no plugin given: list the packages
    | NoBaseUrl                              // the environment has no base URL
    | NoDirectory                            // `dist/plugins` cannot be read
    | NoPackage                              // no zip matches
    | Send(zip: string)

  /** The zip picked for the plugin: by the prefix match as written, or by
      the corrected match when `corrected` holds. */
  function PickZip(files: seq<string>, pluginName: string, corrected: bool): (r: Option<string>)
    ensures r.Some? ==> r.value in files && EndsWith(r.value, ".zip")
    ensures corrected ==> r == ChooseZip(files, pluginName)
    ensures !corrected ==> r == ChooseZipAsWritten(files, pluginName)
  {
    if corrected then ChooseZip(files, pluginName) else ChooseZipAsWritten(files, pluginName)
  }

  /** `main` and `uploadPlugin` up to the uploader call; `files` is the
      content of `dist/plugins` (None when it is missing), `baseUrl` the
      configured base URL of the environment. `corrected` selects the zip
      choice: false is the prefix match as written, true the corrected one. */
  function PlanUpload(args: seq<string>, baseUrl: string, files: Option<seq<string>>, corrected: bool): (r: Upload)
    ensures r.Usage? <==> GetTargetPlugin(args).None?
    ensures r.Usage? ==> r.listed == (if files.Some? then ListedPlugins(files.value) else [])
    ensures r == NoBaseUrl <==> GetTargetPlugin(args).Some? && baseUrl == ""
    ensures r == NoDirectory <==> GetTargetPlugin(args).Some? && baseUrl != "" && files.None?
    ensures r == NoPackage <==>
      GetTargetPlugin(args).Some? && baseUrl != "" && files.Some?
      && PickZip(files.value, GetTargetPlugin(args).value, corrected).None?
    ensures r.Send? <==>
      GetTargetPlugin(args).Some? && baseUrl != "" && files.Some?
      && PickZip(files.value, GetTargetPlugin(args).value, corrected).Some?
    ensures r.Send? ==>
      files.Some? && r.zip in files.value && PickZip(files.value, GetTargetPlugin(args).value, corrected) == Some(r.zip)
  {
    var name := GetTargetPlugin(args);
    if name.None? then Usage(if files.Some? then ListedPlugins(files.value) else [])
    else if baseUrl == "" then NoBaseUrl
    else if files.None? then NoDirectory
    else
      var zip := PickZip(files.value, name.value, corrected);
      if zip.None? then NoPackage else Send(zip.value)
  }

  /** The plain argument `test` selects the plugin `test`. */
  lemma TestSelected()
    ensures GetTargetPlugin(["test"]) == Some("test")
  {
    assert "test"[..2][0] != "--"[0];
  }

  /** As written, uploading `test` beside the package of `test2` sends the
      package of `test2`; the corrected flow sends the package of `test`. */
  lemma OtherPluginUploaded(baseUrl: string)
    requires baseUrl != ""
    ensures PlanUpload(["test"], baseUrl, Some(["test.zip", "test2.zip"]), false) == Send("test2.zip")
    ensures PlanUpload(["test"], baseUrl, Some(["test.zip", "test2.zip"]), true) == Send("test.zip")
  {
    var files := ["test.zip", "test2.zip"];
    TestSelected();
    assert PickZip(files, "test", false) == Some("test2.zip") by {
      OtherPluginChosen();
    }
    assert PickZip(files, "test", true) == Some("test.zip") by {
      OwnPackageChosen();
    }
  }

  /** A plugin created by the wizard and packaged is uploaded from its own
      package, whatever other packages lie beside it. */
  lemma PackagedPluginUploaded(args: seq<string>, baseUrl: string, files: seq<string>)
    requires GetTargetPlugin(args).Some? && baseUrl != ""
    requires CreatePlugin.ValidPluginName(GetTargetPlugin(args).value)
    requires GetTargetPlugin(args).value + ".zip" in files
    ensures PlanUpload(args, baseUrl, Some(files), true).Send?
    ensures DisplayName(PlanUpload(args, baseUrl, Some(files), true).zip) == GetTargetPlugin(args).value
  {
    var name := GetTargetPlugin(args).value;
    assert '_' !in name by {
      forall i | 0 <= i < |name| ensures name[i] != '_' {
        assert CreatePlugin.IdChar(name[i]);
      }
    }
    OwnPackageOnly(name, name);
  }
}
