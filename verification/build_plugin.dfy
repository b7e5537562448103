/** `build-plugin`: which plugins are built, the global name each bundled
    entry gets, and which entries of a plugin are built, in which order. */
module BuildPlugin {
  import opened Wrappers
  import opened Seqs
  import opened Strings
  import Utils
  import CreatePlugin

  /** `getTargetPlugins`: the plugin directories (None when `src/plugins` is
      missing); with an argument, only those named in its comma-separated,
      trimmed list, in directory order. Unknown names are dropped. */
  function GetTargetPlugins(dirs: Option<seq<string>>, args: seq<string>): (r: seq<string>)
    ensures dirs.None? ==> r == []
    ensures dirs.Some? && |args| == 0 ==> r == dirs.value
    ensures dirs.Some? && |args| > 0 ==> forall p :: p in r <==> p in dirs.value && p in SplitTrim(args[0])
    ensures dirs.Some? ==> IsSubsequence(r, dirs.value)
  {
    if dirs.None? then []
    else if |args| == 0 then
      SubsequenceRefl(dirs.value);
      dirs.value
    else
      var names := SplitTrim(args[0]);
      Filter(dirs.value, p => p in names)
  }

  /** Every sequence is a subsequence of itself. */
  lemma {:induction false} SubsequenceRefl(s: seq<string>)
    ensures IsSubsequence(s, s)
  {
    if |s| > 0 {
      SubsequenceRefl(s[1..]);
    }
  }

  /** Naming every plugin directory in one comma-separated argument selects
      them all, in order. */
  lemma AllNamedSelectsAll(dirs: seq<string>)
    requires Utils.PlainNames(dirs)
    ensures GetTargetPlugins(Some(dirs), [Join(dirs, [','])]) == dirs
  {
    Utils.JoinedNames(dirs);
    var names := SplitTrim(Join(dirs, [',']));
    forall i | 0 <= i < |dirs| ensures names[i] == dirs[i] {
      TrimOfTrimmed(dirs[i]);
    }
    assert names == dirs;
    FilterKeepsAll(dirs, p => p in names);
  }

  // ---------------------------------------------------------------- entries

  /** The entry scripts a plugin may have, in build order. */
  const EntryNames: seq<string> := ["desktop", "mobile", "config"]

  /** `safeName`: the global variable of a bundled entry,
      `plugin_<name with - as _>_<entry>`. */
  function SafeName(pluginName: string, entryName: string): (r: string)
    ensures StartsWith(r, "plugin_") && EndsWith(r, "_" + entryName)
    ensures |r| == |pluginName| + |entryName| + 8
    ensures '-' !in entryName ==> '-' !in r
  {
    "plugin_" + ReplaceChar(pluginName, '-', '_') + "_" + entryName
  }

  /** A character of a JavaScript identifier, ASCII only. */
  predicate IdentChar(c: char)
  {
    IsLowerAscii(c) || IsUpperAscii(c) || IsDigit(c) || c == '_' || c == '$'
  }

  /** An ASCII JavaScript identifier: identifier characters, not starting
      with a digit. */
  predicate IsIdentifier(s: string)
  {
    |s| > 0 && !IsDigit(s[0]) && forall i :: 0 <= i < |s| ==> IdentChar(s[i])
  }

  /** For a valid plugin name every entry gets a valid identifier. */
  lemma SafeNameIsIdentifier(pluginName: string, entryName: string)
    requires CreatePlugin.ValidPluginName(pluginName) && entryName in EntryNames
    ensures IsIdentifier(SafeName(pluginName, entryName))
  {
    var r := SafeName(pluginName, entryName);
    var a := ReplaceChar(pluginName, '-', '_');
    assert r == "plugin_" + a + "_" + entryName;
    assert forall i :: 0 <= i < |a| ==> IdentChar(a[i]) by {
      forall i | 0 <= i < |a| ensures IdentChar(a[i]) {
        assert CreatePlugin.IdChar(pluginName[i]);
      }
    }
    assert forall i :: 0 <= i < |entryName| ==> IdentChar(entryName[i]);
    forall i | 0 <= i < |r| ensures IdentChar(r[i]) {
      if i < 7 {
        assert r[i] == "plugin_"[i];
      } else if i < 7 + |a| {
        assert r[i] == a[i - 7];
      } else if i == 7 + |a| {
        assert r[i] == '_';
      } else {
        assert r[i] == entryName[i - 8 - |a|];
      }
    }
  }

  /** Different plugins or different entries never share a global name, for
      plugin names without `_`. */
  lemma SafeNameInjective(a: string, b: string, e1: string, e2: string)
    requires '_' !in a && '_' !in b && e1 in EntryNames && e2 in EntryNames
    requires SafeName(a, e1) == SafeName(b, e2)
    ensures a == b && e1 == e2
  {
    SafeNameParts(a, e1);
    SafeNameParts(b, e2);
    EntryFromLastChar(e1, e2);
    ReplaceUnderscoreInjective(a, b);
  }

  /** Where the plugin name and the entry's last letter sit in a global
      name. */
  lemma SafeNameParts(a: string, e: string)
    requires |e| > 0
    ensures var r := SafeName(a, e);
      r[7..7 + |a|] == ReplaceChar(a, '-', '_') && r[|r| - 1] == e[|e| - 1]
  {
  }

  /** The entry names end in distinct letters. */
  lemma EntryFromLastChar(e1: string, e2: string)
    requires e1 in EntryNames && e2 in EntryNames && e1[|e1| - 1] == e2[|e2| - 1]
    ensures e1 == e2
  {
  }

  /** Replacing `-` by `_` is one to one on names without `_`. */
  lemma ReplaceUnderscoreInjective(a: string, b: string)
    requires '_' !in a && '_' !in b && |a| == |b|
    requires ReplaceChar(a, '-', '_') == ReplaceChar(b, '-', '_')
    ensures a == b
  {
    var ra, rb := ReplaceChar(a, '-', '_'), ReplaceChar(b, '-', '_');
    forall i | 0 <= i < |a| ensures a[i] == b[i] {
      assert ra[i] == rb[i];
    }
  }

  /** The entries built for a plugin whose source directory holds the files
      `hasFile` reports: desktop, mobile, config, each only when its `.ts`
      file exists. */
  function EntriesToBuild(hasFile: string -> bool): (r: seq<string>)
    ensures forall e :: e in r <==> e in EntryNames && hasFile(e)
    ensures IsSubsequence(r, EntryNames) && Distinct(r)
  {
    assert Distinct(EntryNames);
    Filter(EntryNames, hasFile)
  }

  /** `buildPlugin`'s plan: nothing when `manifest.json` is missing, else the
      entries to build with their global names. */
  function BuildPlan(pluginName: string, hasManifest: bool, hasFile: string -> bool): (r: Option<seq<(string, string)>>)
    ensures r.None? <==> !hasManifest
    ensures r.Some? ==> |r.value| == |EntriesToBuild(hasFile)|
    ensures r.Some? ==> forall i :: 0 <= i < |r.value| ==>
      r.value[i].0 == EntriesToBuild(hasFile)[i] && r.value[i].1 == SafeName(pluginName, r.value[i].0)
  {
    if !hasManifest then None
    else
      var es := EntriesToBuild(hasFile);
      Some(seq(|es|, i requires 0 <= i < |es| => (es[i], SafeName(pluginName, es[i]))))
  }

  /** The global names of one plugin's build are distinct identifiers. */
  lemma BuildPlanNames(pluginName: string, hasFile: string -> bool)
    requires CreatePlugin.ValidPluginName(pluginName)
    ensures var r := BuildPlan(pluginName, true, hasFile).value;
      (forall i :: 0 <= i < |r| ==> IsIdentifier(r[i].1))
      && forall i, j :: 0 <= i < j < |r| ==> r[i].1 != r[j].1
  {
    var r := BuildPlan(pluginName, true, hasFile).value;
    var es := EntriesToBuild(hasFile);
    assert '_' !in pluginName by {
      forall i | 0 <= i < |pluginName| ensures pluginName[i] != '_' {
        assert CreatePlugin.IdChar(pluginName[i]);
      }
    }
    forall i | 0 <= i < |r| ensures IsIdentifier(r[i].1) {
      assert es[i] in es;
      SafeNameIsIdentifier(pluginName, es[i]);
    }
    forall i, j | 0 <= i < j < |r| ensures r[i].1 != r[j].1 {
      assert es[i] in es && es[j] in es;
      if r[i].1 == r[j].1 {
        SafeNameInjective(pluginName, pluginName, es[i], es[j]);
      }
    }
  }
}
