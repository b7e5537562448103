/** The plugin creation wizard: the identifier normalisation, the generated
    `manifest.json`, the registration edit on `plugin.config.ts`, and the
    rules that turn the wizard's answers into a plugin configuration. */
module CreatePlugin {
  import opened Wrappers
  import opened Strings
  import opened Json

  // ---------------------------------------------------------------- identifiers

  /** The characters a plugin identifier keeps: `[a-z0-9-]`. */
  predicate IdChar(c: char)
  {
    IsLowerAscii(c) || IsDigit(c) || c == '-'
  }

  /** Two hyphens in a row at `i`. */
  predicate DoubleHyphenAt(s: string, i: int)
  {
    0 <= i && i + 1 < |s| && s[i] == '-' && s[i + 1] == '-'
  }

  /** Every character is an identifier character and no two hyphens touch. */
  predicate IsPluginId(s: string)
  {
    (forall i :: 0 <= i < |s| ==> IdChar(s[i])) && (forall i :: 0 <= i < |s| ==> !DoubleHyphenAt(s, i))
  }

  /** `s.replace(/[^a-z0-9-]/g, '-')`. */
  function HyphenateOthers(s: string): (r: string)
    ensures |r| == |s|
    ensures forall i :: 0 <= i < |s| ==> IdChar(r[i]) && (IdChar(s[i]) ==> r[i] == s[i])
  {
    seq(|s|, i requires 0 <= i < |s| => if IdChar(s[i]) then s[i] else '-')
  }

  /** `s.replace(/-+/g, '-')`: every run of hyphens becomes one hyphen. */
  function CollapseHyphens(s: string): (r: string)
    ensures |r| <= |s|
    ensures forall c | c in r :: c in s
    ensures |s| > 0 ==> |r| > 0 && r[0] == s[0]
    ensures forall i :: 0 <= i < |r| ==> !DoubleHyphenAt(r, i)
    ensures DropHyphens(r) == DropHyphens(s)
  {
    if |s| <= 1 then s
    else
      var rest := CollapseHyphens(s[1..]);
      assert DropHyphens(s) == (if s[0] == '-' then [] else [s[0]]) + DropHyphens(s[1..]);
      if s[0] == '-' && s[1] == '-' then rest
      else
        var r := [s[0]] + rest;
        assert r[1..] == rest;
        assert forall i :: 1 <= i < |r| ==> r[i] == rest[i - 1];
        assert forall i :: 1 <= i < |r| ==> !DoubleHyphenAt(r, i) by {
          forall i | 1 <= i < |r| ensures !DoubleHyphenAt(r, i) {
            assert !DoubleHyphenAt(rest, i - 1);
          }
        }
        r
  }

  /** The text without its hyphens. */
  function DropHyphens(s: string): (r: string)
    ensures '-' !in r
  {
    if |s| == 0 then "" else (if s[0] == '-' then [] else [s[0]]) + DropHyphens(s[1..])
  }

  /** `toPluginId`: lower-cased, every character outside `[a-z0-9-]` turned
      into `-`, and hyphen runs collapsed. The result is a plugin identifier
      and loses only hyphens of the sanitised text. */
  function ToPluginId(name: string): (r: string)
    ensures IsPluginId(r)
    ensures |name| > 0 ==> |r| > 0
    ensures DropHyphens(r) == DropHyphens(HyphenateOthers(ToLower(name)))
  {
    var cleaned := HyphenateOthers(ToLower(name));
    var r := CollapseHyphens(cleaned);
    assert forall c | c in cleaned :: IdChar(c);
    assert forall i :: 0 <= i < |r| ==> IdChar(r[i]) by {
      forall i | 0 <= i < |r| ensures IdChar(r[i]) {
        assert r[i] in r;
      }
    }
    r
  }

  /** Collapsing changes nothing without a double hyphen. */
  lemma {:induction false} CollapseFixesSingleHyphens(s: string)
    requires forall i :: 0 <= i < |s| ==> !DoubleHyphenAt(s, i)
    ensures CollapseHyphens(s) == s
    decreases |s|
  {
    if |s| > 1 {
      assert !DoubleHyphenAt(s, 0);
      assert forall i :: 0 <= i < |s[1..]| ==> !DoubleHyphenAt(s[1..], i) by {
        forall i | 0 <= i < |s[1..]| ensures !DoubleHyphenAt(s[1..], i) {
          assert !DoubleHyphenAt(s, i + 1);
        }
      }
      CollapseFixesSingleHyphens(s[1..]);
      assert [s[0]] + s[1..] == s;
    }
  }

  /** A plugin identifier is its own identifier. */
  lemma PluginIdFixesIds(s: string)
    requires IsPluginId(s)
    ensures ToPluginId(s) == s
  {
    assert ToLower(s) == s by {
      forall i | 0 <= i < |s| ensures ToLower(s)[i] == s[i] {
        assert IdChar(s[i]);
      }
    }
    assert HyphenateOthers(s) == s;
    CollapseFixesSingleHyphens(s);
  }

  /** Normalising twice is normalising once. */
  lemma PluginIdIdempotent(name: string)
    ensures ToPluginId(ToPluginId(name)) == ToPluginId(name)
  {
    PluginIdFixesIds(ToPluginId(name));
  }

  // ---------------------------------------------------------------- manifest

  /** The answers of the wizard that shape the plugin. */
  datatype PluginConfig = PluginConfig(
    name: string, displayName: string, description: string, version: string,
    hasConfig: bool, hasMobile: bool)

  function Strs(paths: seq<string>): (r: Json)
    ensures r.JArr? && |r.items| == |paths|
  {
    JArr(seq(|paths|, i requires 0 <= i < |paths| => JStr(paths[i])))
  }

  /** The same text in both display languages. */
  function Localized(text: string): Json
  {
    JObj([("ja", JStr(text)), ("en", JStr(text))])
  }

  /** The keys of the fixed part of every manifest, in order. */
  const HeadKeys: seq<string> := ["manifest_version", "version", "type", "name", "description", "icon", "desktop"]

  /** The members every manifest starts with. */
  function ManifestHead(c: PluginConfig): (r: seq<(string, Json)>)
    ensures Keys(r) == HeadKeys
  {
    [ ("manifest_version", JNum(1)),
      ("version", JStr(c.version)),
      ("type", JStr("APP")),
      ("name", Localized(c.displayName)),
      ("description", Localized(c.description)),
      ("icon", JStr("image/icon.png")),
      ("desktop", JObj([("js", Strs(["js/desktop.js"])), ("css", Strs(["css/desktop.css"]))]))]
  }

  /** `generateManifest`: the fixed header and desktop files, then `mobile`
      when the plugin supports mobile, then `config` when it has a settings
      screen. */
  function GenerateManifest(c: PluginConfig): (r: Json)
    ensures r.JObj? && |r.members| >= 7 && r.members[..7] == ManifestHead(c)
    ensures "mobile" in Keys(r.members) <==> c.hasMobile
    ensures "config" in Keys(r.members) <==> c.hasConfig
  {
    var head := ManifestHead(c);
    var mobile := MobileMember(c);
    var config := ConfigMember(c);
    var members := head + mobile + config;
    KeysAppend(head, mobile);
    KeysAppend(head + mobile, config);
    assert "mobile" !in HeadKeys && "config" !in HeadKeys;
    assert members[..7] == head;
    JObj(members)
  }

  /** The `mobile` member, present only with mobile support. */
  function MobileMember(c: PluginConfig): (r: seq<(string, Json)>)
    ensures Keys(r) == if c.hasMobile then ["mobile"] else []
  {
    if c.hasMobile then [("mobile", JObj([("js", Strs(["js/mobile.js"])), ("css", Strs(["css/mobile.css"]))]))] else []
  }

  /** The `config` member, present only with a settings screen. */
  function ConfigMember(c: PluginConfig): (r: seq<(string, Json)>)
    ensures Keys(r) == if c.hasConfig then ["config"] else []
  {
    if c.hasConfig then [("config", JObj([("html", JStr("html/config.html")), ("js", Strs(["js/config.js"])), ("css", Strs(["css/config.css"]))]))] else []
  }

  lemma HeadKeysDistinct()
    ensures forall i, j :: 0 <= j < i < 7 ==> HeadKeys[j] != HeadKeys[i]
  {
  }

  /** Every key of the fixed part reads back its own member. */
  lemma ReadHead(c: PluginConfig, i: nat)
    requires i < 7
    ensures Get(GenerateManifest(c).members, HeadKeys[i]) == Some(ManifestHead(c)[i].1)
  {
    var m := GenerateManifest(c).members;
    HeadKeysDistinct();
    assert forall j :: 0 <= j < 7 ==> m[j] == ManifestHead(c)[j] && m[j].0 == HeadKeys[j] by {
      assert m[..7] == ManifestHead(c);
    }
    GetFirst(m, i);
  }

  /** The first member with a key is the one `obj[key]` finds. */
  lemma GetFirst<V>(m: seq<(string, V)>, i: nat)
    requires i < |m| && forall j :: 0 <= j < i ==> m[j].0 != m[i].0
    ensures Get(m, m[i].0) == Some(m[i].1)
  {
    if i > 0 {
      GetFirst(m[1..], i - 1);
    }
  }

  /** Reading the wizard's choices back out of a manifest: the display name
      and description (when both languages agree), the version, and whether
      `config` and `mobile` are present. */
  function ReadManifest(m: Json): (r: Option<(string, string, string, bool, bool)>)
    ensures r.Some? ==> m.JObj? && Get(m.members, "desktop").Some?
  {
    if !m.JObj? then None
    else
      var name := Get(m.members, "name");
      var description := Get(m.members, "description");
      var version := Get(m.members, "version");
      if Get(m.members, "desktop").None? then None
      else if name.None? || !name.value.JObj? || description.None? || !description.value.JObj? then None
      else
        var ja, en := Get(name.value.members, "ja"), Get(name.value.members, "en");
        var dja, den := Get(description.value.members, "ja"), Get(description.value.members, "en");
        if ja.None? || ja != en || !ja.value.JStr? then None
        else if dja.None? || dja != den || !dja.value.JStr? then None
        else if version.None? || !version.value.JStr? then None
        else Some((ja.value.s, dja.value.s, version.value.s,
                   Get(m.members, "config").Some?, Get(m.members, "mobile").Some?))
  }

  /** Both languages of a localized text read back as the text. */
  lemma LocalizedReads(text: string)
    ensures Get(Localized(text).members, "ja") == Some(JStr(text))
    ensures Get(Localized(text).members, "en") == Some(JStr(text))
  {
    GetFirst(Localized(text).members, 1);
  }

  /** The generated manifest carries the display name in both languages, the
      description in both languages, the version, a `config` entry exactly
      with a settings screen and a `mobile` entry exactly with mobile support. */
  lemma ManifestRoundTrip(c: PluginConfig)
    ensures ReadManifest(GenerateManifest(c)) ==
      Some((c.displayName, c.description, c.version, c.hasConfig, c.hasMobile))
  {
    var m := GenerateManifest(c).members;
    HeadReads(c);
    ReadMembers(m, c.displayName, c.description, c.version);
  }

  /** The fixed members the reader looks at read back as generated. */
  lemma HeadReads(c: PluginConfig)
    ensures var m := GenerateManifest(c).members;
      && Get(m, "version") == Some(JStr(c.version))
      && Get(m, "name") == Some(Localized(c.displayName))
      && Get(m, "description") == Some(Localized(c.description))
      && Get(m, "desktop").Some?
  {
    ReadHead(c, 1);
    ReadHead(c, 3);
    ReadHead(c, 4);
    ReadHead(c, 6);
  }

  /** Any member list with a desktop entry, a version and localized name and
      description reads back as those, with its `config` and `mobile`
      presence. */
  lemma ReadMembers(m: seq<(string, Json)>, name: string, description: string, version: string)
    requires Get(m, "version") == Some(JStr(version)) && Get(m, "desktop").Some?
    requires Get(m, "name") == Some(Localized(name)) && Get(m, "description") == Some(Localized(description))
    ensures ReadManifest(JObj(m)) == Some((name, description, version, Get(m, "config").Some?, Get(m, "mobile").Some?))
  {
    LocalizedReads(name);
    LocalizedReads(description);
  }

  // ---------------------------------------------------------------- plugin.config.ts

  /** The registration entry of a plugin, as inserted into `plugins`. */
  function NewEntry(name: string): (r: string)
    ensures OccursAt(r, RegisteredKey(name), 2)
  {
    var r := "  " + RegisteredKey(name) + " {\n    name: '" + name + "',\n    displayName: '" + name + "'\n  },\n";
    assert r[2..2 + |RegisteredKey(name)|] == RegisteredKey(name);
    r
  }

  /** The text whose presence means the plugin is already registered. */
  function RegisteredKey(name: string): string
  {
    "'" + name + "':"
  }

  const ConfigHeader: string :=
    "import dotenv from 'dotenv';\ndotenv.config();\n\nexport interface PluginConfig {\n  name: string;\n  displayName: string;\n}\n\n"
    + "export interface Plugins {\n  [key: string]: PluginConfig;\n}\n\n"
    + "// プラグインの設定\n// npm run create:plugin で自動追加されます\nexport const plugins: Plugins = {\n"

  /** A new `plugin.config.ts` registering one plugin. */
  function ConfigTemplate(name: string): (r: string)
    ensures Contains(r, RegisteredKey(name))
  {
    var entry := "  " + RegisteredKey(name) + " {\n    name: '" + name + "',\n    displayName: '" + name + "'\n  }\n};\n";
    assert OccursAt(ConfigHeader + entry, RegisteredKey(name), |ConfigHeader| + 2) by {
      assert (ConfigHeader + entry)[|ConfigHeader| + 2..|ConfigHeader| + 2 + |RegisteredKey(name)|] == RegisteredKey(name);
    }
    ConfigHeader + entry
  }

  /** `updatePluginConfig`: the file's text afterwards (`content` is None when
      the file does not exist). A registered plugin or a text without `};`
      leaves the file as it is; otherwise the entry goes right before the last
      `};` and everything else stays byte for byte. */
  function UpdatePluginConfig(content: Option<string>, name: string): (r: string)
    ensures content.None? ==> r == ConfigTemplate(name)
    ensures content.Some? && (Contains(content.value, RegisteredKey(name)) || !Contains(content.value, "};")) ==>
      r == content.value
    ensures content.Some? && !Contains(content.value, RegisteredKey(name)) && Contains(content.value, "};") ==>
      exists p :: && OccursAt(content.value, "};", p)
                  && (forall q :: p < q ==> !OccursAt(content.value, "};", q))
                  && r == content.value[..p] + NewEntry(name) + content.value[p..]
    ensures Contains(r, RegisteredKey(name)) || (content.Some? && r == content.value)
  {
    if content.None? then ConfigTemplate(name)
    else
      var c := content.value;
      if Contains(c, RegisteredKey(name)) then c
      else
        var at := LastIndexOf(c, "};");
        if at.None? then c
        else
          var p := at.value;
          assert OccursAt(NewEntry(name), RegisteredKey(name), 2);
          ContainsInConcat(c[..p], NewEntry(name), c[p..], RegisteredKey(name));
          c[..p] + NewEntry(name) + c[p..]
  }

  /** Registering the same plugin a second time changes nothing. */
  lemma UpdateIdempotent(content: Option<string>, name: string)
    ensures UpdatePluginConfig(Some(UpdatePluginConfig(content, name)), name) == UpdatePluginConfig(content, name)
  {
  }

  /** Cutting the inserted entry back out gives the original text. */
  lemma InsertionIsUndone(c: string, name: string)
    requires !Contains(c, RegisteredKey(name)) && Contains(c, "};")
    ensures var r := UpdatePluginConfig(Some(c), name);
      exists p :: 0 <= p <= |c| && r[..p] + r[p + |NewEntry(name)|..] == c
  {
    var r := UpdatePluginConfig(Some(c), name);
    var p :| && OccursAt(c, "};", p)
             && (forall q :: p < q ==> !OccursAt(c, "};", q))
             && r == c[..p] + NewEntry(name) + c[p..];
    SpliceUndone(c, p, NewEntry(name), r);
  }

  /** Cutting out text inserted at `p` gives the original back. */
  lemma SpliceUndone(c: string, p: nat, e: string, r: string)
    requires p <= |c| && r == c[..p] + e + c[p..]
    ensures r[..p] + r[p + |e|..] == c
  {
    assert r[..p] == c[..p];
    assert r[p + |e|..] == c[p..];
    assert c[..p] + c[p..] == c;
  }

  // ---------------------------------------------------------------- wizard answers

  /** Accepted plugin names: non-empty, `^[a-z0-9-]+$`. */
  predicate ValidPluginName(name: string)
  {
    name != "" && forall i :: 0 <= i < |name| ==> IdChar(name[i])
  }

  /** The raw answers typed at the six prompts, before trimming. */
  datatype Answers = Answers(
    name: string, displayName: string, description: string, version: string,
    hasConfig: string, hasMobile: string)

  /** The configuration the wizard creates, or None when the name is
      refused. Answers are trimmed; an empty display name falls back to the
      name and an empty version to `1.0.0`; the settings screen is on unless
      the answer is `n`, mobile support is off unless the answer is `y`,
      either case. */
  function WizardConfig(a: Answers): (r: Option<PluginConfig>)
    ensures r.Some? <==> ValidPluginName(Trim(a.name))
    ensures r.Some? ==> r.value.name == Trim(a.name) && r.value.displayName != "" && r.value.version != ""
    ensures r.Some? ==> (r.value.hasConfig <==> Trim(a.hasConfig) != "n" && Trim(a.hasConfig) != "N")
    ensures r.Some? ==> (r.value.hasMobile <==> Trim(a.hasMobile) == "y" || Trim(a.hasMobile) == "Y")
    ensures r.Some? ==> r.value.displayName == (if Trim(a.displayName) != "" then Trim(a.displayName) else Trim(a.name))
    ensures r.Some? ==> r.value.description == Trim(a.description)
    ensures r.Some? ==> r.value.version == (if Trim(a.version) != "" then Trim(a.version) else "1.0.0")
  {
    var name := Trim(a.name);
    if !ValidPluginName(name) then None
    else
      LowerIsLetter(Trim(a.hasConfig), 'n');
      LowerIsLetter(Trim(a.hasMobile), 'y');
      var display := Trim(a.displayName);
      var version := Trim(a.version);
      Some(PluginConfig(
        name,
        if display != "" then display else name,
        Trim(a.description),
        if version != "" then version else "1.0.0",
        ToLower(Trim(a.hasConfig)) != "n",
        ToLower(Trim(a.hasMobile)) == "y"))
  }

  /** The manifest the wizard writes reads back as the answers: the display
      name (or the name), the description, the version (or `1.0.0`), and the
      settings-screen and mobile choices. */
  lemma WizardManifestReadsAnswers(a: Answers)
    requires ValidPluginName(Trim(a.name))
    ensures ReadManifest(GenerateManifest(WizardConfig(a).value)) == Some((
      if Trim(a.displayName) != "" then Trim(a.displayName) else Trim(a.name),
      Trim(a.description),
      if Trim(a.version) != "" then Trim(a.version) else "1.0.0",
      Trim(a.hasConfig) != "n" && Trim(a.hasConfig) != "N",
      Trim(a.hasMobile) == "y" || Trim(a.hasMobile) == "Y"))
  {
    ManifestRoundTrip(WizardConfig(a).value);
  }

  /** A valid name without a double hyphen is already a plugin identifier. */
  lemma ValidNameIsId(name: string)
    requires ValidPluginName(name) && forall i :: 0 <= i < |name| ==> !DoubleHyphenAt(name, i)
    ensures ToPluginId(name) == name
  {
    PluginIdFixesIds(name);
  }
}
