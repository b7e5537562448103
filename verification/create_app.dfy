/** The app-creation wizard: the three environment patterns, the naming rules,
    the variables it appends to `.env` and the entry it registers in the
    `apps` object of `kintone.config.ts`. */
module CreateApp {
  import opened Wrappers
  import opened Strings
  import Utils

  // ---------------------------------------------------------------- names

  /** `toEnvVarPrefix`: upper-cased with every `-` replaced by `_`, e.g.
      `order-entry` becomes `ORDER_ENTRY`. */
  function ToEnvVarPrefix(appName: string): (r: string)
    ensures |r| == |appName| && '-' !in r
    ensures forall i :: 0 <= i < |appName| && IsLowerAscii(appName[i]) ==> IsUpperAscii(r[i])
  {
    ReplaceChar(ToUpper(appName), '-', '_')
  }

  /** The variable name the shared helpers derive from an app name is this
      prefix followed by `_ID`. */
  lemma EnvVarNameExtendsPrefix(appName: string)
    ensures Utils.ToEnvVarName(appName) == ToEnvVarPrefix(appName) + "_ID"
  {
  }

  /** `/^[a-z][a-z0-9-]*$/`. */
  predicate ValidAppName(name: string)
  {
    |name| > 0 && IsLowerAscii(name[0]) && forall i :: 0 <= i < |name| ==> Utils.IsNameChar(name[i])
  }

  /** Valid names never share a variable prefix. */
  lemma PrefixInjective(a: string, b: string)
    requires ValidAppName(a) && ValidAppName(b)
    requires ToEnvVarPrefix(a) == ToEnvVarPrefix(b)
    ensures a == b
  {
    EnvVarNameExtendsPrefix(a);
    EnvVarNameExtendsPrefix(b);
    Utils.EnvVarNameInjective(a, b);
  }

  /** `promptAppName`: the trimmed answer when it is a valid name whose
      directory under `src/apps` does not exist yet. */
  function PromptAppName(raw: string, taken: string -> bool): (r: Option<string>)
    ensures r.Some? ==> r.value == Trim(raw) && ValidAppName(r.value) && !taken(r.value)
    ensures r.None? ==> !ValidAppName(Trim(raw)) || taken(Trim(raw))
  {
    var name := Trim(raw);
    if name == "" then None
    else if !ValidAppName(name) then None
    else if taken(name) then None
    else Some(name)
  }

  /** Typing a valid new name, without surrounding blanks, is accepted as is. */
  lemma ValidNameAccepted(name: string, taken: string -> bool)
    requires ValidAppName(name) && !taken(name)
    ensures PromptAppName(name, taken) == Some(name)
  {
    assert Utils.IsNameChar(name[|name| - 1]);
    TrimOfTrimmed(name);
  }

  /** `promptAppId`: the trimmed answer when it is non-empty and a number;
      whether `Number(s)` is a number is the parameter `isNumeric`. */
  function PromptAppId(raw: string, isNumeric: string -> bool): (r: Option<string>)
    ensures r.Some? <==> Trim(raw) != "" && isNumeric(Trim(raw))
    ensures r.Some? ==> r.value == Trim(raw)
  {
    var id := Trim(raw);
    if id == "" || !isNumeric(id) then None else Some(id)
  }

  /** `devAppName.replace(/-dev$/, '-prod')`. */
  function DefaultProdName(devName: string): (r: string)
    ensures EndsWith(devName, "-dev") ==> EndsWith(r, "-prod") && r[..|r| - 5] == devName[..|devName| - 4]
    ensures !EndsWith(devName, "-dev") ==> r == devName
  {
    if EndsWith(devName, "-dev") then devName[..|devName| - 4] + "-prod" else devName
  }

  /** The proposed production name of a valid development name is valid, and
      it differs from the development name exactly when that ends in `-dev`. */
  lemma DefaultProdNameValid(devName: string)
    requires ValidAppName(devName)
    ensures ValidAppName(DefaultProdName(devName))
    ensures DefaultProdName(devName) != devName <==> EndsWith(devName, "-dev")
  {
    var r := DefaultProdName(devName);
    if EndsWith(devName, "-dev") {
      assert devName[0] != '-';
      var stem := devName[..|devName| - 4];
      assert |stem| > 0 && stem[0] == devName[0];
      forall i | 0 <= i < |r| ensures Utils.IsNameChar(r[i]) {
        if i < |stem| {
          assert r[i] == devName[i];
        }
      }
      assert r[|r| - 1] == 'd' && devName[|devName| - 1] == 'v';
    }
  }

  /** `prodAppName.trim() || defaultProdName`. */
  function ProdName(answer: string, devName: string): (r: string)
    ensures Trim(answer) != "" ==> r == Trim(answer)
    ensures Trim(answer) == "" ==> r == DefaultProdName(devName)
  {
    if Trim(answer) != "" then Trim(answer) else DefaultProdName(devName)
  }

  // ---------------------------------------------------------------- the wizard

  datatype Pattern = Single | Separate | SchemaSync

  /** The answer to `選択 [1/2/3]` selecting each pattern. */
  function PatternNumber(p: Pattern): string
  {
    match p
    case Single => "1"
    case Separate => "2"
    case SchemaSync => "3"
  }

  /** The pattern chosen by the trimmed answer; any other answer is an error. */
  function ChoosePattern(answer: string): (r: Option<Pattern>)
    ensures r.Some? <==> Trim(answer) == "1" || Trim(answer) == "2" || Trim(answer) == "3"
    ensures r.Some? ==> PatternNumber(r.value) == Trim(answer)
  {
    var t := Trim(answer);
    if t == "1" then Some(Single)
    else if t == "2" then Some(Separate)
    else if t == "3" then Some(SchemaSync)
    else None
  }

  /** Each pattern is selected by its own number. */
  lemma ChoosePatternRoundTrip(p: Pattern)
    ensures ChoosePattern(PatternNumber(p)) == Some(p)
  {
    TrimOfTrimmed(PatternNumber(p));
  }

  /** One app to create: its name, the prefix of its `.env` variables, and its
      development and, for the schema-sync pattern, production app IDs. */
  datatype AppSetup = AppSetup(appName: string, envVarPrefix: string, devAppId: string, prodAppId: Option<string>)

  function NewSetup(name: string, devAppId: string, prodAppId: Option<string>): AppSetup
  {
    AppSetup(name, ToEnvVarPrefix(name), devAppId, prodAppId)
  }

  /** The two setups of the separate-source pattern as the wizard builds
      them: the production name may equal the development name. */
  function SeparateSetupsAsWritten(
    devName: string, devAppId: string, prodAnswer: string, prodIdAnswer: string,
    taken: string -> bool, isNumeric: string -> bool): (r: Option<seq<AppSetup>>)
    ensures r.Some? ==> |r.value| == 2 && r.value[0].appName == devName
    ensures r.Some? ==> r.value[1].appName == ProdName(prodAnswer, devName) && ValidAppName(r.value[1].appName)
    ensures r.None? <==>
      !ValidAppName(ProdName(prodAnswer, devName)) || taken(ProdName(prodAnswer, devName))
      || PromptAppId(prodIdAnswer, isNumeric).None?
    ensures r.Some? ==> r.value[0].devAppId == devAppId && r.value[1].devAppId == Trim(prodIdAnswer)
  {
    var prodName := ProdName(prodAnswer, devName);
    if !ValidAppName(prodName) || taken(prodName) then None
    else
      var prodAppId := PromptAppId(prodIdAnswer, isNumeric);
      if prodAppId.None? then None
      else Some([NewSetup(devName, devAppId, None), NewSetup(prodName, prodAppId.value, None)])
  }

  /** With a development name that does not end in `-dev` and a blank
      production answer, both setups name the same app and so write the same
      variable. */
  lemma SeparateSetupsShareName(
    devName: string, devAppId: string, prodAnswer: string, prodIdAnswer: string,
    taken: string -> bool, isNumeric: string -> bool)
    requires ValidAppName(devName) && !EndsWith(devName, "-dev") && !taken(devName)
    requires Trim(prodAnswer) == "" && Trim(prodIdAnswer) != "" && isNumeric(Trim(prodIdAnswer))
    ensures SeparateSetupsAsWritten(devName, devAppId, prodAnswer, prodIdAnswer, taken, isNumeric).Some?
    ensures SeparateSetupsAsWritten(devName, devAppId, prodAnswer, prodIdAnswer, taken, isNumeric).value[1].appName == devName
    ensures DevEnvVar(SeparateSetupsAsWritten(devName, devAppId, prodAnswer, prodIdAnswer, taken, isNumeric).value[1])
      == DevEnvVar(SeparateSetupsAsWritten(devName, devAppId, prodAnswer, prodIdAnswer, taken, isNumeric).value[0])
  {
  }

  /** The second setup then leaves `.env` as the first one left it: the
      production app ID is never written. */
  lemma SharedNameLosesProdId(existing: Option<string>, dev: AppSetup, prod: AppSetup)
    requires DevEnvVar(dev) == DevEnvVar(prod) && prod.prodAppId.None?
    ensures UpdateEnvFileAsWritten(Some(UpdateEnvFileAsWritten(existing, dev)), prod)
      == UpdateEnvFileAsWritten(existing, dev)
  {
  }

  /** The separate-source setups with a production name that must differ
      from the development name. */
  function SeparateSetups(
    devName: string, devAppId: string, prodAnswer: string, prodIdAnswer: string,
    taken: string -> bool, isNumeric: string -> bool): (r: Option<seq<AppSetup>>)
    ensures r.Some? ==> |r.value| == 2 && r.value[0].appName == devName
    ensures r.Some? ==> r.value[1].appName == ProdName(prodAnswer, devName) && ValidAppName(r.value[1].appName)
    ensures r.Some? ==> r.value[0].appName != r.value[1].appName
    ensures r.Some? && ValidAppName(devName) ==> DevEnvVar(r.value[0]) != DevEnvVar(r.value[1])
    ensures r.None? <==>
      !ValidAppName(ProdName(prodAnswer, devName)) || taken(ProdName(prodAnswer, devName))
      || ProdName(prodAnswer, devName) == devName || PromptAppId(prodIdAnswer, isNumeric).None?
    ensures r.Some? ==> r.value[0].devAppId == devAppId && r.value[1].devAppId == Trim(prodIdAnswer)
  {
    var prodName := ProdName(prodAnswer, devName);
    if !ValidAppName(prodName) || taken(prodName) || prodName == devName then None
    else
      var prodAppId := PromptAppId(prodIdAnswer, isNumeric);
      if prodAppId.None? then None
      else
        var r := [NewSetup(devName, devAppId, None), NewSetup(prodName, prodAppId.value, None)];
        DevEnvVarsDiffer(devName, prodName);
        Some(r)
  }

  /** Distinct valid names have distinct development variables. */
  lemma DevEnvVarsDiffer(a: string, b: string)
    requires ValidAppName(b) && a != b
    ensures ValidAppName(a) ==> ToEnvVarPrefix(a) + "_DEV_ID" != ToEnvVarPrefix(b) + "_DEV_ID"
  {
    if ValidAppName(a) && ToEnvVarPrefix(a) + "_DEV_ID" == ToEnvVarPrefix(b) + "_DEV_ID" {
      assert ToEnvVarPrefix(a) == (ToEnvVarPrefix(a) + "_DEV_ID")[..|a|];
      assert ToEnvVarPrefix(b) == (ToEnvVarPrefix(b) + "_DEV_ID")[..|b|];
      PrefixInjective(a, b);
    }
  }

  /** The separate-source setups agree with the wizard as written whenever
      the two names differ. */
  lemma SeparateSetupsAgree(
    devName: string, devAppId: string, prodAnswer: string, prodIdAnswer: string,
    taken: string -> bool, isNumeric: string -> bool)
    requires ProdName(prodAnswer, devName) != devName
    ensures SeparateSetups(devName, devAppId, prodAnswer, prodIdAnswer, taken, isNumeric)
      == SeparateSetupsAsWritten(devName, devAppId, prodAnswer, prodIdAnswer, taken, isNumeric)
  {
  }

  /** `confirm.toLowerCase() === 'n'`, on the untrimmed answer. */
  predicate Cancelled(confirm: string)
  {
    ToLower(confirm) == "n"
  }

  /** Only `n` and `N` cancel. */
  lemma CancelledOnlyOnN(confirm: string)
    ensures Cancelled(confirm) <==> confirm == "n" || confirm == "N"
  {
    LowerIsLetter(confirm, 'n');
  }

  /** The wizard's answers, in the roles of the separate-source pattern
      (`appName` is the development name there); the other patterns ignore
      the production-name answer, and the single pattern the production ID. */
  datatype Answers = Answers(
    pattern: string, appName: string, devAppId: string,
    prodAppName: string, prodAppId: string, confirm: string)

  datatype Outcome = Invalid | Aborted | Create(pattern: Pattern, setups: seq<AppSetup>)

  /** A setup the wizard may create: a valid new name, the prefix derived
      from it, a development ID, and a production ID exactly when asked for. */
  predicate SetupOk(s: AppSetup, taken: string -> bool, withProd: bool)
  {
    && ValidAppName(s.appName) && !taken(s.appName)
    && s.envVarPrefix == ToEnvVarPrefix(s.appName)
    && s.devAppId != ""
    && (s.prodAppId.Some? <==> withProd)
  }

  /** The setups of the chosen pattern, given the accepted first name and
      development ID; None when a further answer is invalid. With
      `distinctNames` false the separate-source pattern is built as the wizard
      builds it; with `distinctNames` true it is the corrected construction,
      which refuses a production name equal to the development name. */
  function PatternSetups(
    p: Pattern, name: string, devId: string, a: Answers,
    taken: string -> bool, isNumeric: string -> bool, distinctNames: bool): (r: Option<seq<AppSetup>>)
    requires ValidAppName(name) && !taken(name) && devId != ""
    ensures r.Some? ==> |r.value| == if p == Separate then 2 else 1
    ensures r.Some? ==> forall i :: 0 <= i < |r.value| ==> SetupOk(r.value[i], taken, p == SchemaSync)
    ensures r.Some? ==> r.value[0].appName == name && r.value[0].devAppId == devId
    ensures p == Single ==> r.Some?
    ensures p == SchemaSync ==> (r.None? <==> PromptAppId(a.prodAppId, isNumeric).None?)
    ensures p == Separate ==> (r.None? <==>
      !ValidAppName(ProdName(a.prodAppName, name)) || taken(ProdName(a.prodAppName, name))
      || (distinctNames && ProdName(a.prodAppName, name) == name)
      || PromptAppId(a.prodAppId, isNumeric).None?)
    ensures r.Some? && p == Separate ==> r.value[1].appName == ProdName(a.prodAppName, name)
    ensures r.Some? && p == Separate && distinctNames ==> DevEnvVar(r.value[0]) != DevEnvVar(r.value[1])
    ensures r.Some? && p == Separate ==> r.value[1].devAppId == Trim(a.prodAppId)
    ensures r.Some? && p == SchemaSync ==> r.value[0].prodAppId == Some(Trim(a.prodAppId))
  {
    match p
    case Single => Some([NewSetup(name, devId, None)])
    case Separate =>
      var r := if distinctNames then SeparateSetups(name, devId, a.prodAppName, a.prodAppId, taken, isNumeric)
               else SeparateSetupsAsWritten(name, devId, a.prodAppName, a.prodAppId, taken, isNumeric);
      assert r.Some? ==> SetupOk(r.value[0], taken, false) && SetupOk(r.value[1], taken, false);
      r
    case SchemaSync =>
      var prodId := PromptAppId(a.prodAppId, isNumeric);
      if prodId.None? then None else Some([NewSetup(name, devId, prodId)])
  }

  /** Every answer before the confirmation passes its check: a pattern, a
      new valid name, a development ID and the pattern's further answers. */
  predicate AnswersAccepted(a: Answers, taken: string -> bool, isNumeric: string -> bool, distinctNames: bool)
  {
    && ChoosePattern(a.pattern).Some?
    && PromptAppName(a.appName, taken).Some?
    && PromptAppId(a.devAppId, isNumeric).Some?
    && PatternSetups(ChoosePattern(a.pattern).value, PromptAppName(a.appName, taken).value,
                     PromptAppId(a.devAppId, isNumeric).value, a, taken, isNumeric, distinctNames).Some?
  }

  /** `createApp` up to the confirmation: the setups to create, an error exit
      for an invalid answer, or a cancellation. `distinctNames` selects the
      separate-source construction as in `PatternSetups`. */
  function RunWizard(a: Answers, taken: string -> bool, isNumeric: string -> bool, distinctNames: bool): (r: Outcome)
    ensures r.Invalid? <==> !AnswersAccepted(a, taken, isNumeric, distinctNames)
    ensures r.Aborted? <==> AnswersAccepted(a, taken, isNumeric, distinctNames) && (a.confirm == "n" || a.confirm == "N")
    ensures r.Create? ==> Some(r.pattern) == ChoosePattern(a.pattern) && !Cancelled(a.confirm)
    ensures r.Create? ==> |r.setups| == if r.pattern == Separate then 2 else 1
    ensures r.Create? ==> r.setups[0].appName == Trim(a.appName) && r.setups[0].devAppId == Trim(a.devAppId)
    ensures r.Create? ==> forall i :: 0 <= i < |r.setups| ==> SetupOk(r.setups[i], taken, r.pattern == SchemaSync)
    ensures r.Create? && r.pattern == Separate && distinctNames ==> DevEnvVar(r.setups[0]) != DevEnvVar(r.setups[1])
    ensures r.Create? && r.pattern == Separate ==>
      r.setups[1].appName == ProdName(a.prodAppName, Trim(a.appName)) && r.setups[1].devAppId == Trim(a.prodAppId)
    ensures r.Create? && r.pattern == SchemaSync ==> r.setups[0].prodAppId == Some(Trim(a.prodAppId))
  {
    CancelledOnlyOnN(a.confirm);
    if !AnswersAccepted(a, taken, isNumeric, distinctNames) then Invalid
    else
      var p := ChoosePattern(a.pattern).value;
      var name := PromptAppName(a.appName, taken).value;
      var devId := PromptAppId(a.devAppId, isNumeric).value;
      var setups := PatternSetups(p, name, devId, a, taken, isNumeric, distinctNames).value;
      assert name == Trim(a.appName) && devId == Trim(a.devAppId);
      assert setups[0].appName == name && setups[0].devAppId == devId;
      if Cancelled(a.confirm) then Aborted else Create(p, setups)
  }

  /** The separate-source pattern with development name `shop`, a blank
      production name and production ID `2`, in a project without a `shop`
      app: the wizard as written creates two setups named `shop`, while the
      corrected wizard refuses the answers. */
  lemma SameNameWizard(taken: string -> bool, isNumeric: string -> bool)
    requires !taken("shop") && isNumeric("1") && isNumeric("2")
    ensures var a := Answers("2", "shop", "1", "", "2", "y");
      && RunWizard(a, taken, isNumeric, false).Create?
      && RunWizard(a, taken, isNumeric, false).setups[0].appName == "shop"
      && RunWizard(a, taken, isNumeric, false).setups[1].appName == "shop"
      && RunWizard(a, taken, isNumeric, true).Invalid?
  {
    var a := Answers("2", "shop", "1", "", "2", "y");
    TrimOfTrimmed("2");
    TrimOfTrimmed("1");
    assert Trim("") == "";
    assert ChoosePattern("2") == Some(Separate);
    assert ValidAppName("shop");
    ValidNameAccepted("shop", taken);
    assert PromptAppId("1", isNumeric) == Some("1");
    assert PromptAppId("2", isNumeric) == Some("2");
    assert !EndsWith("shop", "-dev");
    assert ProdName("", "shop") == "shop";
    var w := PatternSetups(Separate, "shop", "1", a, taken, isNumeric, false);
    assert w.Some? && w.value[1].appName == "shop";
    assert PatternSetups(Separate, "shop", "1", a, taken, isNumeric, true).None?;
    assert ToLower("y")[0] == 'y';
  }

  /** The wizard as written and the corrected wizard decide alike whenever
      the production name differs from the trimmed development name. */
  lemma WizardsAgree(a: Answers, taken: string -> bool, isNumeric: string -> bool)
    requires ProdName(a.prodAppName, Trim(a.appName)) != Trim(a.appName)
    ensures RunWizard(a, taken, isNumeric, false) == RunWizard(a, taken, isNumeric, true)
  {
    var p := ChoosePattern(a.pattern);
    var name := PromptAppName(a.appName, taken);
    var devId := PromptAppId(a.devAppId, isNumeric);
    if p.Some? && name.Some? && devId.Some? {
      assert PatternSetups(p.value, name.value, devId.value, a, taken, isNumeric, false)
        == PatternSetups(p.value, name.value, devId.value, a, taken, isNumeric, true) by {
        SeparateSetupsAgree(name.value, devId.value, a.prodAppName, a.prodAppId, taken, isNumeric);
      }
      SameSetupsSameRun(a, taken, isNumeric);
    } else {
      assert !AnswersAccepted(a, taken, isNumeric, false) && !AnswersAccepted(a, taken, isNumeric, true);
    }
  }

  /** The two wizards run alike once the answers select the same setups. */
  lemma SameSetupsSameRun(a: Answers, taken: string -> bool, isNumeric: string -> bool)
    requires ChoosePattern(a.pattern).Some? && PromptAppName(a.appName, taken).Some? && PromptAppId(a.devAppId, isNumeric).Some?
    requires
      var p, name, devId := ChoosePattern(a.pattern).value, PromptAppName(a.appName, taken).value, PromptAppId(a.devAppId, isNumeric).value;
      PatternSetups(p, name, devId, a, taken, isNumeric, false) == PatternSetups(p, name, devId, a, taken, isNumeric, true)
    ensures RunWizard(a, taken, isNumeric, false) == RunWizard(a, taken, isNumeric, true)
  {
  }

  // ---------------------------------------------------------------- .env

  const EnvTemplate := "# kintone環境設定\nKINTONE_BASE_URL=https://your-domain.cybozu.com\nKINTONE_USERNAME=your-username\nKINTONE_PASSWORD=your-password\n"

  function DevEnvVar(s: AppSetup): string
  {
    s.envVarPrefix + "_DEV_ID"
  }

  function ProdEnvVar(s: AppSetup): string
  {
    s.envVarPrefix + "_PROD_ID"
  }

  /** The block appended for a missing development variable. */
  function DevBlock(s: AppSetup): string
  {
    "\n# " + s.appName + "\n" + DevEnvVar(s) + "=" + s.devAppId + "\n"
  }

  /** The line appended for a missing production variable. */
  function ProdLine(s: AppSetup): string
    requires s.prodAppId.Some?
  {
    ProdEnvVar(s) + "=" + s.prodAppId.value + "\n"
  }

  /** The development step of `updateEnvFile` as written: the block is
      appended exactly when the variable name occurs nowhere in the file. */
  function DevStepAsWritten(base: string, s: AppSetup): (r: string)
    ensures Contains(base, DevEnvVar(s)) ==> r == base
    ensures !Contains(base, DevEnvVar(s)) ==> r == base + DevBlock(s)
    ensures StartsWith(r, base) && Contains(r, DevEnvVar(s))
  {
    if Contains(base, DevEnvVar(s)) then base
    else
      assert OccursAt(DevBlock(s), DevEnvVar(s), 4 + |s.appName|);
      ContainsInConcat(base, DevBlock(s), "", DevEnvVar(s));
      assert base + DevBlock(s) + "" == base + DevBlock(s);
      assert (base + DevBlock(s))[..|base|] == base;
      base + DevBlock(s)
  }

  /** The production step of `updateEnvFile` as written: `<PROD>=<id>\n` is
      appended, right after whatever the file ends with, exactly when there
      is a production ID and the variable name occurs nowhere in the file. */
  function ProdStepAsWritten(content: string, s: AppSetup): (r: string)
    ensures Truthy(s.prodAppId) && !Contains(content, ProdEnvVar(s)) ==> r == content + ProdLine(s)
    ensures !Truthy(s.prodAppId) || Contains(content, ProdEnvVar(s)) ==> r == content
    ensures StartsWith(r, content)
    ensures Truthy(s.prodAppId) ==> Contains(r, ProdEnvVar(s))
  {
    if Truthy(s.prodAppId) && !Contains(content, ProdEnvVar(s)) then
      var line := ProdLine(s);
      assert OccursAt(line, ProdEnvVar(s), 0);
      ContainsInConcat(content, line, "", ProdEnvVar(s));
      assert content + line + "" == content + line;
      assert (content + line)[..|content|] == content;
      content + line
    else
      content
  }

  /** `updateEnvFile` as written: a variable counts as present when its name
      occurs anywhere in the file (`includes`). The result is the old file,
      then the development block when its name was missing, then the
      production line when there is an ID and its name is still missing. */
  function UpdateEnvFileAsWritten(existing: Option<string>, s: AppSetup): (r: string)
    ensures var base := existing.GetOr(EnvTemplate);
      r == base + (if Contains(base, DevEnvVar(s)) then "" else DevBlock(s))
        + (if Truthy(s.prodAppId) && !Contains(DevStepAsWritten(base, s), ProdEnvVar(s)) then ProdLine(s) else "")
    ensures StartsWith(r, existing.GetOr(EnvTemplate))
    ensures Contains(r, DevEnvVar(s))
    ensures Truthy(s.prodAppId) ==> Contains(r, ProdEnvVar(s))
    ensures Contains(existing.GetOr(EnvTemplate), DevEnvVar(s))
      && (!Truthy(s.prodAppId) || Contains(existing.GetOr(EnvTemplate), ProdEnvVar(s)))
      ==> r == existing.GetOr(EnvTemplate)
  {
    var base := existing.GetOr(EnvTemplate);
    var withDev := DevStepAsWritten(base, s);
    var r := ProdStepAsWritten(withDev, s);
    ContainsPrefix(base, withDev, ProdEnvVar(s));
    ContainsPrefix(withDev, r, DevEnvVar(s));
    StartsWithTransitive(base, withDev, r);
    r
  }

  /** An occurrence in a prefix is an occurrence in the whole. */
  lemma ContainsPrefix(a: string, b: string, sub: string)
    requires StartsWith(b, a)
    ensures Contains(a, sub) ==> Contains(b, sub)
  {
    if Contains(a, sub) {
      var i :| 0 <= i <= |a| - |sub| && OccursAt(a, sub, i);
      assert b[i..i + |sub|] == a[i..i + |sub|];
      assert OccursAt(b, sub, i);
    }
  }

  /** Running the update twice is running it once. */
  lemma UpdateEnvFileAsWrittenIdempotent(existing: Option<string>, s: AppSetup)
    ensures UpdateEnvFileAsWritten(Some(UpdateEnvFileAsWritten(existing, s)), s) == UpdateEnvFileAsWritten(existing, s)
  {
  }

  /** `i` is the start of a line of `s`. */
  predicate LineStart(s: string, i: int)
  {
    i == 0 || (0 < i <= |s| && s[i - 1] == '\n')
  }

  /** Some line of `content` starts with `text`. */
  predicate AtLineStart(content: string, text: string)
  {
    exists i :: 0 <= i <= |content| && LineStart(content, i) && OccursAt(content, text, i)
  }

  /** Some line of `content` assigns the variable `v`. */
  predicate DefinesVar(content: string, v: string)
  {
    AtLineStart(content, v + "=")
  }

  /** A file already holding the variable `X_A_DEV_ID` of an app `x-a` hides
      the missing variable `A_DEV_ID` of a new app `a`: nothing is appended. */
  lemma EnvSubstringHidesVariable()
    ensures var s := NewSetup("a", "1", None);
      var base := "X_A_DEV_ID=5\n";
      UpdateEnvFileAsWritten(Some(base), s) == base && !DefinesVar(base, DevEnvVar(s))
  {
    var s := NewSetup("a", "1", None);
    assert DevEnvVar(s) == "A_DEV_ID" && !Truthy(s.prodAppId);
    HiddenFound();
    HiddenNotDefined();
  }

  /** `A_DEV_ID` occurs inside `X_A_DEV_ID=5`. */
  lemma HiddenFound()
    ensures Contains("X_A_DEV_ID=5\n", "A_DEV_ID")
  {
    assert OccursAt("X_A_DEV_ID=5\n", "A_DEV_ID", 2);
  }

  /** No line of `X_A_DEV_ID=5` assigns `A_DEV_ID`. */
  lemma HiddenNotDefined()
    ensures !DefinesVar("X_A_DEV_ID=5\n", "A_DEV_ID")
  {
    var base := "X_A_DEV_ID=5\n";
    forall i | 0 <= i <= |base| && LineStart(base, i) ensures !OccursAt(base, "A_DEV_ID=", i) {
      if i > 0 {
        assert base[i - 1] == '\n';
        assert i == 13;
      } else {
        assert base[0] != 'A';
      }
    }
  }

  /** A file whose last line has no line break: the production line is glued
      onto the development line, so no line assigns `A_PROD_ID`. The
      corrected update starts it on a line of its own. */
  lemma ProdLineGluedToLastLine()
    ensures var s := NewSetup("a", "1", Some("2"));
      var base := "A_DEV_ID=1";
      var glued := UpdateEnvFileAsWritten(Some(base), s);
      && glued == "A_DEV_ID=1A_PROD_ID=2\n"
      && !DefinesVar(glued, ProdEnvVar(s))
      && UpdateEnvFile(Some(base), s) == "A_DEV_ID=1\nA_PROD_ID=2\n"
  {
    var s := NewSetup("a", "1", Some("2"));
    GlueNames(s);
    GlueBaseFacts();
    AsWrittenAppendsProd("A_DEV_ID=1", s);
    GlueNotDefined();
    CorrectedAppendsProd("A_DEV_ID=1", s);
    GlueLiterals();
  }

  /** The names the witness uses. */
  lemma GlueNames(s: AppSetup)
    requires s == NewSetup("a", "1", Some("2"))
    ensures DevEnvVar(s) == "A_DEV_ID" && ProdEnvVar(s) == "A_PROD_ID"
    ensures s.prodAppId == Some("2") && Truthy(s.prodAppId) && ProdLine(s) == "A_PROD_ID=2\n"
  {
    assert ToEnvVarPrefix("a") == "A";
  }

  /** What the two searches find in the witness file. */
  lemma GlueBaseFacts()
    ensures Contains("A_DEV_ID=1", "A_DEV_ID") && !Contains("A_DEV_ID=1", "A_PROD_ID")
    ensures DefinesVar("A_DEV_ID=1", "A_DEV_ID") && !DefinesVar("A_DEV_ID=1", "A_PROD_ID")
    ensures EnsureNewline("A_DEV_ID=1") == "A_DEV_ID=1\n"
  {
    var base := "A_DEV_ID=1";
    assert OccursAt(base, "A_DEV_ID", 0);
    forall i | 0 <= i <= |base| - 9 ensures !OccursAt(base, "A_PROD_ID", i) {
      assert base[i + 2] != 'P';
    }
    assert "A_DEV_ID" + "=" == "A_DEV_ID=";
    assert OccursAt(base, "A_DEV_ID=", 0) && LineStart(base, 0);
    assert "A_PROD_ID" + "=" == "A_PROD_ID=";
    forall i | 0 <= i <= |base| && LineStart(base, i) ensures !OccursAt(base, "A_PROD_ID=", i) {
      assert i == 0;
      assert base[2] != 'P';
    }
  }

  /** The glued file has no line assigning `A_PROD_ID`. */
  lemma GlueNotDefined()
    ensures !DefinesVar("A_DEV_ID=1A_PROD_ID=2\n", "A_PROD_ID")
  {
    var glued := "A_DEV_ID=1A_PROD_ID=2\n";
    assert "A_PROD_ID" + "=" == "A_PROD_ID=";
    forall i | 0 <= i <= |glued| && LineStart(glued, i) ensures !OccursAt(glued, "A_PROD_ID=", i) {
      if i > 0 {
        assert glued[i - 1] == '\n';
        assert i == |glued|;
      } else {
        assert glued[2] != 'P';
      }
    }
  }

  lemma GlueLiterals()
    ensures "A_DEV_ID=1" + "A_PROD_ID=2\n" == "A_DEV_ID=1A_PROD_ID=2\n"
    ensures "A_DEV_ID=1\n" + "A_PROD_ID=2\n" == "A_DEV_ID=1\nA_PROD_ID=2\n"
  {
  }

  /** A file that already names the development variable but not the
      production one gets exactly the production line appended. */
  lemma AsWrittenAppendsProd(base: string, s: AppSetup)
    requires Contains(base, DevEnvVar(s)) && Truthy(s.prodAppId) && !Contains(base, ProdEnvVar(s))
    ensures UpdateEnvFileAsWritten(Some(base), s) == base + ProdLine(s)
  {
    assert DevStepAsWritten(base, s) == base;
  }

  /** A file where a line assigns the development variable and none the
      production one gets the production line on a line of its own. */
  lemma CorrectedAppendsProd(base: string, s: AppSetup)
    requires DefinesVar(base, DevEnvVar(s)) && Truthy(s.prodAppId) && !DefinesVar(base, ProdEnvVar(s))
    ensures UpdateEnvFile(Some(base), s) == EnsureNewline(base) + ProdLine(s)
  {
    assert WithDevLine(base, s) == base;
  }

  /** `s` followed by a line break when it is neither empty nor already
      ends in one. */
  function EnsureNewline(s: string): (r: string)
    ensures StartsWith(r, s) && LineStart(r, |r|)
  {
    if |s| == 0 || s[|s| - 1] == '\n' then s else s + "\n"
  }

  /** Text placed at the start of a line starts a line. */
  lemma AtLineStartAfter(pre: string, text: string, post: string)
    requires LineStart(pre, |pre|)
    ensures AtLineStart(pre + text + post, text)
  {
    var c := pre + text + post;
    assert c[|pre|..|pre| + |text|] == text;
    assert LineStart(c, |pre|);
  }

  /** A line starting with `text + more` starts with `text`. */
  lemma AtLineStartShorter(content: string, text: string, more: string)
    requires AtLineStart(content, text + more)
    ensures AtLineStart(content, text)
  {
    var i :| 0 <= i <= |content| && LineStart(content, i) && OccursAt(content, text + more, i);
    assert content[i..i + |text|] == (text + more)[..|text|];
  }

  /** A line start survives appending text. */
  lemma AtLineStartPrefix(a: string, b: string, text: string)
    requires StartsWith(b, a)
    ensures AtLineStart(a, text) ==> AtLineStart(b, text)
  {
    if AtLineStart(a, text) {
      var i :| 0 <= i <= |a| && LineStart(a, i) && OccursAt(a, text, i);
      assert b[i..i + |text|] == a[i..i + |text|];
      assert LineStart(b, i);
    }
  }

  /** `updateEnvFile` with a variable counting as present only when a line
      assigns it, and the production line always starting a line. */
  function UpdateEnvFile(existing: Option<string>, s: AppSetup): (r: string)
    ensures StartsWith(r, existing.GetOr(EnvTemplate))
    ensures DefinesVar(r, DevEnvVar(s))
    ensures Truthy(s.prodAppId) ==> DefinesVar(r, ProdEnvVar(s))
    ensures !DefinesVar(existing.GetOr(EnvTemplate), DevEnvVar(s)) ==>
      AtLineStart(r, DevEnvVar(s) + "=" + s.devAppId + "\n")
    ensures !DefinesVar(existing.GetOr(EnvTemplate), DevEnvVar(s)) ==>
      StartsWith(r, existing.GetOr(EnvTemplate) + DevBlock(s))
    ensures var withDev := WithDevLine(existing.GetOr(EnvTemplate), s);
      Truthy(s.prodAppId) && !DefinesVar(withDev, ProdEnvVar(s)) ==>
        r == EnsureNewline(withDev) + ProdLine(s) && AtLineStart(r, ProdLine(s))
    ensures |r| <= |existing.GetOr(EnvTemplate)| + |DevBlock(s)| + (if Truthy(s.prodAppId) then 1 + |ProdLine(s)| else 0)
    ensures DefinesVar(existing.GetOr(EnvTemplate), DevEnvVar(s))
      && (!Truthy(s.prodAppId) || DefinesVar(existing.GetOr(EnvTemplate), ProdEnvVar(s)))
      ==> r == existing.GetOr(EnvTemplate)
  {
    var base := existing.GetOr(EnvTemplate);
    var withDev := WithDevLine(base, s);
    var r := WithProdLine(withDev, s);
    AtLineStartPrefix(withDev, r, DevEnvVar(s) + "=");
    AtLineStartPrefix(withDev, r, DevEnvVar(s) + "=" + s.devAppId + "\n");
    AtLineStartPrefix(base, withDev, ProdEnvVar(s) + "=");
    StartsWithTransitive(base, withDev, r);
    r
  }

  lemma StartsWithTransitive(a: string, b: string, c: string)
    requires StartsWith(b, a) && StartsWith(c, b)
    ensures StartsWith(c, a)
  {
    assert c[..|a|] == c[..|b|][..|a|];
  }

  /** The file with the development block appended unless a line already
      assigns the development variable. */
  function WithDevLine(base: string, s: AppSetup): (r: string)
    ensures StartsWith(r, base) && DefinesVar(r, DevEnvVar(s))
    ensures !DefinesVar(base, DevEnvVar(s)) ==> AtLineStart(r, DevEnvVar(s) + "=" + s.devAppId + "\n")
    ensures DefinesVar(base, DevEnvVar(s)) ==> r == base
    ensures !DefinesVar(base, DevEnvVar(s)) ==> r == base + DevBlock(s)
  {
    DevBlockDefines(base, s);
    assert StartsWith(base + DevBlock(s), base) by {
      assert (base + DevBlock(s))[..|base|] == base;
    }
    if DefinesVar(base, DevEnvVar(s)) then base else base + DevBlock(s)
  }

  /** The file with the production line appended, on a line of its own, when
      there is a production ID and no line assigns its variable yet. */
  function WithProdLine(content: string, s: AppSetup): (r: string)
    ensures StartsWith(r, content)
    ensures Truthy(s.prodAppId) ==> DefinesVar(r, ProdEnvVar(s))
    ensures Truthy(s.prodAppId) && !DefinesVar(content, ProdEnvVar(s)) ==>
      && r == EnsureNewline(content) + ProdLine(s)
      && AtLineStart(r, ProdLine(s))
      && |r| <= |content| + 1 + |ProdLine(s)|
    ensures !Truthy(s.prodAppId) || DefinesVar(content, ProdEnvVar(s)) ==> r == content
  {
    if Truthy(s.prodAppId) && !DefinesVar(content, ProdEnvVar(s)) then
      ProdLineOnItsOwn(content, s);
      EnsureNewline(content) + ProdLine(s)
    else
      content
  }

  /** The production line after the file, with its last line ended, starts
      a line of its own and so defines the variable. */
  lemma ProdLineOnItsOwn(content: string, s: AppSetup)
    requires s.prodAppId.Some?
    ensures var r := EnsureNewline(content) + ProdLine(s);
      && StartsWith(r, content)
      && AtLineStart(r, ProdLine(s))
      && DefinesVar(r, ProdEnvVar(s))
      && |r| <= |content| + 1 + |ProdLine(s)|
  {
    var pre := EnsureNewline(content);
    var line := ProdLine(s);
    AtLineStartAfter(pre, line, "");
    assert pre + line + "" == pre + line;
    AtLineStartShorter(pre + line, ProdEnvVar(s) + "=", s.prodAppId.value + "\n");
    assert (pre + line)[..|pre|] == pre;
    StartsWithTransitive(content, pre, pre + line);
  }

  /** Appending the development block defines the development variable on a
      line of its own. */
  lemma DevBlockDefines(base: string, s: AppSetup)
    ensures AtLineStart(base + DevBlock(s), DevEnvVar(s) + "=" + s.devAppId + "\n")
    ensures DefinesVar(base + DevBlock(s), DevEnvVar(s))
  {
    var pre := base + "\n# " + s.appName + "\n";
    var line := DevEnvVar(s) + "=" + s.devAppId + "\n";
    assert base + DevBlock(s) == pre + line + "";
    AtLineStartAfter(pre, line, "");
    AtLineStartShorter(base + DevBlock(s), DevEnvVar(s) + "=", s.devAppId + "\n");
  }

  /** Running the corrected update twice is running it once. */
  lemma UpdateEnvFileIdempotent(existing: Option<string>, s: AppSetup)
    ensures UpdateEnvFile(Some(UpdateEnvFile(existing, s)), s) == UpdateEnvFile(existing, s)
  {
  }

  // ---------------------------------------------------------------- kintone.config.ts

  const DevLinePrefix := "      dev: process.env."
  const ProdLinePrefix := "      prod: process.env."

  /** The `ids` object of a new entry: a `prod` line only when the setup has
      a production app ID. */
  function IdsBlock(s: AppSetup): (r: string)
    ensures '\n' !in s.envVarPrefix ==>
      Split(r, '\n') == if Truthy(s.prodAppId)
        then ["{", DevLinePrefix + DevEnvVar(s) + ",", ProdLinePrefix + ProdEnvVar(s), "    }"]
        else ["{", DevLinePrefix + DevEnvVar(s), "    }"]
  {
    var devLine := DevLinePrefix + DevEnvVar(s);
    var prodLine := ProdLinePrefix + ProdEnvVar(s);
    IdsLinesUnbroken(s, devLine, prodLine);
    if Truthy(s.prodAppId) then
      Lines4("{", devLine + ",", prodLine, "    }");
      "{" + "\n" + ((devLine + ",") + "\n" + prodLine + "\n" + "    }")
    else
      Lines3("{", devLine, "    }");
      "{" + "\n" + devLine + "\n" + "    }"
  }

  /** The lines of the `ids` object hold no line break of their own when the
      variable prefix holds none. */
  lemma IdsLinesUnbroken(s: AppSetup, devLine: string, prodLine: string)
    requires devLine == DevLinePrefix + DevEnvVar(s) && prodLine == ProdLinePrefix + ProdEnvVar(s)
    ensures '\n' !in s.envVarPrefix ==>
      '\n' !in "{" + devLine + "    }" && '\n' !in "{" + (devLine + ",") + prodLine + "    }"
  {
    assert '\n' !in DevLinePrefix;
    assert '\n' !in ProdLinePrefix;
  }

  /** Three lines joined with line breaks split back into the lines. */
  lemma Lines3(a: string, b: string, c: string)
    ensures '\n' !in a + b + c ==> Split(a + "\n" + b + "\n" + c, '\n') == [a, b, c]
  {
    if '\n' !in a + b + c {
      assert '\n' !in a && '\n' !in b && '\n' !in c;
      var bc := b + ['\n'] + c;
      SplitWithoutSeparator(c, '\n');
      SplitConcat(b, '\n', c);
      SplitConcat(a, '\n', bc);
      assert a + "\n" + b + "\n" + c == a + ['\n'] + bc;
    }
  }

  /** Four lines joined with line breaks split back into the lines. */
  lemma Lines4(a: string, b: string, c: string, d: string)
    ensures '\n' !in a + b + c + d ==> Split(a + "\n" + (b + "\n" + c + "\n" + d), '\n') == [a, b, c, d]
  {
    if '\n' !in a + b + c + d {
      assert '\n' !in a && '\n' !in b + c + d;
      assert b + c + d == b + (c + d);
      Lines3(b, c, d);
      SplitConcat(a, '\n', b + "\n" + c + "\n" + d);
    }
  }

  /** `newAppEntry`: the quoted name as key, the name again and the ids. */
  function NewAppEntry(s: AppSetup): (r: string)
    ensures StartsWith(r, "  '" + s.appName + "': {")
    ensures ';' !in s.appName && ';' !in s.envVarPrefix ==> ';' !in r
  {
    var r := "  '" + s.appName + "': {\n    name: '" + s.appName + "',\n    ids: " + IdsBlock(s) + "\n  }";
    assert r[..|"  '" + s.appName + "': {"|] == "  '" + s.appName + "': {";
    IdsBlockNoSemicolon(s);
    r
  }

  /** The `ids` object holds a `;` only if the variable prefix does. */
  lemma IdsBlockNoSemicolon(s: AppSetup)
    ensures ';' !in s.envVarPrefix ==> ';' !in IdsBlock(s)
  {
    assert ';' !in DevLinePrefix;
    assert ';' !in ProdLinePrefix;
  }

  /** An apps body holding no entry: blank, or a comment without braces. */
  predicate EmptyAppsBody(current: string)
  {
    Trim(current) == "" || (StartsWith(Trim(current), "//") && '{' !in Trim(current))
  }

  /** The new body of the apps object: an empty body is replaced by the
      entry; otherwise the entry is appended after a comma, adding the comma
      only when the last member has none. */
  function RewriteAppsBody(current: string, entry: string): (r: string)
    ensures EndsWith(r, entry + "\n")
    ensures EmptyAppsBody(current) ==> r == "\n" + entry + "\n"
    ensures !EmptyAppsBody(current) ==> r == AppendEntry(current, entry)
  {
    if EmptyAppsBody(current) then
      ConcatEnds("\n", entry + "\n");
      "\n" + (entry + "\n")
    else AppendEntry(current, entry)
  }

  /** The last character of `s` other than a trailing blank is a comma. */
  predicate CommaEnded(s: string)
  {
    EndsWith(TrimEnd(s), ",")
  }

  /** The text before the final `entry` and its line break ends in a comma,
      trailing blanks aside. */
  predicate CommaBeforeEntry(r: string, entry: string)
  {
    |r| > |entry| && CommaEnded(r[..|r| - |entry| - 1])
  }

  /** What goes between a body holding members and the new entry: a line
      break, after a comma unless the trimmed body already ends in one. */
  function Separator(current: string): string
  {
    if EndsWith(Trim(current), ",") then "\n" else ",\n"
  }

  /** The entry appended to a body holding members. */
  function AppendEntry(current: string, entry: string): (r: string)
    ensures StartsWith(r, current) && EndsWith(r, entry + "\n")
    ensures |r| == |current| + |entry| + if EndsWith(Trim(current), ",") then 2 else 3
    ensures CommaBeforeEntry(r, entry)
  {
    AppendEntryParts(current, entry);
    current + Separator(current) + entry + "\n"
  }

  /** The appended body starts with the old one, ends with the entry, and
      has a comma before the entry. */
  lemma AppendEntryParts(current: string, entry: string)
    ensures var r := current + Separator(current) + entry + "\n";
      && StartsWith(r, current) && EndsWith(r, entry + "\n")
      && |r| == |current| + |entry| + (if EndsWith(Trim(current), ",") then 2 else 3)
      && CommaBeforeEntry(r, entry)
  {
    var sep := Separator(current);
    assert |sep| == if EndsWith(Trim(current), ",") then 1 else 2 by {
      SeparatorLength(current);
    }
    assert CommaEnded(current + sep) by {
      SeparatorComma(current);
    }
    AppendedBody(current, sep, entry);
  }

  /** The separator is a newline after a trailing comma, else a comma and a
      newline. */
  lemma SeparatorLength(current: string)
    ensures |Separator(current)| == if EndsWith(Trim(current), ",") then 1 else 2
  {
  }

  /** After the separator, the last character other than a blank is a comma. */
  lemma SeparatorComma(current: string)
    ensures CommaEnded(current + Separator(current))
  {
    if EndsWith(Trim(current), ",") {
      KeptComma(current);
    } else {
      AddedComma(current);
    }
  }

  /** A comma added after the body is its last character once trailing
      blanks are cut. */
  lemma AddedComma(current: string)
    ensures EndsWith(TrimEnd(current + ",\n"), ",")
  {
    assert current + ",\n" == current + [','] + "\n";
    TrimEndAfterMark(current, ',', "\n");
  }

  /** The parts of a body with an entry appended after a separator. */
  lemma AppendedBody(current: string, sep: string, entry: string)
    requires CommaEnded(current + sep)
    ensures var r := current + sep + entry + "\n";
      && |r| == |current| + |sep| + |entry| + 1
      && EndsWith(r, entry + "\n") && StartsWith(r, current) && CommaBeforeEntry(r, entry)
  {
    var r := current + sep + entry + "\n";
    assert r[|r| - |entry + "\n"|..] == entry + "\n";
    assert r[..|current|] == current;
    assert r[..|r| - |entry| - 1] == current + sep;
  }

  /** A body whose trimmed text ends in a comma still ends in that comma,
      once trailing blanks are cut, after a line break is added. */
  lemma KeptComma(current: string)
    requires EndsWith(Trim(current), ",")
    ensures EndsWith(TrimEnd(current + "\n"), ",")
  {
    var t, m := TrimEnd(current), Trim(current);
    assert |m| > 0 && m[|m| - 1] == ',' by {
      assert m[|m| - 1] == m[|m| - 1..][0];
    }
    assert |t| > 0 && t[|t| - 1] == ',' by {
      TrimLastChar(current);
    }
    assert EndsWith(t, ",") by {
      assert t[|t| - 1..] == [t[|t| - 1]];
    }
    TrimEndIgnoresTrailingSpace(current, "\n");
  }

  const AppsHeader := "export const apps: Apps = {"
  const AppsEnd := "\n};"

  /** No header is followed by a terminator. */
  ghost predicate NoAppsObject(content: string)
  {
    forall h, e :: 0 <= h && h + |AppsHeader| <= e && OccursAt(content, AppsHeader, h) ==> !OccursAt(content, AppsEnd, e)
  }

  /** The match of `/export const apps: Apps = \{([\s\S]*?)\n\};/`: the
      position right after the first header and the position of the first
      `\n};` after it, which bound the captured body. */
  function FindAppsBody(content: string): (r: Option<(nat, nat)>)
    ensures r.Some? ==> |AppsHeader| <= r.value.0 <= r.value.1
    ensures r.Some? ==> OccursAt(content, AppsHeader, r.value.0 - |AppsHeader|)
    ensures r.Some? ==> forall j :: 0 <= j < r.value.0 - |AppsHeader| ==> !OccursAt(content, AppsHeader, j)
    ensures r.Some? ==> OccursAt(content, AppsEnd, r.value.1)
    ensures r.Some? ==> forall j :: r.value.0 <= j < r.value.1 ==> !OccursAt(content, AppsEnd, j)
    ensures r.None? <==> NoAppsObject(content)
  {
    var h := IndexFrom(content, AppsHeader, 0);
    if h.None? then None
    else
      var p := h.value + |AppsHeader|;
      var e := IndexFrom(content, AppsEnd, p);
      if e.None? then
        None
      else Some((p, e.value))
  }

  /** `updateConfigFile`: the apps body rewritten with the new entry, the rest
      of the file unchanged; None when the apps object is not found. */
  function UpdateConfigFile(content: string, s: AppSetup): (r: Option<string>)
    ensures r.None? <==> FindAppsBody(content).None?
    ensures r.Some? ==> Contains(r.value, NewAppEntry(s))
  {
    var m := FindAppsBody(content);
    if m.None? then None
    else
      var (p, e) := m.value;
      var body := RewriteAppsBody(content[p..e], NewAppEntry(s));
      var rest := "};" + content[e + 3..];
      EntryInBody(content[p..e], NewAppEntry(s));
      ContainsInConcat(content[..p], body, rest, NewAppEntry(s));
      Some(Splice(content, p, e, body))
  }

  /** The file with the matched apps object rebuilt around a new body. */
  function Splice(content: string, p: nat, e: nat, body: string): string
    requires p <= e && e + 3 <= |content|
  {
    content[..p] + body + ("};" + content[e + 3..])
  }

  /** The rewritten body holds the entry. */
  lemma EntryInBody(current: string, entry: string)
    ensures Contains(RewriteAppsBody(current, entry), entry)
  {
    var r := RewriteAppsBody(current, entry);
    assert OccursAt(r, entry, |r| - |entry| - 1) by {
      assert r[|r| - |entry| - 1..|r| - 1] == (entry + "\n")[..|entry|];
    }
  }

  /** No `\n};` occurs in `s`. */
  predicate NoAppsEnd(s: string)
  {
    forall i :: 0 <= i < |s| - 2 ==> !(s[i] == '\n' && s[i + 1] == '}' && s[i + 2] == ';')
  }

  /** Two texts without `\n};` joined without creating one. */
  lemma NoAppsEndConcat(a: string, b: string)
    requires NoAppsEnd(a) && NoAppsEnd(b)
    requires |b| > 0 && b[0] != '}' && b[0] != ';'
    ensures NoAppsEnd(a + b)
  {
    var c := a + b;
    forall i | 0 <= i < |c| - 2 ensures !(c[i] == '\n' && c[i + 1] == '}' && c[i + 2] == ';') {
      if i >= |a| {
        assert c[i..i + 3] == b[i - |a|..i - |a| + 3];
      } else if i + 2 < |a| {
        assert c[i..i + 3] == a[i..i + 3];
      }
    }
  }

  /** The rewritten body holds no `\n};` when the entry holds no `;` and the
      old body held none. */
  lemma RewrittenBodyOpen(current: string, entry: string)
    requires NoAppsEnd(current) && ';' !in entry
    requires |entry| > 0 && entry[0] == ' '
    ensures NoAppsEnd(RewriteAppsBody(current, entry))
  {
    assert NoAppsEnd(entry);
    assert NoAppsEnd("\n") && NoAppsEnd(",\n");
    if EmptyAppsBody(current) {
      NoAppsEndConcat("\n", entry);
      NoAppsEndConcat("\n" + entry, "\n");
    } else {
      var sep := Separator(current);
      NoAppsEndConcat(current, sep);
      NoAppsEndConcat(current + sep, entry);
      NoAppsEndConcat(current + sep + entry, "\n");
    }
  }

  /** Reading the apps object back after the update finds the rewritten body,
      without its final line break (which the pattern puts before `};`). */
  lemma UpdatedBodyReadBack(content: string, s: AppSetup, p: nat, e: nat)
    requires FindAppsBody(content) == Some((p, e))
    requires ';' !in s.appName && ';' !in s.envVarPrefix
    ensures UpdateConfigFile(content, s) == Some(Splice(content, p, e, RewriteAppsBody(content[p..e], NewAppEntry(s))))
    ensures ReadsBack(content, p, e, RewriteAppsBody(content[p..e], NewAppEntry(s)))
  {
    UpdateIsSplice(content, s, p, e);
    var entry := NewAppEntry(s);
    var body := RewriteAppsBody(content[p..e], entry);
    assert p <= e <= |content|;
    CurrentOpen(content, p, e);
    assert ';' !in entry;
    assert entry[0] == ' ';
    RewrittenBodyOpen(content[p..e], entry);
    assert |body| >= 1 && body[|body| - 1] == '\n';
    ReadBackSpliced(content, p, e, body);
  }

  /** The update is the splice of the rewritten body. */
  lemma UpdateIsSplice(content: string, s: AppSetup, p: nat, e: nat)
    requires FindAppsBody(content) == Some((p, e))
    ensures UpdateConfigFile(content, s) == Some(Splice(content, p, e, RewriteAppsBody(content[p..e], NewAppEntry(s))))
  {
  }

  /** Splicing `body` in place of the captured body keeps the text around
      the apps object, and the pattern then captures `body` less its final
      line break. */
  ghost predicate ReadsBack(content: string, p: nat, e: nat, body: string)
    requires p <= e && e + 3 <= |content| && |body| >= 1
  {
    var r := Splice(content, p, e, body);
    && StartsWith(r, content[..p]) && EndsWith(r, "};" + content[e + 3..])
    && FindAppsBody(r) == Some((p, p + |body| - 1))
    && r[p..p + |body| - 1] == body[..|body| - 1]
  }

  /** Any body free of `\n};` and ending in a line break, put in place of the
      captured one, is what the pattern captures next time, less that line
      break. */
  lemma ReadBackSpliced(content: string, p: nat, e: nat, body: string)
    requires FindAppsBody(content) == Some((p, e))
    requires |body| >= 1 && body[|body| - 1] == '\n' && NoAppsEnd(body)
    ensures ReadsBack(content, p, e, body)
  {
    var r := Splice(content, p, e, body);
    SplicedPieces(content, p, e, body);
    SplicedFindsBody(content, p, body, r);
  }

  /** Where the pieces of a spliced text lie. */
  lemma SplicedPieces(content: string, p: nat, e: nat, body: string)
    requires FindAppsBody(content) == Some((p, e))
    requires |body| >= 1
    ensures |AppsHeader| <= p && IndexFrom(content, AppsHeader, 0) == Some(p - |AppsHeader|)
    ensures var r := Splice(content, p, e, body);
      && StartsWith(r, content[..p]) && EndsWith(r, "};" + content[e + 3..])
      && p + |body| + 2 <= |r| && r[..p] == content[..p] && r[p..p + |body|] == body
      && r[p + |body|..p + |body| + 2] == "};"
      && r[p..p + |body| - 1] == body[..|body| - 1]
  {
    var tail := "};" + content[e + 3..];
    var r := Splice(content, p, e, body);
    SpliceParts(content[..p], body, tail);
    assert r[p + |body|..p + |body| + 2] == tail[..2] == "};";
    assert r[p..p + |body| - 1] == body[..|body| - 1];
  }

  /** A text that keeps `content` up to `p`, where the first apps header
      of `content` ends, and then holds `body` and `};`, has its apps body
      at `p`, ending where `body` ends but for its final line break. */
  lemma SplicedFindsBody(content: string, p: nat, body: string, r: string)
    requires |AppsHeader| <= p && IndexFrom(content, AppsHeader, 0) == Some(p - |AppsHeader|)
    requires |body| >= 1 && body[|body| - 1] == '\n' && NoAppsEnd(body)
    requires p + |body| + 2 <= |r| && r[..p] == content[..p] && r[p..p + |body|] == body
    requires r[p + |body|..p + |body| + 2] == "};"
    ensures FindAppsBody(r) == Some((p, p + |body| - 1))
  {
    HeaderKept(content, r, p - |AppsHeader|);
    EndAfterBody(r, p, body);
    FoundAppsBody(r, p - |AppsHeader|, p, p + |body| - 1);
  }

  /** What the pattern captures, given where the two searches stop. */
  lemma FoundAppsBody(r: string, h: nat, p: nat, e: nat)
    requires p == h + |AppsHeader|
    requires IndexFrom(r, AppsHeader, 0) == Some(h)
    requires IndexFrom(r, AppsEnd, p) == Some(e)
    ensures FindAppsBody(r) == Some((p, e))
  {
  }

  /** The pieces of a spliced text. */
  lemma SpliceParts(a: string, b: string, c: string)
    ensures (a + b + c)[..|a|] == a
    ensures (a + b + c)[|a|..|a| + |b|] == b
    ensures (a + b + c)[|a| + |b|..] == c
    ensures StartsWith(a + b + c, a) && EndsWith(a + b + c, c)
  {
  }

  /** A text that agrees with `content` up to the end of its first apps header
      has its first header at the same place. */
  lemma HeaderKept(content: string, r: string, h: nat)
    requires OccursAt(content, AppsHeader, h)
    requires forall j :: 0 <= j < h ==> !OccursAt(content, AppsHeader, j)
    requires h + |AppsHeader| <= |r| && r[..h + |AppsHeader|] == content[..h + |AppsHeader|]
    ensures IndexFrom(r, AppsHeader, 0) == Some(h)
  {
    var a := content[..h + |AppsHeader|];
    forall j | 0 <= j <= h ensures OccursAt(r, AppsHeader, j) <==> OccursAt(content, AppsHeader, j) {
      OccursInPrefix(a, r, AppsHeader, j);
      OccursInPrefix(a, content, AppsHeader, j);
    }
    IndexFromFirst(r, AppsHeader, 0, h);
  }

  /** Whether `sub` occurs at `j` depends only on a prefix reaching past it. */
  lemma OccursInPrefix(a: string, b: string, sub: string, j: nat)
    requires |a| <= |b| && b[..|a|] == a && j + |sub| <= |a|
    ensures OccursAt(b, sub, j) <==> OccursAt(a, sub, j)
  {
    forall k | j <= k < j + |sub| ensures b[k] == a[k] {
      assert b[..|a|][k] == b[k];
    }
    assert b[j..j + |sub|] == a[j..j + |sub|];
  }

  /** The captured body holds no `\n};`: the lazy match stops at the first. */
  lemma CurrentOpen(content: string, p: nat, e: nat)
    requires p <= e <= |content|
    requires forall j :: p <= j < e ==> !OccursAt(content, AppsEnd, j)
    ensures NoAppsEnd(content[p..e])
  {
    var current := content[p..e];
    forall i | 0 <= i < |current| - 2 ensures !(current[i] == '\n' && current[i + 1] == '}' && current[i + 2] == ';') {
      assert content[p + i..p + i + 3] == [current[i], current[i + 1], current[i + 2]];
      assert !OccursAt(content, AppsEnd, p + i);
    }
  }

  /** A body ending in a line break, free of `\n};` and followed by `};`, is
      closed by its own final line break. */
  lemma EndAfterBody(r: string, p: nat, body: string)
    requires |body| >= 1 && body[|body| - 1] == '\n' && NoAppsEnd(body)
    requires p + |body| + 2 <= |r| && r[p..p + |body|] == body
    requires r[p + |body|..p + |body| + 2] == "};"
    ensures IndexFrom(r, AppsEnd, p) == Some(p + |body| - 1)
  {
    var q := p + |body| - 1;
    assert r[q] == body[|body| - 1];
    assert r[q + 1] == '}' && r[q + 2] == ';';
    assert OccursAt(r, AppsEnd, q) by {
      assert r[q..q + 3] == [r[q], r[q + 1], r[q + 2]];
    }
    forall j | p <= j < q ensures !OccursAt(r, AppsEnd, j) {
      if j + 2 < p + |body| {
        assert r[j] == body[j - p] && r[j + 1] == body[j - p + 1] && r[j + 2] == body[j - p + 2];
      } else {
        assert r[j + 1] == body[|body| - 1];
      }
    }
    IndexFromFirst(r, AppsEnd, p, q);
  }
}
