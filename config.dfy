/** Configuration (src/config.rs): the rule file's schema, where the daemon
    looks for the file, and how a load collapses every failure to "no
    configuration".

    Reading the environment and the disk goes through the values of module
    Paths; the TOML parser is the oracle `parseToml`, which yields a TOML
    document tree. What is modelled here is the serde mapping from that tree
    onto `Config`, and the search and load policy around it. */
module Configuration {
  import opened Wrappers
  import opened Text
  import opened Paths

  /** `RuleType`, internally tagged by a "type" key. */
  datatype RuleType =
    | Window(condition: string, action: string)
    | EmptyWorkspace(workspace: string, command: string)

  /** `Rule`: a name, with the fields of its type flattened beside it. */
  datatype Rule = Rule(name: string, ruleType: RuleType)

  datatype Config = Config(rules: seq<Rule>)

  /** A TOML document as the parser hands it to serde. Integers, floats,
      booleans and dates are all `TScalar`: no field of the schema accepts
      them. */
  datatype TomlValue =
    | TString(str: string)
    | TTable(entries: map<string, TomlValue>)
    | TArray(items: seq<TomlValue>)
    | TScalar

  /** The TOML parser oracle (`toml::from_str`, up to the document tree). */
  type TomlParser = string -> Option<TomlValue>

  const WindowTag: string := "window"
  const EmptyWorkspaceTag: string := "empty-workspace"

  /** A required `String` field: present and a TOML string. */
  function StringField(t: map<string, TomlValue>, key: string): (r: Option<string>)
    ensures r.Some? <==> key in t && t[key].TString?
    ensures r.Some? ==> t[key] == TString(r.value)
  {
    if key in t && t[key].TString? then Some(t[key].str) else None
  }

  /** Deserialize `RuleType` from the keys of a rule table: the "type" tag
      picks the variant, that variant's two fields are required, every other
      key is ignored. */
  function DecodeRuleType(t: map<string, TomlValue>): (r: Option<RuleType>)
    ensures r.Some? && r.value.Window? <==>
      StringField(t, "type") == Some(WindowTag)
      && StringField(t, "condition").Some? && StringField(t, "action").Some?
    ensures r.Some? && r.value.EmptyWorkspace? <==>
      StringField(t, "type") == Some(EmptyWorkspaceTag)
      && StringField(t, "workspace").Some? && StringField(t, "command").Some?
    ensures r.Some? && r.value.Window? ==>
      t["condition"] == TString(r.value.condition) && t["action"] == TString(r.value.action)
    ensures r.Some? && r.value.EmptyWorkspace? ==>
      t["workspace"] == TString(r.value.workspace) && t["command"] == TString(r.value.command)
  {
    match StringField(t, "type")
    case None => None
    case Some(tag) =>
      if tag == WindowTag then
        match (StringField(t, "condition"), StringField(t, "action"))
        case (Some(condition), Some(action)) => Some(Window(condition, action))
        case _ => None
      else if tag == EmptyWorkspaceTag then
        match (StringField(t, "workspace"), StringField(t, "command"))
        case (Some(workspace), Some(command)) => Some(EmptyWorkspace(workspace, command))
        case _ => None
      else None
  }

  /** Deserialize one `Rule`: a table with a string "name" and a rule type. */
  function DecodeRule(v: TomlValue): (r: Option<Rule>)
    ensures r.Some? <==>
      v.TTable? && StringField(v.entries, "name").Some? && DecodeRuleType(v.entries).Some?
    ensures r.Some? ==>
      v.entries["name"] == TString(r.value.name) && DecodeRuleType(v.entries) == Some(r.value.ruleType)
  {
    if !v.TTable? then None
    else
      match (StringField(v.entries, "name"), DecodeRuleType(v.entries))
      case (Some(name), Some(ruleType)) => Some(Rule(name, ruleType))
      case _ => None
  }

  /** Deserialize `Vec<Rule>`: every element must be a rule; the order is
      kept. */
  function DecodeRules(items: seq<TomlValue>): (r: Option<seq<Rule>>)
    ensures r.Some? <==> forall k :: 0 <= k < |items| ==> DecodeRule(items[k]).Some?
    ensures r.Some? ==> |r.value| == |items|
    ensures r.Some? ==> forall k :: 0 <= k < |items| ==> DecodeRule(items[k]) == Some(r.value[k])
  {
    if items == [] then Some([])
    else
      match (DecodeRules(items[..|items| - 1]), DecodeRule(items[|items| - 1]))
      case (Some(init), Some(last)) => Some(init + [last])
      case _ => None
  }

  /** Deserialize `Config`: the document must hold a "rules" array; other
      top-level keys are ignored. There is no default for "rules", so a
      document without it (an empty file, say) is not a configuration. */
  function DecodeConfig(doc: TomlValue): (r: Option<Config>)
    ensures r.Some? <==>
      doc.TTable? && "rules" in doc.entries && doc.entries["rules"].TArray?
      && DecodeRules(doc.entries["rules"].items).Some?
    ensures r.Some? ==> r.value.rules == DecodeRules(doc.entries["rules"].items).value
  {
    if doc.TTable? && "rules" in doc.entries && doc.entries["rules"].TArray? then
      match DecodeRules(doc.entries["rules"].items)
      case None => None
      case Some(rules) => Some(Config(rules))
    else None
  }

  /** A document without a "rules" key, the empty file in particular, does
      not deserialize. */
  lemma EmptyDocumentIsNotAConfig()
    ensures DecodeConfig(TTable(map[])) == None
  {
  }

  /** Serialize a rule type: its tag and its two fields. */
  function EncodeRuleType(t: RuleType): map<string, TomlValue> {
    match t
    case Window(condition, action) =>
      map["type" := TString(WindowTag), "condition" := TString(condition), "action" := TString(action)]
    case EmptyWorkspace(workspace, command) =>
      map["type" := TString(EmptyWorkspaceTag), "workspace" := TString(workspace), "command" := TString(command)]
  }

  function EncodeRule(r: Rule): TomlValue {
    TTable(EncodeRuleType(r.ruleType)["name" := TString(r.name)])
  }

  function EncodeRules(rules: seq<Rule>): (r: seq<TomlValue>)
    ensures |r| == |rules|
    ensures forall k :: 0 <= k < |rules| ==> r[k] == EncodeRule(rules[k])
  {
    if rules == [] then [] else EncodeRules(rules[..|rules| - 1]) + [EncodeRule(rules[|rules| - 1])]
  }

  /** The document `toml::to_string` would write for a configuration. */
  function EncodeConfig(c: Config): TomlValue {
    TTable(map["rules" := TArray(EncodeRules(c.rules))])
  }

  /** Every rule survives serialization and deserialization unchanged. */
  lemma DecodeEncodeRule(r: Rule)
    ensures DecodeRule(EncodeRule(r)) == Some(r)
  {
    var t := EncodeRule(r).entries;
    assert StringField(t, "name") == Some(r.name);
    match r.ruleType
    case Window(condition, action) =>
      assert StringField(t, "type") == Some(WindowTag);
      assert StringField(t, "condition") == Some(condition);
      assert StringField(t, "action") == Some(action);
    case EmptyWorkspace(workspace, command) =>
      assert StringField(t, "type") == Some(EmptyWorkspaceTag);
      assert StringField(t, "workspace") == Some(workspace);
      assert StringField(t, "command") == Some(command);
  }

  /** Round trip: a serialized configuration deserializes to itself, with
      the same rules in the same order. */
  lemma DecodeEncodeConfig(c: Config)
    ensures DecodeConfig(EncodeConfig(c)) == Some(c)
  {
    var items := EncodeRules(c.rules);
    forall k | 0 <= k < |items|
      ensures DecodeRule(items[k]) == Some(c.rules[k])
    {
      DecodeEncodeRule(c.rules[k]);
    }
    var decoded := DecodeRules(items).value;
    assert decoded == c.rules by {
      forall k | 0 <= k < |decoded| ensures decoded[k] == c.rules[k] {
        assert DecodeRule(items[k]) == Some(decoded[k]);
      }
    }
  }

  /** Keys outside the schema never change how a rule table decodes. */
  lemma DecodeRuleIgnoresOtherKeys(t: map<string, TomlValue>, key: string, v: TomlValue)
    requires key !in {"name", "type", "condition", "action", "workspace", "command"}
    ensures DecodeRule(TTable(t[key := v])) == DecodeRule(TTable(t))
  {
    var u := t[key := v];
    assert StringField(u, "name") == StringField(t, "name");
    assert StringField(u, "type") == StringField(t, "type");
    assert StringField(u, "condition") == StringField(t, "condition");
    assert StringField(u, "action") == StringField(t, "action");
    assert StringField(u, "workspace") == StringField(t, "workspace");
    assert StringField(u, "command") == StringField(t, "command");
  }

  /** The base directory of the XDG candidate: `$XDG_RUNTIME_DIR`, or else
      `$HOME/.config` (with an unset HOME read as the empty string). */
  function XdgBase(env: Environment): string {
    match EnvVar(env, "XDG_RUNTIME_DIR")
    case Some(dir) => dir
    case None => EnvVar(env, "HOME").GetOr("") + "/.config"
  }

  /** `<base>/aerospace/rules.toml`. */
  function XdgConfigPath(env: Environment): (r: string)
    ensures var base := XdgBase(env);
      base != [] && base[|base| - 1] != '/' ==> r == base + "/aerospace/rules.toml"
    ensures var base := XdgBase(env);
      base == [] || base[|base| - 1] == '/' ==> r == base + "aerospace/rules.toml"
    ensures "XDG_RUNTIME_DIR" !in env ==> r == EnvVar(env, "HOME").GetOr("") + "/.config/aerospace/rules.toml"
  {
    var base := XdgBase(env);
    if base != [] && base[|base| - 1] != '/' then
      XdgJoinSeparated(base);
      if "XDG_RUNTIME_DIR" in env then Join(Join(base, "aerospace"), "rules.toml")
      else
        DefaultXdgJoin(EnvVar(env, "HOME").GetOr(""));
        Join(Join(base, "aerospace"), "rules.toml")
    else
      XdgJoinDirect(base);
      Join(Join(base, "aerospace"), "rules.toml")
  }

  /** The joins of the XDG candidate onto a base that needs a separator. */
  lemma XdgJoinSeparated(base: string)
    requires base != [] && base[|base| - 1] != '/'
    ensures Join(Join(base, "aerospace"), "rules.toml") == base + "/aerospace/rules.toml"
  {
    var dir := base + "/aerospace";
    assert Join(base, "aerospace") == dir;
    assert dir[|dir| - 1] == 'e';
    assert Join(dir, "rules.toml") == dir + "/rules.toml";
    assert dir + "/rules.toml" == base + "/aerospace/rules.toml";
  }

  /** The XDG candidate under the default base `<home>/.config`. */
  lemma DefaultXdgJoin(home: string)
    ensures Join(Join(home + "/.config", "aerospace"), "rules.toml") == home + "/.config/aerospace/rules.toml"
  {
    var base := home + "/.config";
    XdgJoinSeparated(base);
    assert "/.config" + "/aerospace/rules.toml" == "/.config/aerospace/rules.toml";
    assert base + "/aerospace/rules.toml" == home + ("/.config" + "/aerospace/rules.toml");
  }

  /** The joins of the XDG candidate onto an empty base or one ending in a
      separator. */
  lemma XdgJoinDirect(base: string)
    requires base == [] || base[|base| - 1] == '/'
    ensures Join(Join(base, "aerospace"), "rules.toml") == base + "aerospace/rules.toml"
  {
    if base == [] {
      assert Join(base, "aerospace") == "aerospace";
      assert Join("aerospace", "rules.toml") == "aerospace/rules.toml";
    } else {
      XdgJoinAfterSlash(base);
    }
  }

  /** The joins of the XDG candidate onto a base ending in a separator. */
  lemma XdgJoinAfterSlash(base: string)
    requires base != [] && base[|base| - 1] == '/'
    ensures Join(Join(base, "aerospace"), "rules.toml") == base + "aerospace/rules.toml"
  {
    var dir := base + "aerospace";
    assert Join(base, "aerospace") == dir;
    assert dir[|dir| - 1] == 'e';
    assert Join(dir, "rules.toml") == dir + "/rules.toml";
    assert dir + "/rules.toml" == base + "aerospace/rules.toml";
  }

  /** `<home>/.aerospace-rules.toml`. */
  function HomeConfigPath(home: string): (r: string)
    ensures home != [] && home[|home| - 1] != '/' ==> r == home + "/.aerospace-rules.toml"
    ensures home == [] || home[|home| - 1] == '/' ==> r == home + ".aerospace-rules.toml"
  {
    Join(home, ".aerospace-rules.toml")
  }

  /** `find_config_file`: the XDG candidate if it exists, else the home
      dotfile if HOME is set and it exists, else nothing. */
  function FindConfigFile(env: Environment, fs: FileSystem): (r: Option<string>)
    ensures r.Some? ==> Exists(fs, r.value)
    ensures r.Some? ==> r.value == XdgConfigPath(env) || ("HOME" in env && r.value == HomeConfigPath(env["HOME"]))
    ensures Exists(fs, XdgConfigPath(env)) ==> r == Some(XdgConfigPath(env))
    ensures r.None? <==>
      !Exists(fs, XdgConfigPath(env)) && ("HOME" !in env || !Exists(fs, HomeConfigPath(env["HOME"])))
  {
    var xdg := XdgConfigPath(env);
    if Exists(fs, xdg) then Some(xdg)
    else
      match EnvVar(env, "HOME")
      case Some(home) => if Exists(fs, HomeConfigPath(home)) then Some(HomeConfigPath(home)) else None
      case None => None
  }

  /** Read and deserialize the file at `path`; a missing file, an unreadable
      one, text that is not TOML and TOML that does not fit the schema all
      give nothing. */
  function LoadFile(fs: FileSystem, path: string, parseToml: TomlParser): (r: Option<Config>)
    ensures r.Some? ==>
      Exists(fs, path) && fs[path].TextFile?
      && parseToml(fs[path].content).Some?
      && DecodeConfig(parseToml(fs[path].content).value) == r
    ensures !Exists(fs, path) ==> r.None?
    ensures Exists(fs, path) && fs[path].TextFile? && parseToml(fs[path].content).Some? ==>
      r == DecodeConfig(parseToml(fs[path].content).value)
  {
    match ReadToString(fs, path)
    case None => None
    case Some(content) =>
      match parseToml(content)
      case None => None
      case Some(doc) => DecodeConfig(doc)
  }

  /** `load_config_from_path`: an explicit path is read as given, with no
      search and no existence check first; without one, the search decides
      the file, and finding none gives nothing. */
  function LoadConfigFromPath(explicit: Option<string>, env: Environment, fs: FileSystem, parseToml: TomlParser)
    : (r: Option<Config>)
    ensures explicit.Some? ==> r == LoadFile(fs, explicit.value, parseToml)
    ensures explicit.None? && FindConfigFile(env, fs).None? ==> r.None?
    ensures explicit.None? && FindConfigFile(env, fs).Some? ==> r == LoadFile(fs, FindConfigFile(env, fs).value, parseToml)
  {
    match explicit
    case Some(path) => LoadFile(fs, path, parseToml)
    case None =>
      match FindConfigFile(env, fs)
      case None => None
      case Some(path) => LoadFile(fs, path, parseToml)
  }

  /** `load_config`: a load with no explicit path. */
  function LoadConfig(env: Environment, fs: FileSystem, parseToml: TomlParser): (r: Option<Config>)
    ensures r == LoadConfigFromPath(None, env, fs, parseToml)
    ensures r.Some? ==> FindConfigFile(env, fs).Some?
  {
    match FindConfigFile(env, fs)
    case None => None
    case Some(path) => LoadFile(fs, path, parseToml)
  }

  /** A successful load reflects the file exactly: the document's "rules"
      array has one element per loaded rule, in the same order, and each
      element carries that rule's name, type tag and fields. */
  lemma LoadedRulesMatchDocument(fs: FileSystem, path: string, parseToml: TomlParser)
    requires LoadFile(fs, path, parseToml).Some?
    ensures var c := LoadFile(fs, path, parseToml).value;
      var doc := parseToml(fs[path].content).value;
      && doc.TTable? && "rules" in doc.entries && doc.entries["rules"].TArray?
      && |doc.entries["rules"].items| == |c.rules|
      && forall k :: 0 <= k < |c.rules| ==> DecodeRule(doc.entries["rules"].items[k]) == Some(c.rules[k])
  {
  }

  /** A file holding a serialized configuration loads as exactly that
      configuration, whatever the environment says. */
  lemma LoadRoundTrip(path: string, env: Environment, fs: FileSystem, parseToml: TomlParser, c: Config)
    requires path in fs && fs[path].TextFile?
    requires parseToml(fs[path].content) == Some(EncodeConfig(c))
    ensures LoadConfigFromPath(Some(path), env, fs, parseToml) == Some(c)
  {
    DecodeEncodeConfig(c);
  }

  /** The two-rule file of the configuration tests: a window rule and an
      empty-workspace rule, loaded in file order with their fields. */
  lemma WindowAndEmptyWorkspaceRulesLoad(path: string, fs: FileSystem, parseToml: TomlParser)
    requires path in fs && fs[path].TextFile?
    requires parseToml(fs[path].content) == Some(TTable(map["rules" := TArray([
      TTable(map["name" := TString("Simple Rule"), "type" := TString("window"),
        "condition" := TString("app-name = 'TestApp'"), "action" := TString("maximize")]),
      TTable(map["name" := TString("Empty Workspace Terminal"), "type" := TString("empty-workspace"),
        "workspace" := TString("5"), "command" := TString("open -a Terminal")])])]))
    ensures LoadConfigFromPath(Some(path), map[], fs, parseToml) == Some(Config([
      Rule("Simple Rule", Window("app-name = 'TestApp'", "maximize")),
      Rule("Empty Workspace Terminal", EmptyWorkspace("5", "open -a Terminal"))]))
  {
    var c := Config([
      Rule("Simple Rule", Window("app-name = 'TestApp'", "maximize")),
      Rule("Empty Workspace Terminal", EmptyWorkspace("5", "open -a Terminal"))]);
    assert EncodeRule(c.rules[0]) == TTable(map["name" := TString("Simple Rule"), "type" := TString("window"),
      "condition" := TString("app-name = 'TestApp'"), "action" := TString("maximize")]);
    assert EncodeRule(c.rules[1]) == TTable(map["name" := TString("Empty Workspace Terminal"),
      "type" := TString("empty-workspace"), "workspace" := TString("5"), "command" := TString("open -a Terminal")]);
    assert EncodeRules(c.rules) == [EncodeRule(c.rules[0]), EncodeRule(c.rules[1])];
    LoadRoundTrip(path, map[], fs, parseToml, c);
  }
}
