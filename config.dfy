/** Start-up configuration: the built-in defaults, the `[app]` section of
    `config.ini`, the child elements of `config.xml`, and the precedence
    between them. File parsing itself is not modelled: an INI file arrives
    as the option map of its `[app]` section, an XML file as the text of
    the first child element of the root for each tag. */
module Config {
  import opened Wrappers

  type Settings = map<string, string>

  /** The keys of the defaults, in their declaration order. */
  const DefaultKeys: seq<string> :=
    ["refresh_interval", "show_system_processes", "sort_by", "window_title"]

  const DefaultCfg: Settings := map[
    "refresh_interval" := "2",
    "show_system_processes" := "1",
    "sort_by" := "cpu",
    "window_title" := "Administrador de tareas - Python"
  ]

  lemma DefaultKeysAreDefaultCfg()
    ensures forall k :: k in DefaultCfg <==> k in DefaultKeys
  {
  }

  /** What `config.ini` holds: no file, a file the parser rejects, or a parsed
      file whose `[app]` section may be missing. */
  datatype IniFile = NoIni | BadIni | Ini(app: Option<map<string, string>>)

  /** What `config.xml` holds: no file, a file the parser rejects, or the
      children of the root element, each tag mapped to the text of its first
      element (`None` for an element without text). */
  datatype XmlFile = NoXml | BadXml | Xml(children: map<string, Option<string>>)

  /** The value of default key `k` after reading an INI `[app]` section:
      any value present for `k`, even the empty one, replaces the default. */
  function IniPick(app: Option<map<string, string>>, k: string): (r: string)
    requires k in DefaultCfg
    ensures app.Some? && k in app.value ==> r == app.value[k]
    ensures r == DefaultCfg[k] || (app.Some? && k in app.value && app.value[k] == r)
  {
    if app.Some? && k in app.value then app.value[k] else DefaultCfg[k]
  }

  /** The value of default key `k` after reading the XML children: only an
      element with non-empty text replaces the default. */
  function XmlPick(children: map<string, Option<string>>, k: string): (r: string)
    requires k in DefaultCfg
    ensures r == DefaultCfg[k] || (k in children && children[k] == Some(r))
    ensures r == "" ==> DefaultCfg[k] == ""
    ensures k in children && children[k].Some? && children[k].value != "" ==> r == children[k].value
  {
    if k in children && children[k].Some? && children[k].value != "" then children[k].value
    else DefaultCfg[k]
  }

  /** `load_ini`: copy the defaults, then override each default key that the
      `[app]` section has. */
  method LoadIni(app: Option<map<string, string>>) returns (cfg: Settings)
    ensures cfg.Keys == DefaultCfg.Keys
    ensures forall k :: k in cfg ==> cfg[k] == IniPick(app, k)
  {
    cfg := DefaultCfg;
    var i := 0;
    while i < |DefaultKeys|
      invariant 0 <= i <= |DefaultKeys|
      invariant cfg.Keys == DefaultCfg.Keys
      invariant forall j :: 0 <= j < i ==> cfg[DefaultKeys[j]] == IniPick(app, DefaultKeys[j])
      invariant forall j :: i <= j < |DefaultKeys| ==> cfg[DefaultKeys[j]] == DefaultCfg[DefaultKeys[j]]
    {
      var k := DefaultKeys[i];
      if app.Some? && k in app.value {
        cfg := cfg[k := app.value[k]];
      }
      i := i + 1;
    }
    DefaultKeysAreDefaultCfg();
  }

  /** `load_xml`: copy the defaults, then override each default key whose
      element exists and has non-empty text. */
  method LoadXml(children: map<string, Option<string>>) returns (cfg: Settings)
    ensures cfg.Keys == DefaultCfg.Keys
    ensures forall k :: k in cfg ==> cfg[k] == XmlPick(children, k)
  {
    cfg := DefaultCfg;
    var i := 0;
    while i < |DefaultKeys|
      invariant 0 <= i <= |DefaultKeys|
      invariant cfg.Keys == DefaultCfg.Keys
      invariant forall j :: 0 <= j < i ==> cfg[DefaultKeys[j]] == XmlPick(children, DefaultKeys[j])
      invariant forall j :: i <= j < |DefaultKeys| ==> cfg[DefaultKeys[j]] == DefaultCfg[DefaultKeys[j]]
    {
      var k := DefaultKeys[i];
      if k in children {
        var el := children[k];
        if el.Some? && el.value != "" {
          cfg := cfg[k := el.value];
        }
      }
      i := i + 1;
    }
    DefaultKeysAreDefaultCfg();
  }

  /** The configuration `main` builds: `config.ini` when that file exists (the
      defaults if it does not parse), otherwise `config.xml` when that exists,
      otherwise the defaults. Unknown keys never enter the result. */
  method Startup(ini: IniFile, xml: XmlFile) returns (cfg: Settings)
    ensures cfg.Keys == DefaultCfg.Keys
    ensures ini.Ini? ==> forall k :: k in cfg ==> cfg[k] == IniPick(ini.app, k)
    ensures ini.BadIni? ==> cfg == DefaultCfg
    ensures ini.NoIni? && xml.Xml? ==> forall k :: k in cfg ==> cfg[k] == XmlPick(xml.children, k)
    ensures ini.NoIni? && !xml.Xml? ==> cfg == DefaultCfg
  {
    cfg := DefaultCfg;
    match ini {
      case Ini(app) =>
        var loaded := LoadIni(app);
        cfg := cfg + loaded;
      case BadIni =>
      case NoIni =>
        match xml {
          case Xml(children) =>
            var loaded := LoadXml(children);
            cfg := cfg + loaded;
          case BadXml =>
          case NoXml =>
        }
    }
  }

  /** The two formats treat an empty value differently: an empty INI value
      replaces the default, an empty XML element keeps it. */
  lemma EmptyValueAsymmetry(k: string)
    requires k in DefaultCfg
    ensures IniPick(Some(map[k := ""]), k) == ""
    ensures XmlPick(map[k := Some("")], k) == DefaultCfg[k] != ""
  {
  }
}
