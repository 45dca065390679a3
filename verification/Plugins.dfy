/** The in-place update of a channel's plugin list from a JSON configuration. */
module Plugins {
  import opened Numbers
  import opened Settings

  /** A parameter value; anything that is not a string, number or boolean is ignored. */
  datatype Value = Text(s: string) | Number(v: real) | Flag(b: bool) | Other

  /** One plugin's entries, and one plugin of a configuration, in the order they are iterated. */
  datatype Entry = Entry(name: string, value: Value)
  datatype PluginCfg = PluginCfg(name: string, entries: seq<Entry>)

  /** How a parameter is stored; `fmt` is the library's formatting of numbers. */
  function TextOf(value: Value, fmt: real -> string): Option<string> {
    match value
    case Text(s) => Some(s)
    case Number(v) => Some(fmt(v))
    case Flag(b) => Some(if b then "true" else "false")
    case Other => None
  }

  /** The text a configuration gives for a parameter, if any. */
  function Given(entries: seq<Entry>, name: string, fmt: real -> string): Option<string> {
    if |entries| == 0 then None
    else
      var e := entries[|entries| - 1];
      if e.name == name && TextOf(e.value, fmt).Some? then TextOf(e.value, fmt)
      else Given(entries[..|entries| - 1], name, fmt)
  }

  /** Entry `k` is the last one under its name that is a string, number or boolean. */
  predicate LastStored(entries: seq<Entry>, k: int) {
    && 0 <= k < |entries| && !entries[k].value.Other?
    && forall j :: k < j < |entries| && entries[j].name == entries[k].name ==> entries[j].value.Other?
  }

  /** Some string, number or boolean is given for the name. */
  predicate Mentioned(entries: seq<Entry>, name: string) {
    exists k :: 0 <= k < |entries| && entries[k].name == name && !entries[k].value.Other?
  }

  /** What is given for a name is the text of the last entry under it, or nothing if there is none. */
  lemma {:induction false} GivenMeaning(entries: seq<Entry>, name: string, fmt: real -> string)
    ensures Given(entries, name, fmt).Some? <==> Mentioned(entries, name)
    ensures forall k :: LastStored(entries, k) && entries[k].name == name ==>
                          Given(entries, name, fmt) ==
                          match entries[k].value
                          case Text(s) => Some(s)
                          case Number(v) => Some(fmt(v))
                          case Flag(b) => if b then Some("true") else Some("false")
                          case Other => None
  {
    if |entries| > 0 {
      var n := |entries| - 1;
      GivenMeaning(entries[..n], name, fmt);
      assert Mentioned(entries, name) <==>
             Mentioned(entries[..n], name) || (entries[n].name == name && !entries[n].value.Other?);
      forall k | LastStored(entries, k) && k < n ensures LastStored(entries[..n], k) {
      }
    }
  }

  /** The parameters after storing all entries. */
  function Params(params: map<string, string>, entries: seq<Entry>, fmt: real -> string): map<string, string> {
    if |entries| == 0 then params
    else
      var e := entries[|entries| - 1];
      var before := Params(params, entries[..|entries| - 1], fmt);
      if TextOf(e.value, fmt).Some? then before[e.name := TextOf(e.value, fmt).value] else before
  }

  /** The plugin at position `k` after the update. */
  function UpdatedAt(plugins: seq<Plugin>, cfg: PluginCfg, k: nat, fmt: real -> string): Plugin {
    var kept := if k < |plugins| && plugins[k].name == cfg.name then plugins[k].params else map[];
    Plugin(cfg.name, Params(kept, cfg.entries, fmt))
  }

  function Updated(plugins: seq<Plugin>, cfg: seq<PluginCfg>, fmt: real -> string): (r: seq<Plugin>)
    ensures |r| == if |cfg| > |plugins| then |cfg| else |plugins|
  {
    seq(|cfg|, k requires 0 <= k < |cfg| => UpdatedAt(plugins, cfg[k], k, fmt)) +
    if |cfg| < |plugins| then plugins[|cfg|..] else []
  }

  lemma {:induction false} ParamsLookup(params: map<string, string>, entries: seq<Entry>, fmt: real -> string, q: string)
    ensures var given := Given(entries, q, fmt);
            var after := Params(params, entries, fmt);
            && (q in after <==> given.Some? || q in params)
            && (q in after ==> after[q] == if given.Some? then given.value else params[q])
  {
    if |entries| > 0 {
      ParamsLookup(params, entries[..|entries| - 1], fmt, q);
    }
  }

  /**
    The plugins are named by the configuration in order, every given parameter is stored, older
    parameters survive exactly where the name at their position matched, the rest is untouched.
   */
  lemma UpdatedMeaning(plugins: seq<Plugin>, cfg: seq<PluginCfg>, fmt: real -> string, k: nat, q: string)
    requires k < |Updated(plugins, cfg, fmt)|
    ensures var p := Updated(plugins, cfg, fmt)[k];
            if k >= |cfg| then p == plugins[k]
            else
              var given := Given(cfg[k].entries, q, fmt);
              var survives := k < |plugins| && plugins[k].name == cfg[k].name && q in plugins[k].params;
              && p.name == cfg[k].name
              && (q in p.params <==> given.Some? || survives)
              && (given.Some? ==> p.params[q] == given.value)
              && (given.None? && survives ==> p.params[q] == plugins[k].params[q])
  {
    if k < |cfg| {
      var kept := if k < |plugins| && plugins[k].name == cfg[k].name then plugins[k].params else map[];
      ParamsLookup(kept, cfg[k].entries, fmt, q);
    }
  }

  lemma ParamsTwice(params: map<string, string>, entries: seq<Entry>, fmt: real -> string)
    ensures Params(Params(params, entries, fmt), entries, fmt) == Params(params, entries, fmt)
  {
    var once := Params(params, entries, fmt);
    var twice := Params(once, entries, fmt);
    forall q: string ensures (q in twice <==> q in once) && (q in once ==> twice[q] == once[q]) {
      ParamsLookup(params, entries, fmt, q);
      ParamsLookup(once, entries, fmt, q);
    }
    assert twice == once;
  }

  /** Applying the same configuration again changes nothing. */
  lemma UpdateIdempotent(plugins: seq<Plugin>, cfg: seq<PluginCfg>, fmt: real -> string)
    ensures Updated(Updated(plugins, cfg, fmt), cfg, fmt) == Updated(plugins, cfg, fmt)
  {
    var once := Updated(plugins, cfg, fmt);
    var twice := Updated(once, cfg, fmt);
    forall k | 0 <= k < |once| ensures twice[k] == once[k] {
      if k < |cfg| {
        var kept := if k < |plugins| && plugins[k].name == cfg[k].name then plugins[k].params else map[];
        ParamsTwice(kept, cfg[k].entries, fmt);
      }
    }
  }

  /** The plugin list of `device_channel_t`. */
  class PluginList {
    var plugins: seq<Plugin>

    constructor (plugins: seq<Plugin>)
      ensures this.plugins == plugins
    {
      this.plugins := plugins;
    }

    method StoreParams(params: map<string, string>, entries: seq<Entry>, fmt: real -> string)
      returns (r: map<string, string>)
      ensures r == Params(params, entries, fmt)
      ensures forall k :: LastStored(entries, k) ==>
                            && entries[k].name in r
                            && r[entries[k].name] ==
                               match entries[k].value
                               case Text(s) => s
                               case Number(v) => fmt(v)
                               case Flag(b) => if b then "true" else "false"
                               case Other => ""
      ensures forall q: string :: !Mentioned(entries, q) ==> (q in r <==> q in params) && (q in r ==> r[q] == params[q])
    {
      r := params;
      for k := 0 to |entries|
        invariant r == Params(params, entries[..k], fmt)
      {
        assert entries[..k + 1][..k] == entries[..k];
        match entries[k].value
        case Text(s) => r := r[entries[k].name := s];
        case Number(v) => r := r[entries[k].name := fmt(v)];
        case Flag(b) => r := r[entries[k].name := if b then "true" else "false"];
        case Other =>
      }
      assert entries[..|entries|] == entries;
      forall k | LastStored(entries, k)
        ensures entries[k].name in r && Some(r[entries[k].name]) == TextOf(entries[k].value, fmt)
      {
        ParamsLookup(params, entries, fmt, entries[k].name);
        GivenMeaning(entries, entries[k].name, fmt);
      }
      forall q: string | !Mentioned(entries, q) ensures (q in r <==> q in params) && (q in r ==> r[q] == params[q]) {
        ParamsLookup(params, entries, fmt, q);
        GivenMeaning(entries, q, fmt);
      }
    }

    /**
      `update_plugin_cfg`. For a plugin without a name beyond the end of the list the program reads
      past the end; the result tells that this does not happen, and what the list is then.
     */
    method UpdatePluginCfg(cfg: seq<PluginCfg>, fmt: real -> string) returns (defined: bool)
      modifies this
      ensures defined <==> forall k :: |old(plugins)| <= k < |cfg| ==> cfg[k].name != ""
      ensures defined ==> plugins == Updated(old(plugins), cfg, fmt)
    {
      for pcnt := 0 to |cfg|
        invariant |plugins| == if pcnt > |old(plugins)| then pcnt else |old(plugins)|
        invariant forall k :: |old(plugins)| <= k < pcnt ==> cfg[k].name != ""
        invariant forall k :: 0 <= k < pcnt ==> plugins[k] == UpdatedAt(old(plugins), cfg[k], k, fmt)
        invariant forall k :: pcnt <= k < |plugins| ==> plugins[k] == old(plugins)[k]
      {
        var pname := "";
        if pcnt < |plugins| {
          pname := plugins[pcnt].name;
        }
        var cplug := Plugin("", map[]);
        if cfg[pcnt].name == pname {
          if pcnt >= |plugins| {
            return false;
          }
          cplug := plugins[pcnt];
        }
        var params := StoreParams(cplug.params, cfg[pcnt].entries, fmt);
        cplug := Plugin(cfg[pcnt].name, params);
        if pcnt < |plugins| {
          plugins := plugins[pcnt := cplug];
        } else {
          plugins := plugins + [cplug];
        }
      }
      assert plugins == Updated(old(plugins), cfg, fmt);
      return true;
    }
  }
}
