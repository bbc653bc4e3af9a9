/** The server configuration: its defaults, the tier lookup, and the
    section-by-section reading of a TOML table into the configuration object.
    The file read is left to the caller: `LoadConfig` receives the table (the
    source reads an unreadable or malformed file as the empty table). */
module Config {

  import opened Wrappers
  import opened Ints
  import Seqs

  /** A TOML value; floats and datetimes are `Other`, which no reader here
      accepts. */
  datatype Toml =
    | Int(i: I64)
    | Str(s: string)
    | Bool(b: bool)
    | Array(items: seq<Toml>)
    | Table(entries: map<string, Toml>)
    | Other

  type TomlTable = map<string, Toml>

  datatype Network = Network(port: U16, host: string)
  datatype StorageDirs = StorageDirs(dataDir: string, tempDir: string, logDir: string)
  datatype AuthSettings = AuthSettings(sessionTimeout: U64, authSessionTimeout: U64, registrationEnabled: bool)
  datatype Tier = Tier(id: string, name: string, description: string, quota: U64)
  datatype HostList = HostList(enabled: bool, hosts: seq<string>)
  datatype Federation = Federation(enabled: bool, blacklist: HostList, whitelist: HostList)

  // ---------------------------------------------------------------------------
  // Defaults

  const DefaultNetwork := Network(8044, "127.0.0.1")
  const DefaultStorage := StorageDirs("/var/lib/synxit", "/tmp/synxit", "/var/log/synxit")
  const DefaultAuth := AuthSettings(60 * 60 * 24 * 7, 60, true)
  /** `Federation::default`: enabled, both lists off and empty. */
  const DefaultFederation := Federation(true, HostList(false, []), HostList(false, []))

  // ---------------------------------------------------------------------------
  // Typed access to TOML values (`get(..).and_then(|v| v.as_*())`)

  function GetTable(t: TomlTable, key: string): Option<TomlTable> {
    if key in t && t[key].Table? then Some(t[key].entries) else None
  }

  function GetInt(t: TomlTable, key: string): Option<I64> {
    if key in t && t[key].Int? then Some(t[key].i) else None
  }

  function GetStr(t: TomlTable, key: string): Option<string> {
    if key in t && t[key].Str? then Some(t[key].s) else None
  }

  function GetBool(t: TomlTable, key: string): Option<bool> {
    if key in t && t[key].Bool? then Some(t[key].b) else None
  }

  function GetArray(t: TomlTable, key: string): Option<seq<Toml>> {
    if key in t && t[key].Array? then Some(t[key].items) else None
  }

  // ---------------------------------------------------------------------------
  // What each section reader leaves behind

  /** `parse_network_config`: a present integer port is stored truncated to
      16 bits, a present string host as is. */
  function NetworkAfter(n: Network, table: TomlTable): (r: Network)
    ensures GetTable(table, "network").None? ==> r == n
    ensures GetTable(table, "network").Some? && GetInt(GetTable(table, "network").value, "port").Some? ==>
              var p := GetInt(GetTable(table, "network").value, "port").value;
              r.port == AsU16(p) && (r.port - p) % U16_LIMIT == 0
    ensures GetTable(table, "network").Some? && GetInt(GetTable(table, "network").value, "port").None? ==> r.port == n.port
  {
    match GetTable(table, "network")
    case None => n
    case Some(sec) =>
      var port := match GetInt(sec, "port") case Some(p) => AsU16(p) case None => n.port;
      var host := match GetStr(sec, "host") case Some(h) => h case None => n.host;
      Network(port, host)
  }

  /** `parse_storage_config`: each present string replaces its directory. */
  function StorageAfter(s: StorageDirs, table: TomlTable): (r: StorageDirs)
    ensures GetTable(table, "storage").None? ==> r == s
  {
    match GetTable(table, "storage")
    case None => s
    case Some(sec) =>
      StorageDirs(
        match GetStr(sec, "data_dir") case Some(d) => d case None => s.dataDir,
        match GetStr(sec, "temp_dir") case Some(d) => d case None => s.tempDir,
        match GetStr(sec, "log_dir") case Some(d) => d case None => s.logDir)
  }

  /** `parse_auth_config`: present integers are stored as u64 (negative ones
      wrap), a present boolean replaces the registration switch. */
  function AuthAfter(a: AuthSettings, table: TomlTable): (r: AuthSettings)
    ensures GetTable(table, "auth").None? ==> r == a
    ensures GetTable(table, "auth").Some? && GetInt(GetTable(table, "auth").value, "session_timeout").Some? ==>
              var v := GetInt(GetTable(table, "auth").value, "session_timeout").value;
              (v >= 0 ==> r.sessionTimeout == v) && (v < 0 ==> r.sessionTimeout == U64_LIMIT + v)
  {
    match GetTable(table, "auth")
    case None => a
    case Some(sec) =>
      AuthSettings(
        match GetInt(sec, "session_timeout") case Some(v) => AsU64(v) case None => a.sessionTimeout,
        match GetInt(sec, "auth_session_timeout") case Some(v) => AsU64(v) case None => a.authSessionTimeout,
        match GetBool(sec, "registration_enabled") case Some(b) => b case None => a.registrationEnabled)
  }

  /** Reading the auth section twice, as `load_config` does, is reading it once. */
  lemma AuthIdempotent(a: AuthSettings, table: TomlTable)
    ensures AuthAfter(AuthAfter(a, table), table) == AuthAfter(a, table)
  {
  }

  /** One array entry of `tiers` as a tier: a table with string id, name and
      description and an integer quota; anything else is dropped. */
  function TierOf(v: Toml): Option<Tier> {
    if !v.Table? then None
    else
      var t := v.entries;
      if GetStr(t, "id").Some? && GetStr(t, "name").Some? && GetStr(t, "description").Some? && GetInt(t, "quota").Some?
      then Some(Tier(GetStr(t, "id").value, GetStr(t, "name").value, GetStr(t, "description").value,
                     AsU64(GetInt(t, "quota").value)))
      else None
  }

  /** The tiers of the complete entries, in order. */
  function TiersOf(items: seq<Toml>): (r: seq<Tier>)
    ensures |r| <= |items|
  {
    if |items| == 0 then []
    else match TierOf(items[|items| - 1])
      case None => TiersOf(items[..|items| - 1])
      case Some(t) => TiersOf(items[..|items| - 1]) + [t]
  }

  /** Every tier read comes from a complete entry, and every complete entry
      gives a tier. */
  lemma {:induction false} TiersOfExact(items: seq<Toml>)
    ensures forall t :: t in TiersOf(items) <==> exists v :: v in items && TierOf(v) == Some(t)
  {
    if |items| > 0 {
      var init := items[..|items| - 1];
      TiersOfExact(init);
      assert items == init + [items[|items| - 1]];
      forall t | (exists v :: v in items && TierOf(v) == Some(t))
        ensures t in TiersOf(items)
      {
        var v :| v in items && TierOf(v) == Some(t);
        if v != items[|items| - 1] {
          assert v in init;
        }
      }
    }
  }

  /** Complete entries are all kept: as many tiers as entries. */
  lemma {:induction false} AllCompleteTiersKept(items: seq<Toml>)
    requires forall k :: 0 <= k < |items| ==> TierOf(items[k]).Some?
    ensures |TiersOf(items)| == |items|
  {
    if |items| > 0 {
      AllCompleteTiersKept(items[..|items| - 1]);
    }
  }

  /** The host strings of an array, in order (`filter_map(as_str)`). */
  function HostsOf(items: seq<Toml>): (r: seq<string>)
    ensures |r| <= |items|
    ensures forall h :: h in r <==> Str(h) in items
  {
    if |items| == 0 then []
    else
      var rest := HostsOf(items[1..]);
      assert forall h :: Str(h) in items <==> items[0] == Str(h) || Str(h) in items[1..];
      if items[0].Str? then [items[0].s] + rest else rest
  }

  /** One list section: `enable` (not `enabled`) defaults to false; a present
      `hosts` array replaces the hosts. */
  function HostListAfter(l: HostList, sec: TomlTable): (r: HostList)
    ensures r.enabled == (GetBool(sec, "enable") == Some(true))
    ensures GetArray(sec, "hosts").None? ==> r.hosts == l.hosts
  {
    HostList(
      match GetBool(sec, "enable") case Some(b) => b case None => false,
      match GetArray(sec, "hosts") case Some(items) => HostsOf(items) case None => l.hosts)
  }

  /** `parse_federation_config`: a present section sets `enabled` to its
      boolean or to false; list sections are read only when present. */
  function FederationAfter(f: Federation, table: TomlTable): (r: Federation)
    ensures GetTable(table, "federation").None? ==> r == f
    ensures GetTable(table, "federation").Some? ==>
              r.enabled == (GetBool(GetTable(table, "federation").value, "enabled") == Some(true))
  {
    match GetTable(table, "federation")
    case None => f
    case Some(sec) =>
      Federation(
        match GetBool(sec, "enabled") case Some(b) => b case None => false,
        match GetTable(sec, "blacklist") case Some(b) => HostListAfter(f.blacklist, b) case None => f.blacklist,
        match GetTable(sec, "whitelist") case Some(w) => HostListAfter(f.whitelist, w) case None => f.whitelist)
  }

  /** A list section switched on with the key `enabled` (the key the
      federation section itself uses) stays off: lists read `enable`. */
  lemma EnabledKeyIgnoredForLists(f: Federation, sec: TomlTable, list: TomlTable)
    requires "enable" !in list
    requires sec == map["enabled" := Bool(true), "blacklist" := Table(list)]
    ensures FederationAfter(f, map["federation" := Table(sec)]).enabled
    ensures !FederationAfter(f, map["federation" := Table(sec)]).blacklist.enabled
  {
    assert GetTable(sec, "blacklist") == Some(list);
  }

  /** `Config::get_tier`: the first tier with the id. */
  function TierKey(t: Tier): string { t.id }

  /** `Config::get_tier`: the first tier with the id. */
  function GetTier(tiers: seq<Tier>, id: string): (r: Option<Tier>)
    ensures r.None? <==> forall k :: 0 <= k < |tiers| ==> tiers[k].id != id
    ensures r.Some? ==> exists k :: 0 <= k < |tiers| && tiers[k] == r.value && r.value.id == id &&
                                    (forall j :: 0 <= j < k ==> tiers[j].id != id)
  {
    match Seqs.IndexOfKey(tiers, TierKey, id)
    case None => None
    case Some(k) => Some(tiers[k])
  }

  // ---------------------------------------------------------------------------
  // The configuration object

  class Config {
    var network: Network
    var storage: StorageDirs
    var auth: AuthSettings
    var tiers: seq<Tier>
    var federation: Federation

    /** `Config::default`. */
    constructor ()
      ensures network == DefaultNetwork && storage == DefaultStorage && auth == DefaultAuth
      ensures tiers == [] && federation == DefaultFederation
    {
      network := DefaultNetwork;
      storage := DefaultStorage;
      auth := DefaultAuth;
      tiers := [];
      federation := DefaultFederation;
    }

    /** `parse_network_config`. */
    method ParseNetworkConfig(table: TomlTable)
      modifies this
      ensures network == NetworkAfter(old(network), table)
      ensures storage == old(storage) && auth == old(auth) && tiers == old(tiers) && federation == old(federation)
    {
      var sec := GetTable(table, "network");
      if sec.Some? {
        var port := GetInt(sec.value, "port");
        if port.Some? {
          network := network.(port := AsU16(port.value));
        }
        var host := GetStr(sec.value, "host");
        if host.Some? {
          network := network.(host := host.value);
        }
      }
    }

    /** `parse_storage_config`. */
    method ParseStorageConfig(table: TomlTable)
      modifies this
      ensures storage == StorageAfter(old(storage), table)
      ensures network == old(network) && auth == old(auth) && tiers == old(tiers) && federation == old(federation)
    {
      var sec := GetTable(table, "storage");
      if sec.Some? {
        var d := GetStr(sec.value, "data_dir");
        if d.Some? {
          storage := storage.(dataDir := d.value);
        }
        var t := GetStr(sec.value, "temp_dir");
        if t.Some? {
          storage := storage.(tempDir := t.value);
        }
        var l := GetStr(sec.value, "log_dir");
        if l.Some? {
          storage := storage.(logDir := l.value);
        }
      }
    }

    /** `parse_auth_config`. */
    method ParseAuthConfig(table: TomlTable)
      modifies this
      ensures auth == AuthAfter(old(auth), table)
      ensures network == old(network) && storage == old(storage) && tiers == old(tiers) && federation == old(federation)
    {
      var sec := GetTable(table, "auth");
      if sec.Some? {
        var st := GetInt(sec.value, "session_timeout");
        if st.Some? {
          auth := auth.(sessionTimeout := AsU64(st.value));
        }
        var ast := GetInt(sec.value, "auth_session_timeout");
        if ast.Some? {
          auth := auth.(authSessionTimeout := AsU64(ast.value));
        }
        var reg := GetBool(sec.value, "registration_enabled");
        if reg.Some? {
          auth := auth.(registrationEnabled := reg.value);
        }
      }
    }

    /** `parse_tiers_config`: a present `tiers` array clears the list and
        pushes the complete entries in order. */
    method ParseTiersConfig(table: TomlTable)
      modifies this
      ensures GetArray(table, "tiers").Some? ==> tiers == TiersOf(GetArray(table, "tiers").value)
      ensures GetArray(table, "tiers").None? ==> tiers == old(tiers)
      ensures network == old(network) && storage == old(storage) && auth == old(auth) && federation == old(federation)
    {
      var arr := GetArray(table, "tiers");
      if arr.Some? {
        var items := arr.value;
        tiers := [];
        var k := 0;
        while k < |items|
          invariant 0 <= k <= |items|
          invariant tiers == TiersOf(items[..k])
          invariant network == old(network) && storage == old(storage) && auth == old(auth) && federation == old(federation)
        {
          assert items[..k + 1][..k] == items[..k];
          var t := TierOf(items[k]);
          if t.Some? {
            tiers := tiers + [t.value];
          }
          k := k + 1;
        }
        assert items[..k] == items;
      }
    }

    /** `parse_federation_config`. */
    method ParseFederationConfig(table: TomlTable)
      modifies this
      ensures federation == FederationAfter(old(federation), table)
      ensures network == old(network) && storage == old(storage) && auth == old(auth) && tiers == old(tiers)
    {
      var sec := GetTable(table, "federation");
      if sec.Some? {
        var en := GetBool(sec.value, "enabled");
        federation := federation.(enabled := if en.Some? then en.value else false);
        var bl := GetTable(sec.value, "blacklist");
        if bl.Some? {
          federation := federation.(blacklist := HostListAfter(federation.blacklist, bl.value));
        }
        var wl := GetTable(sec.value, "whitelist");
        if wl.Some? {
          federation := federation.(whitelist := HostListAfter(federation.whitelist, wl.value));
        }
      }
    }
  }

  /** The parsing part of `load_config`: defaults, then (with a file) the
      sections in the source's order, the auth section twice. */
  method LoadConfig(file: Option<TomlTable>) returns (c: Config)
    ensures fresh(c)
    ensures file.None? ==> c.network == DefaultNetwork && c.storage == DefaultStorage && c.auth == DefaultAuth
                           && c.tiers == [] && c.federation == DefaultFederation
    ensures file.Some? ==>
      var t := file.value;
      && c.network == NetworkAfter(DefaultNetwork, t)
      && c.storage == StorageAfter(DefaultStorage, t)
      && c.auth == AuthAfter(DefaultAuth, t)
      && c.tiers == (if GetArray(t, "tiers").Some? then TiersOf(GetArray(t, "tiers").value) else [])
      && c.federation == FederationAfter(DefaultFederation, t)
  {
    c := new Config();
    if file.Some? {
      var t := file.value;
      c.ParseNetworkConfig(t);
      c.ParseAuthConfig(t);
      c.ParseStorageConfig(t);
      c.ParseAuthConfig(t);
      c.ParseTiersConfig(t);
      c.ParseFederationConfig(t);
      AuthIdempotent(DefaultAuth, t);
    }
  }
}
