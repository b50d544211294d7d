/** The fresh-root branch of `Init`: the required bootstrap options, the
    registry check, and the defaults filled into the option map. */
module Bootstrap {
  import opened Results
  import opened Records
  import opened Registries

  const QuobyteApiUrl := "quobyte.apiurl"
  const QuobyteApiUser := "quobyte.apiuser"
  const QuobyteApiPassword := "quobyte.apipassword"
  const QuobyteRegistries := "quobyte.registries"
  const QuobyteDefaultUser := "quobyte.defaultuser"
  const QuobyteDefaultGroup := "quobyte.defaultgroup"
  const QuobyteDefaultVolumeConfig := "quobyte.defaultvolumeconfig"

  /** The options that must be non-empty, in the order they are checked. */
  const RequiredKeys := [QuobyteApiUrl, QuobyteRegistries]

  /** Go's map index: an absent key reads as the empty string. */
  function Lookup(config: map<string, string>, key: string): (v: string)
    ensures key !in config ==> v == ""
    ensures key in config ==> v == config[key]
  {
    if key in config then config[key] else ""
  }

  /** The first of `keys` whose value is empty or absent. */
  function FirstMissing(config: map<string, string>, keys: seq<string>): (r: Option<string>)
    ensures r.None? <==> forall i :: 0 <= i < |keys| ==> Lookup(config, keys[i]) != ""
    ensures r.Some? ==> exists i :: 0 <= i < |keys| && keys[i] == r.value
                                    && Lookup(config, r.value) == ""
                                    && forall j :: 0 <= j < i ==> Lookup(config, keys[j]) != ""
    decreases |keys|
  {
    if keys == [] then None
    else if Lookup(config, keys[0]) == "" then Some(keys[0])
    else
      var rest := FirstMissing(config, keys[1..]);
      assert forall i :: 1 <= i < |keys| ==> keys[i] == keys[1..][i - 1];
      if rest.Some? then
        ghost var k :| 0 <= k < |keys[1..]| && keys[1..][k] == rest.value
                       && Lookup(config, rest.value) == ""
                       && forall j :: 0 <= j < k ==> Lookup(config, keys[1..][j]) != "";
        assert keys[k + 1] == rest.value;
        rest
      else rest
  }

  /** The required-option check as the source writes it: the error message
      formats the option's value, which is empty on that branch, instead of
      the option's name. */
  function RequiredCheckAsWritten(config: map<string, string>): (r: Result<()>)
    ensures r.Ok? <==> Lookup(config, QuobyteApiUrl) != "" && Lookup(config, QuobyteRegistries) != ""
  {
    assert RequiredKeys[0] == QuobyteApiUrl && RequiredKeys[1] == QuobyteRegistries;
    match FirstMissing(config, RequiredKeys)
    case None => Ok(())
    case Some(key) => Err(MissingParameter(Lookup(config, key)))
  }

  /** As written, the error never says which option is missing. */
  lemma RequiredCheckAsWrittenNamesNothing(config: map<string, string>)
    requires RequiredCheckAsWritten(config).Err?
    ensures RequiredCheckAsWritten(config).error == MissingParameter("")
  {
  }

  /** With no options at all the as-written error does not name the API URL. */
  lemma RequiredCheckAsWrittenExample()
    ensures RequiredCheckAsWritten(map[]) == Err(MissingParameter(""))
    ensures RequiredCheck(map[]) == Err(MissingParameter(QuobyteApiUrl))
  {
    assert Lookup(map[], QuobyteApiUrl) == "";
  }

  /** The required-option check with the message naming the missing option
      (the evident intent); the rest of the model uses this one. */
  function RequiredCheck(config: map<string, string>): (r: Result<()>)
    ensures r.Ok? <==> Lookup(config, QuobyteApiUrl) != "" && Lookup(config, QuobyteRegistries) != ""
    ensures Lookup(config, QuobyteApiUrl) == "" ==> r == Err(MissingParameter(QuobyteApiUrl))
    ensures Lookup(config, QuobyteApiUrl) != "" && Lookup(config, QuobyteRegistries) == ""
            ==> r == Err(MissingParameter(QuobyteRegistries))
  {
    assert RequiredKeys[0] == QuobyteApiUrl && RequiredKeys[1] == QuobyteRegistries;
    match FirstMissing(config, RequiredKeys)
    case None => Ok(())
    case Some(key) => Err(MissingParameter(key))
  }

  /** Set `key` to `value` only if the key is absent; a present (even empty)
      value is kept. */
  function WithDefault(config: map<string, string>, key: string, value: string): (c: map<string, string>)
  {
    if key in config then config else config[key := value]
  }

  /** The keys Init fills in when absent, with their defaults. */
  const DefaultKeys := {QuobyteApiUser, QuobyteApiPassword, QuobyteDefaultUser,
                        QuobyteDefaultGroup, QuobyteDefaultVolumeConfig}

  /** The option keys are pairwise different strings. */
  lemma OptionKeysDistinct()
    ensures QuobyteApiUser != QuobyteApiPassword && QuobyteApiUser != QuobyteDefaultUser
    ensures QuobyteApiUser != QuobyteDefaultGroup && QuobyteApiUser != QuobyteDefaultVolumeConfig
    ensures QuobyteApiPassword != QuobyteDefaultUser && QuobyteApiPassword != QuobyteDefaultGroup
    ensures QuobyteApiPassword != QuobyteDefaultVolumeConfig
    ensures QuobyteDefaultUser != QuobyteDefaultGroup && QuobyteDefaultUser != QuobyteDefaultVolumeConfig
    ensures QuobyteDefaultGroup != QuobyteDefaultVolumeConfig
    ensures QuobyteApiUrl != QuobyteRegistries
    ensures QuobyteApiUrl !in DefaultKeys && QuobyteRegistries !in DefaultKeys
  {
    assert |QuobyteApiUrl| == 14 && |QuobyteRegistries| == 18;
    assert |QuobyteApiUser| == 15 && |QuobyteApiPassword| == 19 && |QuobyteDefaultUser| == 19;
    assert |QuobyteDefaultGroup| == 20 && |QuobyteDefaultVolumeConfig| == 27;
    assert QuobyteApiPassword[8] == 'a' && QuobyteDefaultUser[8] == 'd';
  }

  /** The option map after the defaults have been filled in. */
  function FillDefaults(config: map<string, string>): (c: map<string, string>)
    ensures c.Keys == config.Keys + DefaultKeys
    ensures forall k :: k in config ==> c[k] == config[k]
    ensures QuobyteApiUser !in config ==> c[QuobyteApiUser] == "admin"
    ensures QuobyteApiPassword !in config ==> c[QuobyteApiPassword] == "quobyte"
    ensures QuobyteDefaultUser !in config ==> c[QuobyteDefaultUser] == "root"
    ensures QuobyteDefaultGroup !in config ==> c[QuobyteDefaultGroup] == "nfsnobody"
    ensures QuobyteDefaultVolumeConfig !in config ==> c[QuobyteDefaultVolumeConfig] == "BASE"
  {
    var c1 := WithDefault(config, QuobyteApiUser, "admin");
    var c2 := WithDefault(c1, QuobyteApiPassword, "quobyte");
    var c3 := WithDefault(c2, QuobyteDefaultUser, "root");
    var c4 := WithDefault(c3, QuobyteDefaultGroup, "nfsnobody");
    var c5 := WithDefault(c4, QuobyteDefaultVolumeConfig, "BASE");
    assert QuobyteApiUser !in config ==> c1[QuobyteApiUser] == "admin";
    assert QuobyteApiPassword !in config ==> c2[QuobyteApiPassword] == "quobyte";
    assert QuobyteDefaultUser !in config ==> c3[QuobyteDefaultUser] == "root";
    assert QuobyteDefaultGroup !in config ==> c4[QuobyteDefaultGroup] == "nfsnobody";
    assert c5.Keys == config.Keys + {QuobyteApiUser} + {QuobyteApiPassword} + {QuobyteDefaultUser}
                      + {QuobyteDefaultGroup} + {QuobyteDefaultVolumeConfig};
    c5
  }

  /** What the fresh-root branch of Init produces: the device and the option
      map with its defaults. */
  datatype Bootstrapped = Bootstrapped(dev: Device, config: map<string, string>)

  /** The fresh-root branch of Init before the driver is built: check the
      required options, check every registry entry, fill the defaults, and
      take the device's user, group and volume configuration from them. */
  function Bootstrap(root: string, config: map<string, string>, net: Net): (r: Result<Bootstrapped>)
    ensures r.Err? ==> r.error.MissingParameter? || r.error.InvalidAddress?
    ensures r.Ok? ==> r.value.config == FillDefaults(config) && r.value.dev.Root == root
  {
    if RequiredCheck(config).Err? then Err(RequiredCheck(config).error)
    else
      var registries := Lookup(config, QuobyteRegistries);
      var check := CheckRegistries(net, Split(registries, ','));
      if check.Err? then Err(check.error)
      else
        var filled := FillDefaults(config);
        Ok(Bootstrapped(
             Device(root, registries, filled[QuobyteDefaultUser], filled[QuobyteDefaultGroup],
                    filled[QuobyteDefaultVolumeConfig]),
             filled))
  }

  /** The configuration Init builds the driver from: an empty root is an
      error, a root that already holds a driver configuration supplies it
      (and the options are left as they are), a fresh root is bootstrapped. */
  function InitDevice(root: string, config: map<string, string>, deviceRecord: Option<Device>, net: Net)
    : (r: Result<Bootstrapped>)
    ensures root == "" ==> r == Err(EmptyDevicePath)
    ensures root != "" && deviceRecord.Some? ==> r == Ok(Bootstrapped(deviceRecord.value, config))
    ensures root != "" && deviceRecord.None? ==> r == Bootstrap(root, config, net)
  {
    var file := DeviceConfigFile(Device(root, "", "", "", ""));
    if file.Err? then Err(file.error)
    else if deviceRecord.Some? then Ok(Bootstrapped(deviceRecord.value, config))
    else Bootstrap(root, config, net)
  }

  /** Bootstrap fails exactly when a required option is empty or absent or a
      registry entry is invalid, and then reports the first such problem. */
  lemma BootstrapFailsIff(root: string, config: map<string, string>, net: Net)
    ensures Bootstrap(root, config, net).Err? <==>
            || Lookup(config, QuobyteApiUrl) == ""
            || Lookup(config, QuobyteRegistries) == ""
            || exists p :: p in Split(Lookup(config, QuobyteRegistries), ',') && !RegistryOk(net, p)
    ensures Lookup(config, QuobyteApiUrl) == "" ==>
            Bootstrap(root, config, net) == Err(MissingParameter(QuobyteApiUrl))
    ensures Lookup(config, QuobyteApiUrl) != "" && Lookup(config, QuobyteRegistries) == "" ==>
            Bootstrap(root, config, net) == Err(MissingParameter(QuobyteRegistries))
    ensures Bootstrap(root, config, net).Err? && RequiredCheck(config).Ok? ==>
            Bootstrap(root, config, net).error.InvalidAddress?
  {
    var parts := Split(Lookup(config, QuobyteRegistries), ',');
    if CheckRegistries(net, parts).Err? {
      var i :| 0 <= i < |parts| && !RegistryOk(net, parts[i]);
      assert parts[i] in parts;
    }
  }

  /** On success the device takes the root and registry list as given and
      the user, group and volume configuration from the options, each
      defaulted only when its key is absent. */
  lemma BootstrapDefaults(root: string, config: map<string, string>, net: Net)
    requires Bootstrap(root, config, net).Ok?
    ensures var b := Bootstrap(root, config, net).value;
      && b.dev.Root == root
      && b.dev.Registries == config[QuobyteRegistries]
      && b.dev.User == (if QuobyteDefaultUser in config then config[QuobyteDefaultUser] else "root")
      && b.dev.Group == (if QuobyteDefaultGroup in config then config[QuobyteDefaultGroup] else "nfsnobody")
      && b.dev.VolumeConfig ==
         (if QuobyteDefaultVolumeConfig in config then config[QuobyteDefaultVolumeConfig] else "BASE")
      && b.config[QuobyteApiUser] == (if QuobyteApiUser in config then config[QuobyteApiUser] else "admin")
      && b.config[QuobyteApiPassword] ==
         (if QuobyteApiPassword in config then config[QuobyteApiPassword] else "quobyte")
      && b.config == FillDefaults(config)
  {
  }

  /** The bootstrap with only a single valid registry set: the device gets
      root, nfsnobody and BASE. */
  lemma BootstrapExample(root: string, net: Net)
    requires RegistryOk(net, "quobyte-1:7861")
    ensures var config := map[QuobyteApiUrl := "http://api:7860", QuobyteRegistries := "quobyte-1:7861"];
      && Bootstrap(root, config, net).Ok?
      && Bootstrap(root, config, net).value.dev
         == Device(root, "quobyte-1:7861", "root", "nfsnobody", "BASE")
  {
    var config := map[QuobyteApiUrl := "http://api:7860", QuobyteRegistries := "quobyte-1:7861"];
    OptionKeysDistinct();
    assert Lookup(config, QuobyteApiUrl) == "http://api:7860";
    assert Lookup(config, QuobyteRegistries) == "quobyte-1:7861";
    assert RequiredCheck(config).Ok?;
    SplitNoSep("quobyte-1:7861", ',');
    assert CheckRegistries(net, Split("quobyte-1:7861", ',')).Ok?;
    var filled := FillDefaults(config);
    assert QuobyteDefaultUser !in config && QuobyteDefaultGroup !in config;
    assert QuobyteDefaultVolumeConfig !in config;
    assert filled[QuobyteDefaultUser] == "root" && filled[QuobyteDefaultGroup] == "nfsnobody";
    assert filled[QuobyteDefaultVolumeConfig] == "BASE";
  }
}
