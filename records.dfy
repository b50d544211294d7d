/** The driver's persisted records (`Device`, `QuobyteVolume`), the file names
    they are stored under, and the pure helpers the mount step uses. */
module Records {
  import opened Results

  const DriverName := "quobyte"
  const DriverConfigFile := "quobyte.cfg"
  const VolumeCfgPrefix := "volume_"
  const CfgPrefix := DriverName + "_"
  const CfgPostfix := ".json"
  const MountsDir := "mounts"

  /** Every volume record file name starts with this: "quobyte_volume_". */
  const VolumeFilePrefix := CfgPrefix + VolumeCfgPrefix

  /** The driver-wide configuration. `DefaultVolumeSize` is not modelled. */
  datatype Device = Device(
    Root: string,
    Registries: string,
    User: string,
    Group: string,
    VolumeConfig: string)

  /** One volume's record. `configPath` is not part of the persisted JSON: it
      is the directory the record lives in, set by `BlankVolume`. */
  datatype QuobyteVolume = QuobyteVolume(
    Name: string,
    ID: string,
    MountPoint: string,
    configPath: string,
    User: string,
    Group: string,
    Device: string,
    Config: string)

  /** Two-element `filepath.Join`: empty elements are dropped and the rest
      are joined by one separator (path cleaning is not modelled). */
  function JoinPath(dir: string, name: string): (p: string)
    ensures dir != "" && name != "" ==> p == dir + "/" + name
    ensures dir == "" ==> p == name
    ensures name == "" ==> p == dir
  {
    if dir == "" then name
    else if name == "" then dir
    else dir + "/" + name
  }

  /** `Device.ConfigFile`: the driver configuration file under the root. */
  function DeviceConfigFile(dev: Device): (r: Result<string>)
    ensures r.Err? <==> dev.Root == ""
    ensures r.Err? ==> r.error == EmptyDevicePath
    ensures r.Ok? ==> r.value == dev.Root + "/quobyte.cfg"
  {
    if dev.Root == "" then Err(EmptyDevicePath)
    else Ok(JoinPath(dev.Root, DriverConfigFile))
  }

  /** `QuobyteVolume.ConfigFile`: the record file of a volume. An empty name
      is reported before an empty config path. */
  function VolumeConfigFile(v: QuobyteVolume): (r: Result<string>)
    ensures r.Err? <==> v.Name == "" || v.configPath == ""
    ensures v.Name == "" ==> r == Err(EmptyVolume)
    ensures v.Name != "" && v.configPath == "" ==> r == Err(EmptyConfigPath)
    ensures r.Ok? ==> r.value == v.configPath + "/" + "quobyte_" + "volume_" + v.Name + ".json"
  {
    if v.Name == "" then Err(EmptyVolume)
    else if v.configPath == "" then Err(EmptyConfigPath)
    else Ok(JoinPath(v.configPath, VolumeFilePrefix + v.Name + CfgPostfix))
  }

  /** `Driver.blankVolume`: a record that knows only its name and directory. */
  function BlankVolume(root: string, name: string): (v: QuobyteVolume)
    ensures v.Name == name && v.configPath == root
    ensures v.ID == "" && v.MountPoint == "" && v.User == "" && v.Group == ""
    ensures v.Device == "" && v.Config == ""
  {
    QuobyteVolume(name, "", "", root, "", "", "", "")
  }

  /** The file a volume named `name` is stored in under `root`. */
  function RecordKey(root: string, name: string): Result<string>
  {
    VolumeConfigFile(BlankVolume(root, name))
  }

  /** `QuobyteVolume.GetMountOpts`. */
  function MountOpts(v: QuobyteVolume): seq<string>
  {
    ["-t", DriverName]
  }

  /** `QuobyteVolume.GetDevice`: the mount source is the record's Device field. */
  function GetDevice(v: QuobyteVolume): string
  {
    v.Device
  }

  /** `QuobyteVolume.GenerateDefaultMountPoint`: `<configPath>/mounts/<Name>`. */
  function DefaultMountPoint(v: QuobyteVolume): (p: string)
    ensures v.configPath != "" && v.Name != "" ==> p == v.configPath + "/mounts/" + v.Name
    ensures v.configPath == "" && v.Name != "" ==> p == "mounts/" + v.Name
    ensures v.Name == "" ==> p == JoinPath(v.configPath, "mounts")
  {
    JoinPath(JoinPath(v.configPath, MountsDir), v.Name)
  }

  /** The directory part of every volume record file under `dir`. */
  function RecordFileHead(dir: string): string
  {
    dir + "/" + VolumeFilePrefix
  }

  /** The name `util.ListConfigIDs` reports for a file in `dir`: the part of
      the file name between the volume prefix and the ".json" suffix, or None
      when the file is not a volume record of that directory. */
  function ParseRecordFile(dir: string, file: string): (r: Option<string>)
    ensures r.Some? ==> file == RecordFileHead(dir) + r.value + CfgPostfix
  {
    var head := RecordFileHead(dir);
    if |head| + |CfgPostfix| <= |file|
       && file[..|head|] == head
       && file[|file| - |CfgPostfix|..] == CfgPostfix
    then Some(file[|head|..|file| - |CfgPostfix|])
    else None
  }

  /** A record is saved to the file its own name and directory give. */
  lemma VolumeConfigFileIsRecordKey(v: QuobyteVolume)
    ensures VolumeConfigFile(v) == RecordKey(v.configPath, v.Name)
  {
  }

  /** Listing a record file gives back the name it was created for. */
  lemma ParseRecordKey(root: string, name: string)
    requires RecordKey(root, name).Ok?
    ensures ParseRecordFile(root, RecordKey(root, name).value) == Some(name)
  {
    var f := RecordKey(root, name).value;
    var head := RecordFileHead(root);
    assert f == head + name + CfgPostfix;
    assert f[..|head|] == head;
    assert f[|f| - |CfgPostfix|..] == CfgPostfix;
    assert f[|head|..|f| - |CfgPostfix|] == name;
  }

  /** Conversely, every non-empty name listed from `root` is the name whose
      record lives in exactly that file. */
  lemma RecordKeyOfParsed(root: string, file: string)
    requires root != ""
    requires ParseRecordFile(root, file).Some?
    requires ParseRecordFile(root, file).value != ""
    ensures RecordKey(root, ParseRecordFile(root, file).value) == Ok(file)
  {
    var head := RecordFileHead(root);
    var name := ParseRecordFile(root, file).value;
    assert file == file[..|head|] + file[|head|..|file| - |CfgPostfix|] + file[|file| - |CfgPostfix|..];
    assert file == head + name + CfgPostfix;
    assert RecordKey(root, name).value == root + "/" + (VolumeFilePrefix + name + CfgPostfix);
    assert root + "/" + (VolumeFilePrefix + name + CfgPostfix) == head + name + CfgPostfix;
  }

  /** Distinct volumes of one root never share a record file. */
  lemma RecordKeyInjective(root: string, a: string, b: string)
    requires RecordKey(root, a).Ok? && RecordKey(root, b).Ok?
    requires a != b
    ensures RecordKey(root, a).value != RecordKey(root, b).value
  {
    ParseRecordKey(root, a);
    ParseRecordKey(root, b);
  }
}
