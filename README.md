# Quobyte volume driver, modelled in Dafny

This project models the Quobyte backend of the Convoy volume manager
(`quobyte/quobyte.go`). The driver keeps one JSON record per volume under its
root directory. It provisions and deletes volumes through the remote Quobyte
API client, and it mounts and unmounts them through a mount executor. At
startup, `Init` either loads the driver configuration or bootstraps it from
options, then mounts again every volume whose record says it was mounted.

Modules, in dependency order:

- `Results` (results.dfy): the `Error` kinds, plus `Result` and `Option`.
- `Records` (records.dfy):
  - the `Device` and `QuobyteVolume` records;
  - the file-name scheme of the record files (`ConfigFile` of both records, the mounts directory);
  - `JoinPath`, which stands for `filepath.Join`;
  - `ParseRecordFile`, the inverse of the naming scheme used by the directory listing.
- `Registries` (registries.dfy): `strings.Split` with its inverse, and the registry validation loop of `Init`.
- `Bootstrap` (bootstrap.dfy), the fresh-root branch of `Init`:
  - the required options;
  - the defaults filled into the option map;
  - the `Device` built from them.
- `Lifecycle` (lifecycle.dfy):
  - one pure step function per store-changing operation (`Create`, `Delete`, `Mount`, `Umount`, `Remount`), giving its result, the record store it leaves and the capability calls it makes;
  - the read-only projections;
  - lemmas relating the operations.
- `QuobyteDriver` (driver.dfy):
  - the `Driver` class, whose `store` field the methods update step by step and whose ghost `log` records every capability call;
  - the `Init` method.

  Each method is proved to produce exactly the result, store and calls of its step function.

Modelling choices:

- The record store is a `map` from record file path to record. This is what `util.ObjectLoad/Save/Delete/Exists` work on.
  - Loading a volume looks up the file its blank record names and sets `configPath` to the root.
    `configPath` is unexported, so it is not part of the JSON.
  - `StoreValid` states that every record sits in the file its own `Name` gives. Every operation preserves it.
- The `util.ListConfigIDs` listing is the set `VolumeNames`: the names parsed out of the record file names under the root.
  - The order of the listing is left open: `ListVolumeNames` picks the names in an unspecified order.
- The remote client (`Remote`) and the mount executor (`Executor`) are datatypes holding total functions.
  - Each call answers with a value or an error.
  - The executor's mount answer carries two things, which the model never assumes to be equal:
    - the value it leaves in the record's `MountPoint` field (that update happens inside `util.VolumeMount`);
    - the mount point it returns.
  - The umount answer is the field's new value.
- `net.SplitHostPort` and `util.ValidNetworkAddr` are the two functions of `Registries.Net`.
- Whether `Init` finds a device configuration in the root is the `deviceRecord` parameter.

Behaviour of the code that the model keeps as written:

- `Init` never saves a bootstrapped device configuration. The model does not decide whether it is persisted.
- `UmountVolume` saves whatever value `util.VolumeUmount` left in the MountPoint field. The model asserts nothing about that value.
- `MountVolume`, `UmountVolume` and `DeleteVolume` save or delete the loaded record through its own `ConfigFile`, so they use the file its stored `Name` gives. In a store where a record file holds a record of another name (`StoreValid` false), that differs from the file it was loaded from. The model does the same.
  - `SavedWhereLoaded` shows the two files agree in a valid store.
  - The frame lemmas are stated for valid stores.

## Model

| member | source | states |
|---|---|---|
| Records.JoinPath | quobyte/quobyte.go:93 | two path elements joined by one separator; an empty element is dropped |
| Records.DeviceConfigFile | quobyte/quobyte.go:67-72 | an empty root is an error; otherwise the configuration file is `<root>/quobyte.cfg` |
| Records.VolumeConfigFile | quobyte/quobyte.go:85-94 | the record file is `configPath + "/" + "quobyte_" + "volume_" + Name + ".json"`; empty name is "empty volume" (checked first), empty config path is "empty config path", and these are the only errors |
| Records.BlankVolume | quobyte/quobyte.go:200-205 | a blank record has the given name and root as config path, every other field empty |
| Records.DefaultMountPoint | quobyte/quobyte.go:104-106 | the default mount point is `<configPath>/mounts/<Name>`, with empty elements dropped as `filepath.Join` does |
| Records.ParseRecordFile | quobyte/quobyte.go:108-110 | a name listed from a directory is exactly the middle of a file named `<dir>/quobyte_volume_<name>.json` |
| Records.VolumeConfigFileIsRecordKey | quobyte/quobyte.go:85-94 | a record is saved to the file its own name and directory give, the same file a blank record of that name is loaded from |
| Records.ParseRecordKey | quobyte/quobyte.go:108-110 | listing the root gives back the name of every record file the naming scheme produces |
| Records.RecordKeyOfParsed | quobyte/quobyte.go:85-94 | conversely, a non-empty name parsed from a file of a non-empty root names exactly that file |
| Records.RecordKeyInjective | quobyte/quobyte.go:85-94 | two different volume names never share a record file |
| Registries.Split | quobyte/quobyte.go:136 | the pieces of a comma list: at least one, none containing the separator, joining back to the input |
| Registries.SplitJoin | quobyte/quobyte.go:136 | splitting a join of separator-free pieces returns the pieces |
| Registries.SplitNoSep | quobyte/quobyte.go:136 | a single registry without a comma splits into itself |
| Registries.RegistryCheck | quobyte/quobyte.go:137-143 | one entry passes exactly when it splits into host:port and the host is a valid address; otherwise an invalid-address error |
| Registries.CheckRegistries | quobyte/quobyte.go:136-144 | the list passes exactly when every entry passes; a failure is the error of the first failing entry |
| Registries.ValidateRegistries | quobyte/quobyte.go:135-144 | the loop returns the first failing entry's error, and succeeds exactly when every comma-separated entry passes |
| Bootstrap.Lookup | quobyte/quobyte.go:130 | an absent option reads as the empty string, a present one as its value |
| Bootstrap.FirstMissing | quobyte/quobyte.go:129-133 | the first key, in order, whose value is empty or absent; none exactly when all are set |
| Bootstrap.RequiredCheckAsWritten | quobyte/quobyte.go:129-133 | fails exactly when the API URL or the registries option is empty or absent (its message is the defect listed under Findings) |
| Bootstrap.RequiredCheckAsWrittenNamesNothing | quobyte/quobyte.go:131 | as written, every missing-parameter error carries the empty string |
| Bootstrap.RequiredCheckAsWrittenExample | quobyte/quobyte.go:129-133 | with no options the as-written error is `MissingParameter("")` where the corrected one names `quobyte.apiurl` |
| Bootstrap.RequiredCheck | quobyte/quobyte.go:129-133 | fails exactly when a required option is empty or absent, naming the API URL first and the registries second |
| Bootstrap.FillDefaults | quobyte/quobyte.go:146-164 | the filled map keeps every given key and value, even empty ones; the five default keys are added when absent, with admin, quobyte, root, nfsnobody and BASE |
| Bootstrap.Bootstrap | quobyte/quobyte.go:129-172 | a fresh-root setup fails only with a missing-parameter or an invalid-address error; on success the option map is the filled one and the device's root is the given root |
| Bootstrap.InitDevice | quobyte/quobyte.go:112-124 | an empty root fails; a stored device configuration is taken as is and leaves the options unchanged; otherwise the root is bootstrapped |
| Bootstrap.BootstrapFailsIff | quobyte/quobyte.go:129-144 | bootstrap fails exactly when a required option is empty or absent or some registry entry is invalid; a missing option is reported before a registry problem, which is an invalid address (the option's name appears in the error as the corrected check gives it) |
| Bootstrap.BootstrapDefaults | quobyte/quobyte.go:146-172 | a bootstrapped device has the given root and registry list; its user, group and volume configuration are the option values or their defaults, and so are the API credentials |
| Bootstrap.BootstrapExample | quobyte/quobyte.go:129-172 | one valid registry and an API URL give the device root/nfsnobody/BASE |
| Lifecycle.Load | quobyte/quobyte.go:214-217 | a record loads exactly when its file is in the store; a bad name gives the naming error, a missing file gives not-found |
| Lifecycle.NewRecord | quobyte/quobyte.go:264-269 | a new record has the uuid, the driver's user, group and volume configuration, Device equal to Name, and an empty MountPoint |
| Lifecycle.Create | quobyte/quobyte.go:239-272 | a name with no record file is rejected with its naming error and an existing record with already-exists, each with no remote call and no change; a failing remote create writes nothing; a successful one saves the new record under the volume's file; exactly one remote call is made when the name is free |
| Lifecycle.Delete | quobyte/quobyte.go:274-298 | a missing or mounted record is rejected with no call; reference-only makes no call; otherwise exactly the remote delete of the record's ID is called and its error is returned unchanged, keeping the record; after that the file of the loaded record's own name is removed, or its naming error is returned; success removes exactly that file |
| Lifecycle.Mount | quobyte/quobyte.go:300-321 | a missing record fails with no call; otherwise exactly one mount call is made; a failing mount changes nothing; after a successful one the record, with only MountPoint changed, is saved to the file of its own name and the executor's mount point is returned, or that file's naming error is returned and nothing is saved |
| Lifecycle.Umount | quobyte/quobyte.go:323-337 | a missing record fails with no call; otherwise exactly one unmount call is made; a failing unmount changes nothing; after a successful one the record, with only MountPoint changed, is saved to the file of its own name, or that file's naming error is returned and nothing is saved |
| Lifecycle.Remount | quobyte/quobyte.go:207-232 | every call the walk over the listed names makes is a mount with no requested mount point |
| Lifecycle.VolumeNames | quobyte/quobyte.go:208 | every record file under the root that parses is listed, and every listed name has its file `<root>/quobyte_volume_<name>.json` in the store |
| Lifecycle.MountPointOf | quobyte/quobyte.go:339-346 | the mount point of a record that loads, or the load error |
| Lifecycle.GetVolumeInfo | quobyte/quobyte.go:348-370 | the info of a record that loads has exactly the keys MountPoint, ID and the volume-name key, with the record's values and the name; otherwise the load error |
| Lifecycle.ListedNamesLoad | quobyte/quobyte.go:208-217 | in a valid store every listed name loads, and every name that loads is listed |
| Lifecycle.OtherVolumesUntouched | quobyte/quobyte.go:300-337 | a change confined to one volume's file leaves every other volume loading as before |
| Lifecycle.SavedWhereLoaded | quobyte/quobyte.go:307-316 | in a valid store a loaded record is saved back to the file it was loaded from, whatever its mount point |
| Lifecycle.MountFrame | quobyte/quobyte.go:306-320 | in a valid store, mounting one volume never changes how another volume loads |
| Lifecycle.CreatePreservesValid | quobyte/quobyte.go:239-272 | create keeps every record in the file its name gives |
| Lifecycle.DeletePreservesValid | quobyte/quobyte.go:274-298 | delete keeps every record in the file its name gives |
| Lifecycle.MountPreservesValid | quobyte/quobyte.go:300-321 | mount keeps every record in the file its name gives |
| Lifecycle.UmountPreservesValid | quobyte/quobyte.go:323-337 | unmount keeps every record in the file its name gives |
| Lifecycle.MountedVolumesAppend | quobyte/quobyte.go:213-229 | the volumes mounted by two call sequences in a row are those of the first followed by those of the second |
| Lifecycle.MountTargetsFrame | quobyte/quobyte.go:213-229 | in a valid store, which later volumes are due for remounting does not depend on mounting an earlier, different one |
| Lifecycle.RemountMountsExactlyTheMounted | quobyte/quobyte.go:213-229 | in a valid store and over distinct names, remounting mounts only listed records with a non-empty mount point, in order, all of them when it succeeds, and makes no call other than mounts |
| Lifecycle.FailuresFrame | quobyte/quobyte.go:213-229 | in a valid store, mounting one volume does not change the load or mount failure met at any other |
| Lifecycle.RemountSucceedsIff | quobyte/quobyte.go:213-231 | in a valid store and over distinct names, remounting succeeds exactly when no listed record fails to load and no mounted one fails to mount again |
| Lifecycle.RemountFailsAtFirstFailure | quobyte/quobyte.go:213-229 | in a valid store and over distinct names, a failing remount ends at the first listed failure, returns that failure's error, and has mounted only the targets up to and including that volume |
| Lifecycle.RemountStopsAtFirstFailure | quobyte/quobyte.go:207-232 | in a valid store and over distinct names, both halves: success exactly when no listed volume fails; otherwise the error is the first failure's, every earlier volume is failure-free, and no mount is made after it |
| Lifecycle.MountSavesRecord | quobyte/quobyte.go:307-320 | in a valid store, after a successful mount the volume loads as it was loaded before, with the MountPoint the executor left |
| Lifecycle.RemountUntouched | quobyte/quobyte.go:213-229 | in a valid store, every volume the walk did not mount again loads afterwards exactly as before |
| Lifecycle.RemountSaves | quobyte/quobyte.go:213-229 | in a valid store and over distinct names, after a successful remount every volume that was mounted loads as before, with the MountPoint the executor left when it was mounted again |
| Lifecycle.RemountPreservesValid | quobyte/quobyte.go:207-232 | remounting keeps every record in the file its name gives |
| Lifecycle.CreateThenInfo | quobyte/quobyte.go:264-271 | after a successful create the volume reports an empty mount point, the remote uuid and its name |
| Lifecycle.CreatedVolumeMountRequest | quobyte/quobyte.go:96-106 | every volume create saves is mounted from a device with its own name, with options `-t quobyte`, default mount point `<root>/mounts/<name>` and no current mount point |
| Lifecycle.CreateTwice | quobyte/quobyte.go:245-251 | creating an existing volume again fails with already-exists, no call and no change |
| Lifecycle.MountThenMountPoint | quobyte/quobyte.go:311-320 | in a valid store, after a successful mount the volume reports the mount point the executor left in its record |
| Lifecycle.UmountThenMountPoint | quobyte/quobyte.go:332-336 | in a valid store, after a successful unmount the volume reports the mount point the executor left in its record |
| Lifecycle.DeleteMountedRejected | quobyte/quobyte.go:286-288 | a mounted volume is never deleted, with or without reference-only, and the remote client is not called |
| Lifecycle.DeleteThenGone | quobyte/quobyte.go:274-298 | in a valid store, once a delete succeeds the volume no longer loads: loading it gives not-found |
| Lifecycle.CreateMountScenario | quobyte/quobyte.go:253-269 | create "vol1" with root/nfsnobody/BASE on an empty store: the remote client gets exactly that request; the record gets the returned id, Device "vol1" and no mount point; mounting it hands device "vol1" and `-t quobyte` to the executor |
| QuobyteDriver.Driver.constructor | quobyte/quobyte.go:175-179 | the driver starts with the given configuration, capabilities and store, an empty call log, and is valid exactly when that store is |
| QuobyteDriver.Driver.ListVolumeNames | quobyte/quobyte.go:108-110 | the listing holds each name of a record file under the root exactly once |
| QuobyteDriver.Driver.CreateVolume | quobyte/quobyte.go:239-272 | result, new store and calls are those of `Lifecycle.Create`; store validity is kept |
| QuobyteDriver.Driver.DeleteVolume | quobyte/quobyte.go:274-298 | result, new store and calls are those of `Lifecycle.Delete`; store validity is kept |
| QuobyteDriver.Driver.MountVolume | quobyte/quobyte.go:300-321 | result, new store and calls are those of `Lifecycle.Mount`; store validity is kept |
| QuobyteDriver.Driver.UmountVolume | quobyte/quobyte.go:323-337 | result, new store and calls are those of `Lifecycle.Umount`; store validity is kept |
| QuobyteDriver.Driver.RemountVolumes | quobyte/quobyte.go:207-232 | lists every record once, then result, new store and calls are those of `Lifecycle.Remount` over that listing; store validity is kept |
| QuobyteDriver.Driver.RemountListed | quobyte/quobyte.go:213-229 | the loop's result, store and calls are those of `Lifecycle.Remount` over the given names |
| QuobyteDriver.Driver.ListVolume | quobyte/quobyte.go:372-385 | succeeds exactly when every listed volume's info loads; the result has one entry per listed name, each that volume's info; a failure is some listed volume's error with no partial map; the store is not changed |
| QuobyteDriver.Driver.SnapshotOps | quobyte/quobyte.go:387-389 | snapshots are unsupported |
| QuobyteDriver.Driver.BackupOps | quobyte/quobyte.go:391-393 | backups are unsupported |
| QuobyteDriver.BootstrappedInfo | quobyte/quobyte.go:166-172 | on a bootstrapped root, Info reports the root, the registry list as given, and the default user and volume configuration from the options or root and BASE |
| QuobyteDriver.SetupDevice | quobyte/quobyte.go:112-172 | the device setup of Init: an empty root, a missing option or a bad registry is its error with the options unchanged; otherwise the stored device configuration, or the bootstrapped one with the option map filled with defaults, exactly as `Bootstrap.InitDevice` gives |
| QuobyteDriver.Init | quobyte/quobyte.go:112-185 | a failed setup (empty root, missing option, bad registry) fails with no driver, leaving the options and store alone. Otherwise the option map becomes the filled one, every listed record is remounted as `Lifecycle.Remount` says, and a remount failure fails Init. Success returns a fresh driver with the set-up device, the given capabilities, the client built from the filled options, the remounted store and exactly the remount calls in its log; it is valid when the initial store is |

## Left out

- The driver-wide `sync.RWMutex`: each operation is atomic.
- Storage failures of `util.ObjectExists/Load/Save/Delete` and `util.ListConfigIDs` (I/O errors, corrupt JSON) are not modelled. A load fails only as "not found" or with a naming error, and a save or delete fails only with the naming error of the record's file. Their bodies are not part of this model.
- `util.MkdirIfNotExists` on a fresh root: no directory structure is modelled.
- `util.ObjectLoad` of the device configuration for an existing root is the `deviceRecord` parameter of `Init`. How the file is found and decoded is not modelled.
- The bodies of `util.VolumeMount` and `util.VolumeUmount`: the executor is an abstract function, and the model asserts nothing about how it sets or clears MountPoint.
- The `quobyte_api` client: an abstract function per call. Its network behaviour and the client object itself are not modelled; `ClientConfig` only records its URL and credentials.
- `net.SplitHostPort` and `util.ValidNetworkAddr` (DNS resolution) are abstract functions.
- Records.JoinPath: does not clean paths (`..`, repeated or trailing separators) as `filepath.Join` does. So `RecordKeyInjective` and the frame lemmas built on it (`OtherVolumesUntouched`, `MountFrame`, `MountTargetsFrame`, `FailuresFrame`) hold of the model's join only. Under `filepath.Join`, names such as `a/b` and `a//b` share a record file.
- Registries.RegistryCheck: a split failure reports the entry itself, where the source formats Go's error text, which is not modelled.
- QuobyteDriver.Driver.DeleteVolume: receives reference-only already parsed; the `strconv.ParseBool` of the option (where parse errors count as false) is not modelled.
- QuobyteDriver.Driver.MountVolume: receives the requested mount point already taken from the request options.
- The missing-parameter error of `Init` does not name the missing option (see Findings). The model uses the corrected check throughout; the members below report a missing option by name.
- Bootstrap.Bootstrap: a missing required option is reported as `MissingParameter(<option name>)`, from the corrected check, where the source's message carries the empty value.
- Bootstrap.InitDevice: on a fresh root, a missing required option is reported by name from the corrected check, where the source's message carries the empty value.
- QuobyteDriver.SetupDevice: a missing required option is reported by name from the corrected check, where the source's message carries the empty value.
- QuobyteDriver.Init: a missing required option is reported as `MissingParameter(<option name>)`, from the corrected check, where the source's message carries the empty value (Findings).
- Bootstrap.BootstrapFailsIff: states the corrected missing-parameter error, naming the option, not the source's empty detail.
- Lifecycle.Delete: removing a record file that is not in the store counts as success. That case arises only when a record names another volume; what `util.ObjectDelete` does then is not part of this model.
- Lifecycle.GetVolumeInfo: reports the name under the key "VolumeName". `OPT_VOLUME_NAME`, `OPT_MOUNT_POINT`, `OPT_REFERENCE_ONLY` and the `Request` type come from the convoydriver package, which is not part of this model.
- QuobyteDriver.Driver.ListVolumeNames: the order of `util.ListConfigIDs` is left open. The listing is taken as the names parsed from the record file names; a name containing "/" is not ruled out.
- Logging, `init`/`Register`, `Name`, `VolumeOps`, the `getSize` stub and `Device.DefaultVolumeSize`: plumbing or stubs with no behaviour.
- Behaviour the source does not define is neither decided nor claimed: mounting a mounted volume, unmounting an unmounted volume, and persisting the bootstrapped device configuration.
- The capabilities are deterministic functions of their inputs: two identical calls get the same answer.

## Findings

| source | as written | input that shows it | evidently intended | confidence | as-written member | corrected member |
|---|---|---|---|---|---|---|
| quobyte/quobyte.go:131 | the missing-parameter error formats `config[req]`, which is empty on that branch | `Init` on a fresh root with no options gives "Missing required parameter: " | the error names the missing option, `quobyte.apiurl` here | high; not executed | Bootstrap.RequiredCheckAsWrittenExample | Bootstrap.RequiredCheck |
