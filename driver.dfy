/** The Quobyte volume driver: `Init` and the `Driver` object whose
    operations change the record store step by step. Each operation is
    atomic (the driver-wide lock is not modelled) and is proved to do
    exactly what the matching step function of module Lifecycle says. */
module QuobyteDriver {
  import opened Results
  import opened Records
  import opened Registries
  import opened Bootstrap
  import opened Lifecycle

  /** The API endpoint and credentials the remote client is built with. */
  datatype ClientConfig = ClientConfig(url: string, user: string, password: string)

  class Driver {
    /** The driver-wide configuration, fixed once Init has built the driver. */
    const dev: Device
    const client: ClientConfig
    /** The remote Quobyte client and the mount executor. */
    const remote: Remote
    const exec: Executor
    /** The persisted volume records. */
    var store: Store
    /** Every capability call made so far, in order. */
    ghost var log: seq<Call>

    ghost predicate Valid()
      reads this
    {
      StoreValid(dev.Root, store)
    }

    constructor (dev: Device, client: ClientConfig, remote: Remote, exec: Executor, store: Store)
      ensures this.dev == dev && this.client == client
      ensures this.remote == remote && this.exec == exec
      ensures Valid() <==> StoreValid(dev.Root, store)
      ensures this.store == store && log == []
    {
      this.dev := dev;
      this.client := client;
      this.remote := remote;
      this.exec := exec;
      this.store := store;
      log := [];
    }

    /** `Driver.Info`: the root, the registry list, the default user and the
        default volume configuration (the default group is not reported). */
    function Info(): map<string, string>
    {
      map["Root" := dev.Root, "Registries" := dev.Registries, "User" := dev.User,
          "VolumeConfig" := dev.VolumeConfig]
    }

    /** `util.ListConfigIDs` over the root: every volume record's name once,
        in an order the model leaves open. */
    method ListVolumeNames() returns (names: seq<string>)
      ensures Distinct(names)
      ensures forall n :: n in names <==> n in VolumeNames(dev.Root, store)
    {
      var pending := VolumeNames(dev.Root, store);
      names := [];
      while pending != {}
        invariant pending <= VolumeNames(dev.Root, store)
        invariant forall n :: n in names <==> n in VolumeNames(dev.Root, store) && n !in pending
        invariant Distinct(names)
        decreases |pending|
      {
        var n :| n in pending;
        names := names + [n];
        pending := pending - {n};
      }
    }

    method CreateVolume(name: string) returns (r: Result<()>)
      modifies this`store, this`log
      ensures var s := Create(dev, remote, old(store), name);
              r == s.result && store == s.store && log == old(log) + s.calls
      ensures old(Valid()) ==> Valid()
    {
      if Valid() {
        CreatePreservesValid(dev, remote, store, name);
      }
      var file := RecordKey(dev.Root, name);
      if file.Err? {
        return Err(file.error);
      }
      if file.value in store {
        return Err(AlreadyExists(name));
      }
      var request := CreateVolumeRequest(name, dev.User, dev.Group, dev.VolumeConfig);
      log := log + [CreateCall(request)];
      var uuid := remote.create(request);
      if uuid.Err? {
        return Err(uuid.error);
      }
      var vol := BlankVolume(dev.Root, name);
      vol := vol.(ID := uuid.value, User := dev.User, Group := dev.Group, Config := dev.VolumeConfig);
      vol := vol.(Device := vol.Name);
      store := store[file.value := vol];
      r := Ok(());
    }

    method DeleteVolume(name: string, referenceOnly: bool) returns (r: Result<()>)
      modifies this`store, this`log
      ensures var s := Delete(dev.Root, remote, old(store), name, referenceOnly);
              r == s.result && store == s.store && log == old(log) + s.calls
      ensures old(Valid()) ==> Valid()
    {
      if Valid() {
        DeletePreservesValid(dev.Root, remote, store, name, referenceOnly);
      }
      var volume := Load(dev.Root, store, name);
      if volume.Err? {
        return Err(volume.error);
      }
      if volume.value.MountPoint != "" {
        return Err(StillMounted(name));
      }
      if !referenceOnly {
        log := log + [DeleteCall(name, volume.value.ID)];
        var deleted := remote.delete(volume.value.ID);
        if deleted.Err? {
          return Err(deleted.error);
        }
      }
      var file := VolumeConfigFile(volume.value);
      if file.Err? {
        return Err(file.error);
      }
      store := store - {file.value};
      r := Ok(());
    }

    method MountVolume(name: string, hint: string) returns (r: Result<string>)
      modifies this`store, this`log
      ensures var s := Mount(dev.Root, exec, old(store), name, hint);
              r == s.result && store == s.store && log == old(log) + s.calls
      ensures old(Valid()) ==> Valid()
    {
      if Valid() {
        MountPreservesValid(dev.Root, exec, store, name, hint);
      }
      var vol := Load(dev.Root, store, name);
      if vol.Err? {
        return Err(vol.error);
      }
      var request := MountRequest(GetDevice(vol.value), MountOpts(vol.value), DefaultMountPoint(vol.value),
                                  vol.value.MountPoint, hint, false);
      log := log + [MountCall(name, request)];
      var mounted := exec.mount(request);
      if mounted.Err? {
        return Err(mounted.error);
      }
      var saved := vol.value.(MountPoint := mounted.value.recorded);
      var file := VolumeConfigFile(saved);
      if file.Err? {
        return Err(file.error);
      }
      store := store[file.value := saved];
      r := Ok(mounted.value.path);
    }

    method UmountVolume(name: string) returns (r: Result<()>)
      modifies this`store, this`log
      ensures var s := Umount(dev.Root, exec, old(store), name);
              r == s.result && store == s.store && log == old(log) + s.calls
      ensures old(Valid()) ==> Valid()
    {
      if Valid() {
        UmountPreservesValid(dev.Root, exec, store, name);
      }
      var vol := Load(dev.Root, store, name);
      if vol.Err? {
        return Err(vol.error);
      }
      var request := UmountRequest(GetDevice(vol.value), vol.value.MountPoint);
      log := log + [UmountCall(name, request)];
      var unmounted := exec.umount(request);
      if unmounted.Err? {
        return Err(unmounted.error);
      }
      var saved := vol.value.(MountPoint := unmounted.value);
      var file := VolumeConfigFile(saved);
      if file.Err? {
        return Err(file.error);
      }
      store := store[file.value := saved];
      r := Ok(());
    }

    /** `remountVolumes`: list the records, then walk the listing. */
    method RemountVolumes() returns (r: Result<()>, ghost listed: seq<string>)
      modifies this`store, this`log
      ensures Distinct(listed)
      ensures forall n :: n in listed <==> n in VolumeNames(dev.Root, old(store))
      ensures var s := Remount(dev.Root, exec, old(store), listed);
              r == s.result && store == s.store && log == old(log) + s.calls
      ensures old(Valid()) ==> Valid()
    {
      var names := ListVolumeNames();
      r := RemountListed(names);
      listed := names;
    }

    /** The loop of `remountVolumes`: mount again (with no requested mount
        point) each listed volume whose mount point is not empty; the first
        load or mount failure ends the loop. */
    method RemountListed(names: seq<string>) returns (r: Result<()>)
      modifies this`store, this`log
      ensures var s := Remount(dev.Root, exec, old(store), names);
              r == s.result && store == s.store && log == old(log) + s.calls
      ensures old(Valid()) ==> Valid()
    {
      ghost var full := Remount(dev.Root, exec, store, names);
      ghost var validBefore := Valid();
      if validBefore {
        RemountPreservesValid(dev.Root, exec, store, names);
      }
      ghost var done: seq<Call> := [];
      var i := 0;
      while i < |names|
        invariant 0 <= i <= |names|
        invariant Resumes(full, done, Remount(dev.Root, exec, store, names[i..]))
        invariant log == old(log) + done
      {
        var id := names[i];
        var vol := Load(dev.Root, store, id);
        if vol.Err? {
          ResumeLoadFails(dev.Root, exec, store, names, i, full, done);
          return Err(vol.error);
        }
        if vol.value.MountPoint == "" {
          ResumeSkip(dev.Root, exec, store, names, i, full, done);
        } else {
          ResumeMount(dev.Root, exec, store, names, i, full, done);
          ghost var calls := Mount(dev.Root, exec, store, id, "").calls;
          var mounted := MountVolume(id, "");
          assert log == old(log) + (done + calls);
          if mounted.Err? {
            return Err(mounted.error);
          }
          done := done + calls;
        }
        i := i + 1;
      }
      r := Ok(());
    }

    /** `ListVolume`: the info of every listed volume, keyed by name; one
        failing lookup fails the whole call. */
    method ListVolume() returns (r: Result<map<string, map<string, string>>>)
      ensures r.Ok? <==> forall n :: n in VolumeNames(dev.Root, store) ==> GetVolumeInfo(dev.Root, store, n).Ok?
      ensures r.Ok? ==> r.value.Keys == VolumeNames(dev.Root, store)
      ensures r.Ok? ==> forall n :: n in r.value ==> GetVolumeInfo(dev.Root, store, n) == Ok(r.value[n])
      ensures r.Err? ==> exists n :: n in VolumeNames(dev.Root, store) && GetVolumeInfo(dev.Root, store, n) == Err(r.error)
    {
      var names := ListVolumeNames();
      var entries: map<string, map<string, string>> := map[];
      var i := 0;
      while i < |names|
        invariant 0 <= i <= |names|
        invariant forall n :: n in entries <==> n in names[..i]
        invariant forall n :: n in entries ==> GetVolumeInfo(dev.Root, store, n) == Ok(entries[n])
      {
        var info := GetVolumeInfo(dev.Root, store, names[i]);
        if info.Err? {
          return Err(info.error);
        }
        entries := entries[names[i] := info.value];
        assert names[..i + 1] == names[..i] + [names[i]];
        i := i + 1;
      }
      assert names[..i] == names;
      r := Ok(entries);
    }

    /** Snapshots are not supported. */
    function SnapshotOps(): (r: Result<()>)
      ensures r.Err? && r.error.Unsupported?
    {
      Err(Unsupported("Doesn't support snapshot operations"))
    }

    /** Backups are not supported. */
    function BackupOps(): (r: Result<()>)
      ensures r.Err? && r.error.Unsupported?
    {
      Err(Unsupported("Doesn't support backup operations"))
    }
  }

  /** The info of a driver built over a bootstrapped root reports the
      root, the registry list as given, and the default user and volume
      configuration from the options or their defaults. */
  lemma BootstrappedInfo(d: Driver, root: string, config: map<string, string>, net: Net)
    requires InitDevice(root, config, None, net).Ok?
    requires d.dev == InitDevice(root, config, None, net).value.dev
    ensures d.Info()["Root"] == root
    ensures d.Info()["Registries"] == config[QuobyteRegistries]
    ensures d.Info()["User"] == (if QuobyteDefaultUser in config then config[QuobyteDefaultUser] else "root")
    ensures d.Info()["VolumeConfig"] ==
            (if QuobyteDefaultVolumeConfig in config then config[QuobyteDefaultVolumeConfig] else "BASE")
  {
    BootstrapDefaults(root, config, net);
  }

  /** The device half of `Init`: take the stored configuration when the
      root has one, otherwise check the required options, validate the
      registries and fill the defaults into the option map. */
  method SetupDevice(root: string, config: map<string, string>, deviceRecord: Option<Device>, net: Net)
    returns (r: Result<Device>, filled: map<string, string>)
    ensures var setup := InitDevice(root, config, deviceRecord, net);
      && (setup.Err? ==> r == Err(setup.error) && filled == config)
      && (setup.Ok? ==> r == Ok(setup.value.dev) && filled == setup.value.config)
  {
    filled := config;
    var file := DeviceConfigFile(Device(root, "", "", "", ""));
    if file.Err? {
      return Err(file.error), filled;
    }
    if deviceRecord.Some? {
      return Ok(deviceRecord.value), filled;
    }
    var required := RequiredCheck(config);
    if required.Err? {
      return Err(required.error), filled;
    }
    var registryList := Lookup(config, QuobyteRegistries);
    var valid := ValidateRegistries(net, registryList);
    if valid.Err? {
      return Err(valid.error), filled;
    }
    if QuobyteApiUser !in filled {
      filled := filled[QuobyteApiUser := "admin"];
    }
    if QuobyteApiPassword !in filled {
      filled := filled[QuobyteApiPassword := "quobyte"];
    }
    if QuobyteDefaultUser !in filled {
      filled := filled[QuobyteDefaultUser := "root"];
    }
    if QuobyteDefaultGroup !in filled {
      filled := filled[QuobyteDefaultGroup := "nfsnobody"];
    }
    if QuobyteDefaultVolumeConfig !in filled {
      filled := filled[QuobyteDefaultVolumeConfig := "BASE"];
    }
    assert filled == FillDefaults(config);
    r := Ok(Device(root, registryList, filled[QuobyteDefaultUser], filled[QuobyteDefaultGroup],
                   filled[QuobyteDefaultVolumeConfig]));
  }

  /** `Init`: load the driver configuration if the root has one, otherwise
      validate the bootstrap options and fill their defaults (the option
      map is updated in place and returned as `filled`); build the driver
      and remount the volumes that were mounted. `disk` is the record store
      afterwards, which keeps the remounts made before a failure. */
  method Init(root: string, config: map<string, string>, deviceRecord: Option<Device>, store: Store,
              net: Net, remote: Remote, exec: Executor)
    returns (r: Result<Driver>, filled: map<string, string>, disk: Store, ghost listed: seq<string>)
    ensures var setup := InitDevice(root, config, deviceRecord, net);
      && (setup.Err? ==> r == Err(setup.error) && filled == config && disk == store)
      && (setup.Ok? ==>
            && filled == setup.value.config
            && Distinct(listed)
            && (forall n :: n in listed <==> n in VolumeNames(setup.value.dev.Root, store))
            && var s := Remount(setup.value.dev.Root, exec, store, listed);
               && disk == s.store
               && (s.result.Err? ==> r == Err(s.result.error))
               && (s.result.Ok? ==>
                     && r.Ok? && fresh(r.value)
                     && r.value.dev == setup.value.dev
                     && r.value.remote == remote && r.value.exec == exec
                     && r.value.client == ClientConfig(Lookup(filled, QuobyteApiUrl), Lookup(filled, QuobyteApiUser),
                                                       Lookup(filled, QuobyteApiPassword))
                     && r.value.store == disk && r.value.log == s.calls
                     && (StoreValid(setup.value.dev.Root, store) ==> r.value.Valid())))
  {
    disk, listed := store, [];
    ghost var setup := InitDevice(root, config, deviceRecord, net);
    var dev;
    dev, filled := SetupDevice(root, config, deviceRecord, net);
    if dev.Err? {
      return Err(dev.error), filled, disk, listed;
    }
    var client := ClientConfig(Lookup(filled, QuobyteApiUrl), Lookup(filled, QuobyteApiUser),
                               Lookup(filled, QuobyteApiPassword));
    var driver := new Driver(dev.value, client, remote, exec, store);
    var remounted;
    remounted, listed := driver.RemountVolumes();
    disk := driver.store;
    if remounted.Err? {
      return Err(remounted.error), filled, disk, listed;
    }
    r := Ok(driver);
  }
}
