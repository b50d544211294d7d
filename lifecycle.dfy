/** The volume life cycle of the Quobyte driver as pure step functions over
    the record store: for every operation, the result it returns, the store
    it leaves behind and the capability calls it makes. The `Driver` class
    in module QuobyteDriver is proved to behave exactly like these. */
module Lifecycle {
  import opened Results
  import opened Records

  /** The record store: record file path to the record persisted there. */
  type Store = map<string, QuobyteVolume>

  /** What `quobyte_api.QuobyteClient.CreateVolume` is sent. */
  datatype CreateVolumeRequest = CreateVolumeRequest(
    name: string, rootUserId: string, rootGroupId: string, configurationName: string)

  /** The remote Quobyte client: create answers with the new volume's uuid,
      delete takes the uuid. */
  datatype Remote = Remote(
    create: CreateVolumeRequest -> Result<string>,
    delete: string -> Result<()>)

  /** What `util.VolumeMount` sees of a volume: its device, the mount
      options, its default mount point, its current mount point, the
      requested mount point and the remount flag. */
  datatype MountRequest = MountRequest(
    device: string, options: seq<string>, defaultMountPoint: string,
    current: string, hint: string, remount: bool)

  /** A successful mount: `recorded` is the value the executor leaves in the
      record's MountPoint field, `path` the mount point it returns. */
  datatype Mounted = Mounted(recorded: string, path: string)

  /** What `util.VolumeUmount` sees of a volume. */
  datatype UmountRequest = UmountRequest(device: string, mountPoint: string)

  /** The mount executor. Both calls act on the MountPoint field only: mount
      answers with a `Mounted`, umount with the field's new value. */
  datatype Executor = Executor(
    mount: MountRequest -> Result<Mounted>,
    umount: UmountRequest -> Result<string>)

  /** One invocation of a capability, with the volume it was made for. */
  datatype Call =
    | CreateCall(request: CreateVolumeRequest)
    | DeleteCall(volume: string, id: string)
    | MountCall(volume: string, mount: MountRequest)
    | UmountCall(volume: string, umount: UmountRequest)

  /** The outcome of one operation: its result, the store afterwards and the
      capability calls it made, in order. */
  datatype Step<T> = Step(result: Result<T>, store: Store, calls: seq<Call>)

  /** `util.ObjectLoad` of a blank volume: the record file is named after
      the volume; the record read back keeps its directory, which JSON does
      not carry. */
  function Load(root: string, store: Store, name: string): (r: Result<QuobyteVolume>)
    ensures RecordKey(root, name).Err? ==> r == Err(RecordKey(root, name).error)
    ensures RecordKey(root, name).Ok? && RecordKey(root, name).value !in store ==> r == Err(NotFound(name))
    ensures r.Ok? ==> RecordKey(root, name).Ok? && RecordKey(root, name).value in store
                      && r.value == store[RecordKey(root, name).value].(configPath := root)
    ensures RecordKey(root, name).Ok? && RecordKey(root, name).value in store ==> r.Ok?
  {
    match RecordKey(root, name)
    case Err(e) => Err(e)
    case Ok(file) =>
      if file in store then Ok(store[file].(configPath := root)) else Err(NotFound(name))
  }

  /** Every record is stored in the file its own name gives under `root`. */
  ghost predicate StoreValid(root: string, store: Store)
  {
    forall file :: file in store ==> RecordKey(root, store[file].Name) == Ok(file)
  }

  /** The names `util.ListConfigIDs` reports for the volume records under `root`. */
  function VolumeNames(root: string, store: Store): (names: set<string>)
    ensures forall file :: file in store && ParseRecordFile(root, file).Some? ==>
              ParseRecordFile(root, file).value in names
    ensures forall n :: n in names ==> RecordFileHead(root) + n + CfgPostfix in store
  {
    set file | file in store && ParseRecordFile(root, file).Some? :: ParseRecordFile(root, file).value
  }

  /** What CreateVolume sends the remote client: the name with the
      driver's default user, group and volume configuration. */
  function CreateRequestFor(dev: Device, name: string): CreateVolumeRequest
  {
    CreateVolumeRequest(name, dev.User, dev.Group, dev.VolumeConfig)
  }

  /** The record CreateVolume saves for a freshly provisioned volume. */
  function NewRecord(dev: Device, name: string, uuid: string): (v: QuobyteVolume)
    ensures v.Name == name && v.ID == uuid && v.MountPoint == "" && v.configPath == dev.Root
    ensures v.User == dev.User && v.Group == dev.Group && v.Config == dev.VolumeConfig
    ensures v.Device == name
  {
    var blank := BlankVolume(dev.Root, name);
    blank.(ID := uuid, User := dev.User, Group := dev.Group, Config := dev.VolumeConfig,
           Device := blank.Name)
  }

  /** The mount executor's view of a loaded record and a requested mount point. */
  function MountRequestFor(vol: QuobyteVolume, hint: string): MountRequest
  {
    MountRequest(GetDevice(vol), MountOpts(vol), DefaultMountPoint(vol), vol.MountPoint, hint, false)
  }

  function UmountRequestFor(vol: QuobyteVolume): UmountRequest
  {
    UmountRequest(GetDevice(vol), vol.MountPoint)
  }

  /** CreateVolume. An existing record is an error and the remote client is
      not called; a failing remote create writes nothing; otherwise the new
      record is saved. */
  function Create(dev: Device, remote: Remote, store: Store, name: string): (s: Step<()>)
    ensures s.result.Err? ==> s.store == store
    ensures RecordKey(dev.Root, name).Err? ==> s == Step(Err(RecordKey(dev.Root, name).error), store, [])
    ensures RecordKey(dev.Root, name).Ok? && RecordKey(dev.Root, name).value in store ==>
            s == Step(Err(AlreadyExists(name)), store, [])
    ensures s.calls != [] <==> RecordKey(dev.Root, name).Ok? && RecordKey(dev.Root, name).value !in store
    ensures s.calls != [] ==> s.calls == [CreateCall(CreateRequestFor(dev, name))]
    ensures s.calls != [] && remote.create(CreateRequestFor(dev, name)).Err? ==>
            s.result == Err(remote.create(CreateRequestFor(dev, name)).error)
    ensures s.result.Ok? <==> s.calls != [] && remote.create(CreateRequestFor(dev, name)).Ok?
    ensures s.result.Ok? ==>
            s.store == store[RecordKey(dev.Root, name).value :=
                             NewRecord(dev, name, remote.create(CreateRequestFor(dev, name)).value)]
  {
    match RecordKey(dev.Root, name)
    case Err(e) => Step(Err(e), store, [])
    case Ok(file) =>
      if file in store then Step(Err(AlreadyExists(name)), store, [])
      else
        var request := CreateRequestFor(dev, name);
        match remote.create(request)
        case Err(e) => Step(Err(e), store, [CreateCall(request)])
        case Ok(uuid) => Step(Ok(()), store[file := NewRecord(dev, name, uuid)], [CreateCall(request)])
  }

  /** DeleteVolume. A missing or still mounted record is an error and
      nothing is called; a reference-only delete removes the record without
      calling the remote client; otherwise the remote volume is deleted
      first and its failure keeps the record. The record removed is the
      file the loaded record's own name gives. */
  function Delete(root: string, remote: Remote, store: Store, name: string, referenceOnly: bool): (s: Step<()>)
    ensures s.result.Err? ==> s.store == store
    ensures Load(root, store, name).Err? ==> s == Step(Err(Load(root, store, name).error), store, [])
    ensures Load(root, store, name).Ok? && Load(root, store, name).value.MountPoint != "" ==>
            s == Step(Err(StillMounted(name)), store, [])
    ensures referenceOnly ==> s.calls == []
    ensures !referenceOnly && Load(root, store, name).Ok? && Load(root, store, name).value.MountPoint == "" ==>
            var id := Load(root, store, name).value.ID;
            && s.calls == [DeleteCall(name, id)]
            && (remote.delete(id).Err? ==> s.result == Err(remote.delete(id).error))
    ensures Load(root, store, name).Ok? && Load(root, store, name).value.MountPoint == ""
            && (referenceOnly || remote.delete(Load(root, store, name).value.ID).Ok?) ==>
            var file := VolumeConfigFile(Load(root, store, name).value);
            && (file.Err? ==> s.result == Err(file.error))
            && (file.Ok? ==> s.result.Ok? && s.store == store - {file.value})
    ensures s.result.Ok? <==>
            && Load(root, store, name).Ok? && Load(root, store, name).value.MountPoint == ""
            && (referenceOnly || remote.delete(Load(root, store, name).value.ID).Ok?)
            && VolumeConfigFile(Load(root, store, name).value).Ok?
  {
    match Load(root, store, name)
    case Err(e) => Step(Err(e), store, [])
    case Ok(vol) =>
      if vol.MountPoint != "" then Step(Err(StillMounted(name)), store, [])
      else
        var calls := if referenceOnly then [] else [DeleteCall(name, vol.ID)];
        var reply := if referenceOnly then Ok(()) else remote.delete(vol.ID);
        if reply.Err? then Step(Err(reply.error), store, calls)
        else
          match VolumeConfigFile(vol)
          case Err(e) => Step(Err(e), store, calls)
          case Ok(file) => Step(Ok(()), store - {file}, calls)
  }

  /** MountVolume. A missing record is an error; a failing mount saves
      nothing; a successful one saves the record, with the MountPoint field
      the executor left and every other field as loaded, to the file its own
      name gives, and returns the executor's mount point. */
  function Mount(root: string, exec: Executor, store: Store, name: string, hint: string): (s: Step<string>)
    ensures s.result.Err? ==> s.store == store
    ensures Load(root, store, name).Err? ==> s == Step(Err(Load(root, store, name).error), store, [])
    ensures Load(root, store, name).Ok? ==>
            var vol := Load(root, store, name).value;
            var reply := exec.mount(MountRequestFor(vol, hint));
            && s.calls == [MountCall(name, MountRequestFor(vol, hint))]
            && (reply.Err? ==> s.result == Err(reply.error))
            && (reply.Ok? ==>
                  var saved := vol.(MountPoint := reply.value.recorded);
                  && (VolumeConfigFile(saved).Err? ==> s.result == Err(VolumeConfigFile(saved).error))
                  && (VolumeConfigFile(saved).Ok? ==>
                        s.result == Ok(reply.value.path) && s.store == store[VolumeConfigFile(saved).value := saved]))
  {
    match Load(root, store, name)
    case Err(e) => Step(Err(e), store, [])
    case Ok(vol) =>
      var request := MountRequestFor(vol, hint);
      match exec.mount(request)
      case Err(e) => Step(Err(e), store, [MountCall(name, request)])
      case Ok(m) =>
        var saved := vol.(MountPoint := m.recorded);
        match VolumeConfigFile(saved)
        case Err(e) => Step(Err(e), store, [MountCall(name, request)])
        case Ok(file) => Step(Ok(m.path), store[file := saved], [MountCall(name, request)])
  }

  /** UmountVolume. A missing record is an error; a failing unmount saves
      nothing; a successful one saves the record, with the MountPoint field
      the executor left, to the file its own name gives. */
  function Umount(root: string, exec: Executor, store: Store, name: string): (s: Step<()>)
    ensures s.result.Err? ==> s.store == store
    ensures Load(root, store, name).Err? ==> s == Step(Err(Load(root, store, name).error), store, [])
    ensures Load(root, store, name).Ok? ==>
            var vol := Load(root, store, name).value;
            var reply := exec.umount(UmountRequestFor(vol));
            && s.calls == [UmountCall(name, UmountRequestFor(vol))]
            && (reply.Err? ==> s.result == Err(reply.error))
            && (reply.Ok? ==>
                  var saved := vol.(MountPoint := reply.value);
                  && (VolumeConfigFile(saved).Err? ==> s.result == Err(VolumeConfigFile(saved).error))
                  && (VolumeConfigFile(saved).Ok? ==>
                        s.result.Ok? && s.store == store[VolumeConfigFile(saved).value := saved]))
  {
    match Load(root, store, name)
    case Err(e) => Step(Err(e), store, [])
    case Ok(vol) =>
      var request := UmountRequestFor(vol);
      match exec.umount(request)
      case Err(e) => Step(Err(e), store, [UmountCall(name, request)])
      case Ok(mountPoint) =>
        var saved := vol.(MountPoint := mountPoint);
        match VolumeConfigFile(saved)
        case Err(e) => Step(Err(e), store, [UmountCall(name, request)])
        case Ok(file) => Step(Ok(()), store[file := saved], [UmountCall(name, request)])
  }

  /** remountVolumes over the listed names, in order: a record with an empty
      mount point is skipped, every other one is mounted again with no
      requested mount point; the first load or mount failure ends the walk. */
  function Remount(root: string, exec: Executor, store: Store, names: seq<string>): (s: Step<()>)
    ensures forall i :: 0 <= i < |s.calls| ==> s.calls[i].MountCall? && s.calls[i].mount.hint == ""
    decreases |names|
  {
    if names == [] then Step(Ok(()), store, [])
    else
      match Load(root, store, names[0])
      case Err(e) => Step(Err(e), store, [])
      case Ok(vol) =>
        if vol.MountPoint == "" then Remount(root, exec, store, names[1..])
        else
          var m := Mount(root, exec, store, names[0], "");
          if m.result.Err? then Step(Err(m.result.error), m.store, m.calls)
          else
            var rest := Remount(root, exec, m.store, names[1..]);
            Step(rest.result, rest.store, m.calls + rest.calls)
  }

  /** MountPoint: the record's mount point. */
  function MountPointOf(root: string, store: Store, name: string): (r: Result<string>)
    ensures r.Ok? <==> Load(root, store, name).Ok?
    ensures r.Err? ==> r.error == Load(root, store, name).error
    ensures r.Ok? ==> r.value == Load(root, store, name).value.MountPoint
  {
    match Load(root, store, name)
    case Err(e) => Err(e)
    case Ok(vol) => Ok(vol.MountPoint)
  }

  /** The key GetVolumeInfo reports the name under (`OPT_VOLUME_NAME`). */
  const VolumeNameKey := "VolumeName"

  /** GetVolumeInfo: the record's mount point, its remote id and the name. */
  function GetVolumeInfo(root: string, store: Store, name: string): (r: Result<map<string, string>>)
    ensures r.Ok? <==> Load(root, store, name).Ok?
    ensures r.Err? ==> r.error == Load(root, store, name).error
    ensures r.Ok? ==> && r.value.Keys == {"MountPoint", "ID", VolumeNameKey}
                      && r.value["MountPoint"] == Load(root, store, name).value.MountPoint
                      && r.value["ID"] == Load(root, store, name).value.ID
                      && r.value[VolumeNameKey] == name
  {
    match Load(root, store, name)
    case Err(e) => Err(e)
    case Ok(vol) => Ok(map["MountPoint" := vol.MountPoint, "ID" := vol.ID, VolumeNameKey := name])
  }

  // ---------------------------------------------------------------------
  // Properties relating several operations.

  /** The listing and the loader agree: in a valid store every listed name
      loads, and every non-empty name that loads is listed. */
  lemma ListedNamesLoad(root: string, store: Store, name: string)
    requires StoreValid(root, store)
    ensures name in VolumeNames(root, store) ==> Load(root, store, name).Ok?
    ensures Load(root, store, name).Ok? ==> name in VolumeNames(root, store)
  {
    if name in VolumeNames(root, store) {
      var file :| file in store && ParseRecordFile(root, file) == Some(name);
      var stored := store[file].Name;
      assert RecordKey(root, stored) == Ok(file);
      ParseRecordKey(root, stored);
    }
    if Load(root, store, name).Ok? {
      ParseRecordKey(root, name);
      assert ParseRecordFile(root, RecordKey(root, name).value) == Some(name);
    }
  }

  /** In a valid store a loaded record, whatever its mount point, is saved
      back to the file it was loaded from. */
  lemma SavedWhereLoaded(root: string, store: Store, name: string, saved: QuobyteVolume)
    requires StoreValid(root, store) && Load(root, store, name).Ok?
    requires saved.Name == Load(root, store, name).value.Name && saved.configPath == root
    ensures VolumeConfigFile(saved) == RecordKey(root, name)
  {
    var file := RecordKey(root, name).value;
    assert RecordKey(root, store[file].Name) == Ok(file);
    VolumeConfigFileIsRecordKey(saved);
  }

  /** An operation on one volume leaves every other volume's record as it
      was: their record files differ. */
  lemma OtherVolumesUntouched(root: string, before: Store, after: Store, name: string, other: string)
    requires other != name
    requires RecordKey(root, name).Err? ==> after == before
    requires RecordKey(root, name).Ok? ==>
             forall file :: file != RecordKey(root, name).value ==>
               (file in after <==> file in before) && (file in before ==> after[file] == before[file])
    ensures Load(root, after, other) == Load(root, before, other)
  {
    if RecordKey(root, other).Ok? && RecordKey(root, name).Ok? {
      RecordKeyInjective(root, name, other);
    }
  }

  /** In a valid store, mounting one volume does not change how any other
      volume loads. */
  lemma MountFrame(root: string, exec: Executor, store: Store, name: string, hint: string, other: string)
    requires StoreValid(root, store)
    requires other != name
    ensures Load(root, Mount(root, exec, store, name, hint).store, other) == Load(root, store, other)
  {
    var s := Mount(root, exec, store, name, hint);
    if s.store != store {
      var vol := Load(root, store, name).value;
      var saved := vol.(MountPoint := exec.mount(MountRequestFor(vol, hint)).value.recorded);
      SavedWhereLoaded(root, store, name, saved);
      assert s.store == store[RecordKey(root, name).value := saved];
      OtherVolumesUntouched(root, store, s.store, name, other);
    }
  }

  /** Each operation keeps every record in the file its name gives. */
  lemma CreatePreservesValid(dev: Device, remote: Remote, store: Store, name: string)
    requires StoreValid(dev.Root, store)
    ensures StoreValid(dev.Root, Create(dev, remote, store, name).store)
  {
  }

  lemma DeletePreservesValid(root: string, remote: Remote, store: Store, name: string, referenceOnly: bool)
    requires StoreValid(root, store)
    ensures StoreValid(root, Delete(root, remote, store, name, referenceOnly).store)
  {
  }

  lemma MountPreservesValid(root: string, exec: Executor, store: Store, name: string, hint: string)
    requires StoreValid(root, store)
    ensures StoreValid(root, Mount(root, exec, store, name, hint).store)
  {
    if Mount(root, exec, store, name, hint).result.Ok? {
      var vol := Load(root, store, name).value;
      VolumeConfigFileIsRecordKey(vol.(MountPoint := exec.mount(MountRequestFor(vol, hint)).value.recorded));
    }
  }

  lemma UmountPreservesValid(root: string, exec: Executor, store: Store, name: string)
    requires StoreValid(root, store)
    ensures StoreValid(root, Umount(root, exec, store, name).store)
  {
    if Umount(root, exec, store, name).result.Ok? {
      var vol := Load(root, store, name).value;
      VolumeConfigFileIsRecordKey(vol.(MountPoint := exec.umount(UmountRequestFor(vol)).value));
    }
  }

  /** The volumes remountVolumes mounts again: the listed ones whose record
      loads and carries a non-empty mount point, in listing order. */
  function MountTargets(root: string, store: Store, names: seq<string>): seq<string>
    decreases |names|
  {
    if names == [] then []
    else
      var load := Load(root, store, names[0]);
      (if load.Ok? && load.value.MountPoint != "" then [names[0]] else [])
      + MountTargets(root, store, names[1..])
  }

  /** The volumes a sequence of calls mounted, in order. */
  function MountedVolumes(calls: seq<Call>): seq<string>
    decreases |calls|
  {
    if calls == [] then []
    else (if calls[0].MountCall? then [calls[0].volume] else []) + MountedVolumes(calls[1..])
  }

  lemma {:induction false} MountedVolumesAppend(a: seq<Call>, b: seq<Call>)
    ensures MountedVolumes(a + b) == MountedVolumes(a) + MountedVolumes(b)
    decreases |a|
  {
    if a != [] {
      assert (a + b)[1..] == a[1..] + b;
      assert (a + b)[0] == a[0];
      MountedVolumesAppend(a[1..], b);
      var head := if a[0].MountCall? then [a[0].volume] else [];
      assert MountedVolumes(a + b) == head + MountedVolumes(a[1..] + b);
      assert MountedVolumes(a) == head + MountedVolumes(a[1..]);
    } else {
      assert a + b == b;
    }
  }

  /** Mount targets of the remaining names do not depend on how earlier,
      different volumes were mounted. */
  lemma {:induction false} MountTargetsFrame(root: string, exec: Executor, store: Store, name: string,
                                             names: seq<string>)
    requires StoreValid(root, store)
    requires name !in names
    ensures MountTargets(root, Mount(root, exec, store, name, "").store, names) == MountTargets(root, store, names)
    decreases |names|
  {
    if names != [] {
      MountFrame(root, exec, store, name, "", names[0]);
      MountTargetsFrame(root, exec, store, name, names[1..]);
    }
  }

  predicate Distinct(names: seq<string>)
  {
    forall i, j :: 0 <= i < j < |names| ==> names[i] != names[j]
  }

  /** In a valid store, remountVolumes mounts again exactly the listed
      volumes that were mounted, in order, when it succeeds, and a prefix of
      them otherwise; it makes no other capability call. */
  lemma {:induction false} RemountMountsExactlyTheMounted(root: string, exec: Executor, store: Store,
                                                         names: seq<string>)
    requires StoreValid(root, store)
    requires Distinct(names)
    ensures var s := Remount(root, exec, store, names);
      && MountedVolumes(s.calls) <= MountTargets(root, store, names)
      && (s.result.Ok? ==> MountedVolumes(s.calls) == MountTargets(root, store, names))
      && |MountedVolumes(s.calls)| == |s.calls|
    decreases |names|
  {
    var s := Remount(root, exec, store, names);
    if names != [] {
      var n := names[0];
      assert Distinct(names[1..]);
      assert n !in names[1..] by {
        forall i | 0 <= i < |names[1..]| ensures names[1..][i] != n { assert names[1..][i] == names[i + 1]; }
      }
      var load := Load(root, store, n);
      if load.Ok? {
        if load.value.MountPoint == "" {
          RemountMountsExactlyTheMounted(root, exec, store, names[1..]);
        } else {
          var m := Mount(root, exec, store, n, "");
          assert MountedVolumes(m.calls) == [n];
          if m.result.Ok? {
            var rest := Remount(root, exec, m.store, names[1..]);
            assert s.calls == m.calls + rest.calls;
            MountPreservesValid(root, exec, store, n, "");
            RemountMountsExactlyTheMounted(root, exec, m.store, names[1..]);
            MountTargetsFrame(root, exec, store, n, names[1..]);
            MountedVolumesAppend(m.calls, rest.calls);
          }
        }
      }
    }
  }

  /** The failure remountVolumes meets at `name` when it reaches it with the
      store as it was: the record does not load, or it is mounted and
      mounting it again fails. */
  function RemountFailure(root: string, exec: Executor, store: Store, name: string): Option<Error>
  {
    var load := Load(root, store, name);
    if load.Err? then Some(load.error)
    else if load.value.MountPoint == "" then None
    else
      var m := Mount(root, exec, store, name, "");
      if m.result.Err? then Some(m.result.error) else None
  }

  /** In a valid store, mounting one volume does not change the failure met
      at any other. */
  lemma FailuresFrame(root: string, exec: Executor, store: Store, name: string, names: seq<string>)
    requires StoreValid(root, store)
    requires name !in names
    ensures forall i :: 0 <= i < |names| ==>
              RemountFailure(root, exec, Mount(root, exec, store, name, "").store, names[i])
              == RemountFailure(root, exec, store, names[i])
  {
    forall i | 0 <= i < |names|
      ensures RemountFailure(root, exec, Mount(root, exec, store, name, "").store, names[i])
              == RemountFailure(root, exec, store, names[i])
    {
      MountFrame(root, exec, store, name, "", names[i]);
    }
  }

  /** No listed volume meets a remount failure. */
  predicate NoFailure(root: string, exec: Executor, store: Store, names: seq<string>)
  {
    forall i :: 0 <= i < |names| ==> RemountFailure(root, exec, store, names[i]).None?
  }

  /** The walk meets its first failure, `e`, at `names[k]`, and the calls
      `calls` mounted exactly the targets up to and including `names[k]`. */
  predicate FirstFailureAt(root: string, exec: Executor, store: Store, names: seq<string>, k: int,
                           e: Error, calls: seq<Call>)
  {
    && 0 <= k < |names|
    && RemountFailure(root, exec, store, names[k]) == Some(e)
    && NoFailure(root, exec, store, names[..k])
    && MountedVolumes(calls) == MountTargets(root, store, names[..k + 1])
  }

  lemma NoFailureCons(root: string, exec: Executor, store: Store, names: seq<string>)
    requires names != []
    ensures NoFailure(root, exec, store, names) <==>
            RemountFailure(root, exec, store, names[0]).None? && NoFailure(root, exec, store, names[1..])
  {
    assert forall i :: 1 <= i < |names| ==> names[i] == names[1..][i - 1];
  }

  /** A failure-free first volume shifts the first failure of the rest by one. */
  lemma FirstFailureCons(root: string, exec: Executor, store: Store, names: seq<string>, k: int, e: Error,
                         headCalls: seq<Call>, calls: seq<Call>)
    requires names != []
    requires RemountFailure(root, exec, store, names[0]).None?
    requires MountedVolumes(headCalls) == MountTargets(root, store, [names[0]])
    requires FirstFailureAt(root, exec, store, names[1..], k, e, calls)
    ensures FirstFailureAt(root, exec, store, names, k + 1, e, headCalls + calls)
  {
    MountedVolumesAppend(headCalls, calls);
    MountTargetsCons(root, store, names, k + 2);
    assert names[..k + 1][1..] == names[1..][..k];
    NoFailureCons(root, exec, store, names[..k + 1]);
  }

  /** The targets of a prefix are those of its first volume followed by
      those of the rest of the prefix. */
  lemma MountTargetsCons(root: string, store: Store, names: seq<string>, n: int)
    requires 0 < n <= |names|
    ensures MountTargets(root, store, names[..n])
            == MountTargets(root, store, [names[0]]) + MountTargets(root, store, names[1..][..n - 1])
  {
    assert names[..n][1..] == names[1..][..n - 1];
    assert [names[0]][1..] == [];
  }

  /** In a valid store, the first failure of the walk after mounting a
      different volume is the first failure before it. */
  lemma FirstFailureFrame(root: string, exec: Executor, store: Store, name: string, names: seq<string>, k: int,
                          e: Error, calls: seq<Call>)
    requires StoreValid(root, store)
    requires name !in names
    requires FirstFailureAt(root, exec, Mount(root, exec, store, name, "").store, names, k, e, calls)
    ensures FirstFailureAt(root, exec, store, names, k, e, calls)
  {
    FailuresFrame(root, exec, store, name, names);
    assert forall i :: 0 <= i < k ==> names[..k][i] == names[i];
    MountTargetsFrame(root, exec, store, name, names[..k + 1]);
  }

  /** In a valid store, remountVolumes succeeds exactly when no listed
      volume fails to load or to mount again. */
  lemma {:induction false} RemountSucceedsIff(root: string, exec: Executor, store: Store, names: seq<string>)
    requires StoreValid(root, store)
    requires Distinct(names)
    ensures Remount(root, exec, store, names).result.Ok? <==> NoFailure(root, exec, store, names)
    decreases |names|
  {
    if names != [] {
      var n := names[0];
      var tail := names[1..];
      assert Distinct(tail);
      NoFailureCons(root, exec, store, names);
      var load := Load(root, store, n);
      if load.Ok? && load.value.MountPoint == "" {
        RemountSucceedsIff(root, exec, store, tail);
      } else if load.Ok? && Mount(root, exec, store, n, "").result.Ok? {
        assert n !in tail by {
          forall i | 0 <= i < |tail| ensures tail[i] != n { assert tail[i] == names[i + 1]; }
        }
        MountPreservesValid(root, exec, store, n, "");
        RemountSucceedsIff(root, exec, Mount(root, exec, store, n, "").store, tail);
        FailuresFrame(root, exec, store, n, tail);
      }
    }
  }

  /** A walk whose first volume fails stops there with that failure. */
  lemma FailsAtHead(root: string, exec: Executor, store: Store, names: seq<string>)
    requires names != [] && RemountFailure(root, exec, store, names[0]).Some?
    ensures var s := Remount(root, exec, store, names);
            s.result == Err(RemountFailure(root, exec, store, names[0]).value)
            && FirstFailureAt(root, exec, store, names, 0, s.result.error, s.calls)
  {
    var n := names[0];
    assert names[..1] == [n] && [n][1..] == [];
    assert NoFailure(root, exec, store, names[..0]);
    var load := Load(root, store, n);
    if load.Ok? {
      var m := Mount(root, exec, store, n, "");
      assert MountedVolumes(m.calls) == [n];
    }
  }

  /** In a valid store, a failing remountVolumes ends at its first failure,
      with that failure's error, having mounted only the targets up to and
      including that volume. */
  lemma {:induction false} RemountFailsAtFirstFailure(root: string, exec: Executor, store: Store,
                                                     names: seq<string>)
    requires StoreValid(root, store)
    requires Distinct(names)
    requires Remount(root, exec, store, names).result.Err?
    ensures var s := Remount(root, exec, store, names);
            exists k :: FirstFailureAt(root, exec, store, names, k, s.result.error, s.calls)
    decreases |names|
  {
    var s := Remount(root, exec, store, names);
    var n := names[0];
    var tail := names[1..];
    if RemountFailure(root, exec, store, n).Some? {
      FailsAtHead(root, exec, store, names);
    } else {
      assert Distinct(tail);
      assert [n][1..] == [];
      if Load(root, store, n).value.MountPoint == "" {
        RemountSkips(root, exec, store, names);
        RemountFailsAtFirstFailure(root, exec, store, tail);
        var k :| FirstFailureAt(root, exec, store, tail, k, s.result.error, s.calls);
        assert [] + s.calls == s.calls;
        FirstFailureCons(root, exec, store, names, k, s.result.error, [], s.calls);
      } else {
        assert n !in tail by {
          forall i | 0 <= i < |tail| ensures tail[i] != n { assert tail[i] == names[i + 1]; }
        }
        RemountMounts(root, exec, store, names);
        var m := Mount(root, exec, store, n, "");
        assert MountedVolumes(m.calls) == [n];
        var rest := Remount(root, exec, m.store, tail);
        MountPreservesValid(root, exec, store, n, "");
        RemountFailsAtFirstFailure(root, exec, m.store, tail);
        var k :| FirstFailureAt(root, exec, m.store, tail, k, rest.result.error, rest.calls);
        FirstFailureFrame(root, exec, store, n, tail, k, rest.result.error, rest.calls);
        FirstFailureCons(root, exec, store, names, k, rest.result.error, m.calls, rest.calls);
      }
    }
  }

  /** The two halves together: the walk stops at the first failure. */
  lemma RemountStopsAtFirstFailure(root: string, exec: Executor, store: Store, names: seq<string>)
    requires StoreValid(root, store)
    requires Distinct(names)
    ensures var s := Remount(root, exec, store, names);
      && (s.result.Ok? <==> forall i :: 0 <= i < |names| ==> RemountFailure(root, exec, store, names[i]).None?)
      && (s.result.Err? ==>
            exists k :: 0 <= k < |names|
                        && RemountFailure(root, exec, store, names[k]) == Some(s.result.error)
                        && (forall j :: 0 <= j < k ==> RemountFailure(root, exec, store, names[j]).None?)
                        && MountedVolumes(s.calls) == MountTargets(root, store, names[..k + 1]))
  {
    var s := Remount(root, exec, store, names);
    RemountSucceedsIff(root, exec, store, names);
    if s.result.Err? {
      RemountFailsAtFirstFailure(root, exec, store, names);
      var k :| FirstFailureAt(root, exec, store, names, k, s.result.error, s.calls);
      assert forall j :: 0 <= j < k ==> names[..k][j] == names[j];
    }
  }

  // The remount walk one step at a time, for the loop that performs it.

  /** The remount walk stops at a record that does not load. */
  lemma RemountLoadFails(root: string, exec: Executor, store: Store, names: seq<string>)
    requires names != [] && Load(root, store, names[0]).Err?
    ensures Remount(root, exec, store, names) == Step(Err(Load(root, store, names[0]).error), store, [])
  {
  }

  /** The remount walk passes over a record that is not mounted. */
  lemma RemountSkips(root: string, exec: Executor, store: Store, names: seq<string>)
    requires names != [] && Load(root, store, names[0]).Ok?
    requires Load(root, store, names[0]).value.MountPoint == ""
    ensures Remount(root, exec, store, names) == Remount(root, exec, store, names[1..])
  {
  }

  /** The remount walk mounts a mounted record again, and stops if that fails. */
  lemma RemountMounts(root: string, exec: Executor, store: Store, names: seq<string>)
    requires names != [] && Load(root, store, names[0]).Ok?
    requires Load(root, store, names[0]).value.MountPoint != ""
    ensures var m := Mount(root, exec, store, names[0], "");
            var here := Remount(root, exec, store, names);
      && (m.result.Err? ==> here == Step(Err(m.result.error), m.store, m.calls))
      && (m.result.Ok? ==>
            var rest := Remount(root, exec, m.store, names[1..]);
            here == Step(rest.result, rest.store, m.calls + rest.calls))
  {
  }

  /** The remainder `rest` of a walk, after calls `done`, ends as `full` does. */
  predicate Resumes(full: Step<()>, done: seq<Call>, rest: Step<()>)
  {
    full.result == rest.result && full.store == rest.store && full.calls == done + rest.calls
  }

  /** A walk resumed at a record that does not load ends there. */
  lemma ResumeLoadFails(root: string, exec: Executor, store: Store, names: seq<string>, i: int,
                        full: Step<()>, done: seq<Call>)
    requires 0 <= i < |names| && Load(root, store, names[i]).Err?
    requires Resumes(full, done, Remount(root, exec, store, names[i..]))
    ensures full == Step(Err(Load(root, store, names[i]).error), store, done)
  {
    RemountLoadFails(root, exec, store, names[i..]);
    assert done + [] == done;
  }

  /** A walk resumed at an unmounted record goes on with the next name. */
  lemma ResumeSkip(root: string, exec: Executor, store: Store, names: seq<string>, i: int,
                   full: Step<()>, done: seq<Call>)
    requires 0 <= i < |names| && Load(root, store, names[i]).Ok?
    requires Load(root, store, names[i]).value.MountPoint == ""
    requires Resumes(full, done, Remount(root, exec, store, names[i..]))
    ensures Resumes(full, done, Remount(root, exec, store, names[i + 1..]))
  {
    RemountSkips(root, exec, store, names[i..]);
    assert names[i..][1..] == names[i + 1..];
  }

  /** A walk resumed at a mounted record mounts it again, and ends if that
      fails. */
  lemma ResumeMount(root: string, exec: Executor, store: Store, names: seq<string>, i: int,
                    full: Step<()>, done: seq<Call>)
    requires 0 <= i < |names| && Load(root, store, names[i]).Ok?
    requires Load(root, store, names[i]).value.MountPoint != ""
    requires Resumes(full, done, Remount(root, exec, store, names[i..]))
    ensures var m := Mount(root, exec, store, names[i], "");
      && (m.result.Err? ==> full == Step(Err(m.result.error), m.store, done + m.calls))
      && (m.result.Ok? ==> Resumes(full, done + m.calls, Remount(root, exec, m.store, names[i + 1..])))
  {
    RemountMounts(root, exec, store, names[i..]);
    assert names[i..][1..] == names[i + 1..];
    var m := Mount(root, exec, store, names[i], "");
    if m.result.Ok? {
      var rest := Remount(root, exec, m.store, names[i + 1..]);
      assert done + (m.calls + rest.calls) == (done + m.calls) + rest.calls;
    }
  }

  /** remountVolumes keeps each record in the file its name gives. */
  lemma {:induction false} RemountPreservesValid(root: string, exec: Executor, store: Store, names: seq<string>)
    requires StoreValid(root, store)
    ensures StoreValid(root, Remount(root, exec, store, names).store)
    decreases |names|
  {
    if names != [] {
      var load := Load(root, store, names[0]);
      if load.Ok? && load.value.MountPoint != "" {
        MountPreservesValid(root, exec, store, names[0], "");
        RemountPreservesValid(root, exec, Mount(root, exec, store, names[0], "").store, names[1..]);
      } else if load.Ok? {
        RemountPreservesValid(root, exec, store, names[1..]);
      }
    }
  }

  /** In a valid store, a successful mount leaves the volume's record as it
      was loaded, with the MountPoint the executor left. */
  lemma MountSavesRecord(root: string, exec: Executor, store: Store, name: string, hint: string)
    requires StoreValid(root, store)
    requires Mount(root, exec, store, name, hint).result.Ok?
    ensures Load(root, store, name).Ok?
    ensures var vol := Load(root, store, name).value;
            var reply := exec.mount(MountRequestFor(vol, hint));
            && reply.Ok?
            && Load(root, Mount(root, exec, store, name, hint).store, name) == Ok(vol.(MountPoint := reply.value.recorded))
  {
    var vol := Load(root, store, name).value;
    SavedWhereLoaded(root, store, name, vol.(MountPoint := exec.mount(MountRequestFor(vol, hint)).value.recorded));
  }

  /** Every remount target is one of the listed names. */
  lemma {:induction false} MountTargetsListed(root: string, store: Store, names: seq<string>, n: string)
    requires n in MountTargets(root, store, names)
    ensures n in names
    decreases |names|
  {
    if n != names[0] {
      MountTargetsListed(root, store, names[1..], n);
    }
  }

  /** In a valid store, the walk leaves every volume it did not mount again
      loading as it did before. */
  lemma {:induction false} RemountUntouched(root: string, exec: Executor, store: Store, names: seq<string>,
                                            n: string)
    requires StoreValid(root, store)
    requires n !in MountedVolumes(Remount(root, exec, store, names).calls)
    ensures Load(root, Remount(root, exec, store, names).store, n) == Load(root, store, n)
    decreases |names|
  {
    if names != [] {
      var load := Load(root, store, names[0]);
      if load.Ok? && load.value.MountPoint == "" {
        RemountUntouched(root, exec, store, names[1..], n);
      } else if load.Ok? {
        var m := Mount(root, exec, store, names[0], "");
        assert MountedVolumes(m.calls) == [names[0]];
        if m.result.Ok? {
          var rest := Remount(root, exec, m.store, names[1..]);
          MountedVolumesAppend(m.calls, rest.calls);
          MountPreservesValid(root, exec, store, names[0], "");
          RemountUntouched(root, exec, m.store, names[1..], n);
        }
        MountFrame(root, exec, store, names[0], "", n);
      }
    }
  }

  /** In a valid store over distinct names, a successful walk leaves every
      volume that was mounted with its record as loaded, carrying the
      MountPoint the executor left when it was mounted again. */
  lemma {:induction false} RemountSaves(root: string, exec: Executor, store: Store, names: seq<string>,
                                        n: string)
    requires StoreValid(root, store)
    requires Distinct(names)
    requires Remount(root, exec, store, names).result.Ok?
    requires n in MountTargets(root, store, names)
    ensures Load(root, store, n).Ok?
    ensures var vol := Load(root, store, n).value;
            var reply := exec.mount(MountRequestFor(vol, ""));
            && reply.Ok?
            && Load(root, Remount(root, exec, store, names).store, n) == Ok(vol.(MountPoint := reply.value.recorded))
    decreases |names|
  {
    var n0 := names[0];
    var tail := names[1..];
    assert Distinct(tail);
    var load := Load(root, store, n0);
    if load.value.MountPoint == "" {
      RemountSaves(root, exec, store, tail, n);
    } else {
      assert n0 !in tail by {
        forall i | 0 <= i < |tail| ensures tail[i] != n0 { assert tail[i] == names[i + 1]; }
      }
      var m := Mount(root, exec, store, n0, "");
      var rest := Remount(root, exec, m.store, tail);
      MountPreservesValid(root, exec, store, n0, "");
      if n == n0 {
        MountSavesRecord(root, exec, store, n0, "");
        RemountMountsExactlyTheMounted(root, exec, m.store, tail);
        if n0 in MountedVolumes(rest.calls) {
          var i :| 0 <= i < |MountedVolumes(rest.calls)| && MountedVolumes(rest.calls)[i] == n0;
          assert MountTargets(root, m.store, tail)[i] == n0;
          MountTargetsListed(root, m.store, tail, n0);
        }
        RemountUntouched(root, exec, m.store, tail, n0);
      } else {
        MountTargetsFrame(root, exec, store, n0, tail);
        MountFrame(root, exec, store, n0, "", n);
        RemountSaves(root, exec, m.store, tail, n);
      }
    }
  }

  /** A created volume reports an empty mount point and the uuid the remote
      client gave it. */
  lemma CreateThenInfo(dev: Device, remote: Remote, store: Store, name: string)
    requires Create(dev, remote, store, name).result.Ok?
    ensures var uuid := remote.create(CreateRequestFor(dev, name)).value;
            GetVolumeInfo(dev.Root, Create(dev, remote, store, name).store, name)
            == Ok(map["MountPoint" := "", "ID" := uuid, VolumeNameKey := name])
  {
  }

  /** A created volume is mounted from a device named after it, with the
      Quobyte file-system type, its default mount point under the root and
      no current mount point. */
  lemma CreatedVolumeMountRequest(dev: Device, remote: Remote, exec: Executor, store: Store, name: string,
                                  hint: string)
    requires Create(dev, remote, store, name).result.Ok?
    ensures Mount(dev.Root, exec, Create(dev, remote, store, name).store, name, hint).calls
            == [MountCall(name, MountRequest(name, ["-t", "quobyte"], dev.Root + "/mounts/" + name, "", hint, false))]
  {
  }

  /** Creating the same volume twice: the second call is rejected without a
      remote call and changes nothing. */
  lemma CreateTwice(dev: Device, remote: Remote, store: Store, name: string)
    requires Create(dev, remote, store, name).result.Ok?
    ensures var first := Create(dev, remote, store, name);
            Create(dev, remote, first.store, name) == Step(Err(AlreadyExists(name)), first.store, [])
  {
  }

  /** In a valid store, after a successful mount the volume reports the
      mount point the executor left in its record; after a successful
      unmount likewise. */
  lemma MountThenMountPoint(root: string, exec: Executor, store: Store, name: string, hint: string)
    requires StoreValid(root, store)
    requires Mount(root, exec, store, name, hint).result.Ok?
    ensures var vol := Load(root, store, name).value;
            MountPointOf(root, Mount(root, exec, store, name, hint).store, name)
            == Ok(exec.mount(MountRequestFor(vol, hint)).value.recorded)
  {
    var vol := Load(root, store, name).value;
    SavedWhereLoaded(root, store, name, vol.(MountPoint := exec.mount(MountRequestFor(vol, hint)).value.recorded));
  }

  lemma UmountThenMountPoint(root: string, exec: Executor, store: Store, name: string)
    requires StoreValid(root, store)
    requires Umount(root, exec, store, name).result.Ok?
    ensures var vol := Load(root, store, name).value;
            MountPointOf(root, Umount(root, exec, store, name).store, name)
            == Ok(exec.umount(UmountRequestFor(vol)).value)
  {
    var vol := Load(root, store, name).value;
    SavedWhereLoaded(root, store, name, vol.(MountPoint := exec.umount(UmountRequestFor(vol)).value));
  }

  /** A mounted volume cannot be deleted, reference-only or not, and the
      remote volume is not touched. */
  lemma DeleteMountedRejected(root: string, remote: Remote, store: Store, name: string, referenceOnly: bool)
    requires Load(root, store, name).Ok? && Load(root, store, name).value.MountPoint != ""
    ensures Delete(root, remote, store, name, referenceOnly) == Step(Err(StillMounted(name)), store, [])
  {
  }

  /** After a successful delete the volume is gone: loading it again finds
      no record. */
  lemma DeleteThenGone(root: string, remote: Remote, store: Store, name: string, referenceOnly: bool)
    requires StoreValid(root, store)
    requires Delete(root, remote, store, name, referenceOnly).result.Ok?
    ensures Load(root, Delete(root, remote, store, name, referenceOnly).store, name) == Err(NotFound(name))
  {
    var vol := Load(root, store, name).value;
    SavedWhereLoaded(root, store, name, vol);
  }

  /** An example: on an empty store, creating "vol1" with
      the defaults sends root/nfsnobody/BASE to the remote client and saves
      a record with the returned id and no mount point; mounting it hands
      device "vol1" to the executor. */
  lemma CreateMountScenario(root: string, remote: Remote, exec: Executor)
    requires root != ""
    requires remote.create(CreateVolumeRequest("vol1", "root", "nfsnobody", "BASE")) == Ok("abc-123")
    ensures var dev := Device(root, "quobyte-1:7861", "root", "nfsnobody", "BASE");
            var created := Create(dev, remote, map[], "vol1");
            var mounted := Mount(root, exec, created.store, "vol1", "");
      && created.result.Ok?
      && created.calls == [CreateCall(CreateVolumeRequest("vol1", "root", "nfsnobody", "BASE"))]
      && Load(root, created.store, "vol1").value.ID == "abc-123"
      && Load(root, created.store, "vol1").value.MountPoint == ""
      && Load(root, created.store, "vol1").value.Device == "vol1"
      && mounted.calls[0].mount.device == "vol1"
      && mounted.calls[0].mount.options == ["-t", "quobyte"]
  {
  }
}
