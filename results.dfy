/** Error values of the Quobyte volume driver and the Result/Option wrappers
    that stand for Go's `(value, error)` returns. */
module Results {

  /** The errors the driver itself raises, plus `External` for whatever a
      capability (remote client, mount executor) reports; the driver hands
      capability errors back to its caller unchanged. */
  datatype Error =
    | EmptyVolume                       // QuobyteVolume.ConfigFile on an empty Name
    | EmptyConfigPath                   // QuobyteVolume.ConfigFile on an empty configPath
    | EmptyDevicePath                   // Device.ConfigFile on an empty Root
    | MissingParameter(detail: string)  // a required bootstrap option is empty or absent
    | InvalidAddress(detail: string)    // a registry entry failed host:port splitting or resolution
    | AlreadyExists(name: string)       // CreateVolume on a name that has a record
    | NotFound(name: string)            // loading a record that is not in the store
    | StillMounted(name: string)        // DeleteVolume on a mounted volume
    | Unsupported(what: string)         // snapshot and backup operations
    | External(cause: string)           // an error produced by a capability

  datatype Result<+T> = Ok(value: T) | Err(error: Error) {
    predicate IsFailure() { Err? }

    function PropagateFailure<U>(): Result<U>
      requires Err?
    {
      Err(error)
    }

    function Extract(): T
      requires Ok?
    {
      value
    }
  }

  datatype Option<+T> = None | Some(value: T)
}
