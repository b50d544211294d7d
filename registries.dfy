/** Validation of the comma-separated `quobyte.registries` bootstrap option. */
module Registries {
  import opened Results

  /** `strings.Split(s, sep)`: the pieces between separators, in order; an
      empty string gives one empty piece. */
  function Split(s: string, sep: char): (parts: seq<string>)
    ensures |parts| >= 1
    ensures forall i :: 0 <= i < |parts| ==> sep !in parts[i]
    ensures JoinWith(parts, sep) == s
    decreases |s|
  {
    if s == [] then [""]
    else
      var rest := Split(s[1..], sep);
      if s[0] == sep then [""] + rest
      else [[s[0]] + rest[0]] + rest[1..]
  }

  /** `strings.Join(parts, string(sep))`, the inverse of `Split`. */
  function JoinWith(parts: seq<string>, sep: char): string
    decreases |parts|
  {
    if parts == [] then ""
    else if |parts| == 1 then parts[0]
    else parts[0] + [sep] + JoinWith(parts[1..], sep)
  }

  /** Splitting a joined list of separator-free pieces gives the pieces back. */
  lemma {:induction false} SplitJoin(parts: seq<string>, sep: char)
    requires |parts| >= 1
    requires forall i :: 0 <= i < |parts| ==> sep !in parts[i]
    ensures Split(JoinWith(parts, sep), sep) == parts
    decreases |parts|, |parts[0]|
  {
    if |parts| == 1 {
      SplitNoSep(parts[0], sep);
    } else if parts[0] == "" {
      var tail := JoinWith(parts[1..], sep);
      assert JoinWith(parts, sep) == [sep] + tail;
      assert ([sep] + tail)[1..] == tail;
      SplitJoin(parts[1..], sep);
      assert [""] + parts[1..] == parts;
    } else {
      var s := JoinWith(parts, sep);
      var c := parts[0][0];
      var shorter := [parts[0][1..]] + parts[1..];
      assert shorter[1..] == parts[1..];
      assert JoinWith(shorter, sep) == parts[0][1..] + [sep] + JoinWith(parts[1..], sep);
      assert parts[0] == [c] + parts[0][1..];
      assert s == [c] + JoinWith(shorter, sep);
      assert s[1..] == JoinWith(shorter, sep);
      assert c != sep by { assert c == parts[0][0]; }
      assert forall i :: 0 <= i < |shorter| ==> sep !in shorter[i] by {
        forall i | 0 <= i < |shorter| ensures sep !in shorter[i] {
          if i == 0 { assert parts[0][1..] <= parts[0][1..]; assert forall x :: x in parts[0][1..] ==> x in parts[0]; }
          else { assert shorter[i] == parts[i]; }
        }
      }
      SplitJoin(shorter, sep);
      assert Split(s, sep) == [[c] + parts[0][1..]] + parts[1..];
    }
  }

  /** A piece without separators splits into itself. */
  lemma {:induction false} SplitNoSep(s: string, sep: char)
    requires sep !in s
    ensures Split(s, sep) == [s]
    decreases |s|
  {
    if s != [] {
      assert sep !in s[1..] by { assert forall x :: x in s[1..] ==> x in s; }
      SplitNoSep(s[1..], sep);
      assert [s[0]] + s[1..] == s;
    }
  }

  /** The two network helpers Init relies on: `net.SplitHostPort`, giving the
      host of a `host:port` string or None when it does not split, and
      `util.ValidNetworkAddr`, which resolves a host name. */
  datatype Net = Net(splitHostPort: string -> Option<string>, validNetworkAddr: string -> bool)

  /** A registry entry splits into host:port and its host is a valid address. */
  predicate RegistryOk(net: Net, registry: string)
  {
    net.splitHostPort(registry).Some? && net.validNetworkAddr(net.splitHostPort(registry).value)
  }

  /** The check of one registry entry: a split failure reports the entry, a
      resolution failure reports the host. */
  function RegistryCheck(net: Net, registry: string): (r: Result<()>)
    ensures r.Ok? <==> RegistryOk(net, registry)
    ensures r.Err? ==> r.error.InvalidAddress?
  {
    match net.splitHostPort(registry)
    case None => Err(InvalidAddress(registry))
    case Some(host) => if net.validNetworkAddr(host) then Ok(()) else Err(InvalidAddress(host))
  }

  /** The registries are checked in order and the first failing entry decides
      the error. */
  function CheckRegistries(net: Net, registries: seq<string>): (r: Result<()>)
    ensures r.Ok? <==> forall i :: 0 <= i < |registries| ==> RegistryOk(net, registries[i])
    ensures r.Err? ==> exists i :: 0 <= i < |registries| && r == RegistryCheck(net, registries[i])
                                   && forall j :: 0 <= j < i ==> RegistryOk(net, registries[j])
    decreases |registries|
  {
    if registries == [] then Ok(())
    else
      match RegistryCheck(net, registries[0])
      case Err(e) => Err(e)
      case Ok(_) =>
        var rest := CheckRegistries(net, registries[1..]);
        assert forall i :: 1 <= i < |registries| ==> registries[i] == registries[1..][i - 1];
        if rest.Err? then
          ghost var k :| 0 <= k < |registries[1..]| && rest == RegistryCheck(net, registries[1..][k])
                         && forall j :: 0 <= j < k ==> RegistryOk(net, registries[1..][j]);
          assert rest == RegistryCheck(net, registries[k + 1]);
          rest
        else rest
  }

  /** The registry loop of Init: every comma-separated entry must pass
      `RegistryCheck`; the first one that does not ends the loop. */
  method ValidateRegistries(net: Net, registryList: string) returns (r: Result<()>)
    ensures r == CheckRegistries(net, Split(registryList, ','))
    ensures r.Ok? <==> forall p :: p in Split(registryList, ',') ==> RegistryOk(net, p)
  {
    var parts := Split(registryList, ',');
    var i := 0;
    while i < |parts|
      invariant 0 <= i <= |parts|
      invariant CheckRegistries(net, parts) == CheckRegistries(net, parts[i..])
    {
      var check := RegistryCheck(net, parts[i]);
      if check.Err? {
        return check;
      }
      assert parts[i..][1..] == parts[i + 1..];
      i := i + 1;
    }
    r := Ok(());
  }
}
