/**
 * A data volume of the run-image wizard (`DataVolumeModel`): the path
 * inside the container, how it is mounted (not at all, from a host
 * directory, or from another container), the mount the wizard shows and
 * the per-type mounts it remembers. Every instance carries a random UUID,
 * which alone decides equality; the UUID is a parameter of each
 * constructor here, since randomness is outside the model.
 */
module DataVolume {
  import opened JavaLang

  /** `MountType`: NONE, HOST_FILE_SYSTEM and CONTAINER. */
  datatype MountType = NoMount | HostFileSystem | Container

  /** The instance's fields; a null reference is `None`. */
  datatype Volume = Volume(
    id: string,
    containerPath: Option<string>,
    mountType: Option<MountType>,
    mount: Option<string>,
    hostPathMount: Option<string>,
    containerMount: Option<string>,
    readOnly: bool)

  /** The no-argument constructor: every field unset. */
  function Blank(id: string): (v: Volume)
    ensures v.id == id && v.containerPath.None? && v.mountType.None? && v.mount.None? && !v.readOnly
    ensures v.hostPathMount.None? && v.containerMount.None?
  {
    Volume(id, None, None, None, None, None, false)
  }

  /** The constructor for a volume the image declares: the path, not mounted, the mount left unset. */
  function OfContainerPath(id: string, containerPath: string): (v: Volume)
    ensures v.containerPath == Some(containerPath) && v.mountType == Some(NoMount) && v.mount.None?
    ensures v.hostPathMount.None? && v.containerMount.None? && !v.readOnly && v.id == id
  {
    Volume(id, Some(containerPath), Some(NoMount), None, None, None, false)
  }

  /** The constructor for a host directory: the host path is both the host mount and the shown mount. */
  function OfHostPath(id: string, containerPath: string, hostPath: string, readOnly: bool): (v: Volume)
    ensures v.containerPath == Some(containerPath) && v.mountType == Some(HostFileSystem)
    ensures v.mount == v.hostPathMount == Some(hostPath) && v.readOnly == readOnly && v.id == id
  {
    Volume(id, Some(containerPath), Some(HostFileSystem), Some(hostPath), Some(hostPath), None, readOnly)
  }

  /**
   * The copy constructor: a new identity, the same path and type (an
   * unset type becomes NONE); the source's shown mount goes to the
   * per-type mount of its type, and the shown mount itself stays unset.
   */
  function CopyOf(id: string, source: Volume): (v: Volume)
    ensures v.id == id && v.containerPath == source.containerPath && v.mount.None?
    ensures v.mountType == Some(source.mountType.GetOr(NoMount))
    ensures v.containerMount == (if source.mountType == Some(Container) then source.mount else None)
    ensures v.hostPathMount == (if source.mountType == Some(HostFileSystem) then source.mount else None)
    ensures v.readOnly == (source.mountType == Some(HostFileSystem) && source.readOnly)
  {
    var base := Volume(id, source.containerPath, source.mountType, None, None, None, false);
    match source.mountType
    case None => base.(mountType := Some(NoMount))
    case Some(Container) => base.(containerMount := source.mount)
    case Some(HostFileSystem) => base.(hostPathMount := source.mount, readOnly := source.readOnly)
    case Some(NoMount) => base
  }

  /**
   * `hostVolumeFromString`: `host:container:mode` split at colons must
   * give exactly three fields; the volume is read-only when the mode
   * contains `ro`. Anything else is logged and gives null.
   */
  function HostVolumeFromString(id: string, hostVolume: string): (r: Option<Volume>)
    ensures var items := Split(hostVolume, ':');
            (r.Some? <==> |items| == 3)
            && (r.Some? ==> r.value == OfHostPath(id, items[1], items[0], Contains(items[2], "ro")))
  {
    var items := Split(hostVolume, ':');
    if |items| == 3 then Some(OfHostPath(id, items[1], items[0], IndexOf(items[2], "ro") != -1))
    else None
  }

  /**
   * Reading back what `host:container:mode` wrote: with no colon in any
   * part and a non-empty mode, the parts come back, and the volume is
   * read-only exactly when the mode contains `ro`.
   */
  lemma HostVolumeRoundTrip(id: string, hostPath: string, containerPath: string, mode: string)
    requires ':' !in hostPath && ':' !in containerPath && ':' !in mode && mode != ""
    ensures HostVolumeFromString(id, hostPath + ":" + containerPath + ":" + mode)
            == Some(OfHostPath(id, containerPath, hostPath, Contains(mode, "ro")))
  {
    var parts := [hostPath, containerPath, mode];
    assert Join(parts, ":") == hostPath + ":" + containerPath + ":" + mode by {
      assert Join(parts[1..], ":") == containerPath + ":" + mode;
    }
    SplitOfJoin(parts, ':');
  }

  /** Colon-separated fields, the last one not empty: the string is accepted exactly when there are three. */
  lemma HostVolumeNeedsThreeFields(id: string, parts: seq<string>)
    requires |parts| >= 1 && parts[|parts| - 1] != ""
    requires forall k :: 0 <= k < |parts| ==> ':' !in parts[k]
    ensures HostVolumeFromString(id, Join(parts, ":")).Some? <==> |parts| == 3
  {
    SplitOfJoin(parts, ':');
  }

  /** An empty mode is dropped by `split` with the trailing empty field, so `host:container:` is rejected. */
  lemma EmptyModeRejected(id: string, hostPath: string, containerPath: string)
    requires ':' !in hostPath && ':' !in containerPath && containerPath != ""
    ensures HostVolumeFromString(id, hostPath + ":" + containerPath + ":").None?
  {
    var parts := [hostPath, containerPath, ""];
    var s := hostPath + ":" + containerPath + ":";
    assert Join(parts, ":") == s by {
      assert Join(parts[1..], ":") == containerPath + ":";
    }
    FieldsOfJoin(parts, ':');
    assert s[|hostPath|] == ':';
    assert DropTrailingEmpty(parts) == parts[..2];
  }

  /**
   * `setMountType`: a null type is ignored; otherwise the type is set, and
   * choosing NONE also clears the shown mount to the empty string.
   */
  function SetMountType(v: Volume, mountType: Option<MountType>): (w: Volume)
    ensures mountType.None? ==> w == v
    ensures mountType.Some? ==> w.mountType == mountType
    ensures mountType == Some(NoMount) ==> w == v.(mountType := mountType, mount := Some(""))
    ensures mountType.Some? && mountType != Some(NoMount) ==> w == v.(mountType := mountType)
  {
    if mountType.None? then v
    else
      var w := v.(mountType := mountType);
      if mountType.value == NoMount then w.(mount := Some("")) else w
  }

  /** `setHostPathMount`: remembered always, shown only while the volume is mounted from the host. */
  function SetHostPathMount(v: Volume, hostPathMount: Option<string>): (w: Volume)
    ensures w.hostPathMount == hostPathMount
    ensures w.mount == (if v.mountType == Some(HostFileSystem) then hostPathMount else v.mount)
    ensures w.(hostPathMount := v.hostPathMount, mount := v.mount) == v
  {
    var w := v.(hostPathMount := hostPathMount);
    if w.mountType == Some(HostFileSystem) then w.(mount := hostPathMount) else w
  }

  /** `setContainerMount`: remembered always, shown only while the volume is mounted from a container. */
  function SetContainerMount(v: Volume, containerMount: Option<string>): (w: Volume)
    ensures w.containerMount == containerMount
    ensures w.mount == (if v.mountType == Some(Container) then containerMount else v.mount)
    ensures w.(containerMount := v.containerMount, mount := v.mount) == v
  {
    var w := v.(containerMount := containerMount);
    if w.mountType == Some(Container) then w.(mount := containerMount) else w
  }

  /**
   * The shown mount follows the type that is chosen: after choosing NONE
   * it is empty whatever is remembered afterwards, and after choosing a
   * type the matching setter shows its value while the other only
   * remembers it.
   */
  lemma MountFollowsType(v: Volume, t: MountType, hostPath: string, containerRef: string)
    ensures var w := SetContainerMount(SetHostPathMount(SetMountType(v, Some(t)), Some(hostPath)), Some(containerRef));
            w.hostPathMount == Some(hostPath) && w.containerMount == Some(containerRef)
            && w.mount == (match t
                           case NoMount => Some("")
                           case HostFileSystem => Some(hostPath)
                           case Container => Some(containerRef))
  {
  }

  /** A null mount type is ignored however often it arrives, and setting a type twice is setting it once. */
  lemma SetMountTypeIdempotent(v: Volume, t: Option<MountType>)
    ensures SetMountType(v, None) == v
    ensures SetMountType(SetMountType(v, t), t) == SetMountType(v, t)
  {
  }

  /** A copy keeps the remembered mount of its type: copying a host volume and re-choosing its type restores the shown mount. */
  lemma CopyRestoresHostMount(id: string, source: Volume)
    requires source.mountType == Some(HostFileSystem)
    ensures var c := CopyOf(id, source);
            SetHostPathMount(c, c.hostPathMount).mount == source.mount
            && c.readOnly == source.readOnly && c.containerPath == source.containerPath
  {
  }

  /** The outcome of `compareTo`: the order, or the `NullPointerException` of a null container path. */
  function CompareTo(a: Volume, b: Volume): (r: Option<int>)
    ensures r.Some? <==> a.containerPath.Some? && b.containerPath.Some?
    ensures r.Some? ==> (r.value == 0 <==> a.containerPath == b.containerPath)
  {
    if a.containerPath.None? || b.containerPath.None? then None
    else Some(JavaLang.CompareTo(a.containerPath.value, b.containerPath.value))
  }

  /** Volumes are ordered by container path alone: the order is antisymmetric and transitive. */
  lemma CompareToIsOrder(a: Volume, b: Volume, c: Volume)
    requires a.containerPath.Some? && b.containerPath.Some? && c.containerPath.Some?
    ensures CompareTo(a, b).value == -CompareTo(b, a).value
    ensures CompareTo(a, b).value < 0 && CompareTo(b, c).value < 0 ==> CompareTo(a, c).value < 0
  {
    JavaLang.CompareToAntisymmetric(a.containerPath.value, b.containerPath.value);
    if CompareTo(a, b).value < 0 && CompareTo(b, c).value < 0 {
      JavaLang.CompareToTransitive(a.containerPath.value, b.containerPath.value, c.containerPath.value);
    }
  }

  /** `equals`: the same UUID. */
  predicate Equals(a: Volume, b: Volume)
  {
    a.id == b.id
  }

  /**
   * Equality ignores every field but the identity: a copy under a new UUID
   * is never equal to its source, and an instance stays equal to itself
   * whatever its fields become.
   */
  lemma EqualityIsIdentity(id: string, v: Volume, t: Option<MountType>, hostPath: Option<string>)
    requires id != v.id
    ensures !Equals(CopyOf(id, v), v)
    ensures Equals(SetHostPathMount(SetMountType(v, t), hostPath), v)
    ensures CompareTo(CopyOf(id, v), v) == (if v.containerPath.Some? then Some(0) else None)
  {
  }
}
