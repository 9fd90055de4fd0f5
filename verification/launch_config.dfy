/**
 * Launch configurations for running a Docker image
 * (`LaunchConfigurationUtils`): the serialised form of port bindings,
 * the attributes a new configuration is given, and the lookup of the
 * most recent configuration for an image. The launch manager is outside
 * the model: the configurations it holds are a sequence, the clock's
 * formatted date and the outcome of saving are parameters.
 */
module LaunchConfig {
  import opened JavaLang

  /** A host binding of a container port; the host IP may be missing. */
  datatype PortBinding = PortBinding(hostIp: Option<string>, hostPort: string)

  /** One map entry: a container port such as `8080/tcp` and its host bindings, in the map's iteration order. */
  datatype BindingEntry = BindingEntry(containerPort: string, bindings: seq<PortBinding>)

  // ---------------------------------------------------------------------
  // serializePortBindings

  /** `<containerPort>:<hostIP>:<hostPort>`, with an empty host IP when there is none. */
  function SerializeBinding(containerPort: string, b: PortBinding): (s: string)
    ensures |s| == |containerPort| + |b.hostIp.GetOr("")| + |b.hostPort| + 2
  {
    containerPort + ":" + b.hostIp.GetOr("") + ":" + b.hostPort
  }

  /** The bindings of one entry, each paired with the entry's container port. */
  function Pairs(e: BindingEntry): (r: seq<(string, PortBinding)>)
    ensures |r| == |e.bindings|
    ensures forall k :: 0 <= k < |r| ==> r[k] == (e.containerPort, e.bindings[k])
  {
    seq(|e.bindings|, k requires 0 <= k < |e.bindings| => (e.containerPort, e.bindings[k]))
  }

  /** Every binding of every entry, in iteration order. */
  function Flatten(entries: seq<BindingEntry>): seq<(string, PortBinding)>
  {
    if |entries| == 0 then [] else Pairs(entries[0]) + Flatten(entries[1..])
  }

  /** The number of bindings over all entries. */
  function TotalBindings(entries: seq<BindingEntry>): nat
  {
    if |entries| == 0 then 0 else |entries[0].bindings| + TotalBindings(entries[1..])
  }

  /** The serialised form of each paired binding. */
  function Render(ps: seq<(string, PortBinding)>): (r: seq<string>)
    ensures |r| == |ps|
    ensures forall k :: 0 <= k < |r| ==> r[k] == SerializeBinding(ps[k].0, ps[k].1)
  {
    seq(|ps|, k requires 0 <= k < |ps| => SerializeBinding(ps[k].0, ps[k].1))
  }

  /**
   * `serializePortBindings`: nothing for a null map; otherwise one string
   * per binding, entry after entry.
   */
  method SerializePortBindings(bindings: Option<seq<BindingEntry>>) returns (r: seq<string>)
    ensures bindings.None? ==> r == []
    ensures bindings.Some? ==> |r| == TotalBindings(bindings.value)
    ensures bindings.Some? ==> r == Render(Flatten(bindings.value))
  {
    r := [];
    if bindings.None? {
      return;
    }
    var entries := bindings.value;
    var i := 0;
    while i < |entries|
      invariant 0 <= i <= |entries|
      invariant r == Render(Flatten(entries[..i]))
    {
      var entry := entries[i];
      var j := 0;
      var before := r;
      while j < |entry.bindings|
        invariant 0 <= j <= |entry.bindings|
        invariant r == before + Render(Pairs(entry)[..j])
      {
        assert Render(Pairs(entry)[..j + 1]) == Render(Pairs(entry)[..j]) + [SerializeBinding(entry.containerPort, entry.bindings[j])];
        r := r + [SerializeBinding(entry.containerPort, entry.bindings[j])];
        j := j + 1;
      }
      assert Pairs(entry)[..j] == Pairs(entry);
      FlattenSnoc(entries, i);
      RenderAppend(Flatten(entries[..i]), Pairs(entry));
      i := i + 1;
    }
    assert entries[..i] == entries;
    FlattenLength(entries);
  }

  lemma FlattenSnoc(entries: seq<BindingEntry>, i: int)
    requires 0 <= i < |entries|
    ensures Flatten(entries[..i + 1]) == Flatten(entries[..i]) + Pairs(entries[i])
  {
    FlattenAppend(entries[..i], [entries[i]]);
    assert entries[..i + 1] == entries[..i] + [entries[i]];
    assert Flatten([entries[i]]) == Pairs(entries[i]) + Flatten([]);
  }

  lemma RenderAppend(a: seq<(string, PortBinding)>, b: seq<(string, PortBinding)>)
    ensures Render(a + b) == Render(a) + Render(b)
  {
  }

  lemma {:induction false} FlattenAppend(a: seq<BindingEntry>, b: seq<BindingEntry>)
    ensures Flatten(a + b) == Flatten(a) + Flatten(b)
    decreases |a|
  {
    if |a| > 0 {
      assert (a + b)[0] == a[0];
      assert (a + b)[1..] == a[1..] + b;
      FlattenAppend(a[1..], b);
    } else {
      assert a + b == b;
    }
  }

  lemma {:induction false} FlattenLength(entries: seq<BindingEntry>)
    ensures |Flatten(entries)| == TotalBindings(entries)
    decreases |entries|
  {
    if |entries| > 0 {
      FlattenLength(entries[1..]);
    }
  }

  /**
   * The two separators make a serialised binding readable back: when
   * neither part holds a colon, the colon-separated fields are the
   * container port, the host IP (empty for none) and the host port.
   */
  lemma SerializedBindingFields(containerPort: string, b: PortBinding)
    requires ':' !in containerPort && ':' !in b.hostIp.GetOr("") && ':' !in b.hostPort
    ensures Fields(SerializeBinding(containerPort, b), ':') == [containerPort, b.hostIp.GetOr(""), b.hostPort]
  {
    var parts := [containerPort, b.hostIp.GetOr(""), b.hostPort];
    assert Join(parts[1..], [':']) == b.hostIp.GetOr("") + ":" + b.hostPort by {
      assert parts[1..][1..] == [b.hostPort];
    }
    assert Join(parts, [':']) == SerializeBinding(containerPort, b);
    FieldsOfJoin(parts, ':');
  }

  // ---------------------------------------------------------------------
  // createLaunchConfiguration

  /** The attributes of a saved run configuration. */
  datatype RunConfiguration = RunConfiguration(
    nameCandidate: string,
    creationDate: string,
    imageName: string,
    containerName: string,
    command: seq<string>,
    entrypoint: seq<string>,
    publishAllPorts: bool,
    publishedPorts: seq<string>,
    links: seq<string>,
    env: seq<string>,
    volumesFrom: seq<string>,
    binds: seq<string>,
    autoRemove: bool)

  /** The settings of the created container that the configuration records. */
  datatype ContainerSettings = ContainerSettings(
    command: seq<string>,
    entrypoint: seq<string>,
    publishAllPorts: bool,
    portBindings: Option<seq<BindingEntry>>,
    links: seq<string>,
    env: seq<string>,
    volumesFrom: seq<string>,
    binds: seq<string>)

  /** The outcome of `createLaunchConfiguration`. */
  datatype Creation =
    | Saved(config: RunConfiguration)
    | NotSaved            // a `CoreException`, logged; the result is null
    | NoRepoTag           // `repoTags().get(0)` on an image without tags

  /** The name handed to the launch manager, which may make it unique: `<container> [<first repo tag>]`. */
  function NameCandidate(containerName: string, repoTag: string): (n: string)
    ensures StartsWith(n, containerName + " [") && EndsWith(n, "]")
    ensures |n| == |containerName| + |repoTag| + 3 && n[|containerName| + 2..|n| - 1] == repoTag
  {
    var n := containerName + " [" + repoTag + "]";
    assert n[|containerName| + 2..|n| - 1] == repoTag;
    assert n[..|containerName + " ["|] == containerName + " [";
    assert n[|n| - 1..] == "]";
    n
  }

  /**
   * `createLaunchConfiguration`: the configuration names the image by its
   * first repo tag and records the container's settings, with the port
   * bindings serialised. `date` is the clock's formatted time and `saves`
   * whether the launch manager accepts the configuration.
   */
  method CreateLaunchConfiguration(repoTags: seq<string>, settings: ContainerSettings, containerName: string,
                                   removeWhenExits: bool, date: string, saves: bool) returns (r: Creation)
    ensures |repoTags| == 0 <==> r == NoRepoTag
    ensures |repoTags| > 0 && !saves ==> r == NotSaved
    ensures |repoTags| > 0 && saves ==> r.Saved?
    ensures r.Saved? ==> (saves && |repoTags| > 0
              && r.config.imageName == repoTags[0]
              && r.config.nameCandidate == NameCandidate(containerName, repoTags[0])
              && r.config.containerName == containerName && r.config.creationDate == date
              && r.config.autoRemove == removeWhenExits && r.config.publishAllPorts == settings.publishAllPorts
              && r.config.env == settings.env && r.config.binds == settings.binds
              && r.config.volumesFrom == settings.volumesFrom && r.config.links == settings.links
              && r.config.command == settings.command && r.config.entrypoint == settings.entrypoint
              && (settings.portBindings.None? ==> r.config.publishedPorts == [])
              && (settings.portBindings.Some? ==> |r.config.publishedPorts| == TotalBindings(settings.portBindings.value))
              && (settings.portBindings.Some? ==> r.config.publishedPorts == Render(Flatten(settings.portBindings.value))))
  {
    if |repoTags| == 0 {
      return NoRepoTag;
    }
    var ports := SerializePortBindings(settings.portBindings);
    if !saves {
      return NotSaved;
    }
    var config := RunConfiguration(NameCandidate(containerName, repoTags[0]), date, repoTags[0], containerName,
                                   settings.command, settings.entrypoint, settings.publishAllPorts, ports,
                                   settings.links, settings.env, settings.volumesFrom, settings.binds, removeWhenExits);
    return Saved(config);
  }

  // ---------------------------------------------------------------------
  // getLaunchConfigurationByImageName

  /** A stored configuration as the lookup reads it: the image-name and creation-date attributes, when set. */
  datatype StoredConfiguration = StoredConfiguration(name: string, imageName: Option<string>, creationDate: Option<string>)

  /** `getAttribute(IMAGE_NAME, "")`. */
  function ImageNameOf(c: StoredConfiguration): string
  {
    c.imageName.GetOr("")
  }

  /** `getAttribute(CREATION_DATE, "")`. */
  function DateOf(c: StoredConfiguration): string
  {
    c.creationDate.GetOr("")
  }

  /**
   * `getLaunchConfigurationByImageName`: among the configurations of the
   * image, the one with the greatest creation date, the first of equal
   * ones; a configuration without a date is never chosen, and null (with
   * `at == -1`) means no configuration of the image has one.
   */
  method GetLaunchConfigurationByImageName(configs: seq<StoredConfiguration>, imageName: string)
    returns (r: Option<StoredConfiguration>, at: int)
    ensures at == -1 || 0 <= at < |configs|
    ensures r == (if at == -1 then None else Some(configs[at]))
    ensures at == -1 <==> forall j :: 0 <= j < |configs| && ImageNameOf(configs[j]) == imageName ==> DateOf(configs[j]) == ""
    ensures at != -1 ==> 0 <= at < |configs| && ImageNameOf(configs[at]) == imageName && DateOf(configs[at]) != ""
    ensures at != -1 ==> forall j :: 0 <= j < |configs| && ImageNameOf(configs[j]) == imageName ==>
              CompareTo(DateOf(configs[j]), DateOf(configs[at])) <= 0
    ensures at != -1 ==> forall j :: 0 <= j < at && ImageNameOf(configs[j]) == imageName ==>
              CompareTo(DateOf(configs[j]), DateOf(configs[at])) < 0
  {
    at := -1;
    var lastDate := "";
    var i := 0;
    while i < |configs|
      invariant 0 <= i <= |configs|
      invariant at == -1 ==> lastDate == ""
      invariant at != -1 ==> 0 <= at < i && ImageNameOf(configs[at]) == imageName && lastDate == DateOf(configs[at]) && lastDate != ""
      invariant forall j :: 0 <= j < i && ImageNameOf(configs[j]) == imageName ==> CompareTo(DateOf(configs[j]), lastDate) <= 0
      invariant at != -1 ==> forall j :: 0 <= j < at && ImageNameOf(configs[j]) == imageName ==>
                  CompareTo(DateOf(configs[j]), lastDate) < 0
    {
      var date := DateOf(configs[i]);
      if ImageNameOf(configs[i]) == imageName && CompareTo(date, lastDate) > 0 {
        forall j | 0 <= j < i && ImageNameOf(configs[j]) == imageName
          ensures CompareTo(DateOf(configs[j]), date) < 0
        {
          CompareToAntisymmetric(date, lastDate);
          if DateOf(configs[j]) != lastDate {
            CompareToTransitive(DateOf(configs[j]), lastDate, date);
          }
        }
        at := i;
        lastDate := date;
      } else if ImageNameOf(configs[i]) == imageName {
        CompareToAntisymmetric(date, lastDate);
      }
      i := i + 1;
    }
    r := if at == -1 then None else Some(configs[at]);
    forall j | 0 <= j < |configs| && ImageNameOf(configs[j]) == imageName && at == -1
      ensures DateOf(configs[j]) == ""
    {
      CompareToEmptyLast(DateOf(configs[j]));
    }
  }
}
