/**
 * The data behind the resources, volumes and variables page of the
 * run-image wizard (`ImageRunResourceVolumesVariablesModel`): the
 * resource limits, the data volumes the selected image declares, and the
 * environment variables given as `name=value` strings. The Docker daemon
 * is reduced to the total memory it reports and the volume paths each
 * image declares; the UUIDs of new volumes are a parameter.
 */
module RunResources {
  import opened JavaLang
  import Seqs
  import DataVolume

  /** CPU share weights. */
  const LOW: int := 512
  const MEDIUM: int := 1024
  const HIGH: int := 2048

  /** The memory limit, in megabytes, a new model starts with. */
  const DEFAULT_MEMORY_LIMIT: int := 512

  /** Bytes in a megabyte, the unit of the memory limit. */
  const MB: int := 1048576

  /** An image the wizard may select; images are compared as values. */
  datatype Image = Image(id: string)

  datatype EnvironmentVariable = EnvironmentVariable(name: string, value: string)

  datatype Model = Model(
    enableResourceLimitations: bool,
    memoryLimit: int,                      // megabytes, a Java `int`
    cpuShareWeight: int,
    totalMemory: int,                      // bytes, as the daemon's info reports them
    selectedImage: Option<Image>,
    dataVolumes: seq<DataVolume.Volume>,
    environmentVariables: seq<EnvironmentVariable>)

  /** The constructor: limits off, 512 MB of memory, the medium CPU weight, nothing selected. */
  function NewModel(totalMemory: int, selectedImage: Option<Image>): (m: Model)
    ensures !m.enableResourceLimitations && m.memoryLimit == DEFAULT_MEMORY_LIMIT && m.cpuShareWeight == MEDIUM
    ensures m.dataVolumes == [] && m.environmentVariables == [] && m.selectedImage == selectedImage
    ensures m.totalMemory == totalMemory
  {
    Model(false, DEFAULT_MEMORY_LIMIT, MEDIUM, totalMemory, selectedImage, [], [])
  }

  /** `getTotalMemory`: the daemon's memory in whole megabytes, narrowed to an `int`. */
  function GetTotalMemory(m: Model): (r: int)
    requires IsLong(m.totalMemory)
    ensures IsInt(r)
    ensures 0 <= m.totalMemory && m.totalMemory / MB <= INT_MAX ==> r == m.totalMemory / MB
  {
    ToInt(JavaDiv(m.totalMemory, MB))
  }

  /** `getMemory` as written: `memoryLimit * 1048576` is an `int` product, wrapped to 32 bits before it is widened. */
  function GetMemoryAsWritten(m: Model): (r: int)
    requires IsInt(m.memoryLimit)
    ensures IsInt(r)
  {
    ToInt(m.memoryLimit * MB)
  }

  /** `getMemory` as intended: the memory limit in bytes, as a `long`. */
  function GetMemory(m: Model): (r: int)
    requires IsInt(m.memoryLimit)
    ensures IsLong(r) && r == m.memoryLimit * MB
  {
    m.memoryLimit * MB
  }

  /** The limit in bytes read back in megabytes is the limit, for any non-negative limit. */
  lemma MemoryRoundTrip(m: Model)
    requires 0 <= m.memoryLimit <= INT_MAX
    ensures GetTotalMemory(m.(totalMemory := GetMemory(m))) == m.memoryLimit
  {
    var bytes := GetMemory(m);
    assert JavaDiv(bytes, MB) == bytes / MB;
    assert bytes / MB == m.memoryLimit;
  }

  /** Below 2048 MB the product fits in an `int`, and the code as written agrees with the intent. */
  lemma SmallLimitAgrees(m: Model)
    requires INT_MIN / MB <= m.memoryLimit < 2048
    ensures GetMemoryAsWritten(m) == GetMemory(m)
  {
  }

  /** The defect: 2048 MB becomes -2^31 bytes and 4096 MB becomes 0 bytes. */
  lemma LargeLimitWraps(m: Model)
    requires m.memoryLimit == 2048 || m.memoryLimit == 4096
    ensures m.memoryLimit == 2048 ==> GetMemoryAsWritten(m) == INT_MIN && GetMemory(m) == 0x8000_0000
    ensures m.memoryLimit == 4096 ==> GetMemoryAsWritten(m) == 0 && GetMemory(m) == 0x1_0000_0000
  {
  }

  /** A `name=value` entry is kept when `split("=")` gives exactly two fields. */
  predicate HasTwoFields(entry: string)
  {
    |Split(entry, '=')| == 2
  }

  function ToVariable(entry: string): EnvironmentVariable
    requires HasTwoFields(entry)
  {
    var items := Split(entry, '=');
    EnvironmentVariable(items[0], items[1])
  }

  /** The variables an entry list defines: the kept entries, in order, each read as its two fields. */
  function Variables(entries: seq<string>): (r: seq<EnvironmentVariable>)
    ensures |r| == |Seqs.Filter(entries, HasTwoFields)|
  {
    var kept := Seqs.Filter(entries, HasTwoFields);
    seq(|kept|, k requires 0 <= k < |kept| => ToVariable(kept[k]))
  }

  /**
   * `setEnvironmentVariables`: the list is replaced by the variables of
   * the entries that split into exactly two fields, in order; a null list
   * leaves it empty.
   */
  method SetEnvironmentVariables(m: Model, entries: Option<seq<string>>) returns (r: Model)
    ensures r == m.(environmentVariables := if entries.None? then [] else Variables(entries.value))
  {
    var vars: seq<EnvironmentVariable> := [];
    if entries.Some? {
      vars := ReadVariables(entries.value);
    }
    return m.(environmentVariables := vars);
  }

  /** The loop of `setEnvironmentVariables`: each entry that splits into two fields adds a variable. */
  method ReadVariables(list: seq<string>) returns (vars: seq<EnvironmentVariable>)
    ensures vars == Variables(list)
  {
    vars := [];
    var i := 0;
    while i < |list|
      invariant 0 <= i <= |list|
      invariant vars == Variables(list[..i])
    {
      var items := Split(list[i], '=');
      VariablesStep(list, i);
      if |items| == 2 {
        vars := vars + [EnvironmentVariable(items[0], items[1])];
      }
      i := i + 1;
    }
    assert list[..i] == list;
  }

  lemma VariablesStep(list: seq<string>, i: int)
    requires 0 <= i < |list|
    ensures var items := Split(list[i], '=');
            Variables(list[..i + 1]) == Variables(list[..i]) + (if |items| == 2 then [EnvironmentVariable(items[0], items[1])] else [])
  {
    VariablesSnoc(list[..i], list[i]);
    assert list[..i + 1] == list[..i] + [list[i]];
  }

  lemma VariablesSnoc(entries: seq<string>, entry: string)
    ensures Variables(entries + [entry]) == Variables(entries) + (if HasTwoFields(entry) then [ToVariable(entry)] else [])
  {
    Seqs.FilterAppend(entries, [entry], HasTwoFields);
    assert Seqs.Filter([entry], HasTwoFields) == (if HasTwoFields(entry) then [entry] else []);
  }

  /**
   * An entry written as `name=value` with neither part holding `=` and a
   * non-empty value is read back as that variable.
   */
  lemma VariableRoundTrip(name: string, value: string)
    requires '=' !in name && '=' !in value && value != ""
    ensures HasTwoFields(name + "=" + value)
    ensures ToVariable(name + "=" + value) == EnvironmentVariable(name, value)
  {
    assert Join([name, value], "=") == name + "=" + value;
    SplitOfJoin([name, value], '=');
  }

  /** `split` drops the trailing empty field, so `name=value=` still defines `name`=`value`. */
  lemma TrailingSeparatorKept(name: string, value: string)
    requires '=' !in name && '=' !in value && value != ""
    ensures HasTwoFields(name + "=" + value + "=") && ToVariable(name + "=" + value + "=") == EnvironmentVariable(name, value)
  {
    var parts := [name, value, ""];
    var s := name + "=" + value + "=";
    assert Join(parts, "=") == s by {
      assert Join(parts[1..], "=") == value + "=";
    }
    FieldsOfJoin(parts, '=');
    assert s[|name|] == '=';
    assert DropTrailingEmpty(parts) == parts[..2];
  }

  /** An empty value leaves one field, so `name=` is dropped. */
  lemma EmptyValueDropped(name: string)
    requires '=' !in name
    ensures !HasTwoFields(name + "=")
  {
    var one := [name, ""];
    assert Join(one, "=") == name + "=";
    FieldsOfJoin(one, '=');
    assert (name + "=")[|name|] == '=';
    assert DropTrailingEmpty(one) == DropTrailingEmpty([name]);
  }

  /** A second separator inside the value makes three fields, so `name=a=b` is dropped. */
  lemma SecondSeparatorDropped(name: string, a: string, b: string)
    requires '=' !in name && '=' !in a && '=' !in b && b != ""
    ensures !HasTwoFields(name + "=" + a + "=" + b)
  {
    var three := [name, a, b];
    assert Join(three, "=") == name + "=" + a + "=" + b by {
      assert Join(three[1..], "=") == a + "=" + b;
    }
    SplitOfJoin(three, '=');
  }

  /** `setDataVolumes`: the list becomes exactly the given volumes; null empties it. */
  function SetDataVolumes(m: Model, volumes: Option<seq<DataVolume.Volume>>): (r: Model)
    ensures r.dataVolumes == (if volumes.Some? then volumes.value else [])
    ensures r.(dataVolumes := m.dataVolumes) == m
  {
    m.(dataVolumes := if volumes.Some? then volumes.value else [])
  }

  predicate AnyMatch<T>(s: seq<T>, matches: T -> bool)
  {
    exists k :: 0 <= k < |s| && matches(s[k])
  }

  /** The index of the first element satisfying `matches`. */
  function FirstMatch<T>(s: seq<T>, matches: T -> bool): (i: nat)
    requires AnyMatch(s, matches)
    ensures i < |s| && matches(s[i]) && forall k :: 0 <= k < i ==> !matches(s[k])
    decreases |s|
  {
    if matches(s[0]) then 0
    else
      assert AnyMatch(s[1..], matches) by {
        var k :| 0 <= k < |s| && matches(s[k]);
        assert s[1..][k - 1] == s[k];
      }
      1 + FirstMatch(s[1..], matches)
  }

  /** `List.remove(Object)`: drops the first element that `equals` the given one, if there is one. */
  function RemoveFirst<T>(s: seq<T>, matches: T -> bool): (r: seq<T>)
    ensures !AnyMatch(s, matches) ==> r == s
    ensures AnyMatch(s, matches) ==>
              |r| == |s| - 1 && multiset(r) == multiset(s) - multiset{s[FirstMatch(s, matches)]}
  {
    if AnyMatch(s, matches) then
      var i := FirstMatch(s, matches);
      assert s == s[..i] + [s[i]] + s[i + 1..];
      s[..i] + s[i + 1..]
    else s
  }

  /** `removeDataVolume`: the first volume with the same identity goes, and only it. */
  function RemoveDataVolume(m: Model, volume: DataVolume.Volume): (r: Model)
    ensures r.(dataVolumes := m.dataVolumes) == m
    ensures var matches := (w: DataVolume.Volume) => DataVolume.Equals(w, volume);
            (!AnyMatch(m.dataVolumes, matches) ==> r == m)
            && (AnyMatch(m.dataVolumes, matches) ==>
                  |r.dataVolumes| == |m.dataVolumes| - 1
                  && multiset(r.dataVolumes) == multiset(m.dataVolumes) - multiset{m.dataVolumes[FirstMatch(m.dataVolumes, matches)]})
    ensures AnyMatch(m.dataVolumes, (w: DataVolume.Volume) => DataVolume.Equals(w, volume)) ==>
              exists i :: 0 <= i < |m.dataVolumes| && DataVolume.Equals(m.dataVolumes[i], volume)
                          && (forall j :: 0 <= j < i ==> !DataVolume.Equals(m.dataVolumes[j], volume))
                          && r.dataVolumes == m.dataVolumes[..i] + m.dataVolumes[i + 1..]
  {
    var s := m.dataVolumes;
    var matches := (w: DataVolume.Volume) => DataVolume.Equals(w, volume);
    if AnyMatch(s, matches) then
      var i := FirstMatch(s, matches);
      assert RemoveFirst(s, matches) == s[..i] + s[i + 1..];
      m.(dataVolumes := RemoveFirst(s, matches))
    else m.(dataVolumes := RemoveFirst(s, matches))
  }

  lemma FirstOccurrence<T>(s: seq<T>, x: T, i: nat)
    requires i <= |s| && forall k :: 0 <= k < i ==> s[k] != x
    ensures x !in s[..i]
  {
  }

  /** `removeEnvironmentVariable`: one occurrence of the variable goes, and nothing else. */
  function RemoveEnvironmentVariable(m: Model, variable: EnvironmentVariable): (r: Model)
    ensures r.(environmentVariables := m.environmentVariables) == m
    ensures variable !in m.environmentVariables ==> r == m
    ensures variable in m.environmentVariables ==> (|r.environmentVariables| == |m.environmentVariables| - 1
              && multiset(r.environmentVariables) == multiset(m.environmentVariables) - multiset{variable})
    ensures variable in m.environmentVariables ==>
              exists i :: 0 <= i < |m.environmentVariables| && m.environmentVariables[i] == variable
                          && variable !in m.environmentVariables[..i]
                          && r.environmentVariables == m.environmentVariables[..i] + m.environmentVariables[i + 1..]
  {
    var s := m.environmentVariables;
    var matches := (e: EnvironmentVariable) => e == variable;
    if variable in s then
      assert AnyMatch(s, matches) by {
        var k :| 0 <= k < |s| && s[k] == variable;
        assert matches(s[k]);
      }
      var i := FirstMatch(s, matches);
      FirstOccurrence(s, variable, i);
      assert RemoveFirst(s, matches) == s[..i] + s[i + 1..];
      m.(environmentVariables := RemoveFirst(s, matches))
    else
      assert !AnyMatch(s, matches);
      m.(environmentVariables := RemoveFirst(s, matches))
  }

  /**
   * The outcome of `setSelectedImage`: the model, or the
   * `NullPointerException` of a null image or volume list, thrown after
   * the new image was stored, so the model it leaves behind is kept.
   */
  datatype Selected = Selected(model: Model) | NullPointer(partial: Model)

  /**
   * `setSelectedImage`: selecting the image already selected changes
   * nothing; otherwise the image is selected and the volume list becomes
   * one unmounted volume per path the image declares, in order.
   * `declaredVolumes` is the daemon's answer for an image id (null when
   * the image declares none); `newId(k)` is the UUID of the k-th new
   * volume.
   */
  function SetSelectedImage(m: Model, image: Option<Image>, declaredVolumes: string -> Option<seq<string>>,
                            newId: nat -> string): (r: Selected)
    ensures m.selectedImage.Some? && m.selectedImage == image ==> r == Selected(m)
    ensures image.None? ==> r.NullPointer?
    ensures r.NullPointer? ==> r.partial == m.(selectedImage := image)
    ensures r.Selected? && m.selectedImage != image ==> (
              image.Some? && declaredVolumes(image.value.id).Some? &&
              var paths := declaredVolumes(image.value.id).value;
              r.model.selectedImage == image && |r.model.dataVolumes| == |paths|
              && (forall k :: 0 <= k < |paths| ==> r.model.dataVolumes[k] == DataVolume.OfContainerPath(newId(k), paths[k]))
              && r.model.(selectedImage := m.selectedImage, dataVolumes := m.dataVolumes) == m)
  {
    if m.selectedImage.Some? && m.selectedImage == image then Selected(m)
    else if image.None? then NullPointer(m.(selectedImage := image))
    else match declaredVolumes(image.value.id)
      case None => NullPointer(m.(selectedImage := image))
      case Some(paths) =>
        var volumes := seq(|paths|, k requires 0 <= k < |paths| => DataVolume.OfContainerPath(newId(k), paths[k]));
        Selected(SetDataVolumes(m.(selectedImage := image), Some(volumes)))
  }

  /** Selecting the same image a second time keeps the volumes the first selection produced, edits included. */
  lemma SelectTwiceKeepsVolumes(m: Model, image: Image, declaredVolumes: string -> Option<seq<string>>,
                                newId: nat -> string, edited: seq<DataVolume.Volume>)
    requires SetSelectedImage(m, Some(image), declaredVolumes, newId).Selected?
    ensures var m1 := SetSelectedImage(m, Some(image), declaredVolumes, newId).model.(dataVolumes := edited);
            SetSelectedImage(m1, Some(image), declaredVolumes, newId) == Selected(m1)
  {
  }

  /** Every volume an image declares starts out unmounted, at its declared path. */
  lemma SelectedVolumesUnmounted(m: Model, image: Image, declaredVolumes: string -> Option<seq<string>>,
                                 newId: nat -> string)
    requires m.selectedImage != Some(image) && declaredVolumes(image.id).Some?
    ensures var r := SetSelectedImage(m, Some(image), declaredVolumes, newId);
            r.Selected? && forall k :: 0 <= k < |r.model.dataVolumes| ==>
              (r.model.dataVolumes[k].mountType == Some(DataVolume.NoMount)
               && r.model.dataVolumes[k].containerPath == Some(declaredVolumes(image.id).value[k]))
  {
  }
}
