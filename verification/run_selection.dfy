/**
 * The first page of the run-image wizard (`ImageRunSelectionPage`): how
 * the exposed ports of the selected image's configuration become rows of
 * the port table, the `:latest` tag a searched image gets, the image
 * validator, and the port controls that follow "publish all ports".
 * The image's configuration is an input: fetching it from the daemon is
 * outside the model.
 */
module RunSelection {
  import opened JavaLang
  import opened WizardSupport

  /** `ExposedPortModel`: the container port, its type (`/tcp`, slash included), the host address and port. */
  datatype ExposedPort = ExposedPort(containerPort: string, portType: string, hostAddress: string, hostPort: string)

  /** What the image inspection yields: exposed ports as `port/protocol`, command and entrypoint, each possibly null. */
  datatype ImageConfig = ImageConfig(
    exposedPorts: Option<seq<string>>,
    cmd: Option<seq<string>>,
    entrypoint: Option<seq<string>>)

  /** The parts of the page model the page fills from the selected image. */
  datatype RunModel = RunModel(
    selectedImageName: string,
    exposedPorts: seq<ExposedPort>,
    command: Option<seq<string>>,
    entrypoint: Option<seq<string>>,
    publishAllPorts: bool)

  /**
   * Filling the model, or an exception nothing catches: the
   * `StringIndexOutOfBoundsException` of a port without a slash, or the
   * `NullPointerException` of image information the daemon did not give.
   */
  datatype Filled = Filled(model: RunModel) | StringIndexOutOfBounds | NullPointer

  /**
   * One exposed port, cut at its first slash: the text before it is the
   * container port and the rest, slash included, the type; without a
   * slash `substring(0, -1)` throws, which is `None`.
   */
  function PortOf(exposedPort: string): (r: Option<ExposedPort>)
    ensures r.None? <==> '/' !in exposedPort
  {
    var i := IndexOfChar(exposedPort, '/');
    if i == -1 then None
    else Some(ExposedPort(exposedPort[..i], exposedPort[i..], "", ""))
  }

  /**
   * The row is the port string cut in two at its first slash, with the
   * host address and port left empty.
   */
  lemma PortOfCutsAtFirstSlash(exposedPort: string)
    requires '/' in exposedPort
    ensures var p := PortOf(exposedPort).value;
            && p.containerPort + p.portType == exposedPort
            && '/' !in p.containerPort && |p.portType| > 0 && p.portType[0] == '/'
            && p.hostAddress == "" && p.hostPort == ""
  {
    var i := IndexOfChar(exposedPort, '/');
    assert exposedPort[..i] + exposedPort[i..] == exposedPort;
  }

  /** Writing a port as `port/protocol` and reading it back gives the port and `/protocol`. */
  lemma PortRoundTrip(port: string, protocol: string)
    requires '/' !in port
    ensures PortOf(port + "/" + protocol) == Some(ExposedPort(port, "/" + protocol, "", ""))
  {
    var s := port + "/" + protocol;
    assert s[|port|] == '/';
    PortOfCutsAtFirstSlash(s);
    var p := PortOf(s).value;
    assert p.containerPort == s[..|port|] == port;
    assert p.portType == s[|port|..] == "/" + protocol;
  }

  /**
   * The loop of `findImageInfo`: one row per exposed port, in order, or
   * the exception of the first port without a slash.
   */
  method PortRows(ports: seq<string>) returns (r: Option<seq<ExposedPort>>)
    ensures r.None? <==> exists k :: 0 <= k < |ports| && PortOf(ports[k]).None?
    ensures r.Some? ==> |r.value| == |ports| && forall k :: 0 <= k < |ports| ==> PortOf(ports[k]) == Some(r.value[k])
  {
    var rows: seq<ExposedPort> := [];
    var i := 0;
    while i < |ports|
      invariant 0 <= i <= |ports|
      invariant |rows| == i
      invariant forall k :: 0 <= k < i ==> PortOf(ports[k]) == Some(rows[k])
    {
      var port := PortOf(ports[i]);
      if port.None? {
        return None;
      }
      rows := rows + [port.value];
      i := i + 1;
    }
    return Some(rows);
  }

  /**
   * `setDefaultValues` with `findImageInfo`: with no selected image
   * nothing changes; otherwise the image information is looked up and
   * dereferenced, so a null answer (the inspection failed, or the image
   * has no configuration) throws. Then the exposed ports become the rows
   * (none when the ports are null) and the command and entrypoint are
   * copied. One port without a slash aborts the whole update with the
   * uncaught exception.
   */
  method SetDefaultValues(m: RunModel, imageSelected: bool, info: Option<ImageConfig>) returns (r: Filled)
    ensures !imageSelected ==> r == Filled(m)
    ensures imageSelected && info.None? ==> r == NullPointer
    ensures r.StringIndexOutOfBounds? <==>
              imageSelected && info.Some? && info.value.exposedPorts.Some?
              && exists k :: 0 <= k < |info.value.exposedPorts.value| && '/' !in info.value.exposedPorts.value[k]
    ensures r.Filled? && imageSelected ==>
              && info.Some?
              && r.model.selectedImageName == m.selectedImageName && r.model.publishAllPorts == m.publishAllPorts
              && r.model.command == info.value.cmd && r.model.entrypoint == info.value.entrypoint
              && |r.model.exposedPorts| == |info.value.exposedPorts.GetOr([])|
              && forall k :: 0 <= k < |r.model.exposedPorts| ==>
                   PortOf(info.value.exposedPorts.value[k]) == Some(r.model.exposedPorts[k])
  {
    if !imageSelected {
      return Filled(m);
    }
    if info.None? {
      return NullPointer;
    }
    var config := info.value;
    var available: seq<ExposedPort> := [];
    if config.exposedPorts.Some? {
      var rows := PortRows(config.exposedPorts.value);
      if rows.None? {
        return StringIndexOutOfBounds;
      }
      available := rows.value;
    }
    return Filled(m.(exposedPorts := available, command := config.cmd, entrypoint := config.entrypoint));
  }

  /** The search wizard's choice: a name with a tag is kept, a bare name gets `:latest`. */
  function SearchedImageName(name: string): (r: string)
    ensures ':' in r && StartsWith(r, name)
    ensures r == name <==> ':' in name
    ensures r != name ==> r[|name|..] == ":latest"
  {
    ContainsChar(name, ':');
    var r := if Contains(name, ":") then name else name + ":latest";
    assert r[..|name|] == name;
    assert r != name ==> r[|name|] == ':';
    r
  }

  /** Defaulting the tag twice is defaulting it once. */
  lemma SearchedImageNameIdempotent(name: string)
    ensures SearchedImageName(SearchedImageName(name)) == SearchedImageName(name)
  {
  }

  const NO_IMAGE: string := "Please specify the image to run."

  /** The warning for an image that is not in the local store. */
  function ImageMissing(name: string): string
  {
    "Image named '" + name + "' does not exist locally. Click on the link below the 'Image' combo to to pull it."
  }

  /**
   * `ImageSelectionValidator`: an empty name is an error, a name the page
   * model resolved to a local image is fine, and any other name is a
   * warning naming it. Whether the page model found the image is an input.
   */
  function ValidateImageSelection(selectedImageName: string, selectedImageFound: bool): (r: Status)
    ensures r.Error? <==> selectedImageName == ""
    ensures r.Error? ==> r.message == NO_IMAGE
    ensures r.Ok? <==> selectedImageName != "" && selectedImageFound
    ensures r.Warning? ==> r.message == ImageMissing(selectedImageName)
  {
    if selectedImageName == "" then Error(NO_IMAGE)
    else if selectedImageFound then Ok
    else Warning(ImageMissing(selectedImageName))
  }

  /** The warning tells images apart: two different missing names never give the same message. */
  lemma MissingImageWarningNamesImage(a: string, b: string)
    requires a != "" && b != ""
    ensures ValidateImageSelection(a, false) == ValidateImageSelection(b, false) <==> a == b
  {
    var prefix := "Image named '";
    if ImageMissing(a) == ImageMissing(b) {
      var suffix := "' does not exist locally. Click on the link below the 'Image' combo to to pull it.";
      assert |a| == |b|;
      assert a == ImageMissing(a)[|prefix|..|prefix| + |a|];
      assert b == ImageMissing(b)[|prefix|..|prefix| + |b|];
    }
  }

  /** `togglePortMappingControls`: every control is enabled exactly when ports are not all published. */
  function PortControlsEnabled(publishAllPorts: bool, controls: seq<bool>): (r: seq<bool>)
    ensures |r| == |controls|
    ensures forall k :: 0 <= k < |r| ==> (r[k] <==> !publishAllPorts)
  {
    seq(|controls|, k => !publishAllPorts)
  }
}
