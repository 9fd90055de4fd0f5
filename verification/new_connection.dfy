/**
 * The validators of the new-connection wizard page
 * (`NewDockerConnectionPage`): the connection name must be given and
 * unused, a TCP host must be a URI with a known scheme, a host and a port,
 * and with TLS verification on the certificate path must name a readable
 * file. Status messages are the keys the page looks up in its message
 * bundle. Parsing a URI and asking the file system are oracles.
 */
module NewConnection {
  import opened JavaLang
  import opened WizardSupport
  import ConnectionManager

  const MISSING_NAME: string := "NewDockerConnectionPage.validation.missingConnectionName.msg"
  const DUPLICATE_NAME: string := "NewDockerConnectionPage.validation.duplicateConnectionName.msg"
  const MISSING_TCP_URI: string := "NewDockerConnectionPage.validation.missingTcpConnectionURI.msg"
  const INVALID_TCP_SCHEME: string := "NewDockerConnectionPage.validation.invalidTcpConnectionScheme.msg"
  const INVALID_TCP_HOST: string := "NewDockerConnectionPage.validation.invalidTcpConnectionHost.msg"
  const INVALID_TCP_PORT: string := "NewDockerConnectionPage.validation.invalidTcpConnectionPort.msg"
  const INVALID_TCP_URI: string := "NewDockerConnectionPage.validation.invalidTcpConnectionURI.msg"
  const MISSING_CERT_PATH: string := "NewDockerConnectionPage.validation.missingTcpCertPath.msg"
  const INVALID_CERT_PATH: string := "NewDockerConnectionPage.validation.invalidTcpCertPath.msg"
  const UNREADABLE_CERT_PATH: string := "NewDockerConnectionPage.validation.unreadableTcpCertPath.msg"

  /** `new URI(s)`: a `URISyntaxException`, or the scheme, the host (null when absent) and the port (-1 when absent). */
  datatype Uri = SyntaxError | Uri(scheme: Option<string>, host: Option<string>, port: int)

  /** What `java.io.File` answers about a path. */
  datatype FileInfo = FileInfo(present: bool, canRead: bool)

  /** The page's observable values the validators read. */
  datatype Page = Page(
    connectionName: Option<string>,
    tcpConnection: bool,
    tcpHost: Option<string>,
    tlsVerify: bool,
    certPath: Option<string>)

  predicate Blank(s: Option<string>)
  {
    s.None? || s.value == ""
  }

  /**
   * `ConnectionNameValidator`: a missing name is an error, so is a name
   * the connection manager already knows; anything else is fine.
   */
  function ValidateConnectionName(name: Option<string>, manager: ConnectionManager.Manager): (r: Status)
    ensures r == Error(MISSING_NAME) <==> Blank(name)
    ensures r == Error(DUPLICATE_NAME) <==> !Blank(name) && name.value in ConnectionManager.ConnectionNames(manager)
    ensures r.Ok? <==> !Blank(name) && name.value !in ConnectionManager.ConnectionNames(manager)
  {
    if Blank(name) then Error(MISSING_NAME)
    else
      ConnectionManager.FindIffListed(manager, name.value);
      if ConnectionManager.FindConnection(manager, name).Some? then Error(DUPLICATE_NAME)
      else Ok
  }

  /** Once a connection is added under a name, the wizard refuses that name. */
  lemma AddedNameIsDuplicate(manager: ConnectionManager.Manager, c: ConnectionManager.Connection, opens: ConnectionManager.Opener)
    requires c.name != ""
    requires ConnectionManager.AddConnection(manager, c, opens).Succeeded?
    ensures ValidateConnectionName(Some(c.name), ConnectionManager.AddConnection(manager, c, opens).manager)
            == Error(DUPLICATE_NAME)
  {
    var added := ConnectionManager.AddConnection(manager, c, opens).manager;
    assert added.connections[|manager.connections|].name == c.name;
  }

  /** The schemes a TCP connection accepts, compared in lower case. */
  predicate KnownScheme(scheme: string)
  {
    var s := ToLowerAsciiString(scheme);
    s == "tcp" || s == "http" || s == "https"
  }

  /**
   * `TcpHostValidator`: nothing to check for a Unix socket; otherwise the
   * host must be given and parse as a URI, and then the scheme (when
   * there is one), the host and the port are checked in that order.
   */
  function ValidateTcpHost(tcpConnection: bool, tcpHost: Option<string>, parse: string -> Uri): (r: Status)
    ensures !tcpConnection ==> r == Ok
    ensures tcpConnection && Blank(tcpHost) ==> r == Error(MISSING_TCP_URI)
    ensures tcpConnection && !Blank(tcpHost) ==>
              var u := parse(tcpHost.value);
              && (r == Error(INVALID_TCP_URI) <==> u.SyntaxError?)
              && (r == Error(INVALID_TCP_SCHEME) <==> u.Uri? && u.scheme.Some? && !KnownScheme(u.scheme.value))
              && (r.Ok? <==> u.Uri? && (u.scheme.None? || KnownScheme(u.scheme.value)) && u.host.Some? && u.port != -1)
    ensures r.Ok? || r.Error?
  {
    if !tcpConnection then Ok
    else if Blank(tcpHost) then Error(MISSING_TCP_URI)
    else match parse(tcpHost.value)
      case SyntaxError => Error(INVALID_TCP_URI)
      case Uri(scheme, host, port) =>
        var lower := if scheme.Some? then Some(ToLowerAsciiString(scheme.value)) else None;
        if lower.Some? && !(lower.value == "tcp" || lower.value == "http" || lower.value == "https") then
          Error(INVALID_TCP_SCHEME)
        else if host.None? then Error(INVALID_TCP_HOST)
        else if port == -1 then Error(INVALID_TCP_PORT)
        else Ok
  }

  /** The scheme is compared without regard to case: `TCP://h:1` and `tcp://h:1` get the same verdict. */
  lemma SchemeCaseIgnored(tcpHost: string, other: string, parse: string -> Uri)
    requires tcpHost != "" && other != ""
    requires parse(tcpHost).Uri? && parse(other).Uri?
    requires parse(tcpHost).scheme.Some? && parse(other).scheme.Some?
    requires ToLowerAsciiString(parse(tcpHost).scheme.value) == ToLowerAsciiString(parse(other).scheme.value)
    requires parse(tcpHost).host == parse(other).host && parse(tcpHost).port == parse(other).port
    ensures ValidateTcpHost(true, Some(tcpHost), parse) == ValidateTcpHost(true, Some(other), parse)
  {
  }

  /**
   * `CertificatesPathValidator`: nothing to check without TLS
   * verification; otherwise a missing path, a path that does not exist and
   * an unreadable file are errors, reported in that order.
   */
  function ValidateCertificatesPath(tlsVerify: bool, certPath: Option<string>, files: string -> FileInfo): (r: Status)
    ensures r.Ok? <==> !tlsVerify || (!Blank(certPath) && files(certPath.value).present && files(certPath.value).canRead)
    ensures r == Error(MISSING_CERT_PATH) <==> tlsVerify && Blank(certPath)
    ensures r == Error(INVALID_CERT_PATH) <==> tlsVerify && !Blank(certPath) && !files(certPath.value).present
    ensures r == Error(UNREADABLE_CERT_PATH) <==>
              tlsVerify && !Blank(certPath) && files(certPath.value).present && !files(certPath.value).canRead
  {
    if !tlsVerify then Ok
    else if Blank(certPath) then Error(MISSING_CERT_PATH)
    else
      var cert := files(certPath.value);
      if !cert.present then Error(INVALID_CERT_PATH)
      else if !cert.canRead || !cert.canRead then Error(UNREADABLE_CERT_PATH)
      else Ok
  }

  /** The page's validators, in the order the page registers them. */
  datatype Validator = ConnectionNameValidator | TcpHostValidator | CertificatesPathValidator

  /** The validators the page adds to its binding context; the TCP host validator is never among them. */
  const REGISTERED: seq<Validator> := [ConnectionNameValidator, CertificatesPathValidator]

  function Run(v: Validator, page: Page, manager: ConnectionManager.Manager, parse: string -> Uri, files: string -> FileInfo): Status
  {
    match v
    case ConnectionNameValidator => ValidateConnectionName(page.connectionName, manager)
    case TcpHostValidator => ValidateTcpHost(page.tcpConnection, page.tcpHost, parse)
    case CertificatesPathValidator => ValidateCertificatesPath(page.tlsVerify, page.certPath, files)
  }

  /** The statuses the binding context collects: one per registered validator. */
  function Statuses(page: Page, manager: ConnectionManager.Manager, parse: string -> Uri, files: string -> FileInfo): (r: seq<Status>)
    ensures |r| == |REGISTERED| == 2
    ensures r[0] == ValidateConnectionName(page.connectionName, manager)
    ensures r[1] == ValidateCertificatesPath(page.tlsVerify, page.certPath, files)
  {
    seq(|REGISTERED|, k requires 0 <= k < |REGISTERED| => Run(REGISTERED[k], page, manager, parse, files))
  }

  /**
   * Since the TCP host validator is not registered, the page reports the
   * same statuses whatever TCP host is typed, even one the validator
   * would reject.
   */
  lemma TcpHostNeverValidated(page: Page, tcpHost: Option<string>, manager: ConnectionManager.Manager, parse: string -> Uri, files: string -> FileInfo)
    ensures Statuses(page.(tcpHost := tcpHost), manager, parse, files) == Statuses(page, manager, parse, files)
    ensures TcpHostValidator !in REGISTERED
  {
  }

  /** A value on either side of a binding: a `Boolean` or anything else. */
  datatype Value<T> = BoolValue(b: bool) | Other(value: T)

  /**
   * `OppositeBooleanValueStrategy.convert`: a Boolean is negated, and
   * anything else goes through the default conversion, a parameter here.
   */
  function OppositeConvert<T>(v: Value<T>, defaultConvert: Value<T> -> Value<T>): (r: Value<T>)
    ensures v.BoolValue? ==> r.BoolValue? && r.b != v.b
    ensures v.Other? ==> r == defaultConvert(v)
  {
    if v.BoolValue? then BoolValue(!v.b) else defaultConvert(v)
  }

  /**
   * The strategy is used in both directions of the binding, so a Boolean
   * sent to the widget and back arrives unchanged.
   */
  lemma OppositeConvertRoundTrip<T>(b: bool, defaultConvert: Value<T> -> Value<T>)
    ensures OppositeConvert(OppositeConvert(BoolValue(b), defaultConvert), defaultConvert) == BoolValue(b)
  {
  }

  /** `getDockerConnection`: the building of a connection is commented out, and null is returned. */
  function GetDockerConnection(page: Page): (r: Option<ConnectionManager.Connection>)
    ensures r.None?
  {
    None
  }
}
