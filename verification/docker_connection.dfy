/**
 * A connection to a Docker daemon: how its endpoint URI is normalised by
 * the builder, the container and image caches with their refresh rules,
 * the per-container log threads and the action-job registry.
 *
 * The Docker client is an oracle: every call into it is a parameter that
 * says what the daemon answered (a list, a failure, a running flag).
 * Listener notifications, stream closes and stop requests are recorded in
 * the connection's `events` log in the order the code performs them.
 */
module DockerConnection {
  import opened JavaLang
  import Seqs

  // =====================================================================
  // Builder: URI normalisation
  // =====================================================================

  /** A character matched by the regular-expression class `\w`. */
  predicate IsWordChar(c: char)
  {
    'a' <= c <= 'z' || 'A' <= c <= 'Z' || '0' <= c <= '9' || c == '_'
  }

  /** The characters `.` does not match in a Java regular expression. */
  predicate IsLineTerminator(c: char)
  {
    c == '\n' || c == '\r' || c as int == 0x85 || c as int == 0x2028 || c as int == 0x2029
  }

  predicate NoLineTerminator(s: string)
  {
    forall k :: 0 <= k < |s| ==> !IsLineTerminator(s[k])
  }

  /** Length of the longest prefix of word characters. */
  function WordPrefixLength(s: string): (n: nat)
    ensures n <= |s|
    ensures forall k :: 0 <= k < n ==> IsWordChar(s[k])
    ensures n < |s| ==> !IsWordChar(s[n])
  {
    if |s| == 0 || !IsWordChar(s[0]) then 0 else 1 + WordPrefixLength(s[1..])
  }

  /**
   * `s.matches("\\w+://.*")`. Since `:` is not a word character, `\w+`
   * can only match the longest word prefix, and `.*` must then cover the
   * rest of the string, which therefore holds no line terminator.
   */
  predicate HasScheme(s: string)
  {
    var n := WordPrefixLength(s);
    n >= 1 && OccursAt(s, "://", n) && NoLineTerminator(s[n + 3..])
  }

  /** The value `Builder.unixSocket` stores for a non-null path. */
  function NormalizeUnixSocket(path: string): string
  {
    if HasScheme(path) then path else "unix://" + path
  }

  /** `s.replace("tcp://", "http://")`. */
  function ReplaceTcp(s: string): string
  {
    Replace(s, "tcp://", "http://")
  }

  /** The value `Builder.tcpHost` stores for a non-null host. */
  function NormalizeTcpHost(host: string): string
  {
    ReplaceTcp(if HasScheme(host) then host else "tcp://" + host)
  }

  datatype Builder = Builder(
    name: Option<string>,
    unixSocketPath: Option<string>,
    tcpHost: Option<string>,
    tcpCertPath: Option<string>)

  const NewBuilder: Builder := Builder(None, None, None, None)

  /** Where a built connection talks to its daemon. */
  datatype Endpoint =
    | UnixSocketEndpoint(path: string)
    | TcpEndpoint(host: Option<string>, certPath: Option<string>)

  datatype Settings = Settings(name: Option<string>, endpoint: Endpoint)

  /** `Builder.unixSocket`: a null path clears the field. */
  function WithUnixSocket(b: Builder, path: Option<string>): (r: Builder)
    ensures r.name == b.name && r.tcpHost == b.tcpHost && r.tcpCertPath == b.tcpCertPath
    ensures path.None? ==> r.unixSocketPath.None?
    ensures path.Some? ==> r.unixSocketPath.Some? && EndsWith(r.unixSocketPath.value, path.value)
    ensures path.Some? && NoLineTerminator(path.value) ==> HasScheme(r.unixSocketPath.value)
    ensures path.Some? && HasScheme(path.value) ==> r.unixSocketPath == path
    ensures path.Some? && !HasScheme(path.value) ==> r.unixSocketPath == Some("unix://" + path.value)
  {
    match path
    case None => b.(unixSocketPath := None)
    case Some(p) =>
      UnixSocketHasScheme(p);
      b.(unixSocketPath := Some(NormalizeUnixSocket(p)))
  }

  /** `Builder.tcpHost`: a null host leaves the builder as it was. */
  function WithTcpHost(b: Builder, host: Option<string>): (r: Builder)
    ensures r.name == b.name && r.unixSocketPath == b.unixSocketPath && r.tcpCertPath == b.tcpCertPath
    ensures host.None? ==> r == b
    ensures host.Some? && (HasScheme(host.value) || NoLineTerminator(host.value)) ==>
              r.tcpHost.Some? && HasScheme(r.tcpHost.value) && !Contains(r.tcpHost.value, "tcp://")
    ensures host.Some? && HasScheme(host.value) && !Contains(host.value, "tcp://") ==> r.tcpHost == host
    ensures host.Some? && !HasScheme(host.value) && !Contains(host.value, "tcp://") ==>
              r.tcpHost == Some("http://" + host.value)
  {
    match host
    case None => b
    case Some(h) =>
      TcpHostHasScheme(h);
      TcpHostFreeOfTcp(h);
      NoTcpAfterReplace(if HasScheme(h) then h else "tcp://" + h);
      AbsentNotContains(NormalizeTcpHost(h), "tcp://");
      b.(tcpHost := Some(NormalizeTcpHost(h)))
  }

  /**
   * `Builder.tcpCertPath`: stores the path and, when a host is already
   * set and the path is not null, upgrades every `http://` in the host to
   * `https://`. A host set afterwards is not upgraded.
   */
  function WithTcpCertPath(b: Builder, certPath: Option<string>): (r: Builder)
    ensures r.name == b.name && r.unixSocketPath == b.unixSocketPath && r.tcpCertPath == certPath
    ensures b.tcpHost.None? || certPath.None? ==> r.tcpHost == b.tcpHost
    ensures b.tcpHost.Some? && certPath.Some? ==> r.tcpHost.Some? && !Contains(r.tcpHost.value, "http://")
    ensures b.tcpHost.Some? && certPath.Some? ==> r.tcpHost == Some(Replace(b.tcpHost.value, "http://", "https://"))
  {
    var b1 := b.(tcpCertPath := certPath);
    if b1.tcpHost.Some? && certPath.Some? then
      NoHttpAfterUpgrade(b1.tcpHost.value);
      AbsentNotContains(Replace(b1.tcpHost.value, "http://", "https://"), "http://");
      b1.(tcpHost := Some(Replace(b1.tcpHost.value, "http://", "https://")))
    else b1
  }

  /** `Builder.build`: a Unix socket path, when set, wins over TCP settings. */
  function Build(b: Builder): (s: Settings)
    ensures s.name == b.name
    ensures b.unixSocketPath.Some? <==> s.endpoint.UnixSocketEndpoint?
    ensures b.unixSocketPath.Some? ==> s.endpoint.path == b.unixSocketPath.value
    ensures b.unixSocketPath.None? ==> s.endpoint == TcpEndpoint(b.tcpHost, b.tcpCertPath)
  {
    match b.unixSocketPath
    case Some(p) => Settings(b.name, UnixSocketEndpoint(p))
    case None => Settings(b.name, TcpEndpoint(b.tcpHost, b.tcpCertPath))
  }

  /** `getUri`: the socket path if there is one, otherwise the TCP host. */
  function Uri(s: Settings): (r: Option<string>)
    ensures s.endpoint.UnixSocketEndpoint? ==> r == Some(s.endpoint.path)
    ensures s.endpoint.TcpEndpoint? ==> r == s.endpoint.host
  {
    match s.endpoint
    case UnixSocketEndpoint(p) => Some(p)
    case TcpEndpoint(h, _) => h
  }

  // ---- Lemmas about normalisation ------------------------------------

  predicate AllWord(w: string)
  {
    forall k :: 0 <= k < |w| ==> IsWordChar(w[k])
  }

  lemma {:induction false} WordPrefixOfWordThen(w: string, x: string)
    requires AllWord(w)
    requires |x| == 0 || !IsWordChar(x[0])
    ensures WordPrefixLength(w + x) == |w|
    decreases |w|
  {
    if |w| > 0 {
      assert (w + x)[1..] == w[1..] + x;
      WordPrefixOfWordThen(w[1..], x);
    } else {
      assert w + x == x;
    }
  }

  /** A scheme followed by `://` and `rest` is a scheme iff `rest` has no line terminator. */
  lemma SchemeOfPrefixed(w: string, rest: string)
    requires |w| >= 1 && AllWord(w)
    ensures HasScheme(w + "://" + rest) <==> NoLineTerminator(rest)
  {
    var s := w + "://" + rest;
    WordPrefixOfWordThen(w, "://" + rest);
    assert s == w + ("://" + rest);
    assert s[|w|..|w| + 3] == "://";
    assert s[|w| + 3..] == rest;
  }

  lemma UnixSocketHasScheme(p: string)
    ensures NoLineTerminator(p) ==> HasScheme(NormalizeUnixSocket(p))
  {
    if !HasScheme(p) {
      SchemeOfPrefixed("unix", p);
      assert "unix://" + p == "unix" + "://" + p;
    }
  }

  /**
   * Normalising a socket path twice gives what normalising it once gives,
   * exactly when the path already has a scheme or holds no line
   * terminator; otherwise a second `unix://` is prefixed.
   */
  lemma UnixSocketIdempotent(p: string)
    ensures NormalizeUnixSocket(NormalizeUnixSocket(p)) == NormalizeUnixSocket(p)
            <==> HasScheme(p) || NoLineTerminator(p)
  {
    if !HasScheme(p) {
      SchemeOfPrefixed("unix", p);
      assert "unix://" + p == "unix" + "://" + p;
    }
  }

  /** A string free of `tcp://` is left as it is. */
  lemma ReplaceTcpFree(s: string)
    requires !Contains(s, "tcp://")
    ensures ReplaceTcp(s) == s
  {
    ReplaceAbsent(s, "tcp://", "http://");
  }

  /** A leading `tcp://` becomes `http://` when the rest holds no other. */
  lemma ReplaceTcpOfPrefixed(rest: string)
    requires !Contains(rest, "tcp://")
    ensures ReplaceTcp("tcp://" + rest) == "http://" + rest
  {
    var s := "tcp://" + rest;
    assert s[..6] == "tcp://";
    assert s[6..] == rest;
    ReplaceTcpFree(rest);
  }

  /** A host holding no `tcp://` is stored as it is, or behind `http://` when it has no scheme. */
  lemma TcpHostFreeOfTcp(h: string)
    ensures !Contains(h, "tcp://") && HasScheme(h) ==> NormalizeTcpHost(h) == h
    ensures !Contains(h, "tcp://") && !HasScheme(h) ==> NormalizeTcpHost(h) == "http://" + h
  {
    if !Contains(h, "tcp://") {
      if HasScheme(h) {
        ReplaceTcpFree(h);
      } else {
        ReplaceTcpOfPrefixed(h);
      }
    }
  }

  /**
   * A host given with the `tcp` scheme is stored with `http` instead,
   * and the rest of it is kept.
   */
  lemma TcpSchemeBecomesHttp(b: Builder, rest: string)
    requires NoLineTerminator(rest) && !Contains(rest, "tcp://")
    ensures WithTcpHost(b, Some("tcp://" + rest)).tcpHost == Some("http://" + rest)
  {
    SchemeOfPrefixed("tcp", rest);
    assert "tcp://" + rest == "tcp" + "://" + rest;
    ReplaceTcpOfPrefixed(rest);
  }

  /** No occurrence of `t` anywhere in `s`. */
  ghost predicate Absent(s: string, t: string)
  {
    forall i :: !OccursAt(s, t, i)
  }

  lemma AbsentNotContains(s: string, t: string)
    requires Absent(s, t)
    ensures !Contains(s, t)
  {
  }

  /** `ReplaceTcp` handles a string not starting with `tcp://` one character at a time. */
  lemma ReplaceTcpStep(s: string)
    requires |s| >= 1 && !StartsWith(s, "tcp://")
    ensures ReplaceTcp(s) == [s[0]] + ReplaceTcp(s[1..])
  {
    if |s| < 6 {
      assert ReplaceTcp(s[1..]) == s[1..];
      assert s == [s[0]] + s[1..];
    }
  }

  /** A prefix free of `h` in the result was already in the input. */
  lemma {:induction false} ReplaceTcpPrefix(x: string, q: string)
    requires 'h' !in q
    ensures StartsWith(ReplaceTcp(x), q) ==> StartsWith(x, q)
    decreases |q|
  {
    if |q| > 0 {
      var r := ReplaceTcp(x);
      if |x| < 6 {
        assert r == x;
      } else if x[..6] == "tcp://" {
        assert r[0] == 'h' != q[0];
      } else {
        ReplaceTcpStep(x);
        var rest := ReplaceTcp(x[1..]);
        ReplaceTcpPrefix(x[1..], q[1..]);
        if StartsWith(r, q) {
          assert rest[..|q| - 1] == r[1..|q|];
          assert x[..|q|] == [x[0]] + x[1..][..|q| - 1];
        }
      }
    }
  }

  lemma NoTcpInHttpPrefix(rest: string)
    requires Absent(rest, "tcp://")
    ensures Absent("http://" + rest, "tcp://")
  {
    var r := "http://" + rest;
    forall i
      ensures !OccursAt(r, "tcp://", i)
    {
      if 7 <= i && i + 6 <= |r| {
        assert r[i..i + 6] == rest[i - 7..i - 7 + 6];
        assert !OccursAt(rest, "tcp://", i - 7);
      } else if 0 <= i < 7 && i + 6 <= |r| {
        assert r[i] != 't' || r[i + 1] != 'c';
      }
    }
  }

  lemma NoTcpAfterChar(s: string)
    requires |s| >= 1 && !StartsWith(s, "tcp://")
    requires Absent(ReplaceTcp(s[1..]), "tcp://")
    ensures Absent([s[0]] + ReplaceTcp(s[1..]), "tcp://")
  {
    var rest := ReplaceTcp(s[1..]);
    var r := [s[0]] + rest;
    ReplaceTcpPrefix(s[1..], "cp://");
    forall i
      ensures !OccursAt(r, "tcp://", i)
    {
      if 1 <= i && i + 6 <= |r| {
        assert r[i..i + 6] == rest[i - 1..i - 1 + 6];
        assert !OccursAt(rest, "tcp://", i - 1);
      } else if i == 0 && 6 <= |r| {
        assert r[1..6] == rest[..5];
        assert s[..6] == [s[0]] + s[1..][..5];
      }
    }
  }

  /** After the replacement no `tcp://` is left, not even across a seam. */
  lemma {:induction false} NoTcpAfterReplace(s: string)
    ensures Absent(ReplaceTcp(s), "tcp://")
    decreases |s|
  {
    if |s| < 6 {
      assert ReplaceTcp(s) == s;
    } else if s[..6] == "tcp://" {
      NoTcpAfterReplace(s[6..]);
      NoTcpInHttpPrefix(ReplaceTcp(s[6..]));
    } else {
      ReplaceTcpStep(s);
      NoTcpAfterReplace(s[1..]);
      NoTcpAfterChar(s);
    }
  }

  lemma ReplaceKeepsChar(s: string, target: string, replacement: string, c: char)
    requires |target| > 0 && c in s && c !in target
    ensures c in Replace(s, target, replacement)
    decreases |s|
  {
    if |s| >= |target| {
      var i :| 0 <= i < |s| && s[i] == c;
      if s[..|target|] == target {
        assert s[|target|..][i - |target|] == c;
        ReplaceKeepsChar(s[|target|..], target, replacement, c);
      } else if s[0] != c {
        assert s[1..][i - 1] == c;
        ReplaceKeepsChar(s[1..], target, replacement, c);
      }
    }
  }

  lemma ReplaceTcpColonSlashSlash(rest: string)
    ensures ReplaceTcp("://" + rest) == "://" + ReplaceTcp(rest)
  {
    assert ("://" + rest)[0] == ':' && ("//" + rest)[0] == '/' && ("/" + rest)[0] == '/';
    ReplaceTcpStep("://" + rest);
    assert ("://" + rest)[1..] == "//" + rest;
    ReplaceTcpStep("//" + rest);
    assert ("//" + rest)[1..] == "/" + rest;
    ReplaceTcpStep("/" + rest);
    assert ("/" + rest)[1..] == rest;
  }

  lemma SchemeStartingTcp(w: string, rest: string)
    requires |w| >= 1 && AllWord(w)
    requires StartsWith(w + "://" + rest, "tcp://")
    ensures w == "tcp" && (w + "://" + rest)[6..] == rest
  {
    var s := w + "://" + rest;
    assert s[..6] == "tcp://";
    assert s[|w|] == ':';
    assert s[0] == 't' && s[1] == 'c' && s[2] == 'p' && !IsWordChar(s[3]);
    assert forall k :: 0 <= k < |w| ==> IsWordChar(s[k]);
    assert |w| == 3;
    assert w == s[..3];
  }

  lemma {:induction false} ReplaceTcpAfterScheme(w: string, rest: string)
    requires |w| >= 1 && AllWord(w)
    ensures var r := ReplaceTcp(w + "://" + rest);
            var n := WordPrefixLength(r);
            n >= 1 && n + 3 <= |r| && r[n..] == "://" + ReplaceTcp(rest)
    decreases |w|
  {
    var s := w + "://" + rest;
    var r := ReplaceTcp(s);
    if StartsWith(s, "tcp://") {
      SchemeStartingTcp(w, rest);
      assert r == "http" + ("://" + ReplaceTcp(rest));
      WordPrefixOfWordThen("http", "://" + ReplaceTcp(rest));
    } else {
      ReplaceTcpStep(s);
      if |w| == 1 {
        assert s[1..] == "://" + rest;
        ReplaceTcpColonSlashSlash(rest);
        assert r == w + ("://" + ReplaceTcp(rest));
        WordPrefixOfWordThen(w, "://" + ReplaceTcp(rest));
      } else {
        assert s[1..] == w[1..] + "://" + rest;
        ReplaceTcpAfterScheme(w[1..], rest);
        WordPrefixOfCons(w[0], ReplaceTcp(s[1..]), "://" + ReplaceTcp(rest));
      }
    }
  }

  /** A word character in front of a string whose word prefix is followed by `tail` extends that prefix by one. */
  lemma WordPrefixOfCons(c: char, r: string, tail: string)
    requires IsWordChar(c)
    requires var n := WordPrefixLength(r); n >= 1 && n + 3 <= |r| && r[n..] == tail
    ensures var n := WordPrefixLength([c] + r); n >= 1 && n + 3 <= |[c] + r| && ([c] + r)[n..] == tail
  {
    assert ([c] + r)[1..] == r;
  }

  /** Replacing `tcp://` brings in no line terminator. */
  lemma ReplaceTcpNoLineTerminator(s: string)
    requires NoLineTerminator(s)
    ensures NoLineTerminator(ReplaceTcp(s))
  {
    ReplaceChars(s, "tcp://", "http://");
    var t := ReplaceTcp(s);
    forall k | 0 <= k < |t|
      ensures !IsLineTerminator(t[k])
    {
      if t[k] in s {
        var j :| 0 <= j < |s| && s[j] == t[k];
      } else {
        assert t[k] in "http://";
      }
    }
  }

  /** A string with a scheme is its word prefix, `://` and a rest free of line terminators. */
  lemma SchemeParts(y: string)
    requires HasScheme(y)
    ensures var n := WordPrefixLength(y);
            y == y[..n] + "://" + y[n + 3..] && |y[..n]| >= 1 && AllWord(y[..n]) && NoLineTerminator(y[n + 3..])
  {
    var n := WordPrefixLength(y);
    assert y[n..n + 3] == "://";
  }

  /** A word prefix followed by `://` and a rest free of line terminators is a scheme. */
  lemma SchemeOfParts(r: string, tail: string)
    requires var m := WordPrefixLength(r); m >= 1 && m + 3 <= |r| && r[m..] == "://" + tail
    requires NoLineTerminator(tail)
    ensures HasScheme(r)
  {
    var m := WordPrefixLength(r);
    SeparatorThen(r, m, tail);
    assert OccursAt(r, "://", m);
  }

  lemma SeparatorThen(r: string, m: int, tail: string)
    requires 0 <= m && m + 3 <= |r| && r[m..] == "://" + tail
    ensures r[m..m + 3] == "://" && r[m + 3..] == tail
  {
    assert r[m..m + 3] == r[m..][..3];
    assert r[m + 3..] == r[m..][3..];
  }

  lemma ReplaceTcpKeepsScheme(y: string)
    requires HasScheme(y)
    ensures HasScheme(ReplaceTcp(y))
  {
    SchemeParts(y);
    var n := WordPrefixLength(y);
    var w, rest := y[..n], y[n + 3..];
    ReplaceTcpAfterScheme(w, rest);
    ReplaceTcpNoLineTerminator(rest);
    SchemeOfParts(ReplaceTcp(y), ReplaceTcp(rest));
  }

  lemma TcpHostHasScheme(h: string)
    ensures HasScheme(h) || NoLineTerminator(h) ==> HasScheme(NormalizeTcpHost(h))
  {
    if HasScheme(h) {
      ReplaceTcpKeepsScheme(h);
    } else if NoLineTerminator(h) {
      SchemeOfPrefixed("tcp", h);
      assert "tcp://" + h == "tcp" + "://" + h;
      ReplaceTcpKeepsScheme("tcp://" + h);
    }
  }

  /** A line terminator anywhere rules a scheme out. */
  lemma LineTerminatorBlocksScheme(x: string, i: int)
    requires 0 <= i < |x| && IsLineTerminator(x[i])
    ensures !HasScheme(x)
  {
    var n := WordPrefixLength(x);
    assert i >= n;
    assert i < n + 3 && n + 3 <= |x| ==> x[n..n + 3][i - n] == x[i];
    assert n + 3 <= i ==> x[n + 3..][i - n - 3] == x[i];
  }

  /** A normalised host keeps the line terminator of a scheme-less host, so it has no scheme. */
  lemma NormalizedWithoutScheme(h: string)
    requires !HasScheme(h) && !NoLineTerminator(h)
    ensures !HasScheme(NormalizeTcpHost(h))
  {
    var x := NormalizeTcpHost(h);
    var k :| 0 <= k < |h| && IsLineTerminator(h[k]);
    assert ("tcp://" + h)[6 + k] == h[k];
    ReplaceKeepsChar("tcp://" + h, "tcp://", "http://", h[k]);
    var i :| 0 <= i < |x| && x[i] == h[k];
    LineTerminatorBlocksScheme(x, i);
  }

  /**
   * Normalising a TCP host twice gives what normalising it once gives,
   * exactly when the host already has a scheme or holds no line
   * terminator.
   */
  lemma TcpHostIdempotent(h: string)
    ensures NormalizeTcpHost(NormalizeTcpHost(h)) == NormalizeTcpHost(h)
            <==> HasScheme(h) || NoLineTerminator(h)
  {
    var x := NormalizeTcpHost(h);
    NoTcpAfterReplace(if HasScheme(h) then h else "tcp://" + h);
    if HasScheme(h) || NoLineTerminator(h) {
      TcpHostHasScheme(h);
      ReplaceAbsent(x, "tcp://", "http://");
    } else {
      NormalizedWithoutScheme(h);
      ReplaceTcpStepsPrefix(x);
      assert |NormalizeTcpHost(x)| == |x| + 7;
    }
  }

  /** `tcp://` in front of a string without `tcp://` becomes `http://`. */
  lemma ReplaceTcpStepsPrefix(x: string)
    requires Absent(x, "tcp://")
    ensures ReplaceTcp("tcp://" + x) == "http://" + x
  {
    assert ("tcp://" + x)[..6] == "tcp://";
    assert ("tcp://" + x)[6..] == x;
    ReplaceAbsent(x, "tcp://", "http://");
  }

  lemma NoHttpInHttpsPrefix(rest: string)
    requires Absent(rest, "http://")
    ensures Absent("https://" + rest, "http://")
  {
    var r := "https://" + rest;
    forall i
      ensures !OccursAt(r, "http://", i)
    {
      if 8 <= i && i + 7 <= |r| {
        assert r[i..i + 7] == rest[i - 8..i - 8 + 7];
        assert !OccursAt(rest, "http://", i - 8);
      } else if i == 0 {
        assert r[4] == 's';
      } else if 0 < i < 8 && i + 7 <= |r| {
        assert r[i] != 'h';
      }
    }
  }

  lemma NoHttpAfterChar(s: string)
    requires |s| >= 7 && s[..7] != "http://"
    requires Absent(Replace(s[1..], "http://", "https://"), "http://")
    ensures Absent([s[0]] + Replace(s[1..], "http://", "https://"), "http://")
  {
    var rest := Replace(s[1..], "http://", "https://");
    var r := [s[0]] + rest;
    UpgradePrefix(s[1..], "ttp://");
    forall i
      ensures !OccursAt(r, "http://", i)
    {
      if 1 <= i && i + 7 <= |r| {
        assert r[i..i + 7] == rest[i - 1..i - 1 + 7];
        assert !OccursAt(rest, "http://", i - 1);
      } else if i == 0 && 7 <= |r| {
        assert r[1..7] == rest[..6];
        assert s[..7] == [s[0]] + s[1..][..6];
      }
    }
  }

  /** After upgrading, no `http://` is left. */
  lemma {:induction false} NoHttpAfterUpgrade(s: string)
    ensures Absent(Replace(s, "http://", "https://"), "http://")
    decreases |s|
  {
    if |s| < 7 {
      assert Replace(s, "http://", "https://") == s;
    } else if s[..7] == "http://" {
      NoHttpAfterUpgrade(s[7..]);
      NoHttpInHttpsPrefix(Replace(s[7..], "http://", "https://"));
    } else {
      NoHttpAfterUpgrade(s[1..]);
      NoHttpAfterChar(s);
    }
  }

  lemma {:induction false} UpgradePrefix(x: string, q: string)
    requires 'h' !in q
    ensures StartsWith(Replace(x, "http://", "https://"), q) ==> StartsWith(x, q)
    decreases |q|
  {
    if |q| > 0 {
      var r := Replace(x, "http://", "https://");
      if |x| < 7 {
        assert r == x;
      } else if x[..7] == "http://" {
        assert r[0] == 'h' != q[0];
      } else {
        var rest := Replace(x[1..], "http://", "https://");
        assert r == [x[0]] + rest;
        UpgradePrefix(x[1..], q[1..]);
        if StartsWith(r, q) {
          assert rest[..|q| - 1] == r[1..|q|];
          assert x[..|q|] == [x[0]] + x[1..][..|q| - 1];
        }
      }
    }
  }

  /**
   * The certificate path upgrades the host only when it is given after
   * the host: set before, the host keeps its `http://`.
   */
  lemma CertPathOrderMatters(h: string, cert: string)
    requires NoLineTerminator(h)
    ensures var early := WithTcpHost(WithTcpCertPath(NewBuilder, Some(cert)), Some(h));
            var late := WithTcpCertPath(WithTcpHost(NewBuilder, Some(h)), Some(cert));
            early.tcpHost == Some(NormalizeTcpHost(h))
            && late.tcpHost == Some(Replace(NormalizeTcpHost(h), "http://", "https://"))
            && early.tcpCertPath == late.tcpCertPath == Some(cert)
  {
  }

  // =====================================================================
  // Connection state
  // =====================================================================

  /** A container as listed by the daemon. */
  datatype Container = Container(id: string, names: seq<string>, status: string)

  /** An image as listed by the daemon. */
  datatype RawImage = RawImage(id: string, parentId: Option<string>, repoTags: Option<seq<string>>)

  /** One image entry of the connection: a raw image seen through one repository. */
  datatype Image = Image(
    id: string,
    parentId: Option<string>,
    allRepoTags: Option<seq<string>>,
    repo: string,
    tags: seq<string>,
    intermediate: bool,
    dangling: bool)

  /** Status texts from the message bundle, which is not part of this model. */
  datatype StatusTexts = StatusTexts(exitedPrefix: string, removalInProgress: string)

  type StreamRef = nat
  type JobRef = nat

  datatype LogThread = LogThread(stream: StreamRef, follow: bool, alive: bool)

  datatype Event =
    | ContainersChanged(containers: seq<Container>)
    | ImagesChanged(images: seq<Image>)
    | StreamClosed(stream: StreamRef)
    | StopRequested(threadKey: string)
    | Killed(threadKey: string)

  datatype Conn = Conn(
    settings: Settings,
    clientOpen: bool,
    containers: Option<seq<Container>>,
    containersLoaded: bool,
    images: Option<seq<Image>>,
    imagesLoaded: bool,
    logThreads: map<string, LogThread>,
    actionJobs: Option<map<string, JobRef>>,
    events: seq<Event>)

  /** What the daemon answered to a list request. */
  datatype Fetch<T> = Fetched(items: seq<T>) | FetchFailed

  /** A `DockerException` (or its not-found subclass) thrown by an operation. */
  datatype Failure = DockerFailure | ContainerNotFound | NullReference

  /** The connection after an operation, and what the operation returned or threw. */
  datatype Outcome<T> = Outcome(conn: Conn, result: Either<T>)

  datatype Either<T> = Returned(value: T) | Threw(failure: Failure)

  // =====================================================================
  // Containers
  // =====================================================================

  predicate IsExited(c: Container, texts: StatusTexts)
  {
    StartsWith(c.status, texts.exitedPrefix)
  }

  predicate IsListed(c: Container, texts: StatusTexts)
  {
    c.status != texts.removalInProgress
  }

  function ExitedIds(list: seq<Container>, texts: StatusTexts): set<string>
  {
    set c | c in list && IsExited(c, texts) :: c.id
  }

  /**
   * Stops and forgets the log thread of every exited container, in list
   * order; returns the remaining threads and the keys asked to stop.
   */
  function ReapExited(threads: map<string, LogThread>, list: seq<Container>, texts: StatusTexts)
    : (r: (map<string, LogThread>, seq<string>))
    ensures r.0.Keys == threads.Keys - ExitedIds(list, texts)
    ensures forall k :: k in r.0 ==> r.0[k] == threads[k]
    ensures forall k :: k in r.1 <==> k in threads && k in ExitedIds(list, texts)
    ensures forall i, j :: 0 <= i < j < |r.1| ==> r.1[i] != r.1[j]
  {
    if |list| == 0 then (threads, [])
    else
      var c := list[0];
      var stopHere := IsExited(c, texts) && c.id in threads;
      var threads1 := if stopHere then threads - {c.id} else threads;
      var rest := ReapExited(threads1, list[1..], texts);
      assert ExitedIds(list, texts) == (if IsExited(c, texts) then {c.id} else {}) + ExitedIds(list[1..], texts) by {
        assert forall x :: x in list <==> x == c || x in list[1..];
      }
      (rest.0, (if stopHere then [c.id] else []) + rest.1)
  }

  /** `events` asks each thread whose key is in `keys` to stop, once, and does nothing else. */
  predicate StopsOf(events: seq<Event>, keys: set<string>)
  {
    && (forall i :: 0 <= i < |events| ==> events[i].StopRequested? && events[i].threadKey in keys)
    && (forall k :: k in keys ==> StopRequested(k) in events)
    && (forall i, j :: 0 <= i < j < |events| ==> events[i] != events[j])
  }

  lemma StopsOfReaped(ks: seq<string>, stops: seq<Event>, keys: set<string>)
    requires forall k :: k in ks <==> k in keys
    requires forall i, j :: 0 <= i < j < |ks| ==> ks[i] != ks[j]
    requires |stops| == |ks| && forall i :: 0 <= i < |ks| ==> stops[i] == StopRequested(ks[i])
    ensures StopsOf(stops, keys)
  {
    forall k | k in keys ensures StopRequested(k) in stops {
      var i :| 0 <= i < |ks| && ks[i] == k;
      assert stops[i] == StopRequested(k);
    }
  }

  /**
   * `listContainers`: with no client an empty list and nothing else; a
   * daemon failure throws and changes nothing; otherwise exited
   * containers lose their log thread, containers being removed are
   * dropped, the cache is replaced and listeners are told.
   */
  function ListContainers(c: Conn, fetch: Fetch<Container>, texts: StatusTexts): (r: Outcome<seq<Container>>)
    ensures !c.clientOpen ==> r == Outcome(c, Returned([]))
    ensures c.clientOpen && fetch.FetchFailed? ==> r == Outcome(c, Threw(DockerFailure))
    ensures c.clientOpen && fetch.Fetched? ==>
              && r.result.Returned?
              && (forall x :: x in r.result.value <==> x in fetch.items && IsListed(x, texts))
              && r.conn.containers == Some(r.result.value)
              && r.conn.logThreads.Keys == c.logThreads.Keys - ExitedIds(fetch.items, texts)
              && |r.conn.events| > |c.events|
              && r.conn.events[|r.conn.events| - 1] == ContainersChanged(r.result.value)
              && r.conn.events[..|c.events|] == c.events
              && StopsOf(r.conn.events[|c.events|..|r.conn.events| - 1],
                         c.logThreads.Keys * ExitedIds(fetch.items, texts))
    ensures r.conn.images == c.images && r.conn.actionJobs == c.actionJobs
    ensures r.conn.containersLoaded == c.containersLoaded && r.conn.clientOpen == c.clientOpen
    ensures forall k :: k in r.conn.logThreads ==> k in c.logThreads && r.conn.logThreads[k] == c.logThreads[k]
    ensures forall k :: k in c.logThreads && !(c.clientOpen && fetch.Fetched? && k in ExitedIds(fetch.items, texts))
              ==> k in r.conn.logThreads
  {
    if !c.clientOpen then Outcome(c, Returned([]))
    else match fetch
      case FetchFailed => Outcome(c, Threw(DockerFailure))
      case Fetched(list) =>
        var reaped := ReapExited(c.logThreads, list, texts);
        var kept := Seqs.Filter(list, x => IsListed(x, texts));
        var stops := seq(|reaped.1|, i requires 0 <= i < |reaped.1| => StopRequested(reaped.1[i]));
        StopsOfReaped(reaped.1, stops, c.logThreads.Keys * ExitedIds(list, texts));
        var c1 := c.(logThreads := reaped.0, containers := Some(kept),
                     events := c.events + stops + [ContainersChanged(kept)]);
        Outcome(c1, Returned(kept))
  }

  /** The listed containers are exactly the non-removed ones, in daemon order. */
  lemma ListContainersKeepsOrder(c: Conn, list: seq<Container>, texts: StatusTexts)
    requires c.clientOpen
    ensures var r := ListContainers(c, Fetched(list), texts);
            Seqs.IsSubsequence(r.result.value, list)
            && |r.result.value| == Seqs.Count(list, x => IsListed(x, texts))
  {
    Seqs.FilterIsSubsequence(list, x => IsListed(x, texts));
  }

  /**
   * `getContainers(force)`: a loaded cache is returned as it is unless a
   * refresh is forced. A refresh that fails empties the cache but returns
   * the previous value (null on the first call). Afterwards the cache
   * counts as loaded either way.
   */
  function GetContainers(c: Conn, force: bool, fetch: Fetch<Container>, texts: StatusTexts)
    : (r: (Conn, Option<seq<Container>>))
    ensures r.0.containersLoaded
    ensures c.containersLoaded && !force ==> r == (c, c.containers)
    ensures (!c.containersLoaded || force) && c.clientOpen && fetch.FetchFailed? ==>
              r.1 == c.containers && r.0 == c.(containers := Some([]), containersLoaded := true)
    ensures (!c.containersLoaded || force) && c.clientOpen && fetch.Fetched? ==>
              r.1.Some? && r.0.containers == r.1
    ensures (!c.containersLoaded || force) && c.clientOpen && fetch.Fetched? ==>
              var listed := ListContainers(c, fetch, texts);
              r == (listed.conn.(containersLoaded := true), Some(listed.result.value))
    ensures (!c.containersLoaded || force) && !c.clientOpen ==>
              r == (c.(containersLoaded := true), Some([]))
  {
    if c.containersLoaded && !force then (c, c.containers)
    else
      var listed := ListContainers(c, fetch, texts);
      match listed.result
      case Returned(list) => (listed.conn.(containersLoaded := true), Some(list))
      case Threw(_) => (c.(containers := Some([]), containersLoaded := true), c.containers)
  }

  /** Once loaded, an unforced read neither asks the daemon nor changes anything. */
  lemma GetContainersCaches(c: Conn, force: bool, f1: Fetch<Container>, f2: Fetch<Container>, texts: StatusTexts)
    ensures var first := GetContainers(c, force, f1, texts);
            GetContainers(first.0, false, f2, texts) == (first.0, first.0.containers)
  {
  }

  // =====================================================================
  // Images
  // =====================================================================

  const NoneTag: string := "<none>:<none>"

  /** A raw image counts as tagged unless its only tag is `<none>:<none>`. */
  predicate IsTagged(raw: RawImage)
  {
    raw.repoTags != Some([NoneTag])
  }

  function ParentIds(raws: seq<RawImage>): set<Option<string>>
  {
    set r | r in raws :: r.parentId
  }

  /**
   * The intermediate and dangling flags of `listImages`, written as the
   * source computes them.
   */
  function Classify(raw: RawImage, parents: set<Option<string>>): (flags: (bool, bool))
    ensures IsTagged(raw) ==> flags == (false, false)
    ensures !IsTagged(raw) ==> flags.0 != flags.1
    ensures flags.0 <==> !IsTagged(raw) && Some(raw.id) in parents
  {
    var tagged := !(raw.repoTags.Some? && |raw.repoTags.value| == 1 && NoneTag in raw.repoTags.value);
    assert tagged == IsTagged(raw) by {
      if raw.repoTags.Some? && |raw.repoTags.value| == 1 && NoneTag in raw.repoTags.value {
        assert raw.repoTags.value == [NoneTag];
      }
    }
    var intermediate := !tagged && Some(raw.id) in parents;
    var dangling := !tagged && !intermediate;
    (intermediate, dangling)
  }

  /** Groups of tags by repository; `DockerImage.extractTagsByRepo` is not part of this model. */
  type TagGrouping = Option<seq<string>> -> seq<(string, seq<string>)>

  /** The entry a raw image gives for one of its repositories. */
  function Entry(raw: RawImage, g: (string, seq<string>), parents: set<Option<string>>): Image
  {
    var flags := Classify(raw, parents);
    Image(raw.id, raw.parentId, raw.repoTags, g.0, g.1, flags.0, flags.1)
  }

  /** `img` is the entry of `raw` for one of the repository groups of its tags. */
  predicate EntryOf(img: Image, raw: RawImage, parents: set<Option<string>>, group: TagGrouping)
  {
    (img.repo, img.tags) in group(raw.repoTags) && img == Entry(raw, (img.repo, img.tags), parents)
  }

  /** How many repository groups the raw images have between them. */
  function GroupTotal(raws: seq<RawImage>, group: TagGrouping): nat
  {
    if |raws| == 0 then 0 else |group(raws[0].repoTags)| + GroupTotal(raws[1..], group)
  }

  /** The entries of one raw image, one per repository group. */
  function EntriesOfRaw(raw: RawImage, parents: set<Option<string>>, group: TagGrouping): seq<Image>
  {
    var groups := group(raw.repoTags);
    seq(|groups|, i requires 0 <= i < |groups| => Entry(raw, groups[i], parents))
  }

  function ImageEntries(raws: seq<RawImage>, parents: set<Option<string>>, group: TagGrouping): (r: seq<Image>)
    ensures |r| == GroupTotal(raws, group)
    ensures forall img :: img in r ==> exists raw :: raw in raws && EntryOf(img, raw, parents, group)
    ensures forall raw, g :: raw in raws && g in group(raw.repoTags) ==> Entry(raw, g, parents) in r
  {
    if |raws| == 0 then []
    else
      var raw := raws[0];
      var groups := group(raw.repoTags);
      var here := EntriesOfRaw(raw, parents, group);
      var rest := ImageEntries(raws[1..], parents, group);
      assert forall img :: img in here ==> EntryOf(img, raw, parents, group) by {
        forall img | img in here ensures EntryOf(img, raw, parents, group) {
          var i :| 0 <= i < |here| && here[i] == img;
          assert (img.repo, img.tags) == groups[i];
        }
      }
      assert forall x :: x in raws <==> x == raw || x in raws[1..];
      assert forall g :: g in groups ==> Entry(raw, g, parents) in here by {
        forall g | g in groups ensures Entry(raw, g, parents) in here {
          var i :| 0 <= i < |groups| && groups[i] == g;
          assert here[i] == Entry(raw, g, parents);
        }
      }
      here + rest
  }

  /** The entries of a longer list are those of its parts, in order. */
  lemma {:induction false} ImageEntriesAppend(a: seq<RawImage>, b: seq<RawImage>,
                                              parents: set<Option<string>>, group: TagGrouping)
    ensures ImageEntries(a + b, parents, group) == ImageEntries(a, parents, group) + ImageEntries(b, parents, group)
    decreases |a|
  {
    if |a| == 0 {
      assert a + b == b;
    } else {
      var here := EntriesOfRaw(a[0], parents, group);
      assert (a + b)[0] == a[0];
      assert (a + b)[1..] == a[1..] + b;
      assert ImageEntries(a + b, parents, group) == here + ImageEntries(a[1..] + b, parents, group);
      assert ImageEntries(a, parents, group) == here + ImageEntries(a[1..], parents, group);
      ImageEntriesAppend(a[1..], b, parents, group);
      Seqs.AppendAssociates(here, ImageEntries(a[1..], parents, group), ImageEntries(b, parents, group));
    }
  }

  /** One raw image gives one entry per repository group, in the grouping's order. */
  lemma ImageEntriesOfOne(raw: RawImage, parents: set<Option<string>>, group: TagGrouping)
    ensures var r := ImageEntries([raw], parents, group);
            |r| == |group(raw.repoTags)|
            && forall i :: 0 <= i < |r| ==> r[i] == Entry(raw, group(raw.repoTags)[i], parents)
  {
    assert [raw][1..] == [];
    assert ImageEntries([raw], parents, group) == EntriesOfRaw(raw, parents, group) + [];
  }

  /**
   * `listImages`: one entry per raw image and repository, each flagged
   * intermediate when it is untagged and the parent of some listed image,
   * and dangling when it is untagged and the parent of none.
   */
  function ListImages(c: Conn, fetch: Fetch<RawImage>, group: TagGrouping): (r: Outcome<seq<Image>>)
    ensures !c.clientOpen ==> r == Outcome(c, Returned([]))
    ensures c.clientOpen && fetch.FetchFailed? ==> r == Outcome(c, Threw(DockerFailure))
    ensures c.clientOpen && fetch.Fetched? ==>
              && r.result.Returned?
              && r.conn == c.(images := Some(r.result.value), events := c.events + [ImagesChanged(r.result.value)])
              && |r.result.value| == GroupTotal(fetch.items, group)
              && (forall raw, g :: raw in fetch.items && g in group(raw.repoTags) ==>
                    Entry(raw, g, ParentIds(fetch.items)) in r.result.value)
              && forall img :: img in r.result.value ==>
                   (exists raw :: raw in fetch.items && EntryOf(img, raw, ParentIds(fetch.items), group))
                   && !(img.intermediate && img.dangling)
                   && (img.intermediate <==> (img.allRepoTags == Some([NoneTag])
                                              && (exists raw :: raw in fetch.items && raw.parentId == Some(img.id))))
                   && (img.dangling <==> img.allRepoTags == Some([NoneTag]) && !img.intermediate)
  {
    if !c.clientOpen then Outcome(c, Returned([]))
    else match fetch
      case FetchFailed => Outcome(c, Threw(DockerFailure))
      case Fetched(raws) =>
        var entries := ImageEntries(raws, ParentIds(raws), group);
        ImageEntriesTags(raws, ParentIds(raws), group);
        Outcome(c.(images := Some(entries), events := c.events + [ImagesChanged(entries)]), Returned(entries))
  }

  /**
   * Every entry is intermediate exactly when untagged and a parent, and
   * dangling exactly when untagged and no parent; never both.
   */
  lemma {:induction false} ImageEntriesTags(raws: seq<RawImage>, parents: set<Option<string>>, group: TagGrouping)
    ensures forall img :: img in ImageEntries(raws, parents, group) ==>
              !(img.intermediate && img.dangling)
              && (img.intermediate <==> img.allRepoTags == Some([NoneTag]) && Some(img.id) in parents)
              && (img.dangling <==> img.allRepoTags == Some([NoneTag]) && Some(img.id) !in parents)
    decreases |raws|
  {
    if |raws| > 0 {
      ImageEntriesTags(raws[1..], parents, group);
    }
  }

  /**
   * `getImages(force)`: the same caching rule as for containers.
   */
  function GetImages(c: Conn, force: bool, fetch: Fetch<RawImage>, group: TagGrouping)
    : (r: (Conn, Option<seq<Image>>))
    ensures r.0.imagesLoaded
    ensures c.imagesLoaded && !force ==> r == (c, c.images)
    ensures (!c.imagesLoaded || force) && c.clientOpen && fetch.FetchFailed? ==>
              r.1 == c.images && r.0 == c.(images := Some([]), imagesLoaded := true)
    ensures (!c.imagesLoaded || force) && c.clientOpen && fetch.Fetched? ==>
              r.1.Some? && r.0.images == r.1
    ensures (!c.imagesLoaded || force) && c.clientOpen && fetch.Fetched? ==>
              var listed := ListImages(c, fetch, group);
              r == (listed.conn.(imagesLoaded := true), Some(listed.result.value))
    ensures (!c.imagesLoaded || force) && !c.clientOpen ==>
              r == (c.(imagesLoaded := true), Some([]))
  {
    if c.imagesLoaded && !force then (c, c.images)
    else
      var listed := ListImages(c, fetch, group);
      match listed.result
      case Returned(list) => (listed.conn.(imagesLoaded := true), Some(list))
      case Threw(_) => (c.(images := Some([]), imagesLoaded := true), c.images)
  }

  /** Once loaded, an unforced read of the images neither asks the daemon nor changes anything. */
  lemma GetImagesCaches(c: Conn, force: bool, f1: Fetch<RawImage>, f2: Fetch<RawImage>, group: TagGrouping)
    ensures var first := GetImages(c, force, f1, group);
            GetImages(first.0, false, f2, group) == (first.0, first.0.images)
  {
  }

  // =====================================================================
  // Log threads
  // =====================================================================

  datatype LoggingStatus = LoggingNone | LoggingActive | LoggingComplete

  /** `loggingStatus`. */
  function Status(c: Conn, key: string): (s: LoggingStatus)
    ensures s == LoggingNone <==> key !in c.logThreads
    ensures s == LoggingActive <==> key in c.logThreads && c.logThreads[key].alive
  {
    if key !in c.logThreads then LoggingNone
    else if c.logThreads[key].alive then LoggingActive
    else LoggingComplete
  }

  /** The daemon's view of one container, as `inspectContainer` reports it. */
  datatype Inspection = Inspected(running: bool, tty: Option<bool>) | NotFound | InspectFailed

  /**
   * The shared "start a log thread unless a live one exists" step. When a
   * live thread is present the given stream is closed if `closeIfBusy`.
   * Creating a thread needs a copy of the client, which fails when the
   * certificates cannot be read.
   */
  function AttachLogThread(c: Conn, key: string, stream: StreamRef, follow: bool,
                           closeIfBusy: bool, copyOk: bool): (r: Outcome<()>)
    ensures key in c.logThreads && c.logThreads[key].alive ==>
              r.result.Returned? && r.conn.logThreads == c.logThreads
              && r.conn.events == c.events + (if closeIfBusy then [StreamClosed(stream)] else [])
    ensures !(key in c.logThreads && c.logThreads[key].alive) && copyOk ==>
              r.result.Returned? && r.conn.logThreads == c.logThreads[key := LogThread(stream, follow, true)]
              && r.conn.events == c.events
    ensures !(key in c.logThreads && c.logThreads[key].alive) && !copyOk ==>
              r == Outcome(c, Threw(DockerFailure))
    ensures r.conn.containers == c.containers && r.conn.images == c.images && r.conn.clientOpen == c.clientOpen
  {
    if key in c.logThreads && c.logThreads[key].alive then
      Outcome(if closeIfBusy then c.(events := c.events + [StreamClosed(stream)]) else c, Returned(()))
    else if !copyOk then Outcome(c, Threw(DockerFailure))
    else Outcome(c.(logThreads := c.logThreads[key := LogThread(stream, follow, true)]), Returned(()))
  }

  /**
   * `logContainer`: follows the output only while the container runs; an
   * existing live thread is kept and the new stream closed.
   */
  function LogContainer(c: Conn, id: string, stream: StreamRef, inspection: Inspection, copyOk: bool)
    : (r: Outcome<()>)
    ensures inspection.NotFound? ==> r == Outcome(c, Threw(ContainerNotFound))
    ensures inspection.InspectFailed? ==> r == Outcome(c, Threw(DockerFailure))
    ensures inspection.Inspected? && r.result.Returned? ==>
              Status(r.conn, id) == LoggingActive
              && (forall k :: k != id ==> (k in r.conn.logThreads <==> k in c.logThreads))
    ensures inspection.Inspected? && Status(c, id) == LoggingActive ==>
              r.conn.logThreads == c.logThreads && r.conn.events == c.events + [StreamClosed(stream)]
    ensures inspection.Inspected? && Status(c, id) != LoggingActive && copyOk ==>
              id in r.conn.logThreads && r.conn.logThreads[id] == LogThread(stream, inspection.running, true)
    ensures inspection.Inspected? && Status(c, id) != LoggingActive && copyOk ==>
              r.result.Returned? && r.conn.events == c.events
              && r.conn.logThreads == c.logThreads[id := LogThread(stream, inspection.running, true)]
    ensures inspection.Inspected? && Status(c, id) != LoggingActive && !copyOk ==>
              r == Outcome(c, Threw(DockerFailure))
  {
    match inspection
    case NotFound => Outcome(c, Threw(ContainerNotFound))
    case InspectFailed => Outcome(c, Threw(DockerFailure))
    case Inspected(running, _) => AttachLogThread(c, id, stream, running, true, copyOk)
  }

  /** What the daemon answered to a state-changing request. */
  datatype Reply = Done | ReplyNotFound | ReplyFailed

  function ReplyFailure(reply: Reply): Failure
    requires !reply.Done?
  {
    if reply.ReplyNotFound? then ContainerNotFound else DockerFailure
  }

  /** Runs `listContainers` after a successful step, as the lifecycle operations do. */
  function ThenList(step: Outcome<()>, fetch: Fetch<Container>, texts: StatusTexts): (r: Outcome<()>)
    ensures step.result.Threw? ==> r == step
    ensures step.result.Returned? ==> (r.result.Threw? <==> ListContainers(step.conn, fetch, texts).result.Threw?)
    ensures forall k :: k in r.conn.logThreads ==> k in step.conn.logThreads && r.conn.logThreads[k] == step.conn.logThreads[k]
    ensures forall k :: k in step.conn.logThreads && !(step.conn.clientOpen && fetch.Fetched? && k in ExitedIds(fetch.items, texts))
              ==> k in r.conn.logThreads
    ensures forall e :: e in step.conn.events ==> e in r.conn.events
    ensures forall e :: e in r.conn.events ==> e in step.conn.events || e.ContainersChanged? || e.StopRequested?
  {
    if step.result.Threw? then step
    else
      var listed := ListContainers(step.conn, fetch, texts);
      assert listed.conn.events[..|step.conn.events|] == step.conn.events;
      assert forall e :: e in listed.conn.events[|step.conn.events|..] ==> e.ContainersChanged? || e.StopRequested?;
      Outcome(listed.conn, if listed.result.Threw? then Threw(listed.result.failure) else Returned(()))
  }

  /**
   * `unpauseContainer`: with a stream, attaches a following log thread
   * unless a live one exists (then the stream is closed); then refreshes
   * the container list.
   */
  function UnpauseContainer(c: Conn, id: string, stream: Option<StreamRef>, reply: Reply,
                            copyOk: bool, fetch: Fetch<Container>, texts: StatusTexts): (r: Outcome<()>)
    ensures !reply.Done? ==> r == Outcome(c, Threw(ReplyFailure(reply)))
    ensures reply.Done? && stream.None? ==> r == ThenList(Outcome(c, Returned(())), fetch, texts)
    ensures reply.Done? && stream.Some? && Status(c, id) == LoggingActive ==>
              StreamClosed(stream.value) in r.conn.events
    ensures reply.Done? && stream.Some? && Status(c, id) == LoggingActive ==>
              r == ThenList(Outcome(c.(events := c.events + [StreamClosed(stream.value)]), Returned(())), fetch, texts)
    ensures reply.Done? && stream.Some? && Status(c, id) != LoggingActive && !copyOk ==>
              r == Outcome(c, Threw(DockerFailure))
    ensures reply.Done? && stream.Some? && Status(c, id) != LoggingActive && copyOk
              && !(c.clientOpen && fetch.Fetched? && id in ExitedIds(fetch.items, texts)) ==>
              id in r.conn.logThreads && r.conn.logThreads[id] == LogThread(stream.value, true, true)
  {
    if !reply.Done? then Outcome(c, Threw(ReplyFailure(reply)))
    else
      var step := if stream.Some? then AttachLogThread(c, id, stream.value, true, true, copyOk)
                  else Outcome(c, Returned(()));
      ThenList(step, fetch, texts)
  }

  /** The parts of `getContainerInfo` the start operations look at; null on failure. */
  datatype ContainerInfo = ContainerInfo(tty: Option<bool>)

  /**
   * `startContainer(id, stream)`: logs through a new following thread
   * only with a stream, known container info and configuration, and no
   * TTY; a live thread is kept and, unlike `logContainer`, the unused
   * stream is not closed.
   */
  function StartContainer(c: Conn, id: string, stream: Option<StreamRef>, reply: Reply,
                          info: Option<ContainerInfo>, copyOk: bool,
                          fetch: Fetch<Container>, texts: StatusTexts): (r: Outcome<()>)
    ensures !reply.Done? ==> r == Outcome(c, Threw(ReplyFailure(reply)))
    ensures reply.Done? && !(stream.Some? && info.Some? && info.value.tty == Some(false)) ==>
              r == ThenList(Outcome(c, Returned(())), fetch, texts)
    ensures reply.Done? && Status(c, id) == LoggingActive ==>
              r == ThenList(Outcome(c, Returned(())), fetch, texts)
    ensures reply.Done? && stream.Some? && info == Some(ContainerInfo(Some(false)))
              && Status(c, id) != LoggingActive && !copyOk ==>
              r == Outcome(c, Threw(DockerFailure))
    ensures reply.Done? && stream.Some? && info == Some(ContainerInfo(Some(false)))
              && Status(c, id) != LoggingActive && copyOk
              && !(c.clientOpen && fetch.Fetched? && id in ExitedIds(fetch.items, texts)) ==>
              id in r.conn.logThreads && r.conn.logThreads[id] == LogThread(stream.value, true, true)
  {
    if !reply.Done? then Outcome(c, Threw(ReplyFailure(reply)))
    else
      var logs := stream.Some? && info.Some? && info.value.tty == Some(false);
      var step := if logs then AttachLogThread(c, id, stream.value, true, false, copyOk)
                  else Outcome(c, Returned(()));
      ThenList(step, fetch, texts)
  }

  /**
   * `startContainer(id, loggingId, stream)`: the thread is keyed by the
   * logging id and created when the auto-log preference is on and the
   * container has no TTY; missing container info is dereferenced.
   */
  function StartContainerLogged(c: Conn, id: string, loggingId: string, stream: StreamRef, reply: Reply,
                                autoLog: bool, info: Option<ContainerInfo>, copyOk: bool,
                                fetch: Fetch<Container>, texts: StatusTexts): (r: Outcome<()>)
    ensures !reply.Done? ==> r == Outcome(c, Threw(ReplyFailure(reply)))
    ensures reply.Done? && autoLog && (info.None? || info.value.tty.None?) ==>
              r == Outcome(c, Threw(NullReference))
    ensures reply.Done? && autoLog && info == Some(ContainerInfo(Some(false))) && copyOk
              && Status(c, loggingId) != LoggingActive
              && !(c.clientOpen && fetch.Fetched? && loggingId in ExitedIds(fetch.items, texts)) ==>
              loggingId in r.conn.logThreads && r.conn.logThreads[loggingId] == LogThread(stream, true, true)
    ensures reply.Done? && autoLog && info == Some(ContainerInfo(Some(false))) && !copyOk
              && Status(c, loggingId) != LoggingActive ==>
              r == Outcome(c, Threw(DockerFailure))
    ensures reply.Done? && (!autoLog || info == Some(ContainerInfo(Some(true)))) ==>
              r == ThenList(Outcome(c, Returned(())), fetch, texts)
    ensures reply.Done? && autoLog && info == Some(ContainerInfo(Some(false))) && Status(c, loggingId) == LoggingActive ==>
              r == ThenList(Outcome(c, Returned(())), fetch, texts)
  {
    if !reply.Done? then Outcome(c, Threw(ReplyFailure(reply)))
    else if autoLog && (info.None? || info.value.tty.None?) then Outcome(c, Threw(NullReference))
    else
      var step := if autoLog && !info.value.tty.value
                  then AttachLogThread(c, loggingId, stream, true, false, copyOk)
                  else Outcome(c, Returned(()));
      ThenList(step, fetch, texts)
  }

  /**
   * `stopContainer` and `killContainer`: once the daemon has done it, the
   * container's log thread is killed and forgotten, then the list is
   * refreshed.
   */
  function StopContainer(c: Conn, id: string, reply: Reply, fetch: Fetch<Container>, texts: StatusTexts)
    : (r: Outcome<()>)
    ensures !reply.Done? ==> r == Outcome(c, Threw(ReplyFailure(reply)))
    ensures reply.Done? ==> Status(r.conn, id) == LoggingNone
    ensures reply.Done? ==> (Killed(id) in r.conn.events <==> id in c.logThreads || Killed(id) in c.events)
  {
    if !reply.Done? then Outcome(c, Threw(ReplyFailure(reply)))
    else
      var step := if id in c.logThreads
                  then c.(logThreads := c.logThreads - {id}, events := c.events + [Killed(id)])
                  else c;
      ThenList(Outcome(step, Returned(())), fetch, texts)
  }

  /** A log thread ends on its own (its container stopped or its stream failed). */
  function ThreadEnded(c: Conn, key: string): (r: Conn)
    requires key in c.logThreads
    ensures Status(r, key) == LoggingComplete
    ensures forall k :: k != key ==> Status(r, k) == Status(c, k)
  {
    c.(logThreads := c.logThreads[key := c.logThreads[key].(alive := false)])
  }

  /** Logging a container again after its thread ended starts a fresh one. */
  lemma LogAgainAfterEnd(c: Conn, id: string, s1: StreamRef, s2: StreamRef, running: bool)
    requires Status(c, id) == LoggingNone
    ensures var c1 := LogContainer(c, id, s1, Inspected(running, None), true).conn;
            var c2 := ThreadEnded(c1, id);
            var c3 := LogContainer(c2, id, s2, Inspected(running, None), true).conn;
            Status(c1, id) == LoggingActive && Status(c2, id) == LoggingComplete
            && c3.logThreads[id].stream == s2 && Status(c3, id) == LoggingActive
  {
  }

  // =====================================================================
  // Action jobs
  // =====================================================================

  /** `getActionJob`: null until a job was ever registered or for an unknown id. */
  function GetActionJob(c: Conn, id: string): (r: Option<JobRef>)
    ensures r.Some? <==> c.actionJobs.Some? && id in c.actionJobs.value
  {
    if c.actionJobs.Some? && id in c.actionJobs.value then Some(c.actionJobs.value[id]) else None
  }

  /** `registerActionJob`: creates the registry on first use and replaces any job for `id`. */
  function RegisterActionJob(c: Conn, id: string, j: JobRef): (r: Conn)
    ensures GetActionJob(r, id) == Some(j)
    ensures forall k :: k != id ==> GetActionJob(r, k) == GetActionJob(c, k)
  {
    var jobs := if c.actionJobs.Some? then c.actionJobs.value else map[];
    c.(actionJobs := Some(jobs[id := j]))
  }

  /** `removeActionJob`: removes the entry only if it still holds this very job. */
  function RemoveActionJob(c: Conn, id: string, j: JobRef): (r: Conn)
    ensures GetActionJob(c, id) == Some(j) ==> GetActionJob(r, id).None?
    ensures GetActionJob(c, id) != Some(j) ==> r == c
    ensures forall k :: k != id ==> GetActionJob(r, k) == GetActionJob(c, k)
  {
    if c.actionJobs.Some? && id in c.actionJobs.value && c.actionJobs.value[id] == j
    then c.(actionJobs := Some(c.actionJobs.value - {id}))
    else c
  }

  /**
   * A job that finishes after a newer job was registered for the same id
   * does not remove the newer one.
   */
  lemma StaleRemovalKeepsNewerJob(c: Conn, id: string, stale: JobRef, newer: JobRef)
    requires stale != newer
    ensures var c1 := RegisterActionJob(RegisterActionJob(c, id, stale), id, newer);
            GetActionJob(RemoveActionJob(c1, id, stale), id) == Some(newer)
  {
  }
}
