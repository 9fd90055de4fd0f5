/**
 * The page of the "build image" launch wizard (`ImageBuildPage`): the
 * build options chosen with its check boxes, the validation of the
 * selected connection and the repository/tag, and the page model's
 * connection names, sorted, with the first one as the default selection.
 * The connection manager's connections and the preferences the page
 * restores are parameters.
 */
module ImageBuildPage {
  import opened JavaLang
  import WizardSupport

  /** `EnumImageBuildParameter`, in the order `getBuildOptions` adds them. */
  datatype BuildParameter = ForceRm | NoCache | NoRm | Quiet

  function Rank(p: BuildParameter): nat
  {
    match p
    case ForceRm => 0
    case NoCache => 1
    case NoRm => 2
    case Quiet => 3
  }

  /** The check boxes of the page model. */
  datatype Flags = Flags(alwaysRemove: bool, noCache: bool, noRemove: bool, quietBuild: bool)

  predicate Chosen(f: Flags, p: BuildParameter)
  {
    match p
    case ForceRm => f.alwaysRemove
    case NoCache => f.noCache
    case NoRm => f.noRemove
    case Quiet => f.quietBuild
  }

  /** Listed in the fixed order, each at most once. */
  predicate InOrder(ps: seq<BuildParameter>)
  {
    forall i, j :: 0 <= i < j < |ps| ==> Rank(ps[i]) < Rank(ps[j])
  }

  /** `getBuildOptions`: each option whose box is checked, in the order FORCE_RM, NO_CACHE, NO_RM, QUIET. */
  function GetBuildOptions(f: Flags): (r: seq<BuildParameter>)
    ensures forall p :: p in r <==> Chosen(f, p)
    ensures InOrder(r)
  {
    (if f.alwaysRemove then [ForceRm] else [])
    + (if f.noCache then [NoCache] else [])
    + (if f.noRemove then [NoRm] else [])
    + (if f.quietBuild then [Quiet] else [])
  }

  /**
   * The order and the membership pin the list down: any list that holds
   * exactly the chosen options in the fixed order is the one
   * `getBuildOptions` returns.
   */
  lemma BuildOptionsUnique(f: Flags, ps: seq<BuildParameter>)
    requires forall p :: p in ps <==> Chosen(f, p)
    requires InOrder(ps)
    ensures ps == GetBuildOptions(f)
  {
    SameOrderedElements(ps, GetBuildOptions(f));
  }

  lemma {:induction false} SameOrderedElements(a: seq<BuildParameter>, b: seq<BuildParameter>)
    requires InOrder(a) && InOrder(b)
    requires forall p :: p in a <==> p in b
    ensures a == b
    decreases |a| + |b|
  {
    if |a| > 0 && |b| > 0 {
      assert a[0] == b[0] by {
        assert a[0] in b && b[0] in a;
      }
      forall p | p in a[1..]
        ensures p in b[1..]
      {
        var i :| 1 <= i < |a| && a[i] == p;
        assert p in b;
        var j :| 0 <= j < |b| && b[j] == p;
        assert Rank(a[0]) < Rank(a[i]);
        assert j != 0;
      }
      forall p | p in b[1..]
        ensures p in a[1..]
      {
        var j :| 1 <= j < |b| && b[j] == p;
        assert p in a;
        var i :| 0 <= i < |a| && a[i] == p;
        assert Rank(b[0]) < Rank(b[j]);
        assert i != 0;
      }
      SameOrderedElements(a[1..], b[1..]);
      assert a == [a[0]] + a[1..] && b == [b[0]] + b[1..];
    } else if |a| > 0 {
      HeadIsMember(a);
      assert false;
    } else if |b| > 0 {
      HeadIsMember(b);
      assert false;
    }
  }

  lemma HeadIsMember<T>(s: seq<T>)
    requires |s| > 0
    ensures s[0] in s
  {
  }

  /** The characters of a repository name: `[a-z0-9-_.:/]`. */
  predicate IsRepoChar(c: char)
  {
    ('a' <= c <= 'z') || ('0' <= c <= '9') || c == '-' || c == '_' || c == '.' || c == ':' || c == '/'
  }

  const NO_CONNECTION := "An existing connection to a Docker daemon must be selected."
  const NO_REPO_TAG := "An repository (and optional tag) for the image must be provided."
  const INVALID_REPO_TAG := "Invalid repository name. Only [a-z0-9\\-\\_\\.\\:\\/]+ are allowed"

  /**
   * `ImageBuildPageValidator.validate`: the first failing check, in the
   * order connection, missing repository, malformed repository.
   */
  function Validate(connectionName: Option<string>, repoTag: Option<string>, connectionNames: seq<string>)
    : (r: WizardSupport.Status)
    ensures !r.Warning?
    ensures r == WizardSupport.Error(NO_CONNECTION)
            <==> connectionName.None? || connectionName.value == "" || connectionName.value !in connectionNames
    ensures r == WizardSupport.Error(NO_REPO_TAG)
            <==> connectionName.Some? && connectionName.value in connectionNames && connectionName.value != ""
                 && (repoTag.None? || repoTag.value == "")
    ensures r.Ok? <==> (connectionName.Some? && connectionName.value != "" && connectionName.value in connectionNames
                        && repoTag.Some? && repoTag.value != ""
                        && forall k :: 0 <= k < |repoTag.value| ==> IsRepoChar(repoTag.value[k]))
  {
    if connectionName.None? || connectionName.value == "" || connectionName.value !in connectionNames then
      WizardSupport.Error(NO_CONNECTION)
    else if repoTag.None? || repoTag.value == "" then WizardSupport.Error(NO_REPO_TAG)
    else if exists k :: 0 <= k < |repoTag.value| && !IsRepoChar(repoTag.value[k]) then
      WizardSupport.Error(INVALID_REPO_TAG)
    else WizardSupport.Ok
  }

  /** With a known connection, any upper-case letter in the repository name is refused as malformed. */
  lemma UpperCaseRejected(connectionName: string, connectionNames: seq<string>, repoTag: string, k: nat)
    requires connectionName != "" && connectionName in connectionNames
    requires k < |repoTag| && 'A' <= repoTag[k] <= 'Z'
    ensures Validate(Some(connectionName), Some(repoTag), connectionNames) == WizardSupport.Error(INVALID_REPO_TAG)
  {
  }

  /** A registry-style name with a tag passes once a known connection is selected. */
  lemma TaggedNameAccepted(connectionName: string, connectionNames: seq<string>)
    requires connectionName != "" && connectionName in connectionNames
    ensures Validate(Some(connectionName), Some("docker.io/fedora:23"), connectionNames) == WizardSupport.Ok
  {
  }

  // ---------------------------------------------------------------------
  // The page model
  // ---------------------------------------------------------------------

  /** A connection of the manager, as far as the page sees it: its name and its identity. */
  datatype Connection = Connection(name: string, id: nat)

  predicate Sorted(s: seq<string>)
  {
    forall i, j :: 0 <= i < j < |s| ==> CompareTo(s[i], s[j]) <= 0
  }

  /** `Collections.sort` of strings, as an insertion sort by `compareTo`. */
  function Sort(s: seq<string>): (r: seq<string>)
    ensures Sorted(r) && multiset(r) == multiset(s)
    decreases |s|
  {
    if |s| == 0 then []
    else
      var rest := Sort(s[1..]);
      assert s == [s[0]] + s[1..];
      Insert(s[0], rest)
  }

  function Insert(x: string, s: seq<string>): (r: seq<string>)
    requires Sorted(s)
    ensures Sorted(r) && multiset(r) == multiset(s) + multiset{x}
    ensures forall y :: y in r ==> y == x || y in s
    decreases |s|
  {
    if |s| == 0 || CompareTo(x, s[0]) <= 0 then
      forall y | y in s ensures CompareTo(x, y) <= 0 {
        LessEqTransitive(x, s[0], y);
      }
      SortedCons(x, s);
      [x] + s
    else
      var rest := Insert(x, s[1..]);
      assert s == [s[0]] + s[1..];
      CompareToAntisymmetric(x, s[0]);
      forall y | y in rest ensures CompareTo(s[0], y) <= 0 {
        if y != x {
          var i :| 0 <= i < |s[1..]| && s[1..][i] == y;
          assert s[i + 1] == y;
        }
      }
      SortedCons(s[0], rest);
      [s[0]] + rest
  }

  /** A head that comes before every element of a sorted tail keeps the list sorted. */
  lemma SortedCons(h: string, t: seq<string>)
    requires Sorted(t) && forall y :: y in t ==> CompareTo(h, y) <= 0
    ensures Sorted([h] + t)
  {
    var r := [h] + t;
    forall i, j | 0 <= i < j < |r| ensures CompareTo(r[i], r[j]) <= 0 {
      if i == 0 {
        assert r[j] == t[j - 1];
      } else {
        assert r[i] == t[i - 1] && r[j] == t[j - 1];
      }
    }
  }

  lemma LessEqTransitive(a: string, b: string, c: string)
    requires CompareTo(a, b) <= 0 && CompareTo(b, c) <= 0
    ensures CompareTo(a, c) <= 0
  {
    if CompareTo(a, b) < 0 && CompareTo(b, c) < 0 {
      CompareToTransitive(a, b, c);
    }
  }

  /** The preferences the page model restores for its Dockerfile; an absent key is `None`. */
  datatype Stored = Stored(connectionName: Option<string>, imageName: Option<string>,
                           alwaysRemove: Option<bool>, noCache: Option<bool>,
                           noRemove: Option<bool>, quietBuild: Option<bool>)

  datatype PageModel = PageModel(
    connections: map<string, Connection>,
    connectionNames: seq<string>,
    connectionName: string,
    imageName: string,
    flags: Flags)

  /** The name-to-connection map; a later connection of the same name replaces an earlier one. */
  function ConnectionMap(conns: seq<Connection>): (m: map<string, Connection>)
    ensures forall k :: 0 <= k < |conns| ==> conns[k].name in m
    ensures forall n :: n in m ==> m[n].name == n && m[n] in conns
    decreases |conns|
  {
    if |conns| == 0 then map[]
    else
      var last := conns[|conns| - 1];
      var m := ConnectionMap(conns[..|conns| - 1]);
      assert forall c :: c in conns[..|conns| - 1] ==> c in conns;
      m[last.name := last]
  }

  function Names(conns: seq<Connection>): (r: seq<string>)
    ensures |r| == |conns| && forall k :: 0 <= k < |conns| ==> r[k] == conns[k].name
  {
    seq(|conns|, k requires 0 <= k < |conns| => conns[k].name)
  }

  /**
   * The page model's constructor: every connection by name, the sorted
   * names, and the restored state, where a missing connection name
   * defaults to the first sorted name (or `""` without connections) and
   * the rest to an empty image name and cleared boxes.
   */
  function NewPageModel(conns: seq<Connection>, stored: Stored): (m: PageModel)
    ensures Sorted(m.connectionNames) && multiset(m.connectionNames) == multiset(Names(conns))
    ensures stored.connectionName.None? ==> m.connectionName == (if |conns| == 0 then "" else m.connectionNames[0])
    ensures stored.connectionName.Some? ==> m.connectionName == stored.connectionName.value
    ensures m.imageName == stored.imageName.GetOr("")
    ensures m.connections == ConnectionMap(conns)
    ensures m.connections.Keys == set c | c in conns :: c.name
    ensures m.flags == Flags(stored.alwaysRemove.GetOr(false), stored.noCache.GetOr(false),
                             stored.noRemove.GetOr(false), stored.quietBuild.GetOr(false))
  {
    var names := Sort(Names(conns));
    assert |names| == |conns| by {
      assert |multiset(names)| == |multiset(Names(conns))|;
    }
    var default := if |names| == 0 then "" else names[0];
    PageModel(ConnectionMap(conns), names, stored.connectionName.GetOr(default), stored.imageName.GetOr(""),
              Flags(stored.alwaysRemove.GetOr(false), stored.noCache.GetOr(false),
                    stored.noRemove.GetOr(false), stored.quietBuild.GetOr(false)))
  }

  /** The default connection is the least name of all, and it is a known connection's name. */
  lemma DefaultIsLeast(conns: seq<Connection>, stored: Stored)
    requires stored.connectionName.None? && |conns| > 0
    ensures var m := NewPageModel(conns, stored);
            m.connectionName in Names(conns)
            && forall k :: 0 <= k < |conns| ==> CompareTo(m.connectionName, conns[k].name) <= 0
  {
    var m := NewPageModel(conns, stored);
    var names := m.connectionNames;
    assert |names| == |conns| by {
      assert |multiset(names)| == |multiset(Names(conns))|;
    }
    assert names[0] in multiset(Names(conns));
    forall k | 0 <= k < |conns|
      ensures CompareTo(m.connectionName, conns[k].name) <= 0
    {
      assert conns[k].name == Names(conns)[k];
      assert conns[k].name in multiset(names);
      var i :| 0 <= i < |names| && names[i] == conns[k].name;
      if i == 0 {
        assert CompareTo(names[0], names[0]) == 0;
      }
    }
  }

  /** `getConnection`: the connection of the selected name, or null for a name no connection has. */
  function GetConnection(m: PageModel): (r: Option<Connection>)
    ensures r.Some? <==> m.connectionName in m.connections
  {
    if m.connectionName in m.connections then Some(m.connections[m.connectionName]) else None
  }

  /** Every connection the manager lists can be selected by its name and is found again under it. */
  lemma EveryConnectionFound(conns: seq<Connection>, stored: Stored, k: nat)
    requires k < |conns|
    ensures var m := NewPageModel(conns, stored).(connectionName := conns[k].name);
            GetConnection(m).Some? && GetConnection(m).value in conns && GetConnection(m).value.name == conns[k].name
  {
  }
}
