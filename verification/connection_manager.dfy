/**
 * The registry of Docker connections (`DockerConnectionManager`): an
 * ordered list of connections, persisted after every change, and a list
 * of listeners told about additions, removals and renames. Opening a
 * connection, the storage manager and the container refresh manager are
 * outside the model: opening is an oracle, saving is counted, and the
 * refresh threads dropped are logged by connection name.
 */
module ConnectionManager {
  import opened JavaLang

  const ADD_EVENT: int := 0
  const REMOVE_EVENT: int := 1
  const RENAME_EVENT: int := 2

  /** A connection as the registry sees it; two connections are equal when their names are. */
  datatype Connection = Connection(name: string, isOpen: bool)

  /** A registered listener: its identity and whether it implements the two-argument callback. */
  datatype Listener = Listener(identity: nat, isListener2: bool)

  /** One callback made on a listener. */
  datatype Notification =
    | Legacy(listener: nat, eventType: int)
    | ForConnection(listener: nat, connection: string, eventType: int)

  /**
   * `listeners` is `None` until the first listener is added, as the
   * source creates its listener list lazily.
   */
  datatype Manager = Manager(
    connections: seq<Connection>,
    listeners: Option<seq<Listener>>,
    notifications: seq<Notification>,
    saves: nat,
    refreshThreadsDropped: seq<string>)

  /** The outcome of an operation that may throw a `DockerException`. */
  datatype Attempt = Succeeded(manager: Manager) | OpenFailed

  /** Whether `open(true)` on a connection of that name succeeds. */
  type Opener = string -> bool

  function RegisteredListeners(m: Manager): seq<Listener>
  {
    m.listeners.GetOr([])
  }

  /** `getConnectionNames`: one name per connection, in list order. */
  function ConnectionNames(m: Manager): (r: seq<string>)
    ensures |r| == |m.connections|
    ensures forall i :: 0 <= i < |r| ==> r[i] == m.connections[i].name
  {
    seq(|m.connections|, i requires 0 <= i < |m.connections| => m.connections[i].name)
  }

  /** Index of the first connection with that name, if any. */
  function FirstNamed(conns: seq<Connection>, name: string): (r: Option<nat>)
    ensures r.Some? ==> r.value < |conns| && conns[r.value].name == name
                        && forall j :: 0 <= j < r.value ==> conns[j].name != name
    ensures r.None? ==> forall j :: 0 <= j < |conns| ==> conns[j].name != name
  {
    if |conns| == 0 then None
    else if conns[0].name == name then Some(0)
    else match FirstNamed(conns[1..], name)
         case None => None
         case Some(k) => Some(k + 1)
  }

  /** `findConnection`: `None` for a null name, else the first connection with that name. */
  function FindConnection(m: Manager, name: Option<string>): (r: Option<Connection>)
    ensures name.None? ==> r.None?
    ensures r.Some? ==> r.value in m.connections && r.value.name == name.value
    ensures name.Some? && r.None? ==> name.value !in ConnectionNames(m)
    ensures name.Some? && r.Some? ==>
              exists i :: 0 <= i < |m.connections| && m.connections[i] == r.value
                          && forall j :: 0 <= j < i ==> m.connections[j].name != name.value
  {
    if name.None? then None
    else match FirstNamed(m.connections, name.value)
         case None => None
         case Some(i) => Some(m.connections[i])
  }

  /** A connection is found exactly when its name is among the connection names. */
  lemma FindIffListed(m: Manager, name: string)
    ensures FindConnection(m, Some(name)).Some? <==> name in ConnectionNames(m)
  {
    if name in ConnectionNames(m) {
      var i :| 0 <= i < |ConnectionNames(m)| && ConnectionNames(m)[i] == name;
      assert m.connections[i].name == name;
    }
  }

  /**
   * `notifyListeners(connection, type)`: one callback per registered
   * listener, in registration order; two-argument listeners get the
   * connection, the others the legacy one-argument callback.
   */
  function NotifyAll(listeners: seq<Listener>, connection: string, eventType: int): (r: seq<Notification>)
    ensures |r| == |listeners|
    ensures forall i :: 0 <= i < |r| ==>
              r[i] == (if listeners[i].isListener2 then ForConnection(listeners[i].identity, connection, eventType)
                       else Legacy(listeners[i].identity, eventType))
  {
    seq(|listeners|, i requires 0 <= i < |listeners| =>
      if listeners[i].isListener2 then ForConnection(listeners[i].identity, connection, eventType)
      else Legacy(listeners[i].identity, eventType))
  }

  /** The deprecated `notifyListeners(type)`: the legacy callback on every listener. */
  function NotifyAllLegacy(listeners: seq<Listener>, eventType: int): (r: seq<Notification>)
    ensures |r| == |listeners|
    ensures forall i :: 0 <= i < |r| ==> r[i] == Legacy(listeners[i].identity, eventType)
  {
    seq(|listeners|, i requires 0 <= i < |listeners| => Legacy(listeners[i].identity, eventType))
  }

  function Notified(m: Manager, connection: string, eventType: int): Manager
  {
    m.(notifications := m.notifications + NotifyAll(RegisteredListeners(m), connection, eventType))
  }

  /** Each listener receives exactly one callback per event, carrying the event type. */
  lemma NotifyOncePerListener(listeners: seq<Listener>, connection: string, eventType: int, l: Listener)
    requires forall i, j :: 0 <= i < j < |listeners| ==> listeners[i].identity != listeners[j].identity
    requires l in listeners
    ensures exists i :: 0 <= i < |listeners| && listeners[i] == l
              && NotifyAll(listeners, connection, eventType)[i].listener == l.identity
              && NotifyAll(listeners, connection, eventType)[i].eventType == eventType
              && forall j :: 0 <= j < |listeners| && j != i ==>
                   NotifyAll(listeners, connection, eventType)[j].listener != l.identity
  {
    var i :| 0 <= i < |listeners| && listeners[i] == l;
    var r := NotifyAll(listeners, connection, eventType);
    assert r[i].listener == l.identity;
  }

  /**
   * Whether `open(true)` succeeds for a stored connection during a
   * reload: a connection that already has a client returns at once, and
   * any other succeeds when the oracle says so.
   */
  predicate OpensOnReload(c: Connection, opens: Opener)
  {
    c.isOpen || opens(c.name)
  }

  /**
   * `reloadConnections` over the stored list: the list is replaced
   * wholesale; each connection that opens, including one already open,
   * is marked open and announced with one ADD event; one that fails to
   * open stays in the list, closed and unannounced.
   */
  function ReloadConnections(m: Manager, stored: seq<Connection>, opens: Opener): (r: Manager)
    ensures |r.connections| == |stored|
    ensures forall i :: 0 <= i < |stored| ==>
              r.connections[i].name == stored[i].name
              && r.connections[i].isOpen == OpensOnReload(stored[i], opens)
    ensures r.listeners == m.listeners && r.saves == m.saves
    ensures r.refreshThreadsDropped == m.refreshThreadsDropped
    ensures r.notifications == m.notifications + ReloadNotifications(RegisteredListeners(m), stored, opens)
  {
    var announced := ReloadNotifications(RegisteredListeners(m), stored, opens);
    m.(connections := ReloadStates(stored, opens), notifications := m.notifications + announced)
  }

  function ReloadStates(stored: seq<Connection>, opens: Opener): (r: seq<Connection>)
    ensures |r| == |stored|
    ensures forall i :: 0 <= i < |stored| ==> r[i] == Connection(stored[i].name, OpensOnReload(stored[i], opens))
  {
    seq(|stored|, i requires 0 <= i < |stored| => Connection(stored[i].name, OpensOnReload(stored[i], opens)))
  }

  /** The ADD events of a reload, connection by connection. */
  function ReloadNotifications(listeners: seq<Listener>, stored: seq<Connection>, opens: Opener): seq<Notification>
  {
    if |stored| == 0 then []
    else
      (if OpensOnReload(stored[0], opens) then NotifyAll(listeners, stored[0].name, ADD_EVENT) else [])
      + ReloadNotifications(listeners, stored[1..], opens)
  }

  function CountOpening(stored: seq<Connection>, opens: Opener): nat
  {
    if |stored| == 0 then 0 else (if OpensOnReload(stored[0], opens) then 1 else 0) + CountOpening(stored[1..], opens)
  }

  /** A reload makes one callback per listener for every connection that opens, and no other. */
  lemma {:induction false} ReloadNotificationCount(listeners: seq<Listener>, stored: seq<Connection>, opens: Opener)
    ensures |ReloadNotifications(listeners, stored, opens)| == |listeners| * CountOpening(stored, opens)
    ensures forall n :: n in ReloadNotifications(listeners, stored, opens) ==> n.eventType == ADD_EVENT
    decreases |stored|
  {
    if |stored| > 0 {
      ReloadNotificationCount(listeners, stored[1..], opens);
    }
  }

  /**
   * A listener of the newer kind hears of a connection name on reload
   * exactly when some stored connection of that name opens, whether it
   * was already open or opened now.
   */
  lemma {:induction false} ReloadAnnouncesOpened(listeners: seq<Listener>, stored: seq<Connection>, opens: Opener,
                                                 l: Listener, name: string)
    requires l in listeners && l.isListener2
    ensures ForConnection(l.identity, name, ADD_EVENT) in ReloadNotifications(listeners, stored, opens)
            <==> exists i :: 0 <= i < |stored| && stored[i].name == name && OpensOnReload(stored[i], opens)
    decreases |stored|
  {
    if |stored| > 0 {
      ReloadAnnouncesOpened(listeners, stored[1..], opens, l, name);
      var head := if OpensOnReload(stored[0], opens) then NotifyAll(listeners, stored[0].name, ADD_EVENT) else [];
      assert ReloadNotifications(listeners, stored, opens) == head + ReloadNotifications(listeners, stored[1..], opens);
      AnnouncedInHead(listeners, stored[0].name, l, name);
      assert (exists i :: 0 <= i < |stored| && stored[i].name == name && OpensOnReload(stored[i], opens))
             <==> (stored[0].name == name && OpensOnReload(stored[0], opens))
                  || (exists i :: 0 <= i < |stored[1..]| && stored[1..][i].name == name && OpensOnReload(stored[1..][i], opens)) by {
        if exists i :: 0 <= i < |stored| && stored[i].name == name && OpensOnReload(stored[i], opens) {
          var i :| 0 <= i < |stored| && stored[i].name == name && OpensOnReload(stored[i], opens);
          if i > 0 {
            assert stored[1..][i - 1] == stored[i];
          }
        }
        if exists i :: 0 <= i < |stored[1..]| && stored[1..][i].name == name && OpensOnReload(stored[1..][i], opens) {
          var i :| 0 <= i < |stored[1..]| && stored[1..][i].name == name && OpensOnReload(stored[1..][i], opens);
          assert stored[i + 1] == stored[1..][i];
        }
      }
    }
  }

  /** The ADD callbacks for one connection reach a newer listener under that connection's name only. */
  lemma AnnouncedInHead(listeners: seq<Listener>, connection: string, l: Listener, name: string)
    requires l in listeners && l.isListener2
    ensures ForConnection(l.identity, name, ADD_EVENT) in NotifyAll(listeners, connection, ADD_EVENT) <==> name == connection
  {
    var r := NotifyAll(listeners, connection, ADD_EVENT);
    if name == connection {
      var i :| 0 <= i < |listeners| && listeners[i] == l;
      assert r[i] == ForConnection(l.identity, name, ADD_EVENT);
    }
  }

  /**
   * `addConnection`: a closed connection is opened first, and a failure
   * to open propagates with nothing changed. Otherwise the connection is
   * appended (without a check for a duplicate name), the list is saved
   * and one ADD event is sent.
   */
  function AddConnection(m: Manager, c: Connection, opens: Opener): (r: Attempt)
    ensures r.OpenFailed? <==> !c.isOpen && !opens(c.name)
    ensures r.Succeeded? ==>
              r.manager.connections == m.connections + [Connection(c.name, true)]
              && r.manager.saves == m.saves + 1
              && r.manager.listeners == m.listeners
              && r.manager.refreshThreadsDropped == m.refreshThreadsDropped
              && r.manager.notifications == m.notifications + NotifyAll(RegisteredListeners(m), c.name, ADD_EVENT)
  {
    if !c.isOpen && !opens(c.name) then OpenFailed
    else
      var added := m.(connections := m.connections + [Connection(c.name, true)], saves := m.saves + 1);
      Succeeded(Notified(added, c.name, ADD_EVENT))
  }

  /** `List.remove`: drops the first element equal to `c`, if there is one. */
  function RemoveFirst(conns: seq<Connection>, name: string): (r: seq<Connection>)
    ensures FirstNamed(conns, name).None? ==> r == conns
    ensures FirstNamed(conns, name).Some? ==>
              var i := FirstNamed(conns, name).value;
              r == conns[..i] + conns[i + 1..]
  {
    if |conns| == 0 then []
    else if conns[0].name == name then conns[1..]
    else [conns[0]] + RemoveFirst(conns[1..], name)
  }

  /**
   * `removeConnection`: removes the first connection with the same name,
   * saves, sends one REMOVE event and drops the connection's refresh
   * thread, whether or not the connection was registered.
   */
  function RemoveConnection(m: Manager, c: Connection): (r: Manager)
    ensures |r.connections| == |m.connections| - (if c.name in ConnectionNames(m) then 1 else 0)
    ensures c.name !in ConnectionNames(m) ==> r.connections == m.connections
    ensures c.name in ConnectionNames(m) ==>
              exists i :: 0 <= i < |m.connections| && m.connections[i].name == c.name
                          && (forall j :: 0 <= j < i ==> m.connections[j].name != c.name)
                          && r.connections == m.connections[..i] + m.connections[i + 1..]
    ensures r.saves == m.saves + 1
    ensures r.listeners == m.listeners
    ensures r.notifications == m.notifications + NotifyAll(RegisteredListeners(m), c.name, REMOVE_EVENT)
    ensures r.refreshThreadsDropped == m.refreshThreadsDropped + [c.name]
  {
    FindIffListed(m, c.name);
    var removed := m.(connections := RemoveFirst(m.connections, c.name), saves := m.saves + 1);
    Notified(removed, c.name, REMOVE_EVENT).(refreshThreadsDropped := m.refreshThreadsDropped + [c.name])
  }

  /** Adding a connection under a new name and removing it again restores the list. */
  lemma RemoveUndoesAdd(m: Manager, c: Connection, opens: Opener)
    requires c.name !in ConnectionNames(m)
    requires AddConnection(m, c, opens).Succeeded?
    ensures RemoveConnection(AddConnection(m, c, opens).manager, c).connections == m.connections
  {
    var added := AddConnection(m, c, opens).manager;
    FindIffListed(m, c.name);
    assert FirstNamed(added.connections, c.name) == Some(|m.connections|) by {
      FirstNamedAfterAppend(m.connections, Connection(c.name, true));
    }
    assert added.connections[..|m.connections|] == m.connections;
  }

  lemma {:induction false} FirstNamedAfterAppend(conns: seq<Connection>, c: Connection)
    requires FirstNamed(conns, c.name).None?
    ensures FirstNamed(conns + [c], c.name) == Some(|conns|)
    decreases |conns|
  {
    if |conns| > 0 {
      assert (conns + [c])[1..] == conns[1..] + [c];
      FirstNamedAfterAppend(conns[1..], c);
    }
  }

  /** After a successful add, looking the name up finds the new connection unless an older one shares its name. */
  lemma FindAfterAdd(m: Manager, c: Connection, opens: Opener)
    requires AddConnection(m, c, opens).Succeeded?
    ensures var found := FindConnection(AddConnection(m, c, opens).manager, Some(c.name));
            found == (if c.name in ConnectionNames(m) then FindConnection(m, Some(c.name))
                      else Some(Connection(c.name, true)))
  {
    var added := AddConnection(m, c, opens).manager;
    FindIffListed(m, c.name);
    if c.name !in ConnectionNames(m) {
      FirstNamedAfterAppend(m.connections, Connection(c.name, true));
    } else {
      FirstNamedOfExtension(m.connections, [Connection(c.name, true)], c.name);
    }
  }

  lemma {:induction false} FirstNamedOfExtension(conns: seq<Connection>, more: seq<Connection>, name: string)
    requires FirstNamed(conns, name).Some?
    ensures FirstNamed(conns + more, name) == FirstNamed(conns, name)
    decreases |conns|
  {
    if conns[0].name != name {
      assert (conns + more)[1..] == conns[1..] + more;
      FirstNamedOfExtension(conns[1..], more, name);
    }
  }

  /**
   * `notifyConnectionRename`: saves and sends RENAME through the legacy
   * one-argument callback, to every listener including two-argument ones;
   * the connection list is untouched.
   */
  function NotifyConnectionRename(m: Manager): (r: Manager)
    ensures r.connections == m.connections && r.listeners == m.listeners
    ensures r.saves == m.saves + 1
    ensures r.notifications == m.notifications + NotifyAllLegacy(RegisteredListeners(m), RENAME_EVENT)
    ensures forall n :: n in r.notifications[|m.notifications|..] ==> n.Legacy? && n.eventType == RENAME_EVENT
  {
    var saved := m.(saves := m.saves + 1);
    var r := saved.(notifications := m.notifications + NotifyAllLegacy(RegisteredListeners(m), RENAME_EVENT));
    assert r.notifications[|m.notifications|..] == NotifyAllLegacy(RegisteredListeners(m), RENAME_EVENT);
    r
  }

  predicate DistinctListeners(ls: seq<Listener>)
  {
    forall i, j :: 0 <= i < j < |ls| ==> ls[i].identity != ls[j].identity
  }

  predicate IsRegistered(ls: seq<Listener>, identity: nat)
  {
    exists i :: 0 <= i < |ls| && ls[i].identity == identity
  }

  /**
   * `addConnectionManagerListener`: creates the identity-based list on
   * first use and appends the listener unless that very listener is
   * already registered.
   */
  function AddListener(m: Manager, l: Listener): (r: Manager)
    ensures r.connections == m.connections && r.notifications == m.notifications && r.saves == m.saves
    ensures r.listeners.Some?
    ensures IsRegistered(m.listeners.GetOr([]), l.identity) ==> r.listeners.value == m.listeners.GetOr([])
    ensures !IsRegistered(m.listeners.GetOr([]), l.identity) ==> r.listeners.value == m.listeners.GetOr([]) + [l]
    ensures DistinctListeners(m.listeners.GetOr([])) ==> DistinctListeners(r.listeners.value)
  {
    var ls := m.listeners.GetOr([]);
    if IsRegistered(ls, l.identity) then m.(listeners := Some(ls))
    else m.(listeners := Some(ls + [l]))
  }

  /** `removeConnectionManagerListener`: drops the listener with that identity, if the list exists. */
  function RemoveListener(m: Manager, identity: nat): (r: Manager)
    ensures r.connections == m.connections && r.notifications == m.notifications && r.saves == m.saves
    ensures m.listeners.None? ==> r.listeners.None?
    ensures m.listeners.Some? ==> r.listeners.Some? && !IsRegistered(r.listeners.value, identity)
    ensures m.listeners.Some? ==> forall l :: l in r.listeners.value <==> l in m.listeners.value && l.identity != identity
  {
    if m.listeners.None? then m
    else m.(listeners := Some(WithoutListener(m.listeners.value, identity)))
  }

  function WithoutListener(ls: seq<Listener>, identity: nat): (r: seq<Listener>)
    ensures forall l :: l in r <==> l in ls && l.identity != identity
    ensures !IsRegistered(r, identity)
  {
    if |ls| == 0 then []
    else if ls[0].identity == identity then WithoutListener(ls[1..], identity)
    else [ls[0]] + WithoutListener(ls[1..], identity)
  }

  /** Adding the same listener twice is the same as adding it once. */
  lemma AddListenerIdempotent(m: Manager, l: Listener)
    ensures AddListener(AddListener(m, l), l) == AddListener(m, l)
  {
    var ls := m.listeners.GetOr([]);
    if !IsRegistered(ls, l.identity) {
      assert (ls + [l])[|ls|].identity == l.identity;
    }
  }

  /** Removing a listener that was just added under a fresh identity restores the listener list. */
  lemma RemoveUndoesAddListener(m: Manager, l: Listener)
    requires m.listeners.Some? && !IsRegistered(m.listeners.value, l.identity)
    ensures RemoveListener(AddListener(m, l), l.identity).listeners == m.listeners
  {
    WithoutAbsentListener(m.listeners.value, l.identity);
    WithoutListenerAppend(m.listeners.value, l);
  }

  lemma {:induction false} WithoutAbsentListener(ls: seq<Listener>, identity: nat)
    requires !IsRegistered(ls, identity)
    ensures WithoutListener(ls, identity) == ls
    decreases |ls|
  {
    if |ls| > 0 {
      assert ls[0].identity != identity;
      assert !IsRegistered(ls[1..], identity) by {
        forall i | 0 <= i < |ls[1..]|
          ensures ls[1..][i].identity != identity
        {
          assert ls[1..][i] == ls[i + 1];
        }
      }
      WithoutAbsentListener(ls[1..], identity);
    }
  }

  lemma {:induction false} WithoutListenerAppend(ls: seq<Listener>, l: Listener)
    ensures WithoutListener(ls + [l], l.identity) == WithoutListener(ls, l.identity)
    decreases |ls|
  {
    if |ls| == 0 {
      assert WithoutListener([l], l.identity) == WithoutListener([], l.identity);
    } else {
      assert (ls + [l])[1..] == ls[1..] + [l];
      WithoutListenerAppend(ls[1..], l);
    }
  }
}
