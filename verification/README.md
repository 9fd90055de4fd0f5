# Eclipse Linux Tools core, modelled in Dafny

This project models several parts of the Eclipse Linux Tools plug-ins, each as a pure Dafny model with proved properties:

- **Docker tooling:**
  - the Docker connection:
    - its builder's normalisation of socket paths and TCP hosts;
    - the container and image caches;
    - log threads;
    - action jobs;
    - the byte-buffer helpers of the attach pump;
  - the connection manager and its listeners;
  - the launch-configuration utilities;
  - the Dockerfile instruction count;
  - the image-build progress handler and build job;
  - the run-image wizard's models and pages:
    - resources, volumes and variables;
    - data volumes;
    - image selection;
  - the build-image page;
  - the new-connection page's validators;
  - the Dockerfile property tester.
- **SystemTap:**
  - the heuristic scanner of the script editor;
  - the `stap` command generator.
- **gcov:** the action that opens gcov data files.
- **TMF:** the coalesced data request, as its unit test describes it.

Each module is in its own file. Most modules model one Java class; two do not:

- `AttachStream` models the static byte-buffer helpers of `DockerConnection` (`attachCommand`'s output pump, `shiftLeft`, `getByteLength`, `removeTerminalCodes`). They are kept apart from the connection's state because they act only on buffers.
- `WizardSupport` models no class of its own. It holds what several wizard pages share: the `ValidationStatus` results their validators return, and the content-proposal filter of the connection and image combos (an anonymous provider in `ImageBuildPage`).


| module | file |
|---|---|
| `DockerConnection` | `docker_connection.dfy` |
| `AttachStream` | `attach_stream.dfy` |
| `ConnectionManager` | `connection_manager.dfy` |
| `StpScanner` | `stp_scanner.dfy` |
| `CoalescedRequest` | `coalesced_request.dfy` |
| `LaunchConfig` | `launch_config.dfy` |
| `StapCommand` | `stap_command.dfy` |
| `ImageBuildUtils` | `image_build_utils.dfy` |
| `ImageBuildProgress` | `image_build_progress.dfy` |
| `ImageBuildJob` | `image_build_job.dfy` |
| `RunResources` | `run_resources.dfy` |
| `DataVolume` | `data_volume.dfy` |
| `WizardSupport` | `wizard_support.dfy` |
| `ImageBuildPage` | `image_build_page.dfy` |
| `RunSelection` | `run_selection.dfy` |
| `NewConnection` | `new_connection.dfy` |
| `GcovOpen` | `gcov_open.dfy` |
| `DockerfileTester` | `dockerfile_tester.dfy` |

Two modules hold shared helpers:

- `JavaLang` models the Java library behaviour the code relies on:
  - `String.split` with its trailing-empty-field rule;
  - `trim`, `replace`, `indexOf`, `lastIndexOf` and `compareTo`;
  - ASCII `equalsIgnoreCase`;
  - 32- and 64-bit wrap-around;
  - truncating division;
  - decimal rendering and parsing.
- `Seqs` holds filtering, counting and subsequences.

How Java constructs are modelled:

- A Java `null` is an `Option`.
- A thrown exception is a constructor of the operation's outcome datatype.
- Mutable objects are immutable datatypes that each operation returns updated.
- Everything outside the code is a parameter of the operation, including:
  - the Docker daemon's answers;
  - the file system;
  - `new URI(...)`;
  - the document partitioning;
  - the user's answers to dialogs;
  - message-bundle texts;
  - random UUIDs;
  - the clock.

## Model

| member | source | states |
|---|---|---|
| DockerConnection.WithUnixSocket | containers/org.eclipse.linuxtools.docker.core/src/org/eclipse/linuxtools/internal/docker/core/DockerConnection.java:108-114 | a null path clears the socket; a path with a URI scheme is stored as given, any other behind `unix://`; other fields are untouched |
| DockerConnection.WithTcpHost | containers/org.eclipse.linuxtools.docker.core/src/org/eclipse/linuxtools/internal/docker/core/DockerConnection.java:116-124 | a null host changes nothing; a schemeless host without `tcp://` is stored behind `http://`, a host with a scheme and no `tcp://` as given; no `tcp://` is ever left |
| DockerConnection.WithTcpCertPath | containers/org.eclipse.linuxtools.docker.core/src/org/eclipse/linuxtools/internal/docker/core/DockerConnection.java:126-132 | the path is stored; with a host already set, every `http://` in it is replaced by `https://`, so none remains |
| DockerConnection.Build | containers/org.eclipse.linuxtools.docker.core/src/org/eclipse/linuxtools/internal/docker/core/DockerConnection.java:134-140 | a socket path, when set, wins over the TCP settings; otherwise the host and certificate path are carried over |
| DockerConnection.Uri | containers/org.eclipse.linuxtools.docker.core/src/org/eclipse/linuxtools/internal/docker/core/DockerConnection.java:315-318 | the URI is the socket path, or else the TCP host |
| DockerConnection.UnixSocketIdempotent | containers/org.eclipse.linuxtools.docker.core/src/org/eclipse/linuxtools/internal/docker/core/DockerConnection.java:108-114 | normalising a socket path twice is normalising it once |
| DockerConnection.TcpHostIdempotent | containers/org.eclipse.linuxtools.docker.core/src/org/eclipse/linuxtools/internal/docker/core/DockerConnection.java:116-124 | normalising a TCP host twice is normalising it once |
| DockerConnection.TcpSchemeBecomesHttp | containers/org.eclipse.linuxtools.docker.core/src/org/eclipse/linuxtools/internal/docker/core/DockerConnection.java:116-124 | a host given as `tcp://rest` is stored as `http://rest` |
| DockerConnection.CertPathOrderMatters | containers/org.eclipse.linuxtools.docker.core/src/org/eclipse/linuxtools/internal/docker/core/DockerConnection.java:116-132 | the certificate path upgrades `http://` only when set after the host; set before, the host keeps `http://` |
| DockerConnection.ListContainers | containers/org.eclipse.linuxtools.docker.core/src/org/eclipse/linuxtools/internal/docker/core/DockerConnection.java:513-558 | a closed client lists nothing; a failure throws; otherwise exactly the threads of exited containers are asked to stop, once each, and dropped, then the listed containers are cached and announced |
| DockerConnection.ListContainersKeepsOrder | containers/org.eclipse.linuxtools.docker.core/src/org/eclipse/linuxtools/internal/docker/core/DockerConnection.java:513-558 | the listed containers are a subsequence of the daemon's list, as many as pass the removal filter |
| DockerConnection.GetContainers | containers/org.eclipse.linuxtools.docker.core/src/org/eclipse/linuxtools/internal/docker/core/DockerConnection.java:399-418 | a loaded cache is returned unless forced; a successful refresh returns and caches what `ListContainers` lists, with its events and reaping; a failed refresh empties the cache and returns the old value |
| DockerConnection.GetContainersCaches | containers/org.eclipse.linuxtools.docker.core/src/org/eclipse/linuxtools/internal/docker/core/DockerConnection.java:399-418 | after any read, an unforced read changes nothing and returns the cache |
| DockerConnection.ListImages | containers/org.eclipse.linuxtools.docker.core/src/org/eclipse/linuxtools/internal/docker/core/DockerConnection.java:655-712 | a closed client lists nothing; a failure throws; otherwise one entry per raw image and repository group, carrying the image's id, parent and tags, intermediate exactly when untagged and some image's parent, dangling exactly when untagged and not intermediate |
| DockerConnection.ImageEntriesTags | containers/org.eclipse.linuxtools.docker.core/src/org/eclipse/linuxtools/internal/docker/core/DockerConnection.java:683-691 | every entry is intermediate exactly when untagged and a parent, dangling exactly when untagged and no parent, never both |
| DockerConnection.ImageEntriesAppend | containers/org.eclipse.linuxtools.docker.core/src/org/eclipse/linuxtools/internal/docker/core/DockerConnection.java:683-702 | the entries of a concatenated list are the entries of each part, in order |
| DockerConnection.ImageEntriesOfOne | containers/org.eclipse.linuxtools.docker.core/src/org/eclipse/linuxtools/internal/docker/core/DockerConnection.java:694-702 | one raw image gives one entry per repository group, in the grouping's order, carrying its id, parent and tags |
| DockerConnection.GetImages | containers/org.eclipse.linuxtools.docker.core/src/org/eclipse/linuxtools/internal/docker/core/DockerConnection.java:629-648 | a loaded cache is returned unless forced; a successful refresh returns and caches what `ListImages` lists; a failed refresh empties the cache and returns the old value; a closed client gives an empty list |
| DockerConnection.GetImagesCaches | containers/org.eclipse.linuxtools.docker.core/src/org/eclipse/linuxtools/internal/docker/core/DockerConnection.java:629-648 | after any read, an unforced read changes nothing and returns the cache |
| DockerConnection.Status | containers/org.eclipse.linuxtools.docker.core/src/org/eclipse/linuxtools/internal/docker/core/DockerConnection.java:1191-1201 | logging status is none without a thread, active with a live one, complete otherwise |
| DockerConnection.LogContainer | containers/org.eclipse.linuxtools.docker.core/src/org/eclipse/linuxtools/internal/docker/core/DockerConnection.java:1216-1247 | a missing container or failing daemon throws; a live thread is kept and the new stream closed; otherwise a failed client copy throws, and a successful one adds exactly one new thread, following while the container runs |
| DockerConnection.LogAgainAfterEnd | containers/org.eclipse.linuxtools.docker.core/src/org/eclipse/linuxtools/internal/docker/core/DockerConnection.java:1191-1247 | once a log thread ends, logging the container again starts a fresh active thread on the new stream |
| DockerConnection.UnpauseContainer | containers/org.eclipse.linuxtools.docker.core/src/org/eclipse/linuxtools/internal/docker/core/DockerConnection.java:1038-1070 | a failed reply throws; with a stream and a live thread, only the stream is closed before the refresh; with a stream and no live thread, a failed client copy throws and otherwise a following thread is attached; then the list is refreshed |
| DockerConnection.StartContainer | containers/org.eclipse.linuxtools.docker.core/src/org/eclipse/linuxtools/internal/docker/core/DockerConnection.java:1104-1135 | with a stream, known info and no TTY a following thread on that stream is attached unless a live one exists; a failed client copy throws; otherwise only the list is refreshed |
| DockerConnection.StartContainerLogged | containers/org.eclipse.linuxtools.docker.core/src/org/eclipse/linuxtools/internal/docker/core/DockerConnection.java:1137-1171 | the thread is keyed by the logging id and created only with auto-logging on, no TTY and no live thread; otherwise the list is just refreshed; a failed client copy throws; missing info throws a null reference |
| DockerConnection.StopContainer | containers/org.eclipse.linuxtools.docker.core/src/org/eclipse/linuxtools/internal/docker/core/DockerConnection.java:977-1020 | after stop or kill the container has no log thread, and a kill is recorded exactly when it had one |
| DockerConnection.GetActionJob | containers/org.eclipse.linuxtools.docker.core/src/org/eclipse/linuxtools/internal/docker/core/DockerConnection.java:368-376 | a job is found exactly when the registry exists and holds the id |
| DockerConnection.RegisterActionJob | containers/org.eclipse.linuxtools.docker.core/src/org/eclipse/linuxtools/internal/docker/core/DockerConnection.java:378-384 | the id maps to the new job and every other id is unchanged |
| DockerConnection.RemoveActionJob | containers/org.eclipse.linuxtools.docker.core/src/org/eclipse/linuxtools/internal/docker/core/DockerConnection.java:386-392 | the entry is removed only when it holds this very job; other ids are unchanged |
| DockerConnection.StaleRemovalKeepsNewerJob | containers/org.eclipse.linuxtools.docker.core/src/org/eclipse/linuxtools/internal/docker/core/DockerConnection.java:378-392 | a finished job does not remove a newer job registered for the same id |
| AttachStream.ShiftLeft | containers/org.eclipse.linuxtools.docker.core/src/org/eclipse/linuxtools/internal/docker/core/DockerConnection.java:1420-1428 | the buffer is the bytes from the index onward followed by zeros, same length |
| AttachStream.ShiftedLeftIsDropAndPad | containers/org.eclipse.linuxtools.docker.core/src/org/eclipse/linuxtools/internal/docker/core/DockerConnection.java:1420-1428 | shifting by k drops k bytes and pads k zeros |
| AttachStream.ShiftedLeftTwice | containers/org.eclipse.linuxtools.docker.core/src/org/eclipse/linuxtools/internal/docker/core/DockerConnection.java:1420-1428 | shifting by j then k is shifting by j + k |
| AttachStream.GetByteLength | containers/org.eclipse.linuxtools.docker.core/src/org/eclipse/linuxtools/internal/docker/core/DockerConnection.java:1433-1444 | the result is the length of the non-zero prefix; the second return branch is dead |
| AttachStream.NonZeroPrefixUnique | containers/org.eclipse.linuxtools.docker.core/src/org/eclipse/linuxtools/internal/docker/core/DockerConnection.java:1433-1444 | only one length satisfies the non-zero-prefix characterisation |
| AttachStream.EchoIndex | containers/org.eclipse.linuxtools.docker.core/src/org/eclipse/linuxtools/internal/docker/core/DockerConnection.java:1335-1351 | the echo index is zero after any mismatch, else the number of non-zero command bytes |
| AttachStream.EchoOfExactCommand | containers/org.eclipse.linuxtools.docker.core/src/org/eclipse/linuxtools/internal/docker/core/DockerConnection.java:1335-1351 | a buffer that starts with exactly the previous command yields the command's length |
| AttachStream.EchoBrokenByMismatch | containers/org.eclipse.linuxtools.docker.core/src/org/eclipse/linuxtools/internal/docker/core/DockerConnection.java:1335-1351 | any differing byte outside the CR/LF pair cancels the echo |
| AttachStream.RemoveTerminalCodes | containers/org.eclipse.linuxtools.docker.core/src/org/eclipse/linuxtools/internal/docker/core/DockerConnection.java:1401-1414 | the stripped text is copied back over the buffer, zero-filled, and its non-zero length returned |
| AttachStream.CopyBackIdentity | containers/org.eclipse.linuxtools.docker.core/src/org/eclipse/linuxtools/internal/docker/core/DockerConnection.java:1401-1414 | copying back unchanged text of the buffer's length leaves the buffer as it was |
| AttachStream.TtyChunk | containers/org.eclipse.linuxtools.docker.core/src/org/eclipse/linuxtools/internal/docker/core/DockerConnection.java:1335-1353 | the written bytes are non-zero and follow the echo and its line end |
| AttachStream.HeaderChunk | containers/org.eclipse.linuxtools.docker.core/src/org/eclipse/linuxtools/internal/docker/core/DockerConnection.java:1354-1361 | reads of 8 bytes or more write the payload after the 8-byte header; shorter reads end the pump |
| AttachStream.ProcessChunk | containers/org.eclipse.linuxtools.docker.core/src/org/eclipse/linuxtools/internal/docker/core/DockerConnection.java:1314-1363 | a chunk is handled by the TTY or the header branch as the connection's TTY flag says |
| AttachStream.EchoDropped | containers/org.eclipse.linuxtools.docker.core/src/org/eclipse/linuxtools/internal/docker/core/DockerConnection.java:1335-1353 | echoing the command and a line end before the output writes just the output |
| ConnectionManager.ConnectionNames | containers/org.eclipse.linuxtools.docker.core/src/org/eclipse/linuxtools/docker/core/DockerConnectionManager.java:108-114 | one name per connection, in list order |
| ConnectionManager.FindConnection | containers/org.eclipse.linuxtools.docker.core/src/org/eclipse/linuxtools/docker/core/DockerConnectionManager.java:116-124 | null for a null name; otherwise the first connection with that name, or none when no connection has it |
| ConnectionManager.FindIffListed | containers/org.eclipse.linuxtools.docker.core/src/org/eclipse/linuxtools/docker/core/DockerConnectionManager.java:116-124 | a name is found exactly when it is among the connection names |
| ConnectionManager.NotifyAll | containers/org.eclipse.linuxtools.docker.core/src/org/eclipse/linuxtools/docker/core/DockerConnectionManager.java:194-209 | one callback per listener in order: the two-argument form for new listeners, the legacy form for others |
| ConnectionManager.NotifyAllLegacy | containers/org.eclipse.linuxtools.docker.core/src/org/eclipse/linuxtools/docker/core/DockerConnectionManager.java:177-183 | every listener gets the legacy one-argument callback |
| ConnectionManager.NotifyOncePerListener | containers/org.eclipse.linuxtools.docker.core/src/org/eclipse/linuxtools/docker/core/DockerConnectionManager.java:194-209 | each distinct listener receives exactly one callback per event |
| ConnectionManager.ReloadConnections | containers/org.eclipse.linuxtools.docker.core/src/org/eclipse/linuxtools/docker/core/DockerConnectionManager.java:53-66 | the list becomes the stored one; a connection that was already open or opens now is marked open and announced; the others stay closed |
| ConnectionManager.ReloadNotificationCount | containers/org.eclipse.linuxtools.docker.core/src/org/eclipse/linuxtools/docker/core/DockerConnectionManager.java:53-66 | a reload makes listeners times open-after-reload connections callbacks, all of them ADD |
| ConnectionManager.ReloadAnnouncesOpened | containers/org.eclipse.linuxtools.docker.core/src/org/eclipse/linuxtools/docker/core/DockerConnectionManager.java:53-66 | a newer listener hears ADD for a name exactly when a stored connection of that name is open after the reload |
| ConnectionManager.AddConnection | containers/org.eclipse.linuxtools.docker.core/src/org/eclipse/linuxtools/docker/core/DockerConnectionManager.java:126-134 | a failed open changes nothing; otherwise the connection is appended, saved and announced once |
| ConnectionManager.RemoveConnection | containers/org.eclipse.linuxtools.docker.core/src/org/eclipse/linuxtools/docker/core/DockerConnectionManager.java:136-146 | the first connection of that name goes and the others keep their order (the list is unchanged when none has it); saved, REMOVE sent, refresh thread dropped |
| ConnectionManager.RemoveUndoesAdd | containers/org.eclipse.linuxtools.docker.core/src/org/eclipse/linuxtools/docker/core/DockerConnectionManager.java:126-146 | adding a new name and removing it restores the list |
| ConnectionManager.FindAfterAdd | containers/org.eclipse.linuxtools.docker.core/src/org/eclipse/linuxtools/docker/core/DockerConnectionManager.java:116-134 | after an add the name is found, as the new connection unless an older one shares it |
| ConnectionManager.NotifyConnectionRename | containers/org.eclipse.linuxtools.docker.core/src/org/eclipse/linuxtools/docker/core/DockerConnectionManager.java:148-151 | the list is saved and RENAME goes through the legacy callback to every listener |
| ConnectionManager.AddListener | containers/org.eclipse.linuxtools.docker.core/src/org/eclipse/linuxtools/docker/core/DockerConnectionManager.java:153-159 | the listener is appended unless already registered; distinct listeners stay distinct |
| ConnectionManager.RemoveListener | containers/org.eclipse.linuxtools.docker.core/src/org/eclipse/linuxtools/docker/core/DockerConnectionManager.java:161-165 | the listener with that identity is gone and all others stay |
| ConnectionManager.AddListenerIdempotent | containers/org.eclipse.linuxtools.docker.core/src/org/eclipse/linuxtools/docker/core/DockerConnectionManager.java:153-159 | adding a listener twice is adding it once |
| ConnectionManager.RemoveUndoesAddListener | containers/org.eclipse.linuxtools.docker.core/src/org/eclipse/linuxtools/docker/core/DockerConnectionManager.java:153-165 | removing a freshly added listener restores the listener list |
| StpScanner.ScanForward | systemtap/org.eclipse.linuxtools.systemtap.ui.ide/src/org/eclipse/linuxtools/internal/systemtap/ui/ide/editors/stp/STPHeuristicScanner.java:785-819 | a found position lies within the bound and meets the stop condition |
| StpScanner.ScanBackward | systemtap/org.eclipse.linuxtools.systemtap.ui.ide/src/org/eclipse/linuxtools/internal/systemtap/ui/ide/editors/stp/STPHeuristicScanner.java:834-862 | a found position lies within the bound and meets the stop condition |
| StpScanner.ScanFromLeast | systemtap/org.eclipse.linuxtools.systemtap.ui.ide/src/org/eclipse/linuxtools/internal/systemtap/ui/ide/editors/stp/STPHeuristicScanner.java:785-819 | the forward scan finds the least stopping position, and reports none only when none exists |
| StpScanner.ScanBackFromGreatest | systemtap/org.eclipse.linuxtools.systemtap.ui.ide/src/org/eclipse/linuxtools/internal/systemtap/ui/ide/editors/stp/STPHeuristicScanner.java:834-862 | the backward scan finds the greatest stopping position, and reports none only when none exists |
| StpScanner.GetTokenIsKeywordOrIdent | systemtap/org.eclipse.linuxtools.systemtap.ui.ide/src/org/eclipse/linuxtools/internal/systemtap/ui/ide/editors/stp/STPHeuristicScanner.java:548-649 | a read word is an identifier or the keyword spelled exactly so |
| StpScanner.GetTokenOfSpelling | systemtap/org.eclipse.linuxtools.systemtap.ui.ide/src/org/eclipse/linuxtools/internal/systemtap/ui/ide/editors/stp/STPHeuristicScanner.java:548-649 | every keyword's spelling reads back as that keyword |
| StpScanner.GetTokenIdentIff | systemtap/org.eclipse.linuxtools.systemtap.ui.ide/src/org/eclipse/linuxtools/internal/systemtap/ui/ide/editors/stp/STPHeuristicScanner.java:548-649 | a word is an identifier exactly when it is no keyword |
| StpScanner.NextTokenAsWritten | systemtap/org.eclipse.linuxtools.systemtap.ui.ide/src/org/eclipse/linuxtools/internal/systemtap/ui/ide/editors/stp/STPHeuristicScanner.java:299-421 | the token as written, with the look-ahead that reads one character too far |
| StpScanner.NextTokenAsWrittenMissesDoubleColon | systemtap/org.eclipse.linuxtools.systemtap.ui.ide/src/org/eclipse/linuxtools/internal/systemtap/ui/ide/editors/stp/STPHeuristicScanner.java:519-530 | as written, `::` is read as a single colon |
| StpScanner.NextTokenAsWrittenMissesAggregate | systemtap/org.eclipse.linuxtools.systemtap.ui.ide/src/org/eclipse/linuxtools/internal/systemtap/ui/ide/editors/stp/STPHeuristicScanner.java:519-530 | as written, `<<<` is read as a shift and `<< ` as a comparison |
| StpScanner.NextToken | systemtap/org.eclipse.linuxtools.systemtap.ui.ide/src/org/eclipse/linuxtools/internal/systemtap/ui/ide/editors/stp/STPHeuristicScanner.java:299-421 | EOF leaves the scanner at or after the start position, any other token strictly after it |
| StpScanner.NextTokenLexesOperators | systemtap/org.eclipse.linuxtools.systemtap.ui.ide/src/org/eclipse/linuxtools/internal/systemtap/ui/ide/editors/stp/STPHeuristicScanner.java:299-421 | with the corrected look-ahead, an operator is lexed by longest match and the scanner stops just past it |
| StpScanner.NextTokenReadsWord | systemtap/org.eclipse.linuxtools.systemtap.ui.ide/src/org/eclipse/linuxtools/internal/systemtap/ui/ide/editors/stp/STPHeuristicScanner.java:388-406 | a run of identifier characters is read by `getToken` as a keyword or IDENT and the scanner stops at its end |
| StpScanner.NextTokenReadsQuote | systemtap/org.eclipse.linuxtools.systemtap.ui.ide/src/org/eclipse/linuxtools/internal/systemtap/ui/ide/editors/stp/STPHeuristicScanner.java:300-313 | a quote is read as OTHER and the scanner moves past it |
| StpScanner.NextTokenReadsOther | systemtap/org.eclipse.linuxtools.systemtap.ui.ide/src/org/eclipse/linuxtools/internal/systemtap/ui/ide/editors/stp/STPHeuristicScanner.java:409-410 | any other character is read as OTHER, one character long |
| StpScanner.ForwardOperatorLexes | systemtap/org.eclipse.linuxtools.systemtap.ui.ide/src/org/eclipse/linuxtools/internal/systemtap/ui/ide/editors/stp/STPHeuristicScanner.java:299-421 | the corrected forward look-ahead agrees with longest-match lexing |
| StpScanner.BackwardOperatorLexes | systemtap/org.eclipse.linuxtools.systemtap.ui.ide/src/org/eclipse/linuxtools/internal/systemtap/ui/ide/editors/stp/STPHeuristicScanner.java:423-517 | the backward look-ahead agrees with longest-match lexing read backward |
| StpScanner.PreviousToken | systemtap/org.eclipse.linuxtools.systemtap.ui.ide/src/org/eclipse/linuxtools/internal/systemtap/ui/ide/editors/stp/STPHeuristicScanner.java:423-517 | never yields AGGREGATE; a token lies before the start position |
| StpScanner.PreviousTokenReadsWord | systemtap/org.eclipse.linuxtools.systemtap.ui.ide/src/org/eclipse/linuxtools/internal/systemtap/ui/ide/editors/stp/STPHeuristicScanner.java:493-511 | a run of identifier characters ending at the last default non-whitespace character gives what `getToken` makes of it, with the scanner just before the run |
| StpScanner.PreviousTokenLexesOperators | systemtap/org.eclipse.linuxtools.systemtap.ui.ide/src/org/eclipse/linuxtools/internal/systemtap/ui/ide/editors/stp/STPHeuristicScanner.java:423-517 | an operator ending at the last default non-whitespace character is lexed backward |
| StpScanner.FindClosingPeer | systemtap/org.eclipse.linuxtools.systemtap.ui.ide/src/org/eclipse/linuxtools/internal/systemtap/ui/ide/editors/stp/STPHeuristicScanner.java:668-706 | the result is where the depth of default-partition peers first returns to zero, or not found |
| StpScanner.FindOpeningPeer | systemtap/org.eclipse.linuxtools.systemtap.ui.ide/src/org/eclipse/linuxtools/internal/systemtap/ui/ide/editors/stp/STPHeuristicScanner.java:725-757 | the mirror image of the closing peer, walking backward |
| StpScanner.ClosingPeerExample | systemtap/org.eclipse.linuxtools.systemtap.ui.ide/src/org/eclipse/linuxtools/internal/systemtap/ui/ide/editors/stp/STPHeuristicScanner.java:668-706 | in `(a)`, the peer of the opening parenthesis is at index 2 |
| StpScanner.IsBracelessBlockStart | systemtap/org.eclipse.linuxtools.systemtap.ui.ide/src/org/eclipse/linuxtools/internal/systemtap/ui/ide/editors/stp/STPHeuristicScanner.java:918-958 | true after `do` or `else`, or after a `)` whose `(` follows `if`, `for`, `foreach` or `while`; false before position 1 |
| CoalescedRequest.Create | lttng/org.eclipse.linuxtools.tmf.core.tests/src/org/eclipse/linuxtools/tmf/core/tests/request/TmfCoalescedDataRequestTest.java:106-172 | missing index is 0, missing count is ALL_DATA, the id is the counter, nothing ended |
| CoalescedRequest.CreateAllConsecutive | lttng/org.eclipse.linuxtools.tmf.core.tests/src/org/eclipse/linuxtools/tmf/core/tests/request/TmfCoalescedDataRequestTest.java:106-172 | requests created in a row get consecutive ids and their own arguments |
| CoalescedRequest.EqualsIsEquivalence | lttng/org.eclipse.linuxtools.tmf.core.tests/src/org/eclipse/linuxtools/tmf/core/tests/request/TmfCoalescedDataRequestTest.java:174-205 | equality is reflexive, symmetric, transitive and false for null |
| CoalescedRequest.EqualsIgnoresId | lttng/org.eclipse.linuxtools.tmf.core.tests/src/org/eclipse/linuxtools/tmf/core/tests/request/TmfCoalescedDataRequestTest.java:174-205 | equality depends on the arguments, never on the id |
| CoalescedRequest.ToString | lttng/org.eclipse.linuxtools.tmf.core.tests/src/org/eclipse/linuxtools/tmf/core/tests/request/TmfCoalescedDataRequestTest.java:217-231 | the text is bracketed by the class-name prefix and the closing suffix |
| CoalescedRequest.ParseOfToString | lttng/org.eclipse.linuxtools.tmf.core.tests/src/org/eclipse/linuxtools/tmf/core/tests/request/TmfCoalescedDataRequestTest.java:217-231 | reading the text back gives the id, index, count and block size |
| CoalescedRequest.ToStringExample | lttng/org.eclipse.linuxtools.tmf.core.tests/src/org/eclipse/linuxtools/tmf/core/tests/request/TmfCoalescedDataRequestTest.java:217-231 | the first request after a reset reads `[TmfCoalescedDataRequest(0,ITmfEvent,10,100,200)]` |
| CoalescedRequest.CompatibleIffGapAtMostOne | lttng/org.eclipse.linuxtools.tmf.core.tests/src/org/eclipse/linuxtools/tmf/core/tests/request/TmfCoalescedDataRequestTest.java:233-262 | compatible exactly when at most one index separates the ranges |
| CoalescedRequest.CompatibilityExamples | lttng/org.eclipse.linuxtools.tmf.core.tests/src/org/eclipse/linuxtools/tmf/core/tests/request/TmfCoalescedDataRequestTest.java:233-262 | the compatible and incompatible ranges of the test around (10, 100) |
| CoalescedRequest.Merge | lttng/org.eclipse.linuxtools.tmf.core.tests/src/org/eclipse/linuxtools/tmf/core/tests/request/TmfCoalescedDataRequestTest.java:264-354 | the merged range is the hull of both; block size and id stay |
| CoalescedRequest.MergeCovers | lttng/org.eclipse.linuxtools.tmf.core.tests/src/org/eclipse/linuxtools/tmf/core/tests/request/TmfCoalescedDataRequestTest.java:264-354 | the merge covers both ranges and, when compatible, at most the one-index gap besides |
| CoalescedRequest.MergeLaws | lttng/org.eclipse.linuxtools.tmf.core.tests/src/org/eclipse/linuxtools/tmf/core/tests/request/TmfCoalescedDataRequestTest.java:264-354 | merging is order-insensitive and absorbs a covered range |
| CoalescedRequest.AddRequest | lttng/org.eclipse.linuxtools.tmf.core.tests/src/org/eclipse/linuxtools/tmf/core/tests/request/TmfCoalescedDataRequestTest.java:264-354 | the sub-request is appended and the range grows to the merge |
| CoalescedRequest.AddRequestExamples | lttng/org.eclipse.linuxtools.tmf.core.tests/src/org/eclipse/linuxtools/tmf/core/tests/request/TmfCoalescedDataRequestTest.java:264-354 | the merged ranges the test asserts |
| CoalescedRequest.EndCoalesced | lttng/org.eclipse.linuxtools.tmf.core.tests/src/org/eclipse/linuxtools/tmf/core/tests/request/TmfCoalescedDataRequestTest.java:356-464 | an ending reaches every sub-request, then the coalesced request |
| CoalescedRequest.EndFresh | lttng/org.eclipse.linuxtools.tmf.core.tests/src/org/eclipse/linuxtools/tmf/core/tests/request/TmfCoalescedDataRequestTest.java:356-464 | ending a fresh request completes everything with that ending's flags and runs the completed handler then that ending's handler |
| CoalescedRequest.EndTwice | lttng/org.eclipse.linuxtools.tmf.core.tests/src/org/eclipse/linuxtools/tmf/core/tests/request/TmfCoalescedDataRequestTest.java:356-464 | a second ending changes nothing |
| CoalescedRequest.CancelSubsCancels | lttng/org.eclipse.linuxtools.tmf.core.tests/src/org/eclipse/linuxtools/tmf/core/tests/request/TmfCoalescedDataRequestTest.java:466-510 | exactly the listed sub-requests end cancelled |
| CoalescedRequest.CancelSubsCompletes | lttng/org.eclipse.linuxtools.tmf.core.tests/src/org/eclipse/linuxtools/tmf/core/tests/request/TmfCoalescedDataRequestTest.java:466-510 | the coalesced request counts as completed and cancelled exactly when all sub-requests are cancelled |
| CoalescedRequest.CancelAfterSubs | lttng/org.eclipse.linuxtools.tmf.core.tests/src/org/eclipse/linuxtools/tmf/core/tests/request/TmfCoalescedDataRequestTest.java:466-510 | cancelling afterwards runs the completed and cancel handlers |
| LaunchConfig.SerializePortBindings | containers/org.eclipse.linuxtools.docker.ui/src/org/eclipse/linuxtools/internal/docker/ui/launch/LaunchConfigurationUtils.java:155-187 | one `port:ip:hostPort` string per binding, entry after entry; nothing for null |
| LaunchConfig.SerializedBindingFields | containers/org.eclipse.linuxtools.docker.ui/src/org/eclipse/linuxtools/internal/docker/ui/launch/LaunchConfigurationUtils.java:155-187 | splitting a serialised binding at colons gives back its three parts |
| LaunchConfig.CreateLaunchConfiguration | containers/org.eclipse.linuxtools.docker.ui/src/org/eclipse/linuxtools/internal/docker/ui/launch/LaunchConfigurationUtils.java:95-153 | no repo tag throws, a refused save yields nothing, otherwise a configuration is saved naming the first tag, recording the settings and the serialised port bindings |
| LaunchConfig.GetLaunchConfigurationByImageName | containers/org.eclipse.linuxtools.docker.ui/src/org/eclipse/linuxtools/internal/docker/ui/launch/LaunchConfigurationUtils.java:189-212 | the first dated configuration of the image with the greatest date, or null when none is dated |
| StapCommand.BuildScript | systemtap/org.eclipse.linuxtools.systemtap.local.core/src/org/eclipse/linuxtools/systemtap/local/core/SystemTapCommandGenerator.java:88-127 | `stap`, the options, the script path and the arguments when there are any |
| StapCommand.CommandsIncludedIffNonEmpty | systemtap/org.eclipse.linuxtools.systemtap.local.core/src/org/eclipse/linuxtools/systemtap/local/core/SystemTapCommandGenerator.java:88-127 | the commands are an option exactly when non-empty |
| StapCommand.GenerateCommand | systemtap/org.eclipse.linuxtools.systemtap.local.core/src/org/eclipse/linuxtools/systemtap/local/core/SystemTapCommandGenerator.java:62-86 | a null commands or binary-argument string throws, leaving every field assigned and the previous command in place; otherwise the command joins the script's words with spaces |
| StapCommand.CommandSplitsIntoScript | systemtap/org.eclipse.linuxtools.systemtap.local.core/src/org/eclipse/linuxtools/systemtap/local/core/SystemTapCommandGenerator.java:62-86 | splitting the command at spaces gives the words back when none holds a space |
| ImageBuildUtils.NumberOfLines | containers/org.eclipse.linuxtools.docker.ui/src/org/eclipse/linuxtools/internal/docker/ui/utils/ImageBuildUtils.java:35-52 | a read failure is reported; otherwise the count of non-comment, non-blank lines |
| ImageBuildUtils.CountAppendLine | containers/org.eclipse.linuxtools.docker.ui/src/org/eclipse/linuxtools/internal/docker/ui/utils/ImageBuildUtils.java:35-52 | appending a line adds one exactly when it is an instruction |
| ImageBuildUtils.NoInstructions | containers/org.eclipse.linuxtools.docker.ui/src/org/eclipse/linuxtools/internal/docker/ui/utils/ImageBuildUtils.java:35-52 | comments and blank lines alone count zero |
| ImageBuildUtils.IndentedCommentCounts | containers/org.eclipse.linuxtools.docker.ui/src/org/eclipse/linuxtools/internal/docker/ui/utils/ImageBuildUtils.java:35-52 | an indented comment counts, since `#` is tested before trimming |
| ImageBuildProgress.NewHandler | containers/org.eclipse.linuxtools.docker.ui/src/org/eclipse/linuxtools/internal/docker/ui/views/ImageBuildProgressHandler.java:53-61 | no job and an empty console |
| ImageBuildProgress.StepPercentage | containers/org.eclipse.linuxtools.docker.ui/src/org/eclipse/linuxtools/internal/docker/ui/views/ImageBuildProgressHandler.java:110-113 | the percentage is a 32-bit value |
| ImageBuildProgress.ProcessMessage | containers/org.eclipse.linuxtools.docker.ui/src/org/eclipse/linuxtools/internal/docker/ui/views/ImageBuildProgressHandler.java:64-118 | an error fails the build; every other message is logged and never throws a null reference |
| ImageBuildProgress.ErrorBeforeJobAsWritten | containers/org.eclipse.linuxtools.docker.ui/src/org/eclipse/linuxtools/internal/docker/ui/views/ImageBuildProgressHandler.java:66-70 | as written, an error before any job throws a null reference; corrected, it fails the build |
| ImageBuildProgress.AsWrittenAgreesWithJob | containers/org.eclipse.linuxtools.docker.ui/src/org/eclipse/linuxtools/internal/docker/ui/views/ImageBuildProgressHandler.java:64-118 | both versions agree once a job exists or without an error |
| ImageBuildProgress.FirstMessageStartsJob | containers/org.eclipse.linuxtools.docker.ui/src/org/eclipse/linuxtools/internal/docker/ui/views/ImageBuildProgressHandler.java:73-89 | the first non-completing message schedules one job; a completing one refreshes images |
| ImageBuildProgress.CompleteReportsHundred | containers/org.eclipse.linuxtools.docker.ui/src/org/eclipse/linuxtools/internal/docker/ui/views/ImageBuildProgressHandler.java:91-96 | a completing message reports 100% and refreshes images |
| ImageBuildProgress.StepReportsPercentage | containers/org.eclipse.linuxtools.docker.ui/src/org/eclipse/linuxtools/internal/docker/ui/views/ImageBuildProgressHandler.java:97-114 | the number after the last step marker sets `100 * (n + 1) / lines` |
| ImageBuildProgress.StepPercentageBounded | containers/org.eclipse.linuxtools.docker.ui/src/org/eclipse/linuxtools/internal/docker/ui/views/ImageBuildProgressHandler.java:110-113 | within the file the percentage lies in 0..100 and grows with the step |
| ImageBuildProgress.PercentageUnwrapped | containers/org.eclipse.linuxtools.docker.ui/src/org/eclipse/linuxtools/internal/docker/ui/views/ImageBuildProgressHandler.java:110-113 | within the file no narrowing changes the value |
| ImageBuildProgress.StepPercentageUnclamped | containers/org.eclipse.linuxtools.docker.ui/src/org/eclipse/linuxtools/internal/docker/ui/views/ImageBuildProgressHandler.java:110-113 | a step past the last instruction reports more than 100 |
| ImageBuildProgress.ProcessAllLogs | containers/org.eclipse.linuxtools.docker.ui/src/org/eclipse/linuxtools/internal/docker/ui/views/ImageBuildProgressHandler.java:64-118 | every message that does not fail the build is logged once, in order |
| ImageBuildJob.Create | containers/org.eclipse.linuxtools.docker.ui/src/org/eclipse/linuxtools/internal/docker/ui/jobs/ImageBuildJob.java:82-100 | operations are the Dockerfile's instruction count; a read failure throws |
| ImageBuildJob.ProcessMessage | containers/org.eclipse.linuxtools.docker.ui/src/org/eclipse/linuxtools/internal/docker/ui/jobs/ImageBuildJob.java:140-158 | an error cancels and fails; a step without a monitor throws; otherwise logged, a step advancing the monitor |
| ImageBuildJob.DeliverCountsSteps | containers/org.eclipse.linuxtools.docker.ui/src/org/eclipse/linuxtools/internal/docker/ui/jobs/ImageBuildJob.java:140-158 | without errors, every message is logged and the monitor advances by the step count |
| ImageBuildJob.DeliverFailsOnError | containers/org.eclipse.linuxtools.docker.ui/src/org/eclipse/linuxtools/internal/docker/ui/jobs/ImageBuildJob.java:140-158 | the first error fails the build with it and leaves the job cancelled |
| ImageBuildJob.BuildNonEmpty | containers/org.eclipse.linuxtools.docker.ui/src/org/eclipse/linuxtools/internal/docker/ui/jobs/ImageBuildJob.java:108-132 | the console is cleared and the monitor sized `operations + 1` |
| ImageBuildJob.DeliverKeeps | containers/org.eclipse.linuxtools.docker.ui/src/org/eclipse/linuxtools/internal/docker/ui/jobs/ImageBuildJob.java:140-158 | delivery keeps the monitor and its size, console clears and warnings |
| ImageBuildJob.Run | containers/org.eclipse.linuxtools.docker.ui/src/org/eclipse/linuxtools/internal/docker/ui/jobs/ImageBuildJob.java:103-137 | the monitor ends done; an empty file only warns |
| ImageBuildJob.EmptyBuildFileAsWritten | containers/org.eclipse.linuxtools.docker.ui/src/org/eclipse/linuxtools/internal/docker/ui/jobs/ImageBuildJob.java:105-135 | as written, an empty Dockerfile ends in a null reference on the unset monitor |
| ImageBuildJob.RunAgreesOnNonEmpty | containers/org.eclipse.linuxtools.docker.ui/src/org/eclipse/linuxtools/internal/docker/ui/jobs/ImageBuildJob.java:103-137 | for a non-empty file both versions agree |
| ImageBuildJob.CleanBuildWorksSteps | containers/org.eclipse.linuxtools.docker.ui/src/org/eclipse/linuxtools/internal/docker/ui/jobs/ImageBuildJob.java:103-158 | a clean build logs everything, works one unit per step and opens no dialog |
| ImageBuildJob.DeliverKeepsFlags | containers/org.eclipse.linuxtools.docker.ui/src/org/eclipse/linuxtools/internal/docker/ui/jobs/ImageBuildJob.java:140-158 | without errors, nothing is cancelled and no dialog opens |
| ImageBuildJob.FailedBuildCancels | containers/org.eclipse.linuxtools.docker.ui/src/org/eclipse/linuxtools/internal/docker/ui/jobs/ImageBuildJob.java:103-158 | an error leaves the job cancelled with one error dialog and the monitor done |
| RunResources.NewModel | containers/org.eclipse.linuxtools.docker.ui/src/org/eclipse/linuxtools/internal/docker/ui/wizards/ImageRunResourceVolumesVariablesModel.java:41-71 | limits off, 512 MB, medium CPU weight, no volumes or variables |
| RunResources.GetTotalMemory | containers/org.eclipse.linuxtools.docker.ui/src/org/eclipse/linuxtools/internal/docker/ui/wizards/ImageRunResourceVolumesVariablesModel.java:178-180 | total memory in megabytes when it fits an int |
| RunResources.GetMemoryAsWritten | containers/org.eclipse.linuxtools.docker.ui/src/org/eclipse/linuxtools/internal/docker/ui/wizards/ImageRunResourceVolumesVariablesModel.java:207-209 | the 32-bit product, before widening |
| RunResources.GetMemory | containers/org.eclipse.linuxtools.docker.ui/src/org/eclipse/linuxtools/internal/docker/ui/wizards/ImageRunResourceVolumesVariablesModel.java:207-209 | the limit in bytes as a long |
| RunResources.MemoryRoundTrip | containers/org.eclipse.linuxtools.docker.ui/src/org/eclipse/linuxtools/internal/docker/ui/wizards/ImageRunResourceVolumesVariablesModel.java:178-209 | bytes read back in megabytes give the limit |
| RunResources.SmallLimitAgrees | containers/org.eclipse.linuxtools.docker.ui/src/org/eclipse/linuxtools/internal/docker/ui/wizards/ImageRunResourceVolumesVariablesModel.java:207-209 | below 2048 MB both versions agree |
| RunResources.LargeLimitWraps | containers/org.eclipse.linuxtools.docker.ui/src/org/eclipse/linuxtools/internal/docker/ui/wizards/ImageRunResourceVolumesVariablesModel.java:207-209 | as written, 2048 MB becomes -2^31 bytes and 4096 MB becomes 0 |
| RunResources.SetEnvironmentVariables | containers/org.eclipse.linuxtools.docker.ui/src/org/eclipse/linuxtools/internal/docker/ui/wizards/ImageRunResourceVolumesVariablesModel.java:154-167 | the variables become the entries splitting into two fields, in order |
| RunResources.VariableRoundTrip | containers/org.eclipse.linuxtools.docker.ui/src/org/eclipse/linuxtools/internal/docker/ui/wizards/ImageRunResourceVolumesVariablesModel.java:154-167 | `name=value` reads back as that variable |
| RunResources.TrailingSeparatorKept | containers/org.eclipse.linuxtools.docker.ui/src/org/eclipse/linuxtools/internal/docker/ui/wizards/ImageRunResourceVolumesVariablesModel.java:154-167 | `name=value=` still defines the variable |
| RunResources.EmptyValueDropped | containers/org.eclipse.linuxtools.docker.ui/src/org/eclipse/linuxtools/internal/docker/ui/wizards/ImageRunResourceVolumesVariablesModel.java:154-167 | `name=` is dropped |
| RunResources.SecondSeparatorDropped | containers/org.eclipse.linuxtools.docker.ui/src/org/eclipse/linuxtools/internal/docker/ui/wizards/ImageRunResourceVolumesVariablesModel.java:154-167 | `name=a=b` is dropped |
| RunResources.SetDataVolumes | containers/org.eclipse.linuxtools.docker.ui/src/org/eclipse/linuxtools/internal/docker/ui/wizards/ImageRunResourceVolumesVariablesModel.java:129-134 | the volumes become the given ones, none for null; nothing else changes |
| RunResources.RemoveDataVolume | containers/org.eclipse.linuxtools.docker.ui/src/org/eclipse/linuxtools/internal/docker/ui/wizards/ImageRunResourceVolumesVariablesModel.java:136-138 | the first volume with the same identity goes and the rest keep their order; nothing changes when none matches |
| RunResources.RemoveEnvironmentVariable | containers/org.eclipse.linuxtools.docker.ui/src/org/eclipse/linuxtools/internal/docker/ui/wizards/ImageRunResourceVolumesVariablesModel.java:169-172 | the first occurrence goes and the rest keep their order; nothing changes when it is absent |
| RunResources.SetSelectedImage | containers/org.eclipse.linuxtools.docker.ui/src/org/eclipse/linuxtools/internal/docker/ui/wizards/ImageRunResourceVolumesVariablesModel.java:102-115 | the same image changes nothing; otherwise one unmounted volume per declared path; a null image or volume list throws after the image was stored |
| RunResources.SelectTwiceKeepsVolumes | containers/org.eclipse.linuxtools.docker.ui/src/org/eclipse/linuxtools/internal/docker/ui/wizards/ImageRunResourceVolumesVariablesModel.java:102-115 | reselecting the image keeps edited volumes |
| RunResources.SelectedVolumesUnmounted | containers/org.eclipse.linuxtools.docker.ui/src/org/eclipse/linuxtools/internal/docker/ui/wizards/ImageRunResourceVolumesVariablesModel.java:102-115 | every declared volume starts unmounted at its path |
| DataVolume.Blank | containers/org.eclipse.linuxtools.docker.ui/src/org/eclipse/linuxtools/internal/docker/ui/wizards/DataVolumeModel.java:79-80 | every field unset, the remembered host and container mounts included |
| DataVolume.OfContainerPath | containers/org.eclipse.linuxtools.docker.ui/src/org/eclipse/linuxtools/internal/docker/ui/wizards/DataVolumeModel.java:82-85 | the path, not mounted |
| DataVolume.OfHostPath | containers/org.eclipse.linuxtools.docker.ui/src/org/eclipse/linuxtools/internal/docker/ui/wizards/DataVolumeModel.java:87-94 | the host path is both the remembered and the shown mount |
| DataVolume.CopyOf | containers/org.eclipse.linuxtools.docker.ui/src/org/eclipse/linuxtools/internal/docker/ui/wizards/DataVolumeModel.java:96-114 | a new identity; the shown mount goes to the per-type mount of its type |
| DataVolume.HostVolumeFromString | containers/org.eclipse.linuxtools.docker.ui/src/org/eclipse/linuxtools/internal/docker/ui/wizards/DataVolumeModel.java:63-78 | exactly three colon fields give a host volume, read-only when the mode contains `ro` |
| DataVolume.HostVolumeRoundTrip | containers/org.eclipse.linuxtools.docker.ui/src/org/eclipse/linuxtools/internal/docker/ui/wizards/DataVolumeModel.java:63-78 | `host:container:mode` reads back its parts |
| DataVolume.HostVolumeNeedsThreeFields | containers/org.eclipse.linuxtools.docker.ui/src/org/eclipse/linuxtools/internal/docker/ui/wizards/DataVolumeModel.java:63-78 | accepted exactly when there are three fields |
| DataVolume.EmptyModeRejected | containers/org.eclipse.linuxtools.docker.ui/src/org/eclipse/linuxtools/internal/docker/ui/wizards/DataVolumeModel.java:63-78 | `host:container:` is rejected |
| DataVolume.SetMountType | containers/org.eclipse.linuxtools.docker.ui/src/org/eclipse/linuxtools/internal/docker/ui/wizards/DataVolumeModel.java:137-150 | null ignored; NONE clears the shown mount |
| DataVolume.SetHostPathMount | containers/org.eclipse.linuxtools.docker.ui/src/org/eclipse/linuxtools/internal/docker/ui/wizards/DataVolumeModel.java:156-162 | remembered always, shown only for a host mount |
| DataVolume.SetContainerMount | containers/org.eclipse.linuxtools.docker.ui/src/org/eclipse/linuxtools/internal/docker/ui/wizards/DataVolumeModel.java:177-183 | remembered always, shown only for a container mount |
| DataVolume.MountFollowsType | containers/org.eclipse.linuxtools.docker.ui/src/org/eclipse/linuxtools/internal/docker/ui/wizards/DataVolumeModel.java:137-183 | the shown mount follows the chosen type |
| DataVolume.SetMountTypeIdempotent | containers/org.eclipse.linuxtools.docker.ui/src/org/eclipse/linuxtools/internal/docker/ui/wizards/DataVolumeModel.java:137-150 | setting a type twice is setting it once |
| DataVolume.CopyRestoresHostMount | containers/org.eclipse.linuxtools.docker.ui/src/org/eclipse/linuxtools/internal/docker/ui/wizards/DataVolumeModel.java:96-150 | a copy of a host volume re-shows its mount when the type is re-chosen |
| DataVolume.CompareTo | containers/org.eclipse.linuxtools.docker.ui/src/org/eclipse/linuxtools/internal/docker/ui/wizards/DataVolumeModel.java:186-188 | ordered by container path; a null path throws |
| DataVolume.CompareToIsOrder | containers/org.eclipse.linuxtools.docker.ui/src/org/eclipse/linuxtools/internal/docker/ui/wizards/DataVolumeModel.java:186-188 | antisymmetric and transitive |
| DataVolume.EqualityIsIdentity | containers/org.eclipse.linuxtools.docker.ui/src/org/eclipse/linuxtools/internal/docker/ui/wizards/DataVolumeModel.java:190-213 | only the UUID decides equality |
| WizardSupport.Proposals | containers/org.eclipse.linuxtools.docker.ui/src/org/eclipse/linuxtools/internal/docker/ui/launch/ImageBuildPage.java:216-231 | exactly the items containing the text, in item order, as many as there are such items (duplicates kept) |
| WizardSupport.EmptyTextProposesAll | containers/org.eclipse.linuxtools.docker.ui/src/org/eclipse/linuxtools/internal/docker/ui/launch/ImageBuildPage.java:216-231 | empty text proposes all items |
| WizardSupport.NarrowingProposals | containers/org.eclipse.linuxtools.docker.ui/src/org/eclipse/linuxtools/internal/docker/ui/launch/ImageBuildPage.java:216-231 | typing more never adds proposals |
| ImageBuildPage.GetBuildOptions | containers/org.eclipse.linuxtools.docker.ui/src/org/eclipse/linuxtools/internal/docker/ui/launch/ImageBuildPage.java:243-258 | exactly the checked options, in fixed order |
| ImageBuildPage.BuildOptionsUnique | containers/org.eclipse.linuxtools.docker.ui/src/org/eclipse/linuxtools/internal/docker/ui/launch/ImageBuildPage.java:243-258 | any ordered list of exactly the checked options is that result |
| ImageBuildPage.Validate | containers/org.eclipse.linuxtools.docker.ui/src/org/eclipse/linuxtools/internal/docker/ui/launch/ImageBuildPage.java:271-288 | the first failing check: connection, missing tag, malformed tag |
| ImageBuildPage.UpperCaseRejected | containers/org.eclipse.linuxtools.docker.ui/src/org/eclipse/linuxtools/internal/docker/ui/launch/ImageBuildPage.java:271-288 | an upper-case letter makes the name malformed |
| ImageBuildPage.TaggedNameAccepted | containers/org.eclipse.linuxtools.docker.ui/src/org/eclipse/linuxtools/internal/docker/ui/launch/ImageBuildPage.java:271-288 | `docker.io/fedora:23` passes with a known connection |
| ImageBuildPage.Sort | containers/org.eclipse.linuxtools.docker.ui/src/org/eclipse/linuxtools/internal/docker/ui/launch/ImageBuildPage.java:330-359 | a sorted permutation of the names |
| ImageBuildPage.NewPageModel | containers/org.eclipse.linuxtools.docker.ui/src/org/eclipse/linuxtools/internal/docker/ui/launch/ImageBuildPage.java:332-381 | the connections by name, with their names sorted; the stored connection name or else the first sorted name; the stored image name or else empty; the stored flags or else cleared |
| ImageBuildPage.DefaultIsLeast | containers/org.eclipse.linuxtools.docker.ui/src/org/eclipse/linuxtools/internal/docker/ui/launch/ImageBuildPage.java:332-381 | the default connection is the least name and a known connection |
| ImageBuildPage.GetConnection | containers/org.eclipse.linuxtools.docker.ui/src/org/eclipse/linuxtools/internal/docker/ui/launch/ImageBuildPage.java:393-395 | found exactly when the name is mapped |
| ImageBuildPage.EveryConnectionFound | containers/org.eclipse.linuxtools.docker.ui/src/org/eclipse/linuxtools/internal/docker/ui/launch/ImageBuildPage.java:330-395 | every listed connection is found under its name |
| RunSelection.PortOfCutsAtFirstSlash | containers/org.eclipse.linuxtools.docker.ui/src/org/eclipse/linuxtools/internal/docker/ui/wizards/ImageRunSelectionPage.java:758-771 | a port is cut at its first slash, with the host fields empty |
| RunSelection.PortRoundTrip | containers/org.eclipse.linuxtools.docker.ui/src/org/eclipse/linuxtools/internal/docker/ui/wizards/ImageRunSelectionPage.java:758-771 | `port/protocol` reads back as the port and `/protocol` |
| RunSelection.PortRows | containers/org.eclipse.linuxtools.docker.ui/src/org/eclipse/linuxtools/internal/docker/ui/wizards/ImageRunSelectionPage.java:758-771 | one row per port, or failure exactly when some port lacks a slash |
| RunSelection.SetDefaultValues | containers/org.eclipse.linuxtools.docker.ui/src/org/eclipse/linuxtools/internal/docker/ui/wizards/ImageRunSelectionPage.java:745-777 | no image changes nothing; missing image information throws a null dereference; rows, command and entrypoint come from the image; a slashless port throws |
| RunSelection.SearchedImageName | containers/org.eclipse.linuxtools.docker.ui/src/org/eclipse/linuxtools/internal/docker/ui/wizards/ImageRunSelectionPage.java:674-681 | a tagged name is kept, a bare one gets `:latest` |
| RunSelection.SearchedImageNameIdempotent | containers/org.eclipse.linuxtools.docker.ui/src/org/eclipse/linuxtools/internal/docker/ui/wizards/ImageRunSelectionPage.java:674-681 | defaulting twice is defaulting once |
| RunSelection.ValidateImageSelection | containers/org.eclipse.linuxtools.docker.ui/src/org/eclipse/linuxtools/internal/docker/ui/wizards/ImageRunSelectionPage.java:870-882 | empty is an error, found is fine, otherwise a warning naming the image |
| RunSelection.MissingImageWarningNamesImage | containers/org.eclipse.linuxtools.docker.ui/src/org/eclipse/linuxtools/internal/docker/ui/wizards/ImageRunSelectionPage.java:870-882 | different missing names give different warnings |
| RunSelection.PortControlsEnabled | containers/org.eclipse.linuxtools.docker.ui/src/org/eclipse/linuxtools/internal/docker/ui/wizards/ImageRunSelectionPage.java:780-788 | every control is enabled exactly when ports are not all published |
| NewConnection.ValidateConnectionName | containers/org.eclipse.linuxtools.docker.ui/src/org/eclipse/linuxtools/internal/docker/ui/wizards/NewDockerConnectionPage.java:765-777 | missing is an error, a known name is a duplicate, else fine |
| NewConnection.AddedNameIsDuplicate | containers/org.eclipse.linuxtools.docker.ui/src/org/eclipse/linuxtools/internal/docker/ui/wizards/NewDockerConnectionPage.java:765-777 | an added name is then refused as a duplicate |
| NewConnection.ValidateTcpHost | containers/org.eclipse.linuxtools.docker.ui/src/org/eclipse/linuxtools/internal/docker/ui/wizards/NewDockerConnectionPage.java:800-836 | the URI must parse with a known scheme, a host and a port, checked in that order |
| NewConnection.SchemeCaseIgnored | containers/org.eclipse.linuxtools.docker.ui/src/org/eclipse/linuxtools/internal/docker/ui/wizards/NewDockerConnectionPage.java:800-836 | the scheme's case does not matter |
| NewConnection.ValidateCertificatesPath | containers/org.eclipse.linuxtools.docker.ui/src/org/eclipse/linuxtools/internal/docker/ui/wizards/NewDockerConnectionPage.java:861-879 | with TLS, the path must be given, exist and be readable, in that order |
| NewConnection.Statuses | containers/org.eclipse.linuxtools.docker.ui/src/org/eclipse/linuxtools/internal/docker/ui/wizards/NewDockerConnectionPage.java:356-359 | the page collects exactly the name and certificate statuses |
| NewConnection.TcpHostNeverValidated | containers/org.eclipse.linuxtools.docker.ui/src/org/eclipse/linuxtools/internal/docker/ui/wizards/NewDockerConnectionPage.java:356-359 | the TCP host never affects the page's statuses |
| NewConnection.OppositeConvert | containers/org.eclipse.linuxtools.docker.ui/src/org/eclipse/linuxtools/internal/docker/ui/wizards/NewDockerConnectionPage.java:737-746 | a Boolean is negated; anything else goes through the default conversion |
| NewConnection.OppositeConvertRoundTrip | containers/org.eclipse.linuxtools.docker.ui/src/org/eclipse/linuxtools/internal/docker/ui/wizards/NewDockerConnectionPage.java:737-746 | converting a Boolean there and back restores it |
| NewConnection.GetDockerConnection | containers/org.eclipse.linuxtools.docker.ui/src/org/eclipse/linuxtools/internal/docker/ui/wizards/NewDockerConnectionPage.java:716-731 | always null |
| GcovOpen.Extension | gcov/org.eclipse.linuxtools.gcov.core/src/org/eclipse/linuxtools/internal/gcov/action/OpenGCAction.java:46-58 | none exactly when the name has no period |
| GcovOpen.RemoveExtension | gcov/org.eclipse.linuxtools.gcov.core/src/org/eclipse/linuxtools/internal/gcov/action/OpenGCAction.java:46-58 | stem, period and a non-empty extension rebuild the name; a name without one is kept |
| GcovOpen.ExtensionOfStem | gcov/org.eclipse.linuxtools.gcov.core/src/org/eclipse/linuxtools/internal/gcov/action/OpenGCAction.java:46-58 | `stem.ext` has extension `ext` and, for a non-empty `ext`, stem `stem` |
| GcovOpen.GcFilePair | gcov/org.eclipse.linuxtools.gcov.core/src/org/eclipse/linuxtools/internal/gcov/action/OpenGCAction.java:46-58 | a `.gcda` or `.gcno` file pairs with its sibling; anything else with nothing |
| GcovOpen.SiblingsShareAPair | gcov/org.eclipse.linuxtools.gcov.core/src/org/eclipse/linuxtools/internal/gcov/action/OpenGCAction.java:46-58 | both siblings give the same pair |
| GcovOpen.OtherExtensionsPairWithNothing | gcov/org.eclipse.linuxtools.gcov.core/src/org/eclipse/linuxtools/internal/gcov/action/OpenGCAction.java:46-58 | other extensions pair with nothing |
| GcovOpen.DefaultBinary | gcov/org.eclipse.linuxtools.gcov.core/src/org/eclipse/linuxtools/internal/gcov/action/OpenGCAction.java:121-140 | the first binary of the file's project when there is one, otherwise the empty string |
| GcovOpen.DisplayCoverage | gcov/org.eclipse.linuxtools.gcov.core/src/org/eclipse/linuxtools/internal/gcov/action/OpenGCAction.java:109-119 | the coverage of the given binary and data file, or a null dereference exactly when the file is outside the workspace |
| GcovOpen.Open | gcov/org.eclipse.linuxtools.gcov.core/src/org/eclipse/linuxtools/internal/gcov/action/OpenGCAction.java:88-119 | a missing data file then notes file is reported; otherwise the dialog decides, and an accepted dialog throws exactly when the file is outside the workspace |
| GcovOpen.AutoOpen | gcov/org.eclipse.linuxtools.gcov.core/src/org/eclipse/linuxtools/internal/gcov/action/OpenGCAction.java:68-85 | coverage is attempted exactly when both files are valid, with the known or default binary, and throws exactly when the file is outside the workspace |
| GcovOpen.OpenAndAutoOpenAgree | gcov/org.eclipse.linuxtools.gcov.core/src/org/eclipse/linuxtools/internal/gcov/action/OpenGCAction.java:68-119 | both refuse the same files, show the same coverage and throw on the same files |
| GcovOpen.EitherFileOpensCoverage | gcov/org.eclipse.linuxtools.gcov.core/src/org/eclipse/linuxtools/internal/gcov/action/OpenGCAction.java:46-85 | for files in the workspace, either sibling opens the same coverage |
| GcovOpen.OutsideWorkspaceThrows | gcov/org.eclipse.linuxtools.gcov.core/src/org/eclipse/linuxtools/internal/gcov/action/OpenGCAction.java:68-119 | a valid pair outside the workspace ends in the null dereference |
| DockerfileTester.Test | containers/org.eclipse.linuxtools.docker.ui/src/org/eclipse/linuxtools/internal/docker/ui/launch/DockerfilePropertyTester.java:28-39 | each property holds exactly for its receiver named `Dockerfile` in any case |
| DockerfileTester.CaseIgnored | containers/org.eclipse.linuxtools.docker.ui/src/org/eclipse/linuxtools/internal/docker/ui/launch/DockerfilePropertyTester.java:28-39 | any case of `Dockerfile` passes |
| DockerfileTester.OtherNamesRejected | containers/org.eclipse.linuxtools.docker.ui/src/org/eclipse/linuxtools/internal/docker/ui/launch/DockerfilePropertyTester.java:28-39 | a name of another length never passes |
| DockerfileTester.PropertiesMatchTheirReceiver | containers/org.eclipse.linuxtools.docker.ui/src/org/eclipse/linuxtools/internal/docker/ui/launch/DockerfilePropertyTester.java:28-39 | the two properties never hold together or for other receivers |

## Left out

- The Docker client itself is not modelled. Its answers are parameters:
  - listings;
  - inspection;
  - replies to start, stop, kill and unpause;
  - the success of copying a log stream.

  Threads are modelled only by their stop and kill requests.
- `DockerImage.extractTagsByRepo`, which groups an image's tags by repository, is not part of this model. It is the parameter `TagGrouping` of `ListImages` and `GetImages`.
- Whether `getFileForLocation` finds a workspace resource for a gcov file is the parameter `inWorkspace`.
- The attach pump's input loop and its socket I/O are left out. So is the terminal-code regular expression, which is the parameter `strip`.
- The `hashCode` formula of the coalesced request is left out. `TmfCoalescedDataRequest` is modelled through the behaviour its unit test asserts.
- `ALL_DATA` overflow in merged counts is left out.
- The default block size of the one-argument constructor is a parameter.
- The partition cache of the STP scanner is not modelled; a consistency predicate makes a fresh lookup equivalent.
- `STAP_PATH` is a parameter.
- Running the generated `stap` command is left out.
- Console output is left out, including the asynchronous `logMessage`, which would dereference a null status on the UI thread.
- UI threads and widgets are left out. Enablement toggles appear only as `RunSelection.PortControlsEnabled`, which returns the enabled state of each control.
- The warning logged by `hostVolumeFromString` is left out.
- Environment-variable and image equality are treated as value equality.
- `DockerImageBuildFailedException` message texts are left out.
- Message-bundle texts are modelled by their keys or as parameters.
- `ImageRunSelectionModel` is not part of this model. Whether the selected image was found is a parameter.
- The runnable exceptions of `findImageInfo` (InvocationTarget and Interrupted) are left out.
- The unboxing failure of a null `Boolean` in the opposite-value strategy is left out.
- An `IPath` is modelled as a directory and a last segment.
- `CertificatesPathValidator` tests `!canRead() || !canRead()`. The intent of the duplicated test is unknown, so the model keeps it as written.
- `EqualsIgnoreCase` folds ASCII letters only. Java also folds, for example, the Kelvin sign.
- `ParseLong` accepts ASCII digits only. Java's `Long.parseLong` also accepts other Unicode decimal digits through `Character.digit`.
- `ImageBuildUtils.NumberOfLines` does not wrap the count to 32 bits.
- WithTcpHost: for a host that holds `tcp://` somewhere other than a leading scheme, the contract says only that a scheme is present and no `tcp://` is left. Its exact value follows `Replace`, the left-to-right replacement.

## Findings

| source | as written | input that shows it | evidently intended | confidence | as-written member | corrected member |
|---|---|---|---|---|---|---|
| systemtap/org.eclipse.linuxtools.systemtap.ui.ide/src/org/eclipse/linuxtools/internal/systemtap/ui/ide/editors/stp/STPHeuristicScanner.java:519-530 | `peekNextChar` reads `fPos + 1` after `nextToken` already advanced | `::` read as COLON | look at the character after the current one | not executed | StpScanner.NextTokenAsWrittenMissesDoubleColon | StpScanner.NextTokenLexesOperators |
| containers/org.eclipse.linuxtools.docker.ui/src/org/eclipse/linuxtools/internal/docker/ui/wizards/ImageRunResourceVolumesVariablesModel.java:207-209 | `memoryLimit * 1048576` multiplied as `int` | limit 2048 gives -2^31 | widen before multiplying | not executed | RunResources.LargeLimitWraps | RunResources.MemoryRoundTrip |
| containers/org.eclipse.linuxtools.docker.ui/src/org/eclipse/linuxtools/internal/docker/ui/views/ImageBuildProgressHandler.java:137-139 | error path cancels `progressJob` without a null check | an error as the first message | fail the build | not executed | ImageBuildProgress.ErrorBeforeJobAsWritten | ImageBuildProgress.ProcessMessage |
| containers/org.eclipse.linuxtools.docker.ui/src/org/eclipse/linuxtools/internal/docker/ui/jobs/ImageBuildJob.java:105-135 | `progressMonitor.done()` on a field set only for non-empty files | Dockerfile of comments only | mark the given monitor done | not executed | ImageBuildJob.EmptyBuildFileAsWritten | ImageBuildJob.Run |
