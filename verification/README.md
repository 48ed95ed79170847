# syq, verified: redemption, agent broker, pacing, compression, preferences, checks and parsers

A Dafny 4.11 model of the parts of syq whose correctness depends on more than one function at a time.
Each module follows one component of the program. Every claim below is a contract that Dafny proves for
all inputs, all runs or all reachable states. `dafny verify dfyconfig.toml` checks the whole project.

- **One-time redemption** (`ReplayRecord`, `ReplayProtocol`). A receiver records each signed directive
  before it acts on it. The protocol is a state machine over the steps of any number of concurrent calls:
  check the final name, lock, stamp, check again, create a temporary file, write it piece by piece, sync it,
  link it without replacing, sync the directory, unlink, sync again. Between any two steps a call may get an
  I/O error, be killed, or die with the machine. The directory is modelled as it is seen and as a crash may
  leave it: each name independently falls back to any binding it has had since the last directory sync, and
  an unsynced file may hold anything. `exclusive` says whether the lock keeps anyone out; the safety results
  hold either way.
- **Receiver clock** (`ReceiverClock`). Whole-second bracketing of the wall clock by a monotonic reading, the
  window in which a directive validates, and the execution deadline. Integer widths and overflow are explicit.
  `DirectiveRedemption` puts the clock and the store together.
- **Path scopes** (`PathScopes`). Path validation, byte-prefix containment, filter-root normalization and
  the rules that confine a copy.
- **SSHSIG armor** (`SshsigArmor`). Base64, 70-column wrapping, and the checks that accept only the canonical
  text (section 4 of RFC 4648).
- **Agent broker** (`SshWire`, `BrokerConnection`, `AgentBroker`). The wire cursor and parsers (section 5 of
  RFC 4251, section 7 of RFC 4252 with the host-bound extension, section 3 of RFC 8332); a per-connection
  machine that binds sessions, mirrors the bindings to the upstream agent, lists identities and forwards sign
  requests. Keys, certificates and signatures are functions of a `Library` about which nothing is assumed.
- **Bandwidth pacer** (`BandwidthPacer`). Reservations on a virtual clock in lock order, with caller times in
  any order. Durations are exact reals.
- **Adaptive compression** (`CompressionPolicy`, `Lz4Block`). The hysteresis machine over decisive samples,
  and the allocation bound as a theorem about the LZ4 block format.
- **Saved preferences** (`Endpoint`, `AuthFrom`, `Preferences`). The endpoint grammar and printer, the saved
  choices, and concurrent edits under a directory lock with atomic replacement and readers without a lock.
- **Dispatched checks** (`DispatchedChecks`). The latest result of each check, the shortcut over undecided
  runs, and the time windows of reused branch names.
- **File lists** (`FilesFrom`). The `--files-from` reader and its path normalization.

`ByteStrings` holds the shared vocabulary: bytes, big-endian numbers, splitting and joining, and the
lexicographic order.

## What is assumed

- A synced file keeps its contents and a synced directory its entries, as src/delegation.rs:20-25 states.
- When the redemption lock excludes nobody, a random temporary name (128 bits) repeats none that another call
  has used. With an excluding lock nothing is assumed of the names.
- A rename replaces its target atomically, and `flock` on a directory excludes other editors.

## Where the program and its text disagree

- src/delegation.rs:940-942 says nothing is recorded for a directive that any check refuses. The last clock
  check and the deadline come after the recording, and the store itself can fail after its link. So a
  directive can be recorded and then refused: `ReceiverClock.RecordedButRefused` and
  `DirectiveRedemption.RefusedWithRecordExactly` give the exact condition, `RecordedButRefusedHappens` and
  `FailedAfterLinkHappens` an instance of either kind.
- scripts/dispatched_checks.py:108-109 says that every check in an earlier run passed. A run can complete
  successfully with a failed job in it; `DispatchedChecks.ShortcutAgreesExactly` gives the exact condition
  under which the shortcut loses nothing, and `ShortcutMisses` an instance where it does.
- An authorization server called `auto` or `ssh` can be named in brackets, and is saved as the keyword:
  `AuthFrom.SpellingReadsBack` and `KeywordServerIsLost`.
- A host such as `[a:b]` is accepted by `--for` and saved as `a:b`, which is not accepted again; and a host
  name has no length limit, while the file has one when it is read. After either edit the file can no longer be
  read or edited: `AuthFrom.KeyIsStable`, `Preferences.UnreadableExactly`, `LongHostSpoils`.

## Model

| member | source | states |
|---|---|---|
| ReplayProtocol.AtMostOneRedemption | src/delegation.rs:1063-1137 | in every run, with errors, kills and machine crashes anywhere and whether or not the lock excludes, any two calls that ever returned success for a request ID are one call |
| ReplayProtocol.EveryEntryIsARecord | src/delegation.rs:1063-1137 | in every state of every run, whatever a `redeemed-` name is bound to, or could be bound to after a crash, is synced and is a complete record that exactly one call wrote, for its own request and directive and with a time it was given under the lock; the reader accepts it for the only request the name spells |
| ReplayProtocol.RedeemedForever | src/delegation.rs:1105-1121 | after a success the record is readable in every later state, and no crash can unbind or rebind its name |
| ReplayProtocol.LeavesRecordExactly | src/delegation.rs:1105-1135 | a call leaves its record, however it ends, exactly when it made its link and every machine crash since came after a directory sync or happened to keep the name |
| ReplayProtocol.ReplayAnswer | src/delegation.rs:1028-1042 | a call that finds its request recorded never finds a malformed record: it learns that the request was used, or was used by another directive, and after a success which of the two by comparing directives |
| ReplayProtocol.LockedLinkNeverCollides | src/delegation.rs:1070-1116 | when the lock excludes, the check made under it still holds at the link, so the link never finds the name taken |
| ReplayProtocol.RestingStoreCanRedeem | src/delegation.rs:1063-1137 | whatever was interrupted before, a store at rest lets a request that is not recorded be redeemed |
| ReplayProtocol.RestingStoreCanFailRecorded | src/delegation.rs:1105-1135 | the same store lets a call make its link, fail in the directory sync and report a failure, with the request recorded |
| ReplayProtocol.FinishedStays | src/delegation.rs:1063-1137 | a call that has returned or died is never changed by a later step |
| ReplayRecord.AcceptedExactlyWhenWritten | src/delegation.rs:1222-1249 | the record reader accepts a byte string for a request and directive exactly when the writer writes it for them at some time in range |
| ReplayRecord.GenuineRecordAnswer | src/delegation.rs:1234-1249 | a genuine record checked against any request and directive is accepted, another request's, or another directive's, and which is decided by the fields |
| ReplayRecord.UnhexHex | src/delegation.rs:1337-1345 | hex text decodes back to its bytes |
| ReplayRecord.SpellingIsFaithful | src/delegation.rs:1089-1093 | final and temporary names are spelled alike only if they are the same name, and exactly the final ones begin `redeemed-` |
| ReplayRecord.HexText | src/delegation.rs:1337-1345 | the loop that pushes two digits a byte computes the hex text |
| ReceiverClock.BoundsAreExact | src/delegation.rs:562-589 | the two bounds enclose the true whole-second time, and each is attained by some reading of the clock |
| ReceiverClock.ValidExactlyWhenEveryTimeIs | src/delegation.rs:598-651 | a directive validates exactly when it is bound to the receiver and acceptable at every time the observation leaves possible |
| ReceiverClock.ValidExactlyInWindow | src/delegation.rs:598-651 | the instants at which a bound directive validates are one closed interval, with its ends computed |
| ReceiverClock.DeadlineKeepsFinishBy | src/delegation.rs:988-1006 | at the returned deadline the true second is finish-by plus skew or the second before it |
| ReceiverClock.SuccessWasValidThroughout | src/delegation.rs:943-986 | a successful verification was recorded and valid at every instant from its first to its last check |
| ReceiverClock.RecordedButRefused | src/delegation.rs:940-986 | an attempt records its directive and is refused exactly when it passed every check up to the store and the store either failed after its link, or recorded it and the last observation is after the window or leaves no whole second to finish |
| ReceiverClock.RecordedButRefusedHappens | src/delegation.rs:940-986 | an instance of a directive that is recorded and then refused |
| DirectiveRedemption.RefusedWithRecordExactly | src/delegation.rs:943-986 | for a call of any run that reached the store and returned: what the attempt says was recorded is what the directory holds, and it is refused with its directive recorded exactly when the call failed after its link, or succeeded and the last observation came late |
| DirectiveRedemption.RecordedExactlyAs | src/delegation.rs:1105-1135 | a call that returns has left its record exactly when it succeeded or failed after its link |
| DirectiveRedemption.RecordedInWindow | src/delegation.rs:968-970 | in every state of every run each record was written by a call whose directive was then bound to the receiver and in its window, with the latest time it could have been |
| DirectiveRedemption.FailedAfterLinkHappens | src/delegation.rs:1105-1135 | for every request a run in which a call returns a failure and the request is recorded |
| PathScopes.WithinIsContained | src/delegation.rs:475-494 | for valid paths the byte-prefix test is component-wise containment, except below `/`, where it admits `/` alone |
| PathScopes.ScopesAllowedExactly | src/delegation.rs:222-278 | the loop over scopes accepts exactly the lists whose every scope is allowed |
| PathScopes.NormalizedRootsAscend | src/delegation.rs:291-301 | normalized filter roots are the given ones, each once, in strictly ascending order |
| PathScopes.OrderNeverRefuses | src/delegation.rs:302-347 | after normalization the check of the roots' order never refuses |
| PathScopes.RulesConfine | src/delegation.rs:420-448 | rules that validate put every scope under the destination and every filter root at or, where it covers descendants, under a scope, component by component |
| SshsigArmor.DecodeEncode | src/delegation.rs:496-543 | base64 decoding undoes encoding |
| SshsigArmor.EncodeDecode | src/delegation.rs:496-543 | base64 decoding accepts nothing but what encoding writes |
| SshsigArmor.ComparisonNeverRefuses | src/delegation.rs:525-533 | a text that passes the other checks is already the armor of its payload |
| SshsigArmor.UnarmorArmor | src/delegation.rs:496-543 | the armor of a payload that is not too long reads back as the payload |
| SshsigArmor.AcceptedExactlyWhenArmor | src/delegation.rs:496-533 | a text is accepted exactly when it is within the limit and is the armor of some payload of at least 10 bytes with the `SSHSIG` preamble and version 1 |
| SshsigArmor.ArmorInjective | src/delegation.rs:534-543 | that payload is unique |
| SshsigArmor.ArmorText | src/delegation.rs:534-543 | the loop that appends a chunk and a newline at a time computes the armor |
| AgentBroker.ReleasedUnderAdvertisedKey | src/agent_broker.rs:1518-1559 | every signature released on any connection verifies, over the requested data, under a credential told to the client earlier on that connection |
| AgentBroker.ReleasedOnCompletePath | src/agent_broker.rs:1425-1473 | ... and that data is the encoding of a login naming the session, login user and host key of the last binding of a complete path: a forwarding coordinator and then a peer, or a peer alone, with distinct sessions |
| AgentBroker.AgentKnowsTheBindings | src/agent_broker.rs:1500-1583 | whenever the agent is sent an identities or sign request, the session-binds already sent to it are exactly the validated bindings, in order and without repeats |
| AgentBroker.RefusalIsLast | src/agent_broker.rs:1517-1593 | after the broker's own refusal nothing more is signed, asked or told |
| AgentBroker.SessionsDiffer | src/agent_broker.rs:1387-1423 | accepted bindings are at most two and have distinct sessions |
| BrokerConnection.EveryLogIsSafe | src/agent_broker.rs:1491-1593 | whatever the client sends and the agent answers, every event of the connection is justified by those before it |
| BrokerConnection.RetainedExactly | src/agent_broker.rs:1506-1516 | the client is told of exactly the verifiable credentials the agent listed, without comments |
| SshWire.TakeStringExactly | src/agent_broker.rs:2128-2151 | taking a string succeeds exactly on data that begins with its length-prefixed form |
| SshWire.ParseUserauthExactly | src/agent_broker.rs:2038-2066 | parsing gives the fields `f` exactly when the data is the encoding of `f` |
| SshWire.SigningDataInjective | src/agent_broker.rs:2028-2066 | different fields never share signing data |
| SshWire.AlgorithmAndFlagsAgree | src/agent_broker.rs:2069-2094 | an accepted algorithm fixes the flags, and key type and flags fix the algorithm: RSA signs with SHA-256 or SHA-512 only, other keys under their own name without flags |
| BrokerConnection.FailedConnecting | src/agent_broker.rs:1922-1936 | after a binding cannot be replayed on a new agent connection, the rest are not tried |
| BrokerConnection.ClosedStays | src/agent_broker.rs:1500-1593 | after the connection ends no frame is read |
| BrokerConnection.Broker.ReplaySessionBind | src/agent_broker.rs:1940-1957 | sends the binding and reads one answer; a rejection by the agent is no error, any other answer is |
| BrokerConnection.Broker.Connect | src/agent_broker.rs:1930-1932 | replays every binding in order on a new agent connection, stopping at the first that fails |
| BrokerConnection.Broker.UpstreamRequest | src/agent_broker.rs:1915-1938 | connects on first use, replaying every binding in order before the request, and reads one answer |
| BrokerConnection.Broker.Retain | src/agent_broker.rs:1508-1513 | the loop keeps exactly what `Retained` keeps |
| BrokerConnection.Broker.HandleIdentities | src/agent_broker.rs:1505-1517 | the whole new state after an identities request: told and remembered, or ended |
| BrokerConnection.Broker.Add | src/agent_broker.rs:1387-1423 | a binding that may follow the others is appended, any other changes nothing |
| BrokerConnection.Broker.HandleSign | src/agent_broker.rs:1518-1559 | the whole new state after a sign request: refused, forwarded and verified, or ended |
| BrokerConnection.Broker.HandleBind | src/agent_broker.rs:1560-1583 | the whole new state after a session-bind: refused, accepted, or accepted and mirrored to a connected agent |
| BrokerConnection.Broker.Handle | src/agent_broker.rs:1500-1590 | the whole new state after any frame: an empty one ends the connection, and a frame of another kind is refused |
| BrokerConnection.Broker.Serve | src/agent_broker.rs:1491-1593 | the whole connection's final state is that of the specification, frame by frame up to the one that ends it |
| SshWire.SshCursor.Byte | src/agent_broker.rs:2106-2114 | reads the next byte and advances past it, or fails and stays |
| SshWire.SshCursor.Fixed | src/agent_broker.rs:2115-2127 | reads the next bytes of a given length, or fails and stays; never passes the end |
| SshWire.SshCursor.String | src/agent_broker.rs:2128-2151 | reads one length-prefixed string, and never passes the end even when it fails |
| SshWire.ParseUserauthAtCursor | src/agent_broker.rs:2038-2066 | reading field by field through the cursor computes the parser |
| BandwidthPacer.StartIsLatestBacklog | src/bwlimit.rs:141-147 | the n-th start is the maximum over k up to n of arrival k plus the durations of reservations k to n-1, for arrivals in any order |
| BandwidthPacer.StartsAreSpaced | src/bwlimit.rs:141-147 | two starts are at least the durations reserved between them apart |
| BandwidthPacer.WindowBound | src/bwlimit.rs:130-147 | bytes that start in any window are at most the rate times its length plus the request that starts last in it |
| BandwidthPacer.PrepaidBound | src/bwlimit.rs:114-128 | prepaid bytes admitted by time t are at most the rate times t minus the first start |
| BandwidthPacer.BandwidthLimit.ReserveAt | src/bwlimit.rs:141-147 | the start returned is that of the reservation in the history in lock order |
| BandwidthPacer.BandwidthLimit.ReservePrepaidAt | src/bwlimit.rs:125-128 | the admission returned is the end of the reservation |
| Lz4Block.DecodesWithinRatio | src/compression.rs:149-174 | every block of the LZ4 block format decodes to at most 255 times its own length |
| Lz4Block.GenuineFrameAccepted | src/compression.rs:149-174 | a frame that declares its block's true size is refused for no reason but the limit |
| Lz4Block.AllocationBounded | src/compression.rs:149-174 | an accepted size is below the limit and at most 255 per byte received, and one refused for its ratio is more than the block decodes to |
| Lz4Block.RatioIsLeast | src/compression.rs:149-151 | for every smaller ratio some valid block decodes to more |
| CompressionPolicy.SamplesAreDecisive | src/compression.rs:38-66 | every sample that decides is large enough, took time, and is large or long enough to be a rate |
| CompressionPolicy.ChangesBounded | src/compression.rs:38-66 | over any run the codec changes at most once plus twice for every sample below 6 or above 200 MiB/s |
| CompressionPolicy.ModerateRunSettles | src/compression.rs:38-66 | with all samples from 6 to 200 MiB/s the codec changes at most once, into level-1 zstd, which is then never left |
| CompressionPolicy.CrossingNeedsASample | src/compression.rs:38-66 | LZ4 is reached only on a sample above 200 and left only on one below 150, level-3 zstd reached only below 6 and left only above 10 |
| CompressionPolicy.LegacyNeverChanges | src/compression.rs:28-40 | legacy channels stay as they began |
| CompressionPolicy.BytesConserved | src/compression.rs:38-66 | every timed byte is in exactly one sample or still pending |
| CompressionPolicy.Policy.ObserveWrite | src/compression.rs:38-66 | the fields after a write are those of the transition function, and the result says whether the codec changed |
| Preferences.EditsAreSerial | src/auth_from.rs:319-406 | in every state of every interleaving, with editors failing or killed anywhere, the file is the first configuration with the effective edits applied one by one, in the order in which their editors locked the directory, each to what passed the readers' check |
| Preferences.EveryoneSeesAVersion | src/auth_from.rs:196-237 | an edit reported saved is in that order and reports its own version; a reader without the lock sees the whole result of a first part of the order, or refuses that result |
| Preferences.ReadsAreFresh | src/auth_from.rs:196-237 | a reader that opens the file after an edit was reported as saved sees a version with that edit in it |
| Preferences.NoOverrideIsLost | src/auth_from.rs:375-396 | a host's choice is always what the last effective edit of it gave, and version and unknown fields never change |
| Preferences.UnreadableExactly | src/auth_from.rs:196-237 | with edits from the command line a readable file becomes unreadable exactly by an edit under a host with colons that is not an IPv6 address, or one that leaves more than 128 KiB of text, and then no edit takes effect again |
| Preferences.LongHostSpoils | src/auth_from.rs:227-232 | an instance of the second kind: `auto` for a plain host whose name has 128 KiB |
| AuthFrom.SpellingReadsBack | src/auth_from.rs:146-152 | a choice's saved spelling always reads, and reads as the choice exactly unless its server is labelled by a keyword |
| AuthFrom.KeywordServerIsLost | src/cli.rs:1517-1523 | an instance: `[ssh]` names a server and is saved as the keyword |
| AuthFrom.KeyIsStable | src/auth_from.rs:154-172 | a host accepted by `--for` is saved under a name accepted as itself exactly when that has no colon or is an IPv6 address |
| AuthFrom.UnstableKeyHappens | src/auth_from.rs:154-172 | an instance: `[a:b]` |
| AuthFrom.EditKeepsValid | src/auth_from.rs:116-134 | an edit from the command line keeps a readable configuration readable exactly unless it saves a choice under such a host |
| AuthFrom.EditSelects | src/auth_from.rs:135-144 | after an edit its host gets the choice given, exactly unless a keyword names it, and every other host keeps its own |
| AuthFrom.LastEditStands | src/auth_from.rs:387-396 | after any edits each override and the default is what its last edit gave, and version and unknown fields are unchanged |
| Endpoint.ParsedIsWellFormed | src/cli.rs:3372-3447 | what the parser returns from a spec not beginning with `@` is well formed |
| Endpoint.LabelParsesBack | src/auth_from.rs:53-71 | every well-formed endpoint's label parses to the same user, host and port |
| Endpoint.EndpointRoundTrip | src/cli.rs:3372-3447 | printing what was parsed and parsing it again changes nothing, with bracketed hosts and ports |
| Endpoint.LabelText | src/auth_from.rs:53-71 | building the text in place computes the label |
| DispatchedChecks.ShortcutAgreesExactly | scripts/dispatched_checks.py:108-112 | the shortcut reports the failures of the whole history exactly when every failed job of the leading successful runs is followed by a pass or failure of its check |
| DispatchedChecks.ShortcutAgreesWhenGreenMeansPassed | scripts/dispatched_checks.py:64-71 | so it does when no job of a successful run failed |
| DispatchedChecks.ShortcutMisses | scripts/dispatched_checks.py:64-71 | an instance where it reports nothing and the whole history a failure |
| DispatchedChecks.FailureStaysWithoutAPass | scripts/dispatched_checks.py:90-112 | whatever runs are added, wherever they come in the list and in time, a reported check stays reported unless a job of one of them passed it |
| DispatchedChecks.FailureStaysUntilPassed | scripts/dispatched_checks.py:90-112 | after later runs a reported check is still reported exactly unless the last of its passes and failures in them is a pass |
| DispatchedChecks.WindowsPartitionExactly | scripts/dispatched_checks.py:74-80 | the windows of merged pull requests and the open one give every creation time to exactly one, exactly when no two merges of the branch share a time |
| DispatchedChecks.RunIsListedOnce | scripts/dispatched_checks.py:74-80 | so every run of the branch with a creation time is listed in exactly one window |
| DispatchedChecks.SortedSorts | scripts/dispatched_checks.py:68 | the sort is ordered, a permutation and stable |
| DispatchedChecks.SortedInTurn | scripts/dispatched_checks.py:95 | runs that are later than others sort behind them |
| DispatchedChecks.SortedInserts | scripts/dispatched_checks.py:68 | one run more, anywhere in the list, only adds that run to the sorted runs |
| DispatchedChecks.LatestIsLast | scripts/dispatched_checks.py:94-101 | what is kept for a check is followed by no pass or failure of it and, if none ever passed or failed, by no report |
| DispatchedChecks.FetchingUndecidedSuffices | scripts/dispatched_checks.py:108-112 | only the jobs of undecided runs can change the report |
| DispatchedChecks.ReportsCheckHolds | scripts/dispatched_checks.py:108-112 | a check is reported exactly when its last pass or failure among the undecided runs is a failure |
| DispatchedChecks.BranchRunsHolds | scripts/dispatched_checks.py:74-80 | a run is listed exactly when it is of the branch and created in the window |
| DispatchedChecks.SinceIsLatest | scripts/dispatched_checks.py:77-78 | a window begins at the latest earlier merge of the branch, or at the empty time |
| DispatchedChecks.CheckResults | scripts/dispatched_checks.py:90-105 | lists, in order of first appearance, each check's last pass or failure, else its last report |
| DispatchedChecks.LatestResults | scripts/dispatched_checks.py:94-101 | the nested loop over the dictionary keeps each check's last pass or failure, else its last report |
| DispatchedChecks.FailedChecks | scripts/dispatched_checks.py:108-112 | the method computes the failed results of the undecided runs, sorted only once in effect |
| DispatchedChecks.KeepFailed | scripts/dispatched_checks.py:111-112 | the comprehension keeps the failed entries in order |
| FilesFrom.ReturnedPathsAreClean | src/cli.rs:3478-3542 | every path returned is nonempty, without NUL, and without an empty, `.` or `..` component |
| FilesFrom.OneSpelling | src/cli.rs:3515-3531 | two accepted entries give the same bytes exactly when they have the same components after dropping empty and `.` ones |
| FilesFrom.ReadInTurn | src/cli.rs:3478-3542 | reading two lists one after the other is reading the first and then the second |
| FilesFrom.NulListReadsBack | src/cli.rs:3503-3508 | clean paths written as `./path` and NUL read back as the same list |
| FilesFrom.ReadWriteRead | src/cli.rs:3478-3542 | so does every list the reader returned, in either mode |
| FilesFrom.LineListReadsBackExactly | src/cli.rs:3499-3502 | written line by line they read back exactly when none holds a newline or ends in a carriage return |
| FilesFrom.NormalizeItem | src/cli.rs:3509-3539 | the loop over components, with its buffer, computes the path joined from the components that stay, or the refusal |
| FilesFrom.NextItem | src/cli.rs:3488-3502 | takes one entry off the input, without its separator and, in line mode, one carriage return |
| FilesFrom.ReadFilesFrom | src/cli.rs:3478-3542 | the reading loop computes the list, or the first refusal |

## Left out

- Cryptography, certificate decoding, and the zstd and LZ4 encoders: uninterpreted functions, or for LZ4 the public block grammar and its decoded length.
- OpenSSH configuration, `known_hosts` provenance, sockets, threads and timeouts of the broker, and the wire checks made on credentials before the library decodes them.
- A write to the broker's client that fails: it ends the connection, and the log counts it as made.
- The broker's signing backend that holds a private key, which the source compiles for tests only.
- Ownership and mode checks of the redemption store, its lock file and the preferences file: they read file metadata.
- Symbolic links to the preferences file or its directory.
- JSON text: a preferences file is a configuration with the length of its text, not a configuration, or partly written; the length that an edit writes is an uninterpreted function of the configuration.
- Floating-point rounding of durations and rates, and `bytes_for_interval`: durations are exact reals.
- Option tables and the rest of the command line: flat validation.
- `resolve` and `apply_copy` of the saved choices: a chain of lookups.
- GitHub lookups, resolutions and report lines of the dispatched checks.
- A kill of an editor between its rename and its report: the edit has taken effect and is in the order, only the report is missing.
- DispatchedChecks.FailureStaysUntilPassed: the exact condition is for runs created no earlier than the others; for runs anywhere, `FailureStaysWithoutAPass` states the half that does not depend on when they were created.
