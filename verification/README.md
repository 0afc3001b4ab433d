# A verified model of the hy2route core

`hy2route-core` is a transparent proxy written in Go. This project models its decision and failover
logic in Dafny and proves what that logic is for: that the learned-address table, the rule tries and
the binary dataset agree with plain lists, that the sniffer's byte-by-byte peeking equals one parse,
and that the relay, HY2 and SOCKS5 sessions keep their promises in every interleaving.

Verify with `dafny verify dfyconfig.toml`.

## How the model is built

| file | models |
|---|---|
| `Basics.dfy`, `Bytes.dfy`, `Actions.dfy`, `Addresses.dfy` | bytes, big-endian integers, label splitting; actions and their join; IPv4 addresses and prefixes |
| `Domains.dfy`, `DomainTree.dfy` | `NormalizeDomain` and the label trie of `internal/policy/domains.go` |
| `Ipv4Tree.dfy` | the bit trie of `internal/policy/ipv4.go` |
| `Dataset.dfy` | `internal/dataset/format.go` |
| `Classifier.dfy`, `ClassifierMeaning.dfy` | `internal/policy/classifier.go` over the two tries and the dataset |
| `ExpiryHeap.dfy`, `Learning.dfy`, `LearningOrder.dfy`, `LearningHeap.dfy`, `LearningReplies.dfy` | `internal/policy/learning.go` |
| `SniffTls.dfy`, `SniffHttp.dfy`, `SniffHttpMeaning.dfy`, `Sniff.dfy` | `internal/sniff` |
| `Characters.dfy`, `Layouts.dfy` | the byte tables of the parsers as characters, and the formats byte by byte |
| `RelayFallback.dfy`, `RelayOutcome.dfy`, `RelayClosing.dfy`, `RelayOwner.dfy`, `RelayOwnerOutcome.dfy` | `internal/transport/relay_fallback.go`: one session, and the relay that all sessions share |
| `Hy2Reason.dfy`, `Hy2Status.dfy`, `Hy2Client.dfy`, `Hy2Outcome.dfy`, `Hy2Alone.dfy` | `cmd/hy2route-core/hy2_status.go`, `internal/transport/hy2` |
| `SessionTable.dfy`, `SessionUse.dfy`, `UdpServer.dfy`, `UdpOutcome.dfy` | `internal/dataplane/session_table.go`, the UDP server of `internal/dataplane/udp.go` |
| `Controller.dfy` | `internal/failover/controller.go` |
| `SocksUdp.dfy`, `SocksSession.dfy`, `SocksOutcome.dfy` | `internal/landing/udp.go` |
| `TcpRelay.dfy` | the relay of `internal/dataplane/tcp.go` |

* Data structures that the source updates in place are classes. Their methods are proved against
  functions on plain values (a list of entries, the list of rules added so far), and the properties
  are lemmas about those functions. The tries are linked nodes on the heap; a ghost map from paths to
  nodes ties them to the rules.
* Concurrent code is a transition system: `Next(state, action)` performs one locked section or one
  call of something outside, `Run(actions)` performs any sequence of them, and a step that is not
  possible changes nothing. A lemma about `Run(actions)` for all `actions` is therefore a statement
  about every interleaving, of any number of calls. Outcomes of network calls are chosen freely by
  the actions. Beside what every interleaving keeps, each operation has two more kinds of theorem: which
  of its own steps, with which outcome, ended it with the result it has (`...Exactly`), and what it does
  when nothing else happens in between (`...Alone`).
* Go strings and byte slices are byte sequences. Times are integers on one clock. SHA-256 is an
  arbitrary function to 32 bytes, `netip.ParsePrefix` an arbitrary function to prefixes it could
  return.
* `hide` statements only limit what the verifier unfolds while it proves a member.

Five things a reader might expect are not so. Each has a run that shows it, and the exact condition:

* Closing a fallback session is not a relay failure for receivers (`CooldownIsGenuine`), but it can be
  for senders: `SenderCoolsAfterClose` gives the run. A sender starts a cooldown exactly when its call
  fails on a session captured before the switch (`SenderCooldownExactly`), and a Send that begins can
  do so after a Close exactly when the primary is open, in use and not about to be replaced
  (`CoolsAfterCloseExactly`).
* The relay's active path, shared by all sessions, need not be a session's path: `ActiveMisnames` gives
  the run. It is the path of the last event among a primary opened, a backup opened and a session
  switched (`ActiveExactly`).
* The expiry heap is not bounded by the table's capacity: `HeapOutgrowsCapacity` gives the operations.
  It holds exactly the recordings whose expiry is later than every time seen since, so it is within
  capacity exactly when at most that many recordings are pending (`ReplayHeap`).
* The status tracker alone can show a connection as good although its newest generation failed:
  `DisciplineIsNeeded` gives the events. It shows the verdict on its events exactly unless a handshake
  of the newest generation came after that generation's last failure (`VerdictExactly`); fed by the
  HY2 client it always does (`StatusIsVerdict`).
* A genuine error of the copy direction that finishes second can be dropped: `GenuineErrorLost` gives
  the run. It is exactly when the first one ended well on a connection without half-close
  (`SecondErrorLostExactly`).

## Model

| member | source | states |
|---|---|---|
| `Actions.Select` | internal/policy/domains.go:74-82 | joining two actions is the maximum under Unknown < Direct < Proxy |
| `Domains.NormalizeDomain` | internal/policy/domains.go:16-32 | the nested label and byte loops compute the normal form: lower case, one trailing dot dropped, at most 253 bytes of valid labels, an error otherwise |
| `Domains.NormalizeIdempotent` | internal/policy/domains.go:16-32 | a normalized name is its own normal form |
| `Domains.NormalizeIgnoresCaseAndDot` | internal/policy/domains.go:16-32 | names equal up to ASCII case normalize alike, with or without one trailing dot, errors included |
| `Characters.NameExactly` | internal/policy/domains.go:18-31 | a name is valid if and only if it is labels of lower-case letters, digits and inner hyphens, each of 1 to 63 bytes, with dots between them, and has fewer than 254 bytes |
| `Characters.LowerOfFoldingRunes` | internal/policy/domains.go:17-17 | lower-casing takes U+0130 to i and U+212A, the Kelvin sign, to k |
| `Bytes.LabelSuffix` | internal/policy/domains.go:34-72 | a suffix of labels is the same as a string suffix that starts at a label boundary |
| `DomainTrees.DomainTree.Add` | internal/policy/domains.go:34-53 | the in-place insertion keeps a well-formed trie whose nodes hold the join of the rules that end at them, and records one more rule |
| `DomainTrees.DomainTree.Match` | internal/policy/domains.go:55-72 | after any additions the walk returns what a scan of all added rules returns, and reports a match exactly if that is not Unknown |
| `DomainTrees.FullWalkIsScan` | internal/policy/domains.go:55-72 | collecting suffix and exact actions along all labels equals joining every rule that matches the string |
| `DomainTrees.ScanIsJoin` | internal/policy/domains.go:55-82 | the result is Proxy if and only if some matching rule is Proxy, and no match if and only if no rule matches: Proxy wins at any depth |
| `DomainTrees.ScanIgnoresOrder` | internal/policy/domains.go:34-72 | order and repetition of additions do not matter |
| `Ipv4Trees.ShiftMaskIsBit` | internal/policy/ipv4.go:17-17 | `(bytes[i/8] >> (7 - i%8)) & 1` is bit i of the 32-bit address |
| `Ipv4Trees.SameBits` | internal/policy/ipv4.go:13-31 | two addresses share their first n bits if and only if they agree as integers above the low 32-n bits |
| `Ipv4Trees.MaskedKeepsBits` | internal/policy/ipv4.go:15-17 | masking a prefix does not change the bits that are walked |
| `Ipv4Trees.Ipv4Tree.Add` | internal/policy/ipv4.go:13-31 | the in-place insertion keeps a well-formed trie whose nodes hold the join of the rules that end at them, and records one more rule |
| `Ipv4Trees.Ipv4Tree.Match` | internal/policy/ipv4.go:33-55 | after any additions the walk returns what a scan of all added rules by integer containment returns; addresses that are not IPv4 match nothing |
| `Ipv4Trees.ScanIsLongest` | internal/policy/ipv4.go:33-55 | the scan yields the longest matching prefix, and Proxy if and only if a rule with that very prefix is Proxy |
| `Ipv4Trees.LongestIsUnique` | internal/policy/ipv4.go:33-55 | that description determines prefix length and action |
| `Ipv4Trees.FullWalkIsScan` | internal/policy/ipv4.go:37-54 | the last action seen on a 32-bit walk is the action of the scan |
| `Ipv4Trees.ScanIgnoresOrder` | internal/policy/ipv4.go:13-55 | order and repetition of additions do not matter |
| `Datasets.Write` | internal/dataset/format.go:35-69 | succeeds exactly on valid data and a writer that takes all of it; what reaches the writer is the encoding (magic, counted domains, counted prefixes, checksum), up to where the writer failed, and nothing for invalid data |
| `Datasets.Read` | internal/dataset/format.go:71-133 | accepts what the reader delivered if and only if reading did not fail and the bytes are the encoding of valid data, and returns that data |
| `Datasets.DecodeExactly` | internal/dataset/format.go:35-133 | both round trips at once: decoding yields d if and only if d is valid and the bytes are the encoding of d |
| `Layouts.DatasetFile` | internal/dataset/format.go:35-69 | the file byte by byte: H2RDATA1, the 32-bit count and the entries of the domains, the same of the prefixes, the digest of all that |
| `Layouts.DomainEntry` | internal/dataset/format.go:46-52 | a domain entry: 1 for exact and 0 for suffix, the 16-bit length, the name |
| `Layouts.PrefixEntry` | internal/dataset/format.go:59-61 | a prefix entry: four octets and the number of bits |
| `Layouts.ValidDomainExactly` | internal/dataset/format.go:135-145 | a dataset name is valid exactly if it is 1 to 65535 lower-case letters, digits, dots and hyphens |
| `Datasets.ReadDomains` | internal/dataset/format.go:93-111 | the offset loop over domain entries is the recursive descent, truncation and bad entries included |
| `Datasets.ReadPrefixes` | internal/dataset/format.go:116-128 | the offset loop over prefixes is the recursive descent |
| `Datasets.WriteDomains` | internal/dataset/format.go:42-53 | the buffer loop writes each entry in order and stops at an invalid one |
| `Datasets.WritePrefixes` | internal/dataset/format.go:55-62 | the buffer loop writes each prefix in order and stops at one that is not IPv4 |
| `Classifiers.AddRule` | internal/policy/classifier.go:33-54 | one rule goes to the tree of its kind, or is refused exactly if its action, type or value is bad |
| `Classifiers.New` | internal/policy/classifier.go:18-56 | builds if and only if every China name normalizes, every prefix is IPv4 and every rule is acceptable; the four trees then hold exactly those rules |
| `Classifiers.Classifier.ClassifyDomain` | internal/policy/classifier.go:58-70 | the answer is that of scanning explicit rules, then China domains, then default Proxy; a malformed name is default Proxy |
| `Classifiers.Classifier.ClassifyIP` | internal/policy/classifier.go:72-80 | the answer is that of scanning explicit prefixes, then China prefixes, then default Proxy |
| `Classifiers.ClassifyStored` | internal/policy/classifier.go:18-80 | a classifier built from a dataset that was written and read back answers as scans of the original data, and is built exactly if the data is valid and acceptable and was written |
| `Classifiers.DirectExactly` | internal/policy/classifier.go:58-70 | a name is Direct if and only if no explicit proxy rule matches and an explicit direct rule or a China domain does |
| `ClassifierMeanings.DomainDecided` | internal/policy/classifier.go:58-70 | for every query, in terms of the configured strings: Proxy if a proxy domain rule covers the name, else Direct if a direct one does, else Direct if a China domain does, else Proxy; with the source and the normalized name of each case |
| `ClassifierMeanings.IPDecided` | internal/policy/classifier.go:72-80 | for every address: the longest explicit prefix that contains it decides, Proxy if and only if a proxy rule has that prefix; without one a China prefix gives Direct, else Proxy; with the source of each case |
| `Classifiers.ScanDomainIgnoresSpelling` | internal/policy/classifier.go:58-70 | the same decision for any letter case, with or without one trailing dot |
| `ExpiryHeaps.Push` | internal/policy/learning.go:42-60 | pushing keeps the heap order and adds exactly one item |
| `ExpiryHeaps.Pop` | internal/policy/learning.go:42-60 | popping yields an item no other precedes, keeps the heap order and removes exactly that item |
| `Learning.LearningTable.Observe` | internal/policy/learning.go:84-125 | the table afterwards is the plain list afterwards, including rejected observations, repeated addresses and the addresses recorded before one that is not IPv4 |
| `Learning.LearningTable.ObserveKey` | internal/policy/learning.go:106-122 | a known key moves to the back with its new expiry, a new one first evicts from the front; the heap gains exactly the item of this recording either way |
| `Learning.LearningTable.ExpireLocked` | internal/policy/learning.go:170-186 | the survivors are exactly the entries not run out, stale heap items remove nothing, the returned addresses are, once each, those that lost an observation, and the heap keeps exactly the items not yet due |
| `Learning.LearningTable.RemoveLocked` | internal/policy/learning.go:188-199 | one key leaves entries, LRU list and reverse index together; no empty bucket stays |
| `Learning.LearningTable.LookupLocked` | internal/policy/learning.go:151-168 | the reverse-index lookup equals a scan of the list for Direct and Proxy observations of the address |
| `Learning.LearningTable.Lookup` | internal/policy/learning.go:127-132 | expires first, then answers as a scan of the live list |
| `Learning.LearningTable.Expire` | internal/policy/learning.go:134-138 | as ExpireLocked |
| `Learning.LearningTable.Snapshot` | internal/policy/learning.go:140-149 | one decision for every address with a live observation, each that of a scan |
| `Learning.Replay` | internal/policy/learning.go:62-199 | over every sequence of operations the table gives the replies of the plain list, and its heap is what the single recordings and expiries leave |
| `LearningReplies.LookupExactly` | internal/policy/learning.go:127-168 | after any operations a lookup is Proxy if and only if a proxy recording of the address stands and has not run out, Direct if and only if a direct one does and no proxy one, Unknown otherwise, and to be inspected if and only if both do |
| `LearningReplies.SnapshotExactly` | internal/policy/learning.go:140-168 | a snapshot lists exactly the addresses with such a recording, each with that answer |
| `LearningReplies.ExpiryExactly` | internal/policy/learning.go:134-186 | an expiry returns exactly the addresses with a recording that stood and has run out |
| `LearningReplies.ObservedExactly` | internal/policy/learning.go:84-125 | an observation is accepted exactly if it is Direct or Proxy, has an expiry and a normalizable name, and all its addresses are IPv4 |
| `LearningReplies.SeenExactly` | internal/policy/learning.go:84-122 | it records its addresses under its normalized name, up to the first that is not IPv4 |
| `LearningReplies.EntryExactly` | internal/policy/learning.go:84-199 | an entry is in the table if and only if its recording is the last of its key, no time since has reached its expiry, and it was never crowded out |
| `Learning.RunInvariant` | internal/policy/learning.go:84-199 | in every run the list is within capacity, has one entry a key, and holds only recorded observations that had not run out at any time seen since |
| `LearningOrder.RunIsEvents` | internal/policy/learning.go:84-199 | every run of operations is a run of single recordings and expiries |
| `LearningOrder.EvictedExactly` | internal/policy/learning.go:106-122 | an observation not repeated and not run out is kept if and only if at every point since, expiries included, fewer than capacity other keys had been recorded and not run out |
| `LearningOrder.LatestStands` | internal/policy/learning.go:106-122 | those keys are the ones whose last recording since has an expiry that no later time has reached |
| `LearningOrder.SurvivesFewKeys` | internal/policy/learning.go:106-122 | so fewer than capacity other keys since never evict it, and without expiry in between it is evicted exactly when that many were seen |
| `LearningHeap.ReplayHeap` | internal/policy/learning.go:84-199 | after every run the heap is exactly the recordings whose expiry is later than every time seen since; it is within capacity if and only if at most that many recordings are pending |
| `LearningHeap.HeapIsPending` | internal/policy/learning.go:122-183 | pushing on every recording and popping what is due leaves, in order, the pending recordings |
| `LearningHeap.HeapOutgrowsCapacity` | internal/policy/learning.go:106-122 | for any capacity, that many refreshes of one key and one more leave more heap items than the capacity |
| `SniffTls.SkipVector` | internal/sniff/tls.go:86-102 | skips exactly one length-prefixed vector, or fails, for any position and width |
| `SniffTls.ParseServerName` | internal/sniff/tls.go:104-132 | the entry loop finds the first host_name of a list whose length is exact |
| `SniffTls.ParseTLS` | internal/sniff/tls.go:9-84 | the position-based parser computes the structural parse of every byte string, without any access out of range |
| `SniffTls.ParseStable` | internal/sniff/tls.go:9-84 | once not incomplete, more bytes change neither result nor state |
| `SniffTls.ParseExactly` | internal/sniff/tls.go:9-132 | a byte string is accepted with a result if and only if it is a serialized ClientHello whose extensions carry that result |
| `SniffTls.SerializedHelloParses` | internal/sniff/tls.go:9-132 | any well-formed ClientHello with one server_name extension parses to its normalized host_name, with ECH set exactly if extension 0xfe0d is present |
| `SniffTls.DomainIsHostName` | internal/sniff/tls.go:54-132 | a complete result with a domain has exactly one server_name extension, whose first host_name normalizes to it |
| `SniffTls.JudgeAccepts` | internal/sniff/tls.go:55-83 | the extension loop accepts exactly the lists with at most one, valid, server_name, in any order |
| `SniffTls.RecordLength` | internal/sniff/tls.go:9-30 | the record length is bytes 3 and 4, high byte first, and the handshake length bytes 6 to 8: what is incomplete, refused and read follows from them |
| `Layouts.HelloLayout` | internal/sniff/tls.go:9-60 | the ClientHello byte by byte: record type 22, handshake type 1, and four vectors with lengths of one, two, one and two bytes |
| `Layouts.ExtensionLayout` | internal/sniff/tls.go:55-83 | an extension is its kind, its length and its body; server_name is 0 and encrypted_client_hello 0xfe0d |
| `SniffHttp.ParseHTTP` | internal/sniff/http.go:12-50 | the loops compute the structural parse of every byte string |
| `SniffHttp.ParseStable` | internal/sniff/http.go:12-50 | once not incomplete, more bytes change neither result nor state |
| `SniffHttp.HeadersExactly` | internal/sniff/http.go:34-72 | a request names a domain if and only if every header line is well formed and its one Host header with a value, with none after it, normalizes to it |
| `SniffHttpMeanings.ParseExactly` | internal/sniff/http.go:12-72 | a byte string is complete and names d if and only if it is letters, a space and the rest of a line, header lines, and the first blank line, then anything, where the header lines are well formed and their one Host header names d |
| `SniffHttpMeanings.IncompleteExactly` | internal/sniff/http.go:12-32 | it is incomplete if and only if it is all letters, or letters and a space with no blank line yet |
| `SniffHttpMeanings.ResultExactly` | internal/sniff/http.go:12-50 | a complete request is reported as complete HTTP without ECH, and anything else as nothing at all |
| `SniffHttpMeanings.SplitOfJoin` | internal/sniff/http.go:35-35 | lines joined with CRLF split into themselves |
| `SniffHttpMeanings.JoinOfSplit` | internal/sniff/http.go:35-35 | and the lines of a string, joined with CRLF, are the string |
| `Characters.IsHostSpells` | internal/sniff/http.go:40-44 | a header is the Host header exactly if its name spells host under case folding, the long s included |
| `Characters.MethodCharIsLetter` | internal/sniff/http.go:52-54 | the bytes of a method are the ASCII letters |
| `Characters.SpaceExactly` | internal/sniff/http.go:57-57 | the bytes trimmed as white space are exactly the UTF-8 forms of the white-space characters |
| `SniffHttp.HostExactly` | internal/sniff/http.go:56-72 | a Host value yields a domain if and only if, trimmed, it is a name that normalizes to it, alone or followed by a colon and a decimal port up to 65535 |
| `SniffHttp.TrimSpaceExactly` | internal/sniff/http.go:57-57 | trimming removes white-space runes from both ends, all of them and nothing else |
| `Characters.TrimmedExactly` | internal/sniff/http.go:57-57 | trimming takes white-space characters off both ends and leaves none there |
| `Characters.DecimalIffDigits` | internal/sniff/http.go:62-62 | a port is taken for a number exactly if it is one or more digits |
| `Characters.DecimalOfDigits` | internal/sniff/http.go:62-62 | and the digits of a number read as that number |
| `Sniff.VerdictStable` | internal/sniff/sniff.go:64-72 | verdicts are stable under appending bytes |
| `Sniff.Peek` | internal/sniff/sniff.go:16-51 | for every chunking the result is the parse of the first min(limit, available) bytes, nothing is consumed, the loop ends and never reaches its over-limit fallback; bad limits are rejected, and a cancelled context is reported exactly when it is seen before the bytes decide |
| `Sniff.BufferedReader.Peek` | internal/sniff/sniff.go:42-42 | the buffered reader returns the next bytes and an error exactly if the connection ends before them |
| `RelayFallbacks.SwitchIsFinal` | internal/transport/relay_fallback.go:122-192 | in every interleaving the session is replaced at most once, never back, and never after Close |
| `RelayFallbacks.ClosedAtMostOnce` | internal/transport/relay_fallback.go:148-151 | the replacement is published before the primary is closed, and no underlying session is closed twice |
| `RelayFallbacks.CloseClosesEverything` | internal/transport/relay_fallback.go:184-192 | once a Close has returned every session ever opened is closed, exactly once |
| `RelayOutcomes.SendExactly` | internal/transport/relay_fallback.go:122-157 | Send has returned a result if and only if one of its own steps ended it so: an underlying session took the datagram, the backup in use refused it, no backup could be opened, or the wrapper was found closed |
| `RelayOutcomes.SendNilIffAccepted` | internal/transport/relay_fallback.go:122-157 | Send returns nil exactly when one underlying session took the datagram; never do two |
| `RelayOutcomes.SendErrorsExplained` | internal/transport/relay_fallback.go:122-157 | an underlying error that Send returns is the replacement's, and ErrClosed means the wrapper is closed |
| `RelayOutcomes.ReceiveExactly` | internal/transport/relay_fallback.go:158-183 | Receive has returned a result if and only if its underlying call delivered, the wrapper was found closed, or its check found a failure to be current |
| `RelayOutcomes.CheckFollowsFailure` | internal/transport/relay_fallback.go:167-175 | what a receiver checks is a failure of its own underlying call |
| `RelayOutcomes.CheckDecides` | internal/transport/relay_fallback.go:171-181 | the check starts a cooldown if and only if nothing was switched or closed, goes back if and only if its session was replaced and the wrapper is open, and returns the error otherwise |
| `RelayOutcomes.RetriesAtMostOnce` | internal/transport/relay_fallback.go:158-183 | a receiver goes back at most once, and only after a switch |
| `RelayOutcomes.ReceiveAlone` | internal/transport/relay_fallback.go:158-183 | a Receive that runs alone on an open wrapper returns what the installed session's Receive returns |
| `RelayOutcomes.CloseAlone` | internal/transport/relay_fallback.go:184-192 | a Close that runs alone returns and leaves the wrapper closed |
| `RelayFallbacks.SurfacedErrorIsCurrent` | internal/transport/relay_fallback.go:167-181 | a receiver returns the error of a session only if, at its locked check, that session was installed or the wrapper closed |
| `RelayFallbacks.CooldownIsGenuine` | internal/transport/relay_fallback.go:171-180 | a receiver starts a cooldown only if nothing had been switched or closed locally at its check |
| `RelayClosings.SenderCooldownExactly` | internal/transport/relay_fallback.go:128-135 | a sender starts a cooldown exactly when its call fails on a session captured before the switch |
| `RelayClosings.LateSenderNeverCools` | internal/transport/relay_fallback.go:122-151 | a sender that begins when the primary is closed, replaced or about to be replaced starts none, however the run goes on |
| `RelayClosings.SenderCoolsAfterClose` | internal/transport/relay_fallback.go:131-140 | a run in which a sender is about to start a cooldown after Close has returned |
| `RelayClosings.CoolsAfterCloseExactly` | internal/transport/relay_fallback.go:122-192 | from any reachable state, a Send that begins now can start a cooldown after a Close has returned if and only if the primary is open, in use and not about to be replaced |
| `RelayOwners.PacketRelay.OpenPacket` | internal/transport/relay_fallback.go:79-112 | which path is tried and returned, which locked sections a call goes through, and that a cancelled request starts no cooldown and reaches no backup |
| `RelayOwners.SessionsAreRuns` | internal/transport/relay_fallback.go:79-192 | with any number of OpenPacket calls and sessions at once, every session is in a state of a run of its own, so all the properties above hold of it |
| `RelayOwners.SkippedExactly` | internal/transport/relay_fallback.go:79-112 | in every interleaving OpenPacket passes the primary over exactly while the cooldown of the last failure runs, whoever reported it, and no attempt has succeeded since |
| `RelayOwners.CooldownsExplained` | internal/transport/relay_fallback.go:79-180 | every cooldown on record was started by an OpenPacket call after its failed primary attempt or by a session's call at its cooldown |
| `RelayOwners.CoolingIsGenuine` | internal/transport/relay_fallback.go:83-99 | an OpenPacket call starts one only after it tried the primary, which failed without the caller having given up |
| `RelayOwners.ClosedSessionCools` | internal/transport/relay_fallback.go:108-136 | a Send overtaken by Close puts the relay shared by all sessions into cooldown |
| `RelayOwners.ActiveExactly` | internal/transport/relay_fallback.go:79-154 | in every interleaving the active path is that of the last event among a primary opened, a backup opened and a session switched |
| `RelayOwners.ActiveMisnames` | internal/transport/relay_fallback.go:88-154 | a run after which a session is on the backup, its lock free, and the active path is the primary |
| `RelayOwnerOutcomes.OpenAlone` | internal/transport/relay_fallback.go:79-107 | an OpenPacket call that runs alone returns the path its answers call for, with the session, cooldown and active path that go with it |
| `RelayOwnerOutcomes.SwitchesCounted` | internal/transport/relay_fallback.go:144-155 | the switches on record are exactly the sessions that have switched, each once |
| `Hy2Status.StatusTracker.Emit` | cmd/hy2route-core/hy2_status.go:43-82 | events of an older generation change nothing; others set state, times, the shown reason and the rate-limited log |
| `Hy2Reasons.ShownIsTidy` | cmd/hy2route-core/hy2_status.go:60-69 | a shown reason has at most 1027 runes and single spaces between words; unless cut, it has the words of the redacted reason |
| `Hy2Reasons.RedactedHidesSecrets` | cmd/hy2route-core/hy2_status.go:61-66 | no secret that stands apart from the mark occurs in a redacted reason, in whatever order the secrets are replaced |
| `Hy2Reasons.ShownHidesSecrets` | cmd/hy2route-core/hy2_status.go:60-70 | nor in a shown one, if it has no space in it, and no dot where the reason had to be cut |
| `Hy2Reasons.RedactedKeeps` | cmd/hy2route-core/hy2_status.go:61-66 | a reason without a secret is not changed by redaction |
| `Hy2Reasons.MarkMayShow` | cmd/hy2route-core/hy2_status.go:61-66 | a secret that is part of the word in the mark is shown by the mark |
| `Hy2Status.Track` | cmd/hy2route-core/hy2_status.go:32-82 | a tracker fed any events shows their verdict if and only if no failure of the newest generation is hidden |
| `Hy2Status.VerdictExactly` | cmd/hy2route-core/hy2_status.go:43-82 | degraded exactly if the newest generation reported a failure, unless, and only unless, a handshake of that generation comes after its last failure |
| `Hy2Status.FoldedIsVerdict` | cmd/hy2route-core/hy2_status.go:43-82 | so if handshakes are reported before failures of their generation, the state is always the verdict |
| `Hy2Status.DisciplineIsNeeded` | cmd/hy2route-core/hy2_status.go:48-54 | without that order a handshake hides a failure of its own generation |
| `Hy2Client.StatusIsVerdict` | internal/transport/hy2/reconnect.go:30-76 | in every interleaving of dials, reconnects, late failures, cancellations and Close the tracker shows the verdict on the events so far, so an older generation never overrides a newer handshake |
| `Hy2Outcomes.WorkerExplained` | internal/transport/hy2/reconnect.go:49-76 | in every run the generation a dial carries is that of the client installed right after its own entering step, and its result that of its own call on that client, or the core was closed or its handshake failed |
| `Hy2Outcomes.FailureShows` | internal/transport/hy2/client.go:82-85 | a transport failure degrades the shown state exactly if no newer generation has been heard of, so always while its generation is the newest |
| `Hy2Outcomes.DeadClientIsDropped` | internal/transport/hy2/reconnect.go:65-73 | a call that finds its client closed drops it: once its dial has finished, that client is never installed again |
| `Hy2Alone.DialAlone` | internal/transport/hy2/client.go:65-91 | a dial that runs alone returns the result of its own handshake and call, is delivered exactly without an error, gives its slot back and reports exactly a transport failure |
| `Hy2Alone.CancelAlone` | internal/transport/hy2/client.go:92-98 | a dial given up while it waits is cleaned up: its connection is closed if it got one, and its slot given back |
| `Hy2Alone.RefuseAlone` | internal/transport/hy2/client.go:65-70 | a dial given up before it got a slot changes nothing |
| `Hy2Alone.ClosedForGood` | internal/transport/hy2/reconnect.go:98-106 | a closed core stays closed |
| `Hy2Alone.KindExplained` | internal/transport/hy2/client.go:81-128 | a dial reports under the kind it was begun with |
| `Hy2Client.EventsAreOutcomes` | internal/transport/hy2/client.go:81-98 | the failure events are exactly the transport failures returned to callers, not target errors or cancelled dials |
| `Hy2Client.InFlightBounded` | internal/transport/hy2/client.go:65-130 | core calls in flight never exceed the semaphore, and giving a slot back never blocks |
| `Hy2Client.SlotReleasedOnce` | internal/transport/hy2/client.go:81-97 | a slot is released at most once, only after its worker finished, and is released when the dial is over |
| `Hy2Client.ConnectionHasOneFate` | internal/transport/hy2/client.go:81-97 | an opened connection is never both delivered and closed, and when the dial is over it is one of them |
| `Hy2Client.ClientsChangeByGeneration` | internal/transport/hy2/reconnect.go:49-76 | a client is dropped only by a closed error of its own generation, and a new one has a new generation |
| `SessionTables.SessionTable.Get` | internal/dataplane/session_table.go:51-62 | expires, then returns the session of the key and moves its entry to the back with the new time |
| `SessionTables.SessionTable.Add` | internal/dataplane/session_table.go:64-78 | expires, replaces, evicts from the front and appends, closing what goes, as on the plain list |
| `SessionTables.SessionTable.ExpireLocked` | internal/dataplane/session_table.go:86-95 | the in-place loop removes and closes exactly the idle entries |
| `SessionTables.SessionTable.Remove` | internal/dataplane/session_table.go:112-118 | removes the entry of a key only if it still holds the expected session |
| `SessionTables.RunConserves` | internal/dataplane/session_table.go:51-118 | in every run the table is within capacity with one entry a key, and the sessions added are exactly those live plus those closed |
| `SessionTables.EntriesWereAdded` | internal/dataplane/session_table.go:51-118 | in every run each live entry holds a session under the key that session was added with |
| `SessionTables.FreshSessionFate` | internal/dataplane/session_table.go:64-103 | a session added once is ever after live in one entry, under the key it was added with, or closed exactly once |
| `SessionTables.StaleRemoveIsHarmless` | internal/dataplane/session_table.go:111-118 | a failing old receiver never removes a replacement or another key's entry |
| `SessionTables.RunSorted` | internal/dataplane/session_table.go:51-118 | with a clock that never goes back the list stays sorted by last use |
| `SessionTables.EvictsLeastRecentlyUsed` | internal/dataplane/session_table.go:64-78 | in every run with such a clock, an unexpired entry of another key that an add removes went from a full table and was last used no later than any that stays |
| `SessionUses.LastIsLastUse` | internal/dataplane/session_table.go:51-78 | in every run an entry's time is that of the last add or lookup of its key |
| `SessionUses.EvictedByLastUse` | internal/dataplane/session_table.go:64-78 | so the key of an evicted entry was last used, in the operations themselves, no later than that of any entry that stays |
| `SessionUses.FoundExactly` | internal/dataplane/session_table.go:51-62 | a lookup finds a session if and only if the table holds an entry of its key that has not been idle too long |
| `SessionUses.FoundIsNewest` | internal/dataplane/session_table.go:57-60 | and makes it the most recently used |
| `UdpServers.NoSessionIsLost` | internal/dataplane/udp.go:117-167 | in every interleaving of the packet loop, reply goroutines and expiries, an opened session is in hand, discarded, live in the table or closed by it: exactly one of these, once |
| `UdpServers.FailedSessionIsClosed` | internal/dataplane/udp.go:117-167 | a session whose Send failed or whose reply goroutine ended has been closed exactly once and is never live again |
| `UdpServers.ReplyEndsAlone` | internal/dataplane/udp.go:152-167 | a reply goroutine that ends takes no other session with it, whatever has replaced its own |
| `UdpOutcomes.HandleAlone` | internal/dataplane/udp.go:117-150 | handling a datagram alone: sent on the known session, removed if that fails; else a session opened, discarded without a reply socket, added, given a reply goroutine and used, removed if that fails |
| `UdpOutcomes.TakenIsLive` | internal/dataplane/udp.go:117-150 | a datagram that is taken leaves its key live, on the known session or on the new one |
| `UdpOutcomes.OthersLeaveMain` | internal/dataplane/udp.go:117-167 | neither a reply goroutine that ends nor an expiry disturbs the datagram being handled |
| `UdpOutcomes.ExpiryRemoves` | internal/dataplane/session_table.go:80-95 | an expiry removes exactly the entries idle too long |
| `UdpOutcomes.ReplyEndsOnce` | internal/dataplane/udp.go:152-153 | a reply goroutine ends once, removing its own session |
| `Failover.LeavesExactly` | internal/failover/controller.go:49-58 | Proxy mode is left exactly at the configured number of failures since it was entered; successes in between do not clear the count |
| `Failover.ReentersExactly` | internal/failover/controller.go:60-77 | with a non-decreasing clock Proxy mode is re-entered exactly at the configured number of successes since the last failure, counting only those after its cooldown |
| `Failover.Replay` | internal/failover/controller.go:20-78 | a controller fed with any trace is in the mode the trace leads to after each event |
| `SocksUdp.EnvelopeRoundTrip` | internal/landing/udp.go:87-152 | every datagram that can be encoded decodes to its canonical target and payload |
| `SocksUdp.EncodeFails` | internal/landing/udp.go:125-152 | encoding fails exactly for a port outside 1 to 65535 or a name that is empty or over 255 bytes |
| `SocksUdp.EnvelopeLayout` | internal/landing/udp.go:125-152 | the bytes of an envelope: reserved bytes and fragment zero, type 1, 4 or 3 by the kind of host, the address, the port with its high byte first, the payload |
| `SocksUdp.MappedPrefix` | internal/landing/udp.go:87-124 | the addresses taken for IPv4 are those under ::ffff:0:0/96 |
| `SocksUdp.DecodeThenEncode` | internal/landing/udp.go:87-152 | encoding what was decoded gives the datagram back unless its port is zero or its address is IPv4-mapped |
| `SocksSessions.OneTargetPerAssociation` | internal/landing/udp.go:166-191 | in every run all transmitted datagrams carry one same target, obey a configured limit and are the envelopes of their payloads |
| `SocksOutcomes.SendExactly` | internal/landing/udp.go:166-191 | Send has returned a result if and only if one of its own steps ended it so: rejected for length, target or another binding, found closed, or handed to the packet session, which took it or not |
| `SocksOutcomes.TransmitsExactly` | internal/landing/udp.go:166-191 | a forwarded Send transmitted exactly one datagram and every other Send none |
| `SocksOutcomes.SendsExclude` | internal/landing/udp.go:166-170 | the send mutex is held by exactly the one Send between its checks and its transmission |
| `SocksOutcomes.SendAlone` | internal/landing/udp.go:166-191 | what a Send that runs alone returns, transmits and binds |
| `SocksSessions.LateSendIsSilent` | internal/landing/udp.go:166-233 | a Send that begins once Close has set its flag transmits nothing, however the run goes on |
| `SocksSessions.CloseIsDone` | internal/landing/udp.go:224-233 | once a Close has returned the session is closed and its connections were closed exactly once |
| `SocksSessions.DeliversFromRelay` | internal/landing/udp.go:192-202 | with a numeric relay only its datagrams are delivered |
| `SocksSessions.ReplyIsUnwrapped` | internal/landing/udp.go:192-223 | a reply from elsewhere than a numeric relay is skipped; any other that wraps a payload is delivered as that payload and target, whatever other calls do first, exactly when the session is open and bound to no other address at its check |
| `SocksSessions.DeliveredExplained` | internal/landing/udp.go:192-223 | in every run whatever is delivered arrived wrapped in an envelope from the relay and was checked later, by that call, when the session was open and bound to no other address |
| `SocksOutcomes.ReceiveExactly` | internal/landing/udp.go:192-223 | Receive has returned a result if and only if the packet session failed, the session was found closed at the check, or the checked reply may be delivered |
| `SocksOutcomes.StrangerIsDropped` | internal/landing/udp.go:205-220 | a checked reply that is not for the bound address is dropped and the call waits on |
| `SocksOutcomes.CloseAlone` | internal/landing/udp.go:224-233 | a Close that runs alone returns, with the connections closed once |
| `TcpRelays.InducedErrorsAreHidden` | internal/dataplane/tcp.go:180-238 | in every interleaving of the two directions an error induced by the relay's own full close is never returned, and a genuine error of the first direction always is |
| `TcpRelays.NothingReturnedExactly` | internal/dataplane/tcp.go:198-218 | no error is returned if and only if no direction ended with one, or only the second did and the first fully closed its connection |
| `TcpRelays.SecondErrorLostExactly` | internal/dataplane/tcp.go:210-218 | a genuine error of the second direction is dropped exactly when the first ended well on a connection without half-close |
| `TcpRelays.GenuineErrorLost` | internal/dataplane/tcp.go:180-218 | a run that drops one |

## Left out

- Hy2Client.StatusIsVerdict: generations are unbounded; the wrap-around of the 64-bit counter after 2^64 reconnections is not modelled.
- Hy2Reasons.ShownIsTidy: reasons are taken as valid text, one character a rune.
- Hy2Reasons.RedactedHidesSecrets: stated for secrets without brackets that are not part of the mark's word; what redaction leaves of any other secret is not characterized, beyond the case of `MarkMayShow`.
- Hy2Client.ConnectionHasOneFate: building the QUIC configuration and certificate pinning are not modelled; a handshake succeeds or fails freely.
- RelayFallbacks.SwitchIsFinal: the session is a transition system on values, not a class, because its methods interleave; lock fairness and progress are not modelled. The same holds for the HY2 client, the SOCKS5 session and the TCP relay.
- RelayOwners.PacketRelay.OpenPacket: the 4-second budget of a primary attempt is part of the freely chosen outcome; the stream variant RelayFallback.Dial goes through the same locked sections and is left out.
- Learning.LearningTable.Observe: the difference between wall and monotonic clock readings of a time.Time is not modelled.
- Sniff.Peek: an empty read is skipped without bufio's limit of 100 in a row; deadlines appear only as the end of the delivered bytes.
- SessionTables.SessionTable.Add: sessions are never nil; the sync.Once inside a UDP session's own Close is not modelled.
- UdpServers.NoSessionIsLost: choosing between the direct and the proxy dialer is left to the outcome; forwardUDPReply appears as its final removal.
- SocksUdp.EnvelopeRoundTrip: addresses are structured; host:port text, and a domain name on the wire that spells an address literal, are not modelled.
- Classifiers.New: parsing of CIDR text is a parameter.
- Datasets.Write: a writer is known by how many bytes it takes before it fails, a reader by whether it failed.
- TcpRelays.InducedErrorsAreHidden: the copying itself is an arbitrary end with or without an error; half-close is assumed to induce none.
- Sockets, TPROXY, marks, original destinations and the control socket: operating-system plumbing.
- Hysteria, sing-box, VLESS, QUIC and TLS handshakes: foreign libraries.
- internal/firewall and the nft generator: kernel state; no agreement between kernel sets and the learning table is claimed.
- internal/dnsproxy, internal/config, the landing handshakes and the fail-open layers: they would add easier members of the same kinds.
- selectDialer, dialTarget and shouldDirect: short decisions over the classifier and the learning table.
