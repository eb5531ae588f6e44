# A model of nexad

nexad is the node daemon of a small container platform. Most of it adapts libraries; this project
models the algorithms it writes by hand and proves what they promise over every input and every run.

| part | modules |
|---|---|
| embedded DNS server: question parser, record index, name resolver, response builder | `Bytes`, `Utf8`, `Sequences`, `Wire`, `RecordStore`, `Resolver`, `DnsServer` |
| an independent DNS message decoder written from RFC 1035 (sections 2.3.4 and 4.1.1 to 4.1.4) and RFC 3596 (section 2.2) | `Rfc1035` |
| reverse-proxy backends: the Caddyfile printer and its brace-counting remover, the Traefik and nexa-proxy maps | `Strings`, `Routes`, `Caddy`, `CaddyRemoval`, `CaddyRuns`, `Traefik`, `NexaProxy`, `Backends` |
| cluster membership: registration, pings, heartbeat monitor, drain, removal | `Membership`, `MembershipRuns`, `MonitorRace` |
| subnet allocation: CNI networks, the overlay counter, the route store's table | `Subnets`, `Cni`, `Overlay` |
| relational state store and image names | `StateTables`, `ImageRef` |

Code that changes state is a class or a method with loops, proved against a function of the old
state; the theorems are about those functions. The strings of the DNS server are byte sequences with
a UTF-8 validity predicate, because that is what it parses; elsewhere strings are sequences of
Unicode scalar values.

The main theorems, hardest first:

- `DnsServer.EndToEnd`: in every reachable record index, for every standard query for
  `host.project.internal` in any spelling, an RFC 1035 decoder reads back from the response the
  id, the question and exactly the resolved addresses of the queried family.
- `CaddyRuns.RemovingIsPrintingWithout` and `CaddyRuns.RemoveExact`: for any sequence of
  removals from the printed Caddyfile, exactly when the lines of printing the other routes are left.
- `Backends.BackendsAgree`: the exact condition under which, after the same routes and removals, the Caddy
  text, the Traefik maps and the nexa-proxy map all say the routes not removed, with their addresses, TLS
  material and weights as far as each format has them.
- `MonitorRace.NoFalseAlarm`: with the monitor interleaved with pings, a worker that pings often enough
  is never marked NotReady nor its pods rescheduled; `MonitorRace.RacingPingSurvives` and
  `GoesBackExactly` say, over every run and table and for every handler that writes node rows, exactly
  when a heartbeat is lost.
- `MembershipRuns.SilentWorkerDetected` and `SilentWorkerRescheduled`: a silent worker is NotReady after
  40 seconds and its pods are handed over after 70; `RegisteredDetected` and `RegisteredRescheduled` say
  the same of a node from its registration on.
- `MembershipRuns.RowIsItsHistory` and `StateTables.RowsAreHistories`: over every run every row is what the
  events about it made of it.
- `MembershipRuns.DeletedExactly` and `DrainUndoneExactly`: over every run, exactly when a row goes and
  exactly when a drain is undone.
- `RecordStore.LookupIsTheHistory`: the address list of a deployment is the one list that the history of
  registrations describes.

Properties that turned out to be false of the code, each with its exact condition and an input:

- Removals from a printed Caddyfile damage another route when one of the removed domains is spelled
  `reverse_proxy` and a route with several upstreams is left (`CaddyRuns.RemovingIsPrintingWithout`,
  `CaddyRuns.StrippedExample`).
- The Traefik maps lose a route whose sanitized name is also another route's or a removed domain's
  (`Backends.TraefikAgreesExactly`, `Backends.CollisionExample`, `Backends.RemovalCollisionExample`).
- Heartbeat times can go back, and a ping can be lost, when the monitor's listing or the row that a drain
  read is older than the ping (`MonitorRace.RacingPingSurvives`, `MonitorRace.GoesBackExactly`,
  `MonitorRace.PingLost`, `MonitorRace.PingLostToDrain`); with atomic steps they cannot
  (`MembershipRuns.HeartbeatMonotone`).
- Draining is undone by the worker's next ping and by a monitor pass that finds it stale
  (`MembershipRuns.DrainUndoneExactly`, `MembershipRuns.DrainUndone`).
- A comment in `normalize_image_ref` says that a qualified reference gets a tag if it has none. The code
  looks for any colon, so a registry port hides a missing tag; the model follows the code
  (`ImageRef.TaggedExactly`, `ImageRef.PortExample`).
- The answer count of a DNS response is 16 bits wide, so from 65536 answers on some are not announced
  (`Rfc1035.AllAnswersDecoded`, `DnsServer.ManyAnswersExample`), and a label of more than 63 bytes, which the parser accepts, is not read
  back by a conforming decoder (`DnsServer.AnswerReadsBackExactly`, `DnsServer.LongLabelExample`).
- `get_deployment` and the filtered listing follow columns that an update of the spec does not touch
  (`StateTables.RunAgreesExactly`, `StateTables.NamedExactly`, `StateTables.FilteredListing`,
  `StateTables.MisnamedExample`, `StateTables.MislistedExample`).
- Names are compared without regard to case (RFC 1035, section 2.3.3), but the index keeps its keys as
  they are registered, so a key with a capital letter is never served (`DnsServer.AskableExactly`,
  `DnsServer.CapitalKeysUnserved`, `DnsServer.CapitalKeyExample`).

## Model

| member | source | states |
|---|---|---|
| Wire.ParseQuestion | src/adapters/dns/hickory.rs:174-206 | the label loop returns what `ParsedQuestion` describes, for every byte string and offset, within bounds |
| Wire.ParseExact | src/adapters/dns/hickory.rs:174-206 | parsing succeeds iff non-empty valid labels, a zero byte and four more bytes lie at the offset; the name is those labels joined by dots, with the type and the end of exactly those bytes |
| Wire.ParseEncoded | src/adapters/dns/hickory.rs:174-206 | any encoded label list followed by any bytes parses back to that list, its type and its end |
| Utf8.AcceptedExactly | src/adapters/dns/hickory.rs:192 | the labels the parser accepts are exactly the encodings of Unicode scalar values (RFC 3629, section 3) |
| Wire.MatchingSpec | src/adapters/dns/hickory.rs:218-226 | the filtered list is, at all their places in the input and in ascending order, the IPv4 addresses for type 1, the IPv6 addresses for type 28, all for type 255 and none for any other type |
| Wire.BuildDnsResponse | src/adapters/dns/hickory.rs:208-270 | the buffer built step by step is the header, the question copied from the query, and the answers in order |
| Wire.ResponseLength | src/adapters/dns/hickory.rs:246-267 | a response is as long as the question's end plus 16 bytes per A and 28 per AAAA answer |
| Rfc1035.DecodeResponse | src/adapters/dns/hickory.rs:208-270 | an RFC 1035 decoder that follows the compression pointers recovers id, flags, question and as many records as the 16-bit count announces |
| Rfc1035.DecodeWholeResponse | src/adapters/dns/hickory.rs:228-270 | below 65536 answers everything is recovered and nothing is left over |
| Rfc1035.AllAnswersDecoded | src/adapters/dns/hickory.rs:228-246 | every answer is read back, with nothing left over, iff there are fewer than 65536 |
| Rfc1035.RecordAddresses | src/adapters/dns/hickory.rs:248-267 | the records carry the addresses in order, in type 1 for IPv4 and 28 for IPv6, under the question's name and with a 60 second lifetime |
| Rfc1035.LongLabelsDoNotDecode | src/adapters/dns/hickory.rs:181-194 | the echoed name decodes to the parsed labels iff none has more than 63 bytes |
| DnsServer.HandleDnsQuery | src/adapters/dns/hickory.rs:138-172 | the handler drops, answers or forwards as `Handled` says |
| DnsServer.DroppedExactly | src/adapters/dns/hickory.rs:143-156 | a packet is dropped iff it has fewer than 12 bytes, its four opcode bits are not zero, its question count is zero or no question can be read behind the header |
| DnsServer.HandledQuery | src/adapters/dns/hickory.rs:147-171 | every standard query with labels the parser accepts is answered iff its joined and lowered name is internal, with what that name resolves to, and else forwarded |
| DnsServer.HandledClientQuery | src/adapters/dns/hickory.rs:147-171 | for dot-free ASCII labels: answered iff the last of several labels is `internal`, with the resolved host if there are three labels, and else forwarded |
| DnsServer.EndToEnd | src/adapters/dns/hickory.rs:138-270 | for every spelling of `host.project.internal` by accepted labels of at most 63 bytes: decoding the response gives the query's id and question and, in order, exactly the resolved IPv4 addresses for type 1, IPv6 for type 28 and both for type 255, in records of type 1 and 28, with RCODE 3 iff nothing resolves |
| DnsServer.AnswerReadsBackExactly | src/adapters/dns/hickory.rs:138-206 | the answer to an internal query decodes to the question asked iff no label has more than 63 bytes |
| DnsServer.LongLabelExample | src/adapters/dns/hickory.rs:181-194 | a query with a label of 64 bytes that is answered and whose answer does not decode to its question |
| DnsServer.OtherInternalNamesDoNotExist | src/adapters/dns/hickory.rs:158-169 | internal names of any other form than `host.project.internal` get NXDOMAIN without records |
| DnsServer.WrongLabelCount | src/adapters/dns/record_store.rs:58-66 | dot-free labels of any other number than three make such a name |
| DnsServer.CaseInsensitive | src/adapters/dns/hickory.rs:158-169 | queries whose names are alike in lower case get identical headers and answer sections |
| DnsServer.SpellingsLowerAlike | src/adapters/dns/hickory.rs:158-159 | ASCII labels are alike in lower case iff they differ in letter case only, and then make names that lower alike |
| Bytes.LowerAlike | src/adapters/dns/hickory.rs:158-159 | texts are alike in ASCII lower case iff they differ, byte by byte, in letter case only |
| DnsServer.ManyAnswersExample | src/adapters/dns/hickory.rs:228-246 | a reachable index of 65536 addresses whose answer decodes as a success without any record |
| DnsServer.AskableExactly | src/adapters/dns/hickory.rs:158-160 | some query asks for a project and deployment that fit into labels iff both are in lower case |
| DnsServer.CapitalKeysUnserved | src/adapters/dns/hickory.rs:158-169 | indexes that agree on lower-case keys answer every ASCII query alike, whatever they hold under other keys |
| DnsServer.CapitalKeyExample | src/adapters/dns/record_store.rs:17-24 | a registered deployment with a capital letter that no query for it reaches |
| DnsServer.CapitalNameAsks | src/adapters/dns/hickory.rs:158-159 | the name it was registered under is such a query |
| RecordStore.DnsRecordStore.constructor | src/adapters/dns/record_store.rs:11-15 | a new index is the one of the empty history |
| RecordStore.DnsRecordStore.Register | src/adapters/dns/record_store.rs:17-24 | creates the maps on the way and appends the address unless present |
| RecordStore.DnsRecordStore.Deregister | src/adapters/dns/record_store.rs:26-39 | removes the address, then an empty list, then an empty project |
| RecordStore.LookupAfterRegister | src/adapters/dns/record_store.rs:17-24 | a registration appends to its own key only, and only a new address |
| RecordStore.LookupAfterDeregister | src/adapters/dns/record_store.rs:26-39 | a deregistration filters its own key only |
| RecordStore.RegisterThenDeregister | src/adapters/dns/record_store.rs:17-39 | registering a new address and deregistering it restores the exact index |
| RecordStore.RefinesHistory | src/adapters/dns/record_store.rs:17-48 | after any run: no duplicates, an address is listed iff its last operation was a register, order of first registration since the last removal, nothing empty kept |
| RecordStore.HistoryDeterminesList | src/adapters/dns/record_store.rs:17-48 | two lists that match a history are equal |
| RecordStore.LookupIsTheHistory | src/adapters/dns/record_store.rs:41-48 | a list matches the history iff it is what lookup returns |
| RecordStore.RegistrationsRead | src/adapters/dns/record_store.rs:17-24 | every list without duplicates is the list of a reachable index |
| Resolver.ResolveInternal | src/adapters/dns/record_store.rs:58-66 | every spelling of `host.project.internal` with any trailing dots resolves as host and project |
| Resolver.ResolveOnlyInternal | src/adapters/dns/record_store.rs:58-80 | no other name resolves, and never to an empty list |
| Resolver.ParseDecimal | src/adapters/dns/record_store.rs:69-70 | a printed number parses back, or fails from 2^64 on |
| Resolver.ParseExactly | src/adapters/dns/record_store.rs:69-70 | a suffix parses to n iff it is an optional plus, any zeros and the decimal digits of n, and n is below 2^64 |
| Resolver.ReplicaAnswer | src/adapters/dns/record_store.rs:68-76 | a host that ends in a dash and a spelling of an index in range resolves to that one address |
| Resolver.WholeHostAnswer | src/adapters/dns/record_store.rs:68-79 | every other host (no dash, no number, 2^64 or more, index out of range) resolves to the whole list of its full name, or to nothing |
| Resolver.DashedNameAnswer | src/adapters/dns/record_store.rs:68-79 | a dash before text that spells no number leaves the host the full name of its deployment |
| Resolver.WordSuffixAnswer | src/adapters/dns/record_store.rs:68-79 | so does any dash-free suffix that is empty, a lone plus, or holds a byte that is neither a digit nor a leading plus |
| Resolver.ReplicaRoundTrip | src/adapters/dns/record_store.rs:50-80 | in every reachable index the printed name of replica i resolves to the i-th address |
| Caddy.RenderCaddyfile | src/adapters/proxy/caddy.rs:22-64 | the text pushed piece by piece is the blocks of the routes with an empty line between them |
| Caddy.RenderRoute | src/adapters/proxy/caddy.rs:34-60 | one route's pushes make up its block: header, TLS line, proxy lines, closing brace |
| Caddy.RenderProxy | src/adapters/proxy/caddy.rs:48-58 | the inner block for several upstreams, one line for one |
| Caddy.CountBraces | src/adapters/proxy/caddy.rs:120-126 | the character loop adds the line's opening minus closing braces |
| Caddy.ScanContent | src/adapters/proxy/caddy.rs:95-135 | the scanning loop keeps exactly the lines that `Scan` keeps |
| Caddy.CaddyBackend.ApplyRoutes | src/adapters/proxy/caddy.rs:69-81 | the file becomes the printed routes |
| Caddy.CaddyBackend.RemoveRoute | src/adapters/proxy/caddy.rs:83-150 | a missing file stays missing; else the file becomes the kept lines, trimmed at the end |
| CaddyRemoval.HeaderOpens | src/adapters/proxy/caddy.rs:102-116 | a printed header starts a removal iff its domain is the one removed |
| CaddyRemoval.InnerOpens | src/adapters/proxy/caddy.rs:102-116 | the inner line of several upstreams starts one iff the domain is `reverse_proxy` |
| CaddyRemoval.OneWordOpens | src/adapters/proxy/caddy.rs:102-116 | a line of one word starts a removal iff it ends in a brace and is the domain or its `http://` or `https://` address |
| CaddyRemoval.BodyCloses | src/adapters/proxy/caddy.rs:112-131 | in every block the brace counter stays positive inside and is zero at the last line |
| CaddyRemoval.BraceCounter | src/adapters/proxy/caddy.rs:119-129 | for any lines that close from a depth: the depth after each number of lines is positive just before the last |
| CaddyRemoval.BodyDepth | src/adapters/proxy/caddy.rs:112-131 | in a printed block the counter is positive after every number of lines but all of them, and then zero |
| CaddyRemoval.ScanBlocks | src/adapters/proxy/caddy.rs:101-135 | what scanning the blocks of a file leaves, for every domain, also when inner blocks were stripped before: the other routes' blocks, stripped if the domain is `reverse_proxy` |
| CaddyRemoval.StrippedExact | src/adapters/proxy/caddy.rs:101-135 | a stripped file still holds the blocks of its routes iff none of them has several upstreams |
| CaddyRuns.ScanNonBlank | src/adapters/proxy/caddy.rs:101-135 | empty lines do not influence the scanner |
| CaddyRuns.FinishLines | src/adapters/proxy/caddy.rs:137-143 | the final trim drops empty lines only |
| CaddyRuns.RenderedNonBlank | src/adapters/proxy/caddy.rs:22-64 | the non-blank printed lines are the blocks in order |
| CaddyRuns.RenderedGaps | src/adapters/proxy/caddy.rs:25-28 | the printed lines are the blocks with one empty line between two of them |
| CaddyRuns.RemovedFromCrlf | src/adapters/proxy/caddy.rs:101-143 | a removal gives the same text whether the lines of the file end in newlines or in carriage returns and newlines |
| CaddyRuns.RemovedHolds | src/adapters/proxy/caddy.rs:83-150 | one removal, in every case, leaves a file that holds the other routes |
| CaddyRuns.RemoveExact | src/adapters/proxy/caddy.rs:83-150 | one removal leaves the lines of the other routes iff the domain is not `reverse_proxy` or no other route has several upstreams |
| CaddyRuns.RemovalRun | src/adapters/proxy/caddy.rs:83-150 | after any sequence of removals the file holds the remaining routes, stripped iff `reverse_proxy` was among the domains |
| CaddyRuns.RemovingIsPrintingWithout | src/adapters/proxy/caddy.rs:22-150 | after any removals the non-blank lines are those of printing the routes not removed iff `reverse_proxy` was not removed or no route left has several upstreams |
| CaddyRuns.StrippedExample | src/adapters/proxy/caddy.rs:105-116 | a concrete printed route that loses its upstreams when the domain `reverse_proxy` is removed from the file |
| Traefik.RenderConfig | src/adapters/proxy/traefik.rs:77-132 | the loop inserts one router and one service per route |
| Traefik.RenderServers | src/adapters/proxy/traefik.rs:108-115 | one server per upstream in order, with its weight only above 1 |
| Traefik.TraefikBackend.ApplyRoutes | src/adapters/proxy/traefik.rs:137-152 | the file becomes the rendered configuration |
| Traefik.TraefikBackend.RemoveRoute | src/adapters/proxy/traefik.rs:154-185 | both entries of the sanitized name go, if there is a file |
| Traefik.LastWins | src/adapters/proxy/traefik.rs:80-129 | a sanitized name holds the router and service of the last route that has it |
| Traefik.RemoveRendered | src/adapters/proxy/traefik.rs:154-185 | removing a domain from the rendered routes is rendering the routes of other sanitized names |
| Traefik.RunClosed | src/adapters/proxy/traefik.rs:77-185 | after any run routers and services correspond one to one and every router's service exists |
| NexaProxy.BuildConfig | src/adapters/proxy/nexa_proxy.rs:68-103 | the loop builds the map of routes by domain |
| NexaProxy.LastWins | src/adapters/proxy/nexa_proxy.rs:70-96 | a domain holds the settings of the last route that has it |
| NexaProxy.NexaProxyBackend.ApplyRoutes | src/adapters/proxy/nexa_proxy.rs:145-150 | the file becomes the built map |
| NexaProxy.NexaProxyBackend.RemoveRoute | src/adapters/proxy/nexa_proxy.rs:152-168 | the domain's entry goes, if there is a file |
| NexaProxy.RemoveBuilt | src/adapters/proxy/nexa_proxy.rs:152-168 | removing a domain from the built map is building without its routes |
| Backends.ReadBlocks | src/adapters/proxy/caddy.rs:22-64 | reading the blocks of a file gives back, in order, every route's domain, email or certificate and key, ordered addresses and proxy options, but for those of several upstreams once stripped |
| Backends.CaddyReadsBack | src/adapters/proxy/caddy.rs:22-150 | the same for the text after any sequence of removals, with the routes not removed |
| Backends.TraefikTable | src/adapters/proxy/traefik.rs:77-132 | for any routes the rendered maps serve a service (rule, entry point, TLS flag, ordered servers with weights, health check) iff it is that of the last route of its sanitized name |
| Backends.NexaTable | src/adapters/proxy/nexa_proxy.rs:68-103 | for any routes the built map has a route, with its weights and its email or certificate and key, iff it is the last one of its domain |
| Backends.CaddyAgreesExactly | src/adapters/proxy/caddy.rs:22-150 | after any removals the text says exactly the routes not removed, with TLS material and options, iff none of those was stripped |
| Backends.TraefikAgreesExactly | src/adapters/proxy/traefik.rs:77-185 | after any removals the maps serve exactly the services of the routes not removed iff none of those shares its sanitized name with a removed domain and one sanitized name means one service |
| Backends.NexaAgreesExactly | src/adapters/proxy/nexa_proxy.rs:68-168 | after any removals the map has exactly the routes not removed, with TLS material and weights, iff no domain has two different routes |
| Backends.CollisionExample | src/adapters/proxy/traefik.rs:80-81 | of `a.b` and `a-b` Traefik serves one only, nexa-proxy both |
| Backends.RemovalCollisionExample | src/adapters/proxy/traefik.rs:154-185 | removing `a-b` takes the route of `a.b` from Traefik and not from nexa-proxy |
| Backends.BackendsAgree | src/adapters/proxy/traefik.rs:77-185 | with Caddy and nexa-proxy: after the same routes and removals all three say exactly the routes not removed (Caddy and nexa-proxy with the same TLS material) iff none was stripped, none shares its sanitized name with a removed domain, one sanitized name means one service and one domain means one route |
| Backends.SameSites | src/adapters/proxy/traefik.rs:77-185 | backends that agree serve the same domains, with or without TLS, from the same ordered addresses |
| Membership.Register | src/cluster/server.rs:46-97 | a valid token, a new name and a new id add a Ready worker with the name, address and resources of the request and a current heartbeat; anything else changes nothing; the reply says which case it was |
| Membership.HandlePing | src/cluster/server.rs:110-135 | a known row gets the time, the reported status and the reported resources |
| Membership.DrainNode | src/api/handlers.rs:344-371 | the row of that name becomes Draining |
| Membership.RemoveNode | src/api/handlers.rs:373-413 | the row of that name goes if it is Draining or a master; the replies say which case it was |
| Membership.CheckNode | src/cluster/heartbeat.rs:56-99 | any row of the listing: a worker silent for 30 seconds is written back as NotReady, from 60 seconds on its pods are handed over, masters are skipped |
| Membership.CheckNodes | src/cluster/heartbeat.rs:49-102 | one pass updates every stale worker and makes one call per dead worker with pods |
| MembershipRuns.PassConservesPods | src/cluster/heartbeat.rs:79-88 | a pass hands over every pod on a dead worker exactly as often as it is stored and no other pod |
| MembershipRuns.PassCallsExact | src/cluster/heartbeat.rs:67-88 | one call per dead worker with pods, with exactly its pods, and none for any other node |
| MembershipRuns.PodsOnSpec | src/cluster/heartbeat.rs:80-84 | the pods of a call are all pods assigned to the node, at all their places and in order |
| MembershipRuns.PassCallsOrder | src/cluster/heartbeat.rs:56-88 | the calls of a pass come in the order of its listing |
| MembershipRuns.PassFrame | src/cluster/heartbeat.rs:56-98 | a pass keeps the node set, heartbeats, masters and fresh workers, and marks stale workers |
| MembershipRuns.RunInv | src/cluster/server.rs:58-135 | over every run names stay unique and no heartbeat lies in the future |
| MembershipRuns.HeartbeatMonotone | src/cluster/server.rs:118-135 | over every run of atomic steps a node's heartbeat never goes back |
| MembershipRuns.StatusIsLastWritten | src/cluster/server.rs:118-135 | a row's status is the latest one a step wrote into it |
| MembershipRuns.RowIsItsHistory | src/cluster/server.rs:46-135 | over every run a whole row (name, address, role, status, resources, heartbeat) is what its registrations, pings, drains, removals and monitor passes, read by their literal thresholds, made of it |
| MembershipRuns.DeletedExactly | src/api/handlers.rs:373-413 | from any start, a row disappears iff it is removed by name and is a master's or its latest status, by whichever step wrote it, is Draining |
| MembershipRuns.DrainUndoneExactly | src/cluster/server.rs:118-135 | over any run a drained node has lost that status at the end iff a later ping, stale monitor pass or re-registration undid it and nothing drained it again |
| MembershipRuns.DrainUndone | src/cluster/heartbeat.rs:67-98 | a drained worker that pings ready, or that a pass finds stale, is Ready or NotReady again and its removal is refused |
| MembershipRuns.SilentWorkerDetected | src/cluster/heartbeat.rs:49-98 | with passes at most 10 seconds apart a worker silent since time h is NotReady from h + 40s on |
| MembershipRuns.SilentWorkerRescheduled | src/cluster/heartbeat.rs:67-88 | and from h + 70s on each pod that stayed assigned to it was handed to reschedule |
| MembershipRuns.RegistrationStored | src/cluster/server.rs:66-97 | a registration stores a Ready worker with the name, address and resources of the request and the current time, and no other row changes |
| MembershipRuns.RegisteredDetected | src/cluster/heartbeat.rs:49-98 | a node that registers and is never heard of again is NotReady 40 seconds later |
| MembershipRuns.RegisteredRescheduled | src/cluster/heartbeat.rs:67-88 | and 70 seconds later each pod that stayed assigned to it was handed to reschedule, at 60 seconds at the earliest |
| MonitorRace.NoFalseAlarm | src/cluster/heartbeat.rs:53-98 | with listing, clock read and writes interleaved with pings, registrations and writes of other rows: pings at most g old, clock at most d late and g + d < 30s imply that heartbeat and status are always those of the latest ping, no check changes the row and its pods are not rescheduled |
| MonitorRace.RacingPingSurvives | src/cluster/heartbeat.rs:53-98 | over any table and any run of pings, drains, registrations and removals: a check at step c works on the row listed at an earlier step and judged by the clock of a step between; it writes that whole row back iff it was stale by that clock and not NotReady, so the heartbeat of the latest ping or drain survives iff nothing is written or nothing newer arrived |
| MonitorRace.GoesBackStep | src/cluster/heartbeat.rs:67-98 | a single step, of any handler, moves a heartbeat back iff it is an older ping, a drain of an older row, or a check that writes an older row back |
| MonitorRace.GoesBackExactly | src/api/handlers.rs:344-371 | with the monitor: over any run with ordered ping stamps a heartbeat goes back at a step iff it is a check or a drain that writes a row older than the one it overwrites |
| MonitorRace.PingLost | src/cluster/heartbeat.rs:53-98 | a run over a master's and a worker's row in which a ping is lost |
| MonitorRace.PingLostToDrain | src/api/handlers.rs:348-351 | a run in which a drain that read the row before a ping writes it back after it |
| Cni.SubnetAllocator.Allocate | src/adapters/runtime/cni.rs:61-76 | the known octet of a name, or the next one, or failure once the counter wrapped to zero |
| Cni.SubnetAllocator.Release | src/adapters/runtime/cni.rs:79-82 | forgets the name and keeps the counter |
| Subnets.CidrReads | src/adapters/runtime/cni.rs:64-75 | the printed subnet, read by its own grammar (RFC 4632, section 3.1), is the network of its three octets with 24 prefix bits |
| Subnets.CidrCovers | src/adapters/network/subnet.rs:35-38 | by prefix arithmetic a printed subnet covers exactly the 256 addresses that start with its octets |
| Cni.CniManager.EnsureNetwork | src/adapters/runtime/cni.rs:109-137 | writes the conflist of a new name with its allocated subnet; failures leave what the code leaves |
| Cni.CniManager.RemoveNetwork | src/adapters/runtime/cni.rs:140-147 | deletes the file if present and then releases the name |
| Cni.NeverReused | src/adapters/runtime/cni.rs:61-147 | over any run the octets issued are 1, 2, 3, ... and at most 255, whatever is released; files and allocator agree |
| Cni.ExhaustedForGood | src/adapters/runtime/cni.rs:66-71 | after 255 networks every new name fails for good and changes nothing |
| Cni.KeepsNetwork | src/adapters/runtime/cni.rs:109-147 | from any reachable state a name keeps its conflist and its octet through any calls but its own removal |
| Cni.DisjointNetworks | src/adapters/runtime/cni.rs:117-135 | no two conflists of a reachable state cover a common address |
| Cni.NetworkExactly | src/adapters/runtime/cni.rs:117-135 | in any reachable state a name's conflist carries the name and its bridge and covers exactly 172.20.x.0 to 172.20.x.255 for the octet x the allocator holds |
| Cni.EnsuredExactly | src/adapters/runtime/cni.rs:109-137 | in any reachable state a writable network is made iff there is one, its octet is held or fewer than 255 octets were issued; a new name gets the next octet and no other name changes |
| Cni.RemovedExactly | src/adapters/runtime/cni.rs:140-147 | a removal succeeds iff there is no file or it can be deleted; it then takes the file and the octet of that name and nothing else |
| Overlay.SubnetAllocator.Allocate | src/adapters/network/subnet.rs:30-39 | the old counter value names the subnet, zero none, and the counter wraps at 256 |
| Overlay.CounterClosedForm | src/adapters/network/subnet.rs:30-39 | call n sees the counter (n + 1) mod 256 |
| Overlay.SuccessesCycle | src/adapters/network/subnet.rs:30-39 | the k-th success has third octet k mod 255 + 1 |
| Overlay.WindowDistinct | src/adapters/network/subnet.rs:30-47 | any 255 consecutive successes are different subnets, none of them the master's |
| Overlay.InMemoryRouteStore.AllocateSubnet | src/adapters/state/memory_route_store.rs:89-109 | refuses a taken key, then a taken subnet, and otherwise appends |
| Overlay.InMemoryRouteStore.DeallocateSubnet | src/adapters/state/memory_route_store.rs:128-133 | keeps all other entries and says whether one went |
| Overlay.AddedExactly | src/adapters/state/memory_route_store.rs:89-109 | an entry is refused iff some entry has its node and project, else iff some entry has its subnet, and else appended |
| Overlay.RetainedSpec | src/adapters/state/memory_route_store.rs:128-133 | deallocating keeps the entries of all other keys, at all their places and in order |
| Overlay.FoundSpec | src/adapters/state/memory_route_store.rs:111-121 | the reader finds the first entry of the key, iff there is one |
| Overlay.RunInjective | src/adapters/state/memory_route_store.rs:89-133 | after any run the table is an injective partial map |
| Overlay.StoreRoundTrip | src/adapters/state/memory_route_store.rs:89-133 | a stored entry is found under its key, and deallocating it restores the table |
| Overlay.FirstSubnetsStored | src/adapters/network/subnet.rs:30-39 | storing the allocator's successes in order under different keys in an empty table succeeds for exactly the first 255; the table after each call is given, and later subnets are refused as taken |
| StateTables.SqliteStore.InsertProject | src/adapters/state/sqlite.rs:167-183 | refuses a known name |
| StateTables.SqliteStore.UpdateProjectStatus | src/adapters/state/sqlite.rs:237-251 | refuses an unknown name |
| StateTables.SqliteStore.DeleteProject | src/adapters/state/sqlite.rs:253-260 | removes the project and cascades |
| StateTables.SqliteStore.InsertDeployment | src/adapters/state/sqlite.rs:262-282 | refuses a known id, a missing project or a taken (project, name) |
| StateTables.SqliteStore.UpdateDeployment | src/adapters/state/sqlite.rs:323-344 | writes spec, status and time, and leaves the key columns |
| StateTables.SqliteStore.DeleteDeployment | src/adapters/state/sqlite.rs:346-353 | removes the row and cascades to its pods |
| StateTables.SqliteStore.InsertPod | src/adapters/state/sqlite.rs:355-378 | refuses a known id or a missing deployment |
| StateTables.SqliteStore.UpdatePod | src/adapters/state/sqlite.rs:404-424 | writes the mutable columns of a known pod |
| StateTables.SqliteStore.DeletePod | src/adapters/state/sqlite.rs:426-433 | removes the row |
| StateTables.RunIntegrity | migrations/20260521000001_initial_schema.sql:18-29 | after every sequence of calls every pod's deployment and every deployment's project exist and (project, name) is unique |
| StateTables.RefusedExactly | migrations/20260521000001_initial_schema.sql:18-29 | an insert is refused iff its key is taken or its row would break integrity, an update iff there is no such row, a deletion never |
| StateTables.RowsAreHistories | src/adapters/state/sqlite.rs:167-433 | after every sequence of calls each project, deployment and pod is, column by column, what the calls about it made of it |
| StateTables.DeleteProjectExact | migrations/20260522000005_cascade_delete_project.no_tx.sql:5-14 | deleting a project removes exactly its deployments and exactly their pods |
| StateTables.AgreeStep | src/adapters/state/sqlite.rs:262-344 | a call keeps key columns and specs in step iff it is no update that changes the key |
| StateTables.RunAgreesExactly | src/adapters/state/sqlite.rs:262-344 | key columns and specs agree all along a sequence of calls iff its updates keep the keys |
| StateTables.GetsNamed | src/adapters/state/sqlite.rs:284-299 | while updates keep the key, what is read under (project, name) is the one deployment so named |
| StateTables.InsertThenGet | src/adapters/state/sqlite.rs:262-299 | a deployment that was inserted is read back under its key, whole, and nothing else is |
| StateTables.NamedExactly | src/adapters/state/sqlite.rs:284-299 | what is read under any key has that name iff key columns and specs agree in every row |
| StateTables.MisnamedExample | src/adapters/state/sqlite.rs:323-344 | three calls after which a deployment is read under a name its spec does not have |
| StateTables.FilteredListing | src/adapters/state/sqlite.rs:301-321 | listing one project is filtering the whole listing, for every project, iff every row's column agrees with its spec |
| StateTables.MislistedExample | src/adapters/state/sqlite.rs:301-344 | three calls after which the listing of a project holds a deployment of another |
| ImageRef.NormalizedShape | src/adapters/runtime/containerd.rs:38-69 | the output has a dotted host part and a colon |
| ImageRef.RegistryExactly | src/adapters/runtime/containerd.rs:44-46 | a reference has a registry iff a dot comes before its first slash and first colon |
| ImageRef.RepositoryKept | src/adapters/runtime/containerd.rs:56-68 | read back by its separators, a tagged reference without a registry becomes `docker.io/`, its own path (below `library/` if it is a bare name) and its own tag |
| ImageRef.UntaggedRepository | src/adapters/runtime/containerd.rs:56-68 | and one without a colon the same with the tag `latest` |
| ImageRef.RegistryKept | src/adapters/runtime/containerd.rs:48-54 | a reference with a registry is kept, but for `:latest` behind one without a colon |
| ImageRef.FixedPoints | src/adapters/runtime/containerd.rs:44-54 | the inputs left alone are exactly those with both |
| ImageRef.Idempotent | src/adapters/runtime/containerd.rs:38-69 | normalising twice is normalising once, for every string |
| ImageRef.TagPreserved | src/adapters/runtime/containerd.rs:56-68 | without a registry the text after the last colon is preserved |
| ImageRef.TaggedExactly | src/adapters/runtime/containerd.rs:38-69 | the output has a colon in its last path segment iff the input has one there or no colon at all |
| ImageRef.PortHidesTag | src/adapters/runtime/containerd.rs:44-54 | any reference with a dotted host, a port and an untagged path is left as it is, without a tag |
| ImageRef.PortExample | src/adapters/runtime/containerd.rs:44-54 | `r.io:5000/app` is such a reference |

## Left out

- DnsServer.HandleDnsQuery: lowering of names that are not ASCII is a parameter, and forwarding is an outcome; sockets, the TCP length prefix and the upstream exchange are not modelled.
- DnsServer.HandledClientQuery: is about ASCII labels without dots, because it counts labels; `DnsServer.HandledQuery` is the statement for all labels.
- DnsServer.CapitalKeysUnserved: is about ASCII labels without dots, since lowering outside ASCII is a parameter.
- Resolver.ParseDecimal: `usize` is taken to be 64 bits wide.
- Caddy.ScanContent: the brace counter is an unbounded integer, not 32 bits wide.
- Caddy.CaddyBackend.RemoveRoute: read and write errors of the file are not modelled, nor are reload and health; the same holds for the other two backends, whose serialisation is taken to be lossless.
- Caddy.CaddyBackend.ApplyRoutes: write errors of the file are not modelled.
- Traefik.TraefikBackend.ApplyRoutes: serialisation and write errors are not modelled.
- Traefik.TraefikBackend.RemoveRoute: read, parse and write errors are not modelled.
- NexaProxy.BuildConfig: the listen addresses, which are constants of the configuration, are left out.
- NexaProxy.NexaProxyBackend.ApplyRoutes: serialisation and write errors are not modelled.
- NexaProxy.NexaProxyBackend.RemoveRoute: parse and write errors are not modelled.
- Backends.BackendsAgree: reads addresses, emails and paths back from the Caddy text, so they must not contain spaces, which the printer puts between them; Traefik's maps hold no TLS material.
- Trimming: which characters are white space is the Unicode property the standard library uses, taken as a table.
- CaddyRemoval.HeaderOpens: domains that carry a scheme or whitespace are excluded, because a printed header then names another domain than the route does; the other theorems about printed blocks share this.
- CaddyRemoval.BodyCloses: tokens that contain braces or line breaks are excluded, because the printer writes them unquoted and the text has other blocks then.
- CaddyRuns.RemovingIsPrintingWithout: is about routes whose domains are words without a scheme and whose other tokens have no braces or line breaks, because the printer does not quote.
- Membership.Register: the new worker's status Ready and heartbeat time come from `Node::new` of nexa-core, which is not part of this model; the id is a parameter.
- Membership.CheckNodes: failing store calls are not modelled, and the listing comes in any order rather than by name.
- MonitorRace.NoFalseAlarm: the monitor's write of one row and its listing of that row's pods are one step.
- Overlay.SubnetAllocator.Allocate: the constructor takes the first two octets; parsing the CIDR argument is easy and left out.
- Cni.CniManager.EnsureNetwork: a conflist is written whole or not at all, and creating the directory succeeds.
- Cni.NeverReused: is about one process from an empty directory, since a restart begins at octet 1 again.
- StateTables.FilteredListing: listings are sets, so ORDER BY is not modelled; a spec has only the fields that matter to the keys and two more; SQL, JSON columns, secrets, routes and certificates are left out.
- nginx backend: straight-line text, one file per domain.
- Node rows in SQLite: the membership model has them as a map with the same keys.
- API routing, TLS renewal, secrets, WireGuard, log tailing, metrics, Docker and containerd calls: wrappers over libraries or easy.
