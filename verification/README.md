# Verified model of Nirantara

A Dafny model of the parts of Nirantara in which state, concurrency or wire formats make mistakes likely, with proofs
of what those parts guarantee and of what they do not.

* **Store and forward** (`edge/src/sync.c`, `edge/src/buffer.c`, `edge/src/main.c`). `EdgeData` holds rows, keys and
  PostgreSQL transactions, `EdgeStore` the SQLite queue, `EdgeSync` one flush as the code performs it. `EdgeFlush`
  says exactly what a flush does. `EdgeProtocol` is the whole agent as a step system: arrivals, the sync thread, any
  number of overlapping flushes from signal handlers, failure of any statement, crashes between any two steps.
  `EdgeRuns` and `EdgeShutdown` prove safety, convergence and bounds over all its runs, `EdgeRefinement` shows that the
  sequential flush is one of those runs, and `EdgeProgress` that runs which finish, shut down and recover exist.
* **Enrollment over the wire** (`enrollment/src/http.c`, `lib/nirantara-net/src/enroll.c`, `nr_enroll` in
  `lib/nirantara-net/src/net.c`). `Http` is header lookup, `HttpServer` the incremental reader, the handler and the
  sender, `EnrollClient` the printer and the response parser, and `EnrollExchange` puts both ends together. `Text`,
  `Numbers` and `Trimming` model C strings, `strstr`, `%zu`, `strtoul` and the stripping of white space.
* **Codecs and tables**. `Der` (`enrollment/src/enrollment.c`), `Base64` and `KmsJson` (`enrollment/src/kms.c`),
  `Subscriptions` (`net.c` and `mqtt.c` of `lib/nirantara-net/src`), `Allowlist` (`enrollment/src/config.c`).

Each method has the loops and branches of the C function it models and is proved against a specification function; the
lemmas are about those functions, or about all runs of a step system. Outcomes of foreign calls (does COMMIT succeed, how
many bytes does `recv` return, in which order does SQLite list rows of equal `ts`) are parameters, so every statement holds
for all of them. A `char` stands for a byte.

## Where the code and its documentation disagree

The model follows the code.

* `docs/architecture.md:63-64` and `edge/src/sync.c:18-24` promise that synced rows are marked and that a failed flush can
  be retried. `pg_flush` ignores the results of BEGIN and COMMIT (`edge/src/sync.c:66-67`, `edge/src/sync.c:110-111`) and
  uses no savepoints, so rows acknowledged before a failing upsert are marked although the transaction rolls back.
  `EdgeFlush.FlaggedDeliveredIff` gives the exact condition under which one flush keeps the promise,
  `EdgeRefinement.GoneIff` says exactly which rows of a batch are gone when it does not, `EdgeRefinement.LossHappens` is a
  whole run with a single failing statement that loses a row, `EdgeRuns.LossIsPermanent` says such a row never
  arrives as long as no two rows share a key, and `EdgeRuns.FlaggedMeansDelivered` proves the promise for all runs in which acknowledging transactions commit.
* "Delivered" means that the key is in PostgreSQL. Two messages with the same first 255 bytes of topic in the same second
  share a key, and ON CONFLICT DO NOTHING keeps one payload only, so `docs/architecture.md:63-64` holds of keys but not of
  payloads. `EdgeRuns.PayloadIff` gives the exact condition: a record of the initial table stays, and under any other key
  every row's own payload is stored iff all rows with that key have the same one. `EdgeRefinement.PayloadLossHappens` is a
  run in which everything succeeds and a payload is lost.
* Section 8.6 of RFC 9110 allows only digits in Content-Length. `Http.BeyondDigits` gives exactly the other values that the
  code takes: the empty one, as 0, and digits with white space of `isspace`, a sign, or both in front, where a minus counts
  modulo 2^64, as long as they come to at most 65536. (Header lookup has stripped blanks and tabs from the ends of a value
  before, and no other white space.) `EnrollExchange.LenientAccepted` puts every one of
  them that a header line can carry into a whole request. That the empty value counts as 0 is how `strtoul` of the GNU C
  library behaves; POSIX would also allow it to set `errno` there.
* `lib/nirantara-net/include/nirantara/net.h:104-107` says that `nr_enroll` stores the signed certificate. The client does
  not look at Content-Length, so a connection closed early can leave it with a part
  (`EnrollExchange.TruncatedCertificateAccepted`); `EnrollExchange.ReplyCut` says for every cut whether it is accepted.

## Model

| member | source | states |
|---|---|---|
| EdgeData.DeviceIdMeaning | edge/src/sync.c:31-42 | However a topic splits at its slashes, the device id is the segment between the first slash and the next one or the end, cut to the buffer |
| EdgeData.DeviceIdForm | edge/src/sync.c:31-42 | A device id never holds a slash and fits its buffer; a topic without a slash gives "unknown" |
| EdgeData.SharedKey | edge/src/sync.c:75-87 | Two buffered rows compete for one PostgreSQL key iff their topics agree on the first 255 bytes and their ts agree |
| EdgeData.RowKeyIff | edge/src/sync.c:75-87 | A row has exactly one key: its topic cut to 255 bytes, its ts, and as device id what stands between the first two slashes of that topic, cut to 63 bytes, or "unknown" if it has no slash |
| EdgeData.BatchSize | edge/src/buffer.c:89-91 | Any answer to the SELECT holds min(unflushed, limit) distinct unflushed ids |
| EdgeStore.EventStore.EventInsert | edge/src/buffer.c:55-82 | A NULL payload or failed INSERT changes nothing; otherwise one unflushed row appears under an id never used before |
| EdgeStore.EventStore.ReadUnflushed | edge/src/buffer.c:84-133 | -1 iff the limit is not positive or a step fails; otherwise the caller's array starts with exactly the selected events |
| EdgeStore.EventStore.MarkFlushed | edge/src/buffer.c:135-166 | Flags exactly the ids whose UPDATE took effect: each alone if BEGIN failed, none if the transaction does not commit, and only later ones if an UPDATE makes SQLite roll back by itself; 0 iff BEGIN and COMMIT succeed on one transaction |
| EdgeSync.ExtractDeviceId | edge/src/sync.c:31-42 | What a reader of the C buffer sees is the specified device id, for every buffer size |
| EdgeSync.UpsertEvent | edge/src/sync.c:73-100 | The statement of one event has the specified effect, and when it succeeds the session has a record under the device id that the topic spells, the topic and ts |
| EdgeSync.PgFlush | edge/src/sync.c:44-122 | With no connection or statement nothing changes and -1 is returned; otherwise the table, the queue and the count are those of the specified flush under the same outcomes |
| EdgeSync.DoSync | edge/src/sync.c:126-152 | If opening, reading, connecting or preparing fails both stores are unchanged; otherwise both are as one flush of the selected batch leaves them |
| EdgeFlush.ExactEffect | edge/src/sync.c:65-121 | After a successful BEGIN exactly the ids before the first failing upsert are passed to marking; any failure adds nothing to PostgreSQL, and full success adds exactly the batch's missing keys, first occurrence winning |
| EdgeFlush.WithoutTransaction | edge/src/sync.c:65-107 | When BEGIN failed, old records stay, everything added is the record of an event whose own upsert succeeded, those events are in the table, and only they are acknowledged |
| EdgeFlush.DeliveredIff | edge/src/sync.c:100-116 | Every id passed to marking is delivered iff there was no transaction, or no upsert and not COMMIT failed, or all events before the first failure were in the table already |
| EdgeFlush.FlaggedAwayIff | edge/src/sync.c:65-118 | A flush leaves a row it read flagged and undelivered iff BEGIN succeeded, the row comes before the first failing upsert, a later upsert or COMMIT failed, its key was new, and its UPDATE succeeded outside a marking transaction or inside one that commits |
| EdgeFlush.FlaggedDeliveredIff | edge/src/sync.c:114-118 | Every row of the batch that ends up flagged is delivered iff there was no transaction, or no upsert and not COMMIT failed, or each event before the first failure was in the table already or its mark did not take effect |
| EdgeFlush.FirstPayloadWins | edge/src/sync.c:26-29 | Of several events of a batch with one new key a successful flush stores the first one's payload and acknowledges all |
| EdgeFlush.AddedRecord | edge/src/sync.c:72-112 | Whatever fails, every record a flush adds has the spelled-out key and the payload of an unflushed row it read, and the name of the node |
| EdgeFlush.SecondPayloadLost | edge/src/sync.c:26-29 | Concrete batch: two messages on one topic in one second, everything succeeds, both are flagged and only the first payload is stored |
| EdgeFlush.FlaggedButNotDelivered | edge/src/sync.c:100-118 | Concrete batch: a malformed second row gets the first one flagged while PostgreSQL stays empty |
| EdgeFlush.CleanFlush | edge/src/sync.c:65-118 | When everything succeeds exactly the batch is flagged and every event of it is in the table |
| EdgeFlush.CleanSyncDrains | edge/src/buffer.c:84-133 | A sync without failures flags min(n, 1000) rows, delivers each, leaves max(0, n - 1000), changes no other row, and no row left is older than one flushed |
| EdgeFlush.DrainSchedule | edge/src/sync.c:140-142 | After k such syncs max(0, n - 1000 k) rows remain, every row flagged meanwhile is delivered, and ceil(n / 1000) syncs empty the queue |
| EdgeProtocol.LocksStep | edge/src/sync.c:26-29 | In every step, concurrent open transactions hold disjoint sets of keys, all new to the table |
| EdgeProtocol.InvStep | edge/src/sync.c:44-152 | Every step of every process, a crash included, keeps: batches are accepted rows as read, locks are disjoint, acknowledged rows are delivered, pending or lost, flagged rows are delivered or lost |
| EdgeProtocol.InvAlong | edge/src/sync.c:44-152 | That invariant holds in every state of every run |
| EdgeRuns.LaterAlong | edge/src/sync.c:26-29 | Along every run rows keep their contents, flags are never taken back, PostgreSQL only grows and a stored payload never changes |
| EdgeRuns.DeliverySafety | edge/src/sync.c:44-122 | In every run an accepted row stays in SQLite with its contents and is unflushed, or its key is committed, or it was acknowledged in a transaction that did not commit |
| EdgeRuns.NothingLost | edge/src/sync.c:109-118 | A run in which acknowledging transactions commit has lost nothing |
| EdgeRuns.FlaggedMeansDelivered | edge/src/sync.c:114-118 | In such a run, whatever the crashes, partial marks and overlapping syncs, every flagged row is delivered |
| EdgeRuns.LossIsPermanent | edge/src/buffer.c:89-91 | When no two rows share a key, a row flagged without delivery and in nobody's hands is never delivered later |
| EdgeRuns.PayloadIff | edge/src/sync.c:26-29 | In every run a record of the initial table stays; under any other delivered key, every row with that key has its own record stored iff all these rows have one payload |
| EdgeRuns.StoredRecord | edge/src/sync.c:72-112 | In every run, every record beyond the initial table has the spelled-out key and the payload of an accepted row, and the name of the node |
| EdgeRuns.DeliveredPayload | edge/src/sync.c:26-29 | For one delivered row whose key the initial table lacked: the stored payload is that of some accepted row with that key, and so its own if no other payload competes for the key |
| EdgeRuns.SharedKeyLoses | edge/src/sync.c:26-29 | Of two delivered rows with one key and different payloads one is lost: the stored payload is not its own and never changes |
| EdgeRuns.RetryConvergence | edge/src/sync.c:18-29 | When no two rows share a key, any run with crashes and duplicate syncs has reached the table that one undisturbed flush of its delivered rows makes of the initial table |
| EdgeShutdown.LastSyncSeesStop | edge/src/sync.c:163-177 | In every run a sync thread in or past its final do_sync started that do_sync after it saw stop, and nothing has been inserted and no other do_sync of it begun since |
| EdgeShutdown.ShutdownDrain | edge/src/main.c:204-221 | If u rows are unflushed when sync_stop is called and every later operation succeeds, at most max(0, u - 1000) remain once the thread has returned |
| EdgeProgress.ShutdownCompletes | edge/src/sync.c:163-192 | From every state after sync_stop with no flush under way there is a run without failures and arrivals in which the thread returns with exactly max(0, u - 1000) of u rows unflushed; then pthread_join returns and main exits |
| EdgeProgress.ShutdownBoundMet | edge/src/main.c:204-221 | Every run that ends serving with no flush under way extends to one that meets the bound of the shutdown drain exactly |
| EdgeProgress.BatchExists | edge/src/buffer.c:84-133 | The SELECT has an answer for every queue and limit |
| EdgeProgress.PeriodicSync | edge/src/sync.c:163-170 | An idle thread can wake up, flush without failures and wait again; the run leaves exactly max(0, n - 1000) rows, delivers the others and changes nothing else |
| EdgeProgress.CrashRecovery | edge/src/sync.c:163-170 | From every state, whatever is under way, a crash leaves queue and table as they are and there is a run after it that delivers and flags every unflushed row |
| EdgeProgress.HandlerMayBegin | edge/src/main.c:37-45 | A signal handler can begin a flush while any others are under way |
| EdgeProgress.NeverStuck | edge/src/sync.c:126-152 | A flush under way always has a next step, whatever the others hold |
| EdgeProgress.MayInsert | edge/src/sync.c:95-101 | An upsert that has a payload can succeed unless its transaction is aborted or another open one has inserted its key |
| EdgeShutdown.HeadOfLineBatch | edge/src/sync.c:72-107 | In every run, a flush whose batch is read while p is strictly the oldest unflushed row, and whose BEGIN succeeds and whose upsert of p fails, adds nothing to PostgreSQL and marks nothing, whatever arrives and whatever other flushes do beside it |
| EdgeShutdown.StuckStep | edge/src/sync.c:72-107 | One step of the whole queue: while every batch in hand starts with the failing oldest row, no step adds to PostgreSQL or flags a row |
| EdgeShutdown.HeadOfLine | edge/src/sync.c:72-107 | Corollary for the whole queue: from a state with no flush under way, as long as every flush begins its transaction and only younger rows arrive, nothing is added to PostgreSQL or flagged, however many flushes are made |
| EdgeRefinement.FlushIsARun | edge/src/sync.c:126-152 | For every outcome of the foreign calls, the result of the sequential flush is reached by a run of the step system, by the sync thread or a handler |
| EdgeRefinement.FailedConnectIsARun | edge/src/sync.c:48-62 | So is a do_sync that cannot connect or prepare: it reads, returns, and leaves both stores alone |
| EdgeRefinement.GoneIff | edge/src/sync.c:65-118 | For every batch and every outcome, a row is flagged, undelivered and in nobody's hands after the flush iff the flush rolled back after acknowledging it, its key was new and its mark took effect |
| EdgeRefinement.LossHappens | edge/src/sync.c:100-118 | The listed nine steps, in which one upsert fails and every other operation succeeds, are a run from the empty queue that ends with the well-formed row flagged and undelivered |
| EdgeRefinement.PayloadLossHappens | edge/src/sync.c:26-29 | Two messages on one topic in one second arrive, a flush without any failure follows, and the run ends with the second flagged and another payload under its key |
| Numbers.PrintParse | enrollment/src/http.c:138-145 | strtoul reads back every 64-bit number that %zu printed, using all of it, without overflow |
| Trimming.TrimIff | enrollment/src/http.c:100-108 | Trimming a text gives t iff t has no white space at its ends and the text is t with white space around it; for header values (blanks and tabs) and allowlist lines (isspace) |
| Trimming.SpaceCodes | enrollment/src/config.c:62 | The characters trimmed, by code: 9 and 32 in header values, 9 to 13 and 32 in allowlist lines |
| Http.AnyCaseIff | enrollment/src/http.c:80 | The case-insensitive comparison holds iff the texts are equally long and differ only in letters whose codes differ by 32 |
| Http.CarriesIff | enrollment/src/http.c:71-81 | A line counts as a header with a value iff it is that name, letters in either case, a colon, and the value with blanks or tabs around it |
| Http.LookupIff | enrollment/src/http.c:83-125 | Lookup gives a value iff the first line that carries the header carries that value |
| Http.CopyHeaderValue | enrollment/src/http.c:83-125 | Finds the blank-trimmed value of the first line of the header block with that name in any case, or none |
| Http.TrimValue | enrollment/src/http.c:100-108 | Strips exactly the leading and trailing blanks and tabs |
| Http.ParseContentLength | enrollment/src/http.c:127-148 | The length announced by the first Content-Length line of the header block, if strtoul uses all of its value and it is at most 65536 |
| Http.DigitsLength | enrollment/src/http.c:138-145 | A value of digits is its decimal value up to 65536 and refused above |
| Http.LengthIff | enrollment/src/http.c:138-145 | A value is accepted as length n iff n is at most 65536 and the value is empty (n = 0) or white space, an optional sign and digits below 2^64 that come to n, a minus counting modulo 2^64 |
| Http.BeyondDigits | enrollment/src/http.c:138-145 | The values accepted beyond section 8.6 of RFC 9110 are exactly the empty one and those with white space or a sign in front of the digits |
| Http.MoreThanDigits | enrollment/src/http.c:138-145 | For instance, for every k up to 65536: a plus sign and k, and for k > 0 a minus sign and 2^64 - k, announce k bytes |
| Http.SplitJoin | enrollment/src/http.c:88-122 | Splitting at CRLF gives back the lines that were joined |
| Http.JoinSplit | enrollment/src/http.c:88-122 | Joining undoes splitting for every header block, and no piece holds a CRLF |
| Http.HeaderEnd | enrollment/src/http.c:178-180 | The first empty line of a printed message is where its header ends, whatever the body |
| HttpServer.ScanStable | enrollment/src/http.c:178-193 | A request found complete or malformed stays so, with the same length, when more bytes arrive |
| HttpServer.ReadRequest | enrollment/src/http.c:150-199 | For every stream and every way recv cuts it up or is interrupted, success and the request bytes are those of one look at the first 65536 bytes |
| HttpServer.OneShotIff | enrollment/src/http.c:160-199 | A stream gives a request iff it starts with it, it has at most 65536 bytes, and it is a header without NULs, the first empty line, and as many bytes as its first Content-Length announces |
| HttpServer.ReparseAgrees | enrollment/src/http.c:223-256 | A request that was read has the same header end and a Content-Length equal to the body span when parsed again |
| HttpServer.HandleClient | enrollment/src/http.c:214-272 | The issuer is asked iff the stream holds a request whose C string starts with "POST /enroll ", whose first CRLF is at 21 or later, and which carries a device id of at most 128 bytes, and then for that id and the body; otherwise 400 for no request, 404 for another request line, 400 for the id; after asking 403 without and 200 with a certificate, which is the body; all writes are in bounds |
| HttpServer.UnreachableReplies | enrollment/src/http.c:237-256 | "missing Content-Length" and "incomplete request body" are never replied |
| HttpServer.SendAll | enrollment/src/http.c:20-38 | For all partial sends and interruptions: success means all bytes went out once and in order, failure a proper prefix; with no failure and enough sends it succeeds |
| HttpServer.SendResponse | enrollment/src/http.c:40-69 | Success means exactly the printed reply went out, failure a proper prefix of it; a header over 511 bytes sends nothing; otherwise, with no failure and enough sends, it succeeds |
| EnrollClient.ReadResponse | lib/nirantara-net/src/enroll.c:194-202 | For every way SSL_read cuts the stream up the buffer holds its first 16383 bytes and a terminating NUL |
| EnrollClient.SendRequest | lib/nirantara-net/src/enroll.c:169-192 | What is written is a prefix of the request, all of it iff the code is OK; a request that does not fit writes nothing |
| EnrollClient.ReceiveCertificate | lib/nirantara-net/src/enroll.c:194-236 | For all reads, code and certificate are those of one look at the first 16383 bytes of the answer |
| EnrollClient.ReceiveIff | lib/nirantara-net/src/enroll.c:204-236 | A certificate is taken iff the answer starts with "HTTP/1.1 200" or "HTTP/1.0 200", it is what follows the first empty line, it holds the BEGIN line and it fits; a memory error iff only that last condition fails |
| EnrollClient.EnrollRequest | lib/nirantara-net/src/enroll.c:169-236 | Too long a request is a memory error with nothing sent, a short write an I/O error with that much sent; otherwise the whole request went out and code and certificate are those of one look at the answer |
| EnrollClient.Context.Cache | lib/nirantara-net/src/net.c:120-126 | A certificate under 8192 bytes replaces the cached one, a longer one is refused and changes nothing |
| EnrollClient.Context.Enroll | lib/nirantara-net/src/net.c:104-127 | Says for every outcome the code and the bytes sent; on NR_OK caller and context hold the same certificate; on any error the context keeps its old one |
| EnrollExchange.CheckDeviceId | enrollment/src/enrollment.c:23-44 | True iff 1 to 128 characters, all letters, digits or one of - _ . : |
| EnrollExchange.RequestHeaders | lib/nirantara-net/src/enroll.c:171-180 | Header lookup in the printed request gives back the device id and the CSR length |
| EnrollExchange.OtherHeaders | lib/nirantara-net/src/enroll.c:171-178 | The printed request line, Host, Content-Type and Connection headers |
| EnrollExchange.RequestIsPost | enrollment/src/http.c:201-212 | The server's request-line test holds of every printed request |
| EnrollExchange.RequestFits | lib/nirantara-net/src/enroll.c:182-185 | For any server_ip under 64 bytes, valid device id and CSR under 8192 bytes the request is below the 16384-byte buffer |
| EnrollExchange.RequestRoundTrip | lib/nirantara-net/src/enroll.c:170-185 | For every valid device id, NUL-free CSR and server_ip without CRLF and NUL, the server finds the printed request complete and asks for exactly that device id and CSR |
| EnrollExchange.AnyRequestTaken | enrollment/src/http.c:214-272 | Every request with an enrollment line and any NUL-free header lines, in any order and spelling, that carry a device id of at most 128 bytes and the length of the body is taken whole, and the issuer is asked for that id and body |
| EnrollExchange.LenientAccepted | enrollment/src/http.c:80-148 | In particular with header names in any mixture of cases, and with every Content-Length value that a header line can carry (no NUL, no CRLF, no blanks at its ends) and the length parser takes |
| EnrollExchange.WrappedLengthAccepted | enrollment/src/http.c:138-145 | In particular minus 2^64 - n announces a body of n bytes |
| EnrollExchange.PartIsIncomplete | enrollment/src/http.c:160-198 | No proper prefix of a printed request is taken for a request |
| EnrollExchange.ReplyCut | lib/nirantara-net/src/enroll.c:194-237 | The client accepts the first k bytes of a certificate reply iff the header is complete, the BEGIN line is in and the rest fits; it then has the certificate up to the cut, the whole of it iff nothing was cut |
| EnrollExchange.RefusalsRejected | lib/nirantara-net/src/enroll.c:204-210 | No 400, 403 or 404 reply is accepted, whole or cut |
| EnrollExchange.TruncatedCertificateAccepted | lib/nirantara-net/src/enroll.c:212-236 | Every certificate reply has a cut that is accepted with only the BEGIN line as certificate |
| EnrollExchange.SmallHeader | enrollment/src/http.c:45-58 | The header of a certificate reply fits its 512-byte buffer for every 64-bit body length |
| EnrollExchange.ReplyReadsBack | enrollment/src/http.c:49-64 | A peer reads in a printed reply its status line, its Content-Type, the decimal length of its body as Content-Length, Connection: close, and after the first empty line the body |
| EnrollExchange.Exchange | lib/nirantara-net/src/net.c:104-127 | End to end, nr_enroll reading what the server answers to the bytes it wrote, for all cuts of both streams: the issuer gets exactly the client's device id and CSR, or nothing if the request went out short; the whole reply is sent if no send fails and there are enough; and then NR_OK iff a certificate with a BEGIN line was issued that fits, which is exactly what caller and context hold |
| Der.DerLenSize | enrollment/src/enrollment.c:261-275 | The size of the length octets, for every 64-bit length |
| Der.WriteDerLen | enrollment/src/enrollment.c:277-293 | Writes exactly those octets at p and touches nothing else |
| Der.WriteOctets | enrollment/src/enrollment.c:288-290 | The shifting loop writes the base-256 digits, most significant first |
| Der.AssembleCertificate | enrollment/src/enrollment.c:405-424 | The allocation is filled exactly with tag, length and the three parts |
| Der.LenRoundTrip | enrollment/src/enrollment.c:277-293 | A decoder of section 8.1.3 of X.690 reads every length back and stops where its octets end |
| Der.LenSpelled | enrollment/src/enrollment.c:277-293 | Below 128 the length itself; otherwise 128 plus the number of octets that follow, of which the first is not zero and the i-th from the end is (len >> 8 i) mod 256 |
| Der.LenPrefixFree | enrollment/src/enrollment.c:277-293 | No length encoding is a prefix of another |
| Der.LenMinimal | enrollment/src/enrollment.c:277-293 | No octets that decode to a length are shorter than the written ones, and none of that size differ (section 10.1 of X.690) |
| Der.CertificateRoundTrip | enrollment/src/enrollment.c:383-432 | For any three well-formed elements a parser reads one SEQUENCE with nothing left over, holding exactly them (section 4.1 of RFC 5280) |
| Base64.BlockBack | enrollment/src/kms.c:110-122 | Decoding blocks gives the data followed by exactly the zero bytes that fill its last group of three |
| Base64.Padded | enrollment/src/kms.c:148-156 | The number of = signs is the number of bytes to drop, and encoded text needs no JSON escape |
| Base64.RoundTrip | enrollment/src/kms.c:110-158 | Decoding undoes encoding for every non-empty data; the empty text is refused |
| Base64.Alphabet | enrollment/src/kms.c:110-122 | The letters are those of table 1 of RFC 4648 |
| Base64.GroupDigits | enrollment/src/kms.c:110-122 | The four letters of a group are the six-bit digits of its 24 bits, most significant first |
| Base64.EncodeGroups | enrollment/src/kms.c:110-122 | Each four characters encode their three bytes; one or two bytes left over are filled with zeros and padded with = |
| Base64.DecodeIff | enrollment/src/kms.c:124-158 | Decoding refuses exactly the empty text, lengths that are no multiple of four, and characters outside the alphabet; how many bytes it gives |
| Base64.Valued | enrollment/src/kms.c:141-146 | The characters decoded are the letters of the alphabet and = |
| KmsJson.JsonEscape | enrollment/src/kms.c:160-187 | The counting pass sizes the allocation exactly and the copying pass fills it with the escaped text |
| KmsJson.JsonGetString | enrollment/src/kms.c:189-240 | After the first quoted occurrence of the key and the first colon after it, wherever that is, the still escaped string; nothing if key, colon, opening or closing quote is missing or the key does not fit its buffer |
| KmsJson.GetStringIff | enrollment/src/kms.c:189-240 | A value is found iff the key is shorter than 126 bytes and the text is its first quoted occurrence, the first colon after it, white space, and that value in quotes, made of characters other than quote and backslash and of backslash pairs |
| KmsJson.ReadString | enrollment/src/kms.c:211-238 | Skips white space and stops at the first quote that no backslash takes along |
| KmsJson.UnescapeEscape | enrollment/src/kms.c:160-187 | Unescaping undoes escaping |
| KmsJson.EscapeLength | enrollment/src/kms.c:160-187 | Escaping adds one character for each quote and each backslash and for nothing else |
| KmsJson.ScanEscaped | enrollment/src/kms.c:220-226 | The scan for the closing quote runs over any escaped text and stops right after it |
| KmsJson.MessageFirst | enrollment/src/kms.c:201-204 | In a printed body the quoted word Message occurs first at the key itself, or as the end of the key id |
| KmsJson.KeyIdReadsBack | enrollment/src/kms.c:258-305 | "KeyId" reads back as the escaped key id, which unescapes to the key id |
| KmsJson.MessageReadsBack | enrollment/src/kms.c:258-305 | "Message" reads back as the base64 of the digest for every key id, even one with quotes, backslashes or the word Message, and decodes to the digest |
| KmsJson.BodyIsObject | enrollment/src/kms.c:290-294 | A reader of JSON objects finds in the body exactly the members KeyId (the escaped key id), Message (the base64 of the digest), MessageType DIGEST and SigningAlgorithm ECDSA_SHA_256, for every key id |
| Subscriptions.Table.Claim | lib/nirantara-net/src/net.c:173-187 | Takes the first inactive slot and changes only that one, to the topic cut to 255 bytes, the callback and the userdata passed; -1 and no change iff all are active |
| Subscriptions.Table.Release | lib/nirantara-net/src/net.c:189-194 | Clears only the active flag of that slot |
| Subscriptions.Table.Dispatch | lib/nirantara-net/src/mqtt.c:49-74 | With nobody else at work, calls exactly the active matching slots, in order, each with its callback and userdata |
| Subscriptions.InvStep | lib/nirantara-net/src/net.c:165-198 | Any interleaving of subscribers and dispatch keeps claimed slots with one caller each and confirmed slots active and unchanged |
| Subscriptions.ConfirmedKept | lib/nirantara-net/src/net.c:173-197 | In every run a slot whose nr_subscribe returned NR_OK keeps topic, callback and userdata and stays active |
| Subscriptions.NoSlotLeaks | lib/nirantara-net/src/net.c:173-197 | In every run the active slots are exactly those confirmed or held by a caller waiting for the broker |
| Subscriptions.SubscriptionKept | lib/nirantara-net/src/net.c:165-198 | In every run, from its claim on, a subscription that gets NR_OK has one slot holding exactly the topic (cut to 255 bytes), callback and userdata that its caller passed |
| Subscriptions.SubscribeInCallback | lib/nirantara-net/src/mqtt.c:62-70 | While a callback runs, and even from it, a subscription with a free slot goes through |
| Subscriptions.DispatchCalls | lib/nirantara-net/src/mqtt.c:49-74 | Despite unlocking around callbacks a dispatch calls slots in strictly increasing order, only ones that were active and matched, and misses none that was so throughout |
| Subscriptions.ConfirmedCalledOnce | lib/nirantara-net/src/mqtt.c:49-74 | A matching subscription confirmed before the message is called exactly once, with its own callback and userdata |
| Subscriptions.SubscriberCalledOnce | lib/nirantara-net/src/mqtt.c:49-74 | A later complete dispatch of a message that this topic matches calls that slot exactly once, with the callback and userdata passed to nr_subscribe |
| Subscriptions.DispatchCompletes | lib/nirantara-net/src/mqtt.c:49-74 | From every state a dispatch left alone ends, having made exactly the calls that Table.Dispatch computes |
| Allowlist.TrimLine | enrollment/src/config.c:59-72 | In place, what is left from the returned position on is the line, up to its first NUL, without white space at both ends |
| Allowlist.CutEnd | enrollment/src/config.c:66-69 | The second loop cuts exactly the trailing white space |
| Allowlist.NewlineTrims | enrollment/src/config.c:109-113 | The newline that getline keeps makes no difference |
| Allowlist.Config.Append | enrollment/src/config.c:74-93 | The array moves to one with room for one more; every device in it is still there, in order, and the new one is last |
| Allowlist.Config.Load | enrollment/src/config.c:95-127 | For every file, NULs included, adds in order the trimmed lines that are neither empty nor comments |
| Allowlist.Config.Allowed | enrollment/src/config.c:215-230 | True iff any device is allowed or this one is in the list |
| Allowlist.EntryIff | enrollment/src/config.c:109-122 | A text is among the entries iff it is not empty, no comment, has no white space at its ends, and some line up to its first NUL is that text with white space around it |
| Allowlist.LinesAre | enrollment/src/config.c:109 | The lines hold no newline and, ended by newlines, are the file again |
| Allowlist.LoadThenAsk | enrollment/src/config.c:95-230 | After loading any file a device is allowed iff allow-any is set or some line, up to its first NUL, is that device with white space around it, the device having none at its ends and being neither empty nor starting with # |

## Left out

- SQLite, libpq and PostgreSQL themselves: they are tables and transactions with a stated semantics (`EdgeData`), in which
  a failed statement aborts its transaction and a pending key makes other inserts wait. Power loss is out; a crash is a
  process crash, and its open transactions roll back before anything else happens.
- Concurrency as Dafny methods: the sync thread, the main loop, signal handlers, and subscribers beside a dispatch are step
  systems on values, so update in place and aliasing are not captured there; the methods of `EdgeSync`, `EdgeStore` and
  `Subscriptions.Table` capture it for one call at a time. A handler's flush may overlap main's inserts in the model,
  which the program's single main thread does not do.
- Other edge nodes writing the same PostgreSQL table, and a changed node id or database after a restart. The path that
  `do_sync` opens (`edge/src/sync.c:129`) is taken to be the configured one (`edge/src/main.c:152`).
- Payload bytes at `edge/src/sync.c:84`: a payload is a value, without the question of its terminating NUL.
- Allocation failure everywhere.
- Key generation, CSR, X.509 and PEM handling, TLS and the key store: foreign calls. The issuer is a function from device id
  and CSR to a certificate or a refusal.
- KMS networking and request signing (`build_authorization`, `build_signing_key`), `libcurl`.
- Sockets, the listener, temporary files, logging, sleep times, reentrancy of signal handlers.
- Environment parsing in both programs and in `nr_enroll_config_load`: easy members only.
- `mosquitto_topic_matches_sub`: an arbitrary function of topic and message.
- `nr_destroy` and a second table lifetime: subscriptions are never given up after NR_OK.
- EnrollClient.EnrollRequest: connection setup and its errors are not part of it; it starts on an established connection.
- Base64.RoundTrip: the blank trimming of the library's decoder is not modelled; encoded text has no blanks.
- Der.CertificateRoundTrip: elements have one-byte tags, and the BIT STRING is any well-formed element; nothing is claimed
  about its unused-bits octet.
- HttpServer.ReadRequest: an endless series of interruptions is not a run; `splits` is finite.
