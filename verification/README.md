# SmartPod: a verified model

SmartPod is a metered power socket: firmware for an ESP8266, a browser simulator with a tariff
engine, a local gateway that records a simulated meter, and scripts that package, publish and install
builds. This project models the parts of it that are algorithms or protocols, in Dafny 4.11, and proves
what they promise for every input, every run or every interleaving.
`dafny verify dfyconfig.toml` checks all of it.

## Modules

| file | what it models |
|---|---|
| `Wrappers.dfy`, `Text.dfy` | results, and byte strings: searching, replacing, C strings, decimal printing |
| `Base64Url.dfy` | the token handler's unpadded base64url (RFC 4648 sections 4 and 5): the reference functions, and the loops that fill, strip and swap |
| `Json.dfy` | the JSON texts the firmware writes (RFC 8259) and a parser that accepts exactly those |
| `Token.dfy`, `TokenService.dfy` | compact tokens (RFC 7515 section 7.1) and the user lookup, as functions and as the two objects that hold the secret and the users |
| `Logger.dfy`, `StructuredLogger.dfy` | what a log record says, and the logger object with its stack buffers |
| `Gateway.dfy` | the shutdown protocol of three goroutines over two contexts and two channels |
| `Store.dfy` | the SQLite history: migration, appends in two steps, crashes, the report |
| `Rounding.dfy` | binary64 products and quotients followed by `Math.round` |
| `Pricing.dfy`, `Session.dfy` | the tariff engine, the session table, the meter, the duration display, the contract projection |
| `Demo.dfy`, `SmartPodDemo.dfy` | the simulator page: clicks, ticks and timers in any order, as steps and as the component |
| `Recognisers.dfy` | the hostname and IP regular expressions against split-and-check |
| `Release.dfy`, `Publish.dfy` | packaging, checking, and any number of concurrent publishers |
| `Install.dfy` | the installer with a failure, signal or kill at every command, the trap's included |
| `Streaming.dfy` | the response slicer and the request body buffer |
| `Timers.dfy` | the two management timers over clock rollovers |

Imperative code is an imperative method or class here, proved against a function; the properties are
lemmas about that function. Protocols with several parties are steps on a state, and the properties are
proved over all finite runs.

## What turned out not to hold everywhere

- A payload with a NUL byte does not survive a token. `decode` returns a C string, so the bytes end at
  the first NUL. `Base64Url.DecodeUndoesEncode` and `Token.BuildThenParse` give the exact condition.
- `encode` returns the empty string when its `malloc` fails, and `sign` returns that. A token that ends in
  its second dot then has the signature the parser computed, and is accepted unsigned:
  `Token.UnsignedIsAccepted`, `Token.UnsignedAuthenticates`. `Token.AcceptsOnlySignedExactly` says that
  all accepted tokens carry a signature if and only if signing can allocate, and
  `Token.AcceptedHasSignature` that the others are exactly those ending in a dot.
- The Wi-Fi timer uses stamp 0 for "connect at once", but `millis()` can be 0. An attempt made then is
  repeated by the next loop. `Timers.TooSoonExactly` says this is the only case, and
  `Timers.RolloverRepeatsAttempt` shows a run.
- `docs/gateway.md` says that a later write failure stops the process with a nonzero exit. If a signal
  arrives before main has taken the error, the select may choose the signal and `run` returns nil:
  `Gateway.WriteErrorCanBeLost`. That happens exactly in the runs in which main takes the signal and the
  shutdown keeps its time (`Gateway.WriteErrorLostExactly`); without a signal there is always an error
  (`Gateway.NoSignalMeansError`). The model follows the code.
- The tests for a closed server in `run` never decide anything: main cannot receive
  `http.ErrServerClosed`, because the server only reports it after main has begun the shutdown
  (`Gateway.ReturnedError`).
- Checking the user name before the payload in `authenticateJWT` decides nothing: the payload comparison
  alone gives the same answer (`Token.ValidatesExactly`).
- The installer's clean-up is not complete on every caught exit. A second signal or a failing `rm` in the
  trap ends it early, and a `mktemp` that fails after creating its file has not told the trap its name:
  `Install.SecondSignalLeavesFiles`, `Install.FailingRmLeavesFiles`, `Install.LateMktempLeavesFile`.
  `Install.Installer.Install` states exactly when nothing is left. The destination is safe in all cases.
- A release that somebody else rewrites or deletes between `publish`'s download and its edit can be
  published unchecked (`Publish.LateRewriteIsPublished`, `Publish.UnverifiedCanBePublished`,
  `Publish.LateDeletionIsPublished`); at any other time it takes others to make
  it public themselves (`Publish.PublicReleaseIsVerified`).
- A run may publish a draft that another run created, if somebody deletes the first one's release while it is
  past creation (`Publish.EarlyDeletionChangesCreator`); if deletions wait, as when the draft of a failed run
  is removed for a new one, it cannot (`Publish.PublishedByItsCreator`).
- A failed `publish` does not always leave a draft: an edit that takes effect and still reports failure
  leaves the release public, and only that does (`Publish.EditDecides`, `Publish.EndedReleaseStays`).
- Creation guards against a second owner only while nobody deletes the release
  (`Publish.TwoOwnersAfterDeletion`); each deletion makes room for one more (`Publish.OwnersBounded`).

## Model

| member | source | states |
|---|---|---|
| Base64Url.EncodeInto | src/ArduinoJsonJWT.cpp:94-111 | the buffer receives exactly the padded base64 of the input, of exactly the expected length, so there is room for the terminator |
| Base64Url.Encode | src/ArduinoJsonJWT.cpp:92-127 | buffer, strip loop and two replacements give unpadded base64url; a failed allocation gives the empty string |
| Base64Url.DecodeInto | src/ArduinoJsonJWT.cpp:134-138 | decoding any text stores its whole bytes and never passes the expected decoded length |
| Base64Url.Decode | src/ArduinoJsonJWT.cpp:129-143 | the result is the decoded bytes up to their first NUL |
| Base64Url.EncodingKeepsNumber | src/ArduinoJsonJWT.cpp:108-110 | read as big-endian numbers, the 6-bit groups and the bytes are the same bit stream, with zero bits filling up the last group |
| Base64Url.DecodeUndoesEncode | src/ArduinoJsonJWT.cpp:92-143 | decoding an encoding gives the bytes before the first NUL, and all bytes if and only if there is no NUL |
| Base64Url.EncodingIsInjective | src/ArduinoJsonJWT.cpp:92-127 | different byte strings have different encodings, NULs included |
| Base64Url.EncodedAlphabet | src/ArduinoJsonJWT.cpp:118-123 | only URL-safe letters, no dot, no padding, and the unpadded length |
| Base64Url.StandardFitsBuffer | src/ArduinoJsonJWT.cpp:96-103 | the padded encoding is as long as the buffer was allocated for |
| Json.ParseExactlyUndoesPrint | src/ArduinoJsonJWT.cpp:44-47 | a text parses to a document exactly when it is the text printed for it |
| Json.EscapesExactly | src/ArduinoJsonJWT.cpp:44-47 | which bytes are escaped and how (RFC 8259 section 7); every other byte stands for itself |
| Token.PayloadText | src/SecurityManager.cpp:39-42 | the payload of a user, letter by letter: the escaped name, and the admin flag as `true` or `false` |
| Token.HeaderIsEncodedJson | src/ArduinoJsonJWT.h:19-19 | the fixed header is the encoding of `{"alg":"HS256","typ":"JWT"}` |
| Base64Url.EncodedGroup | src/ArduinoJsonJWT.cpp:108-123 | three bytes become their four letters at their own place, whatever surrounds them |
| Token.Delimiters | src/ArduinoJsonJWT.cpp:50-72 | whatever the payload part is, the first and last dots of a signed token are its two delimiters |
| Token.ParseSigned | src/ArduinoJsonJWT.cpp:59-90 | a signed token parses to the object its payload part decodes to if making and checking it could both allocate or neither, else to nothing |
| Token.ParsedIsSigned | src/ArduinoJsonJWT.cpp:63-79 | every token that is not refused is the header, a payload part and what signing both gave, which is nothing if it could not allocate |
| Token.AcceptedExactly | src/ArduinoJsonJWT.cpp:59-106 | the accepted tokens for an object are exactly `x.sign(x)` with the fixed header whose payload part decodes to that object, with or without room to sign |
| Token.AcceptedHasSignature | src/ArduinoJsonJWT.cpp:74-106 | an accepted token carries its signature exactly if signing could allocate, and exactly if it does not end in a dot |
| Token.AcceptsOnlySignedExactly | src/ArduinoJsonJWT.cpp:74-106 | all accepted tokens carry a signature if and only if signing can allocate |
| Token.UnsignedIsAccepted | src/ArduinoJsonJWT.cpp:74-106 | with no room to sign, the unsigned token of any payload without a NUL parses to it |
| Token.BuildThenParse | src/ArduinoJsonJWT.cpp:44-106 | parsing a built token gives the payload back if and only if no key or string in it holds a NUL, it could be encoded, and both signatures came out alike; otherwise nothing |
| Token.CutShortDoesNotParse | src/ArduinoJsonJWT.cpp:86-89 | no proper prefix of a printed object parses |
| Token.ValidatesExactly | src/SecurityManager.cpp:20-24 | a payload validates for a user exactly when it is that user's two members in some order; the name test adds nothing |
| Token.First | src/SecurityManager.cpp:21-25 | the result is the first listed user with the property, and none exactly if there is no such user |
| Token.GeneratedTokenAuthenticates | src/SecurityManager.cpp:15-56 | a generated token authenticates the first listed user with the same name and admin flag, exactly unless the name holds a NUL, its payload could not be encoded, or the two signings differed in allocating |
| Token.AuthenticatedOnlyIfSigned | src/SecurityManager.cpp:15-28 | whoever is authenticated is listed, the token is over exactly that user's payload, and it carries a signature under the current secret if and only if signing could allocate |
| Token.UnsignedAuthenticates | src/SecurityManager.cpp:15-28 | with no room to sign, an unsigned token authenticates the user its payload names |
| TokenService.ArduinoJsonJWT.SignText | src/ArduinoJsonJWT.cpp:20-42 | the signature is the base64url of the keyed hash under the current secret, or empty if it cannot allocate |
| TokenService.ArduinoJsonJWT.BuildJWT | src/ArduinoJsonJWT.cpp:44-57 | the string edited in place ends as the signed token of the payload, whichever encodings can allocate |
| TokenService.ArduinoJsonJWT.ParseJWT | src/ArduinoJsonJWT.cpp:59-90 | for any token, with or without room to sign, the document ends as the parsed object, or cleared |
| TokenService.SecurityManager.AuthenticateRequest | src/SecurityManager.cpp:3-13 | only a header with the bearer prefix authenticates, and then as its token does |
| TokenService.SecurityManager.AuthenticateJWT | src/SecurityManager.cpp:15-28 | the loop over users finds the user the token stands for |
| TokenService.SecurityManager.Authenticate | src/SecurityManager.cpp:30-37 | a user is returned exactly if some listed one has both this name and this password, and it is the first that has both |
| TokenService.SecurityManager.GenerateJWT | src/SecurityManager.cpp:51-56 | the token built from the user's two members, whichever encodings can allocate |
| TokenService.SecurityManager.SignInThenAuthenticate | src/AuthenticationService.cpp:19-44 | a token is issued exactly if a listed user has this name and password, and to such a user; it is accepted, as the first account with that name and flag, exactly unless there is a NUL in the name or an allocation failed at issuing and not at checking, or the other way round |
| Logger.LineFits | src/StructuredLogger.h:43-58 | every record is shorter than 512 bytes, so the fit check never drops one |
| Logger.ExtraLength | src/StructuredLogger.h:37-41 | the optional field fits its 48-byte buffer |
| Logger.OneLine | src/StructuredLogger.h:25-59 | the only line break is the last byte and every other byte is printable ASCII, in both formats |
| Logger.JsonLineIsPrint | src/StructuredLogger.h:46-50 | the format string expands to the printed object of the record's members |
| Logger.JsonLineParsesBack | src/StructuredLogger.h:25-50 | parsing a JSON record gives uptime, level, the sanitised prefixes, the field, and a truncation flag that is true exactly when an input was cut |
| Logger.CleanShows | src/StructuredLogger.h:77-96 | what is kept of an input, byte by byte: the bytes up to the terminator or the limit, those in 32..126 unchanged, all others as question marks; and exactly when something is cut |
| Logger.ShownIsUnique | src/StructuredLogger.h:77-96 | that determines the field |
| Logger.JsonLineTells | src/StructuredLogger.h:25-50 | a JSON record is one text and a line break, and the text parses to the call: uptime, the word for the level, component and message byte by byte, whether either was cut, and the field |
| Logger.PlainLineShows | src/StructuredLogger.h:51-54 | the same for a plain record, piece by piece |
| StructuredLogger.StructuredLogger.PassesExactly | src/StructuredLogger.h:27-29 | which levels each threshold lets through |
| StructuredLogger.StructuredLogger.Encode | src/StructuredLogger.h:77-96 | no read past the terminator, no write past the buffer; the buffer holds the input's bytes up to the limit, printable ones unchanged and escaped in JSON; the result tells whether input was left |
| StructuredLogger.StructuredLogger.Write | src/StructuredLogger.h:25-59 | a record that passes the filter reaches the sink whole; a filtered one touches neither sink nor clock |
| StructuredLogger.Snprintf | src/StructuredLogger.h:39-53 | what fits is stored and terminated, the full length is returned |
| Gateway.StepKeepsInvariant | gateway/main.go:71-118 | every step of every goroutine keeps room in the channel, the shutdown order, the meaning of the errors in flight and the bound on late commits |
| Gateway.NoSendBlocks | gateway/main.go:72-93 | over every interleaving, a goroutine that wants to send on `errorsCh` can |
| Gateway.NoAppendAfterClose | gateway/main.go:60-104 | once the database is closed no append begins or commits in any continuation |
| Gateway.AtMostOneLateCommit | gateway/main.go:81-91 | after cancellation at most the append already under way commits |
| Gateway.CommitsCounted | gateway/main.go:81-96 | rows are the commits of the run, and only the last of them can come after cancellation |
| Gateway.RunTold | gateway/main.go:71-118 | the whole state after any run is the one its actions tell: positions from the latest steps, flags, ticks and rows from what happened |
| Gateway.RunsExactly | gateway/main.go:71-118 | after any run, exactly the actions that its actions so far allow can come next |
| Gateway.CheckTold | gateway/main.go:86-94 | a failed append is reported exactly if the worker checks it before any signal and before `stopWorker` |
| Gateway.SentOnlyInTime | gateway/main.go:86-94 | a write error is sent only after a failed append was checked in time |
| Gateway.LateFailuresAreSilent | gateway/main.go:89-91 | if all failed appends are checked after cancellation, no write error is sent |
| Gateway.FullChannelBlocks | gateway/main.go:72-72 | with two errors in the channel both senders would wait |
| Gateway.ReturnedError | gateway/main.go:99-117 | nil exactly if main took the signal and the shutdown kept its time; the time-out exactly if it did not; otherwise the first error anyone sent, unchanged; by then the worker is done and the database closed |
| Gateway.NoSignalMeansError | gateway/main.go:99-117 | a run that returns without a signal returns the first error sent |
| Gateway.WriteErrorLostExactly | gateway/main.go:92-117 | a sent write error is the result exactly if main took an error and none was sent before it; it is lost exactly if main took the signal and the shutdown kept its time |
| Gateway.RunKeepsFlow | gateway/main.go:72-102 | what main took followed by what waits is what was sent, in order |
| Gateway.CancelledStepsDecrease | gateway/main.go:80-113 | after cancellation every goroutine step lowers a measure of at most 16 and outside events do not raise it |
| Gateway.CancelledRunsAreShort | gateway/main.go:80-113 | hence the number of steps left is bounded by the measure |
| Gateway.NoDeadlock | gateway/main.go:99-117 | with a signal or an error pending, main or the worker can always take a step until main has returned |
| Gateway.TriggerStays | gateway/main.go:99-103 | until main takes it, a pending trigger stays and keeps main's select enabled |
| Gateway.StuckMeansReturned | gateway/main.go:99-117 | a run with a signal or an error that can go no further has returned, with the worker done and the database closed |
| Gateway.WriteErrorCanBeLost | gateway/main.go:92-102 | such a run: a write error is sent and the result is nil |
| Store.OpensExactly | gateway/store.go:91-133 | of all files and faults, which are opened without an error: no version and no objects, or version 1 with the one seeded simulator port; which error every other gets; and what the file is afterwards |
| Store.SeedCounted | gateway/store.go:122-128 | the validating query counts the rows of the simulator port that have a first reading |
| Store.OpeningOnlyFillsEmpty | gateway/store.go:91-133 | opening changes nothing but an empty file, and nothing when it fails |
| Store.OpeningOwnFiles | gateway/store.go:105-132 | an empty file becomes the seeded history, a history is reopened unchanged, under any fault |
| Store.MigrateEmpty | gateway/store.go:43-63 | the migration's rows satisfy its own constraints and make the history of length zero |
| Store.StoredRows | gateway/store.go:43-63 | the history row by row: sequences 0..n, 230000 mV, 1565 mA, 360 W, 100 mWh and one second a step |
| Store.PortInsertedExactly | gateway/store.go:44-49 | the port table takes the simulator's row once and no other |
| Store.InsertAfterRead | gateway/store.go:135-157 | an insert commits exactly when nobody appended since the transaction read the maximum |
| Store.AppendsExactly | gateway/store.go:135-157 | what an undisturbed append does to any file with a last reading: the next row, or one of two refusals |
| Store.NoReadingsNoAppend | gateway/store.go:141-144 | a file without readings is not appended to |
| Store.FirstToFinishWins | gateway/store.go:135-157 | of two overlapping transactions the first to finish is stored, the other only if the first fails, and none after a crash |
| Store.OneOfTwoCommits | gateway/store.go:58-58 | of two transactions that read the same maximum the primary key lets one commit |
| Store.EventKeepsHistory | gateway/store.go:91-157 | any open, begin, commit, failure or crash keeps the history or adds exactly its next reading |
| Store.RunKeepsHistory | gateway/store.go:43-157 | over every run the file is empty or holds exactly sequences 0..n with 100 mWh each, n at most 315360000 and never falling |
| Store.NothingIsLost | gateway/store.go:121-157 | readings once stored stay, unchanged, in every continuation |
| Store.ReportExactly | gateway/store.go:159-185 | of any port the last reading is reported, with whole watt-hours; ports without readings are left out |
| Store.ReportNeverFalls | gateway/store.go:159-189 | over every run the report is the last reading with sequence/10 watt-hours, and it never falls |
| Store.Connection.InitializeStore | gateway/store.go:91-133 | the checks in order, with a fault at any query |
| Store.Connection.SelectMax | gateway/store.go:141-142 | the scan returns the largest sequence of the port, or NULL |
| Store.Connection.AppendReading | gateway/store.go:135-157 | an error leaves the file; success adds the next reading; the 64-bit products do not overflow |
| Store.Connection.ReadPorts | gateway/store.go:159-190 | every port joined with its last reading, an error unless there is exactly one |
| Rounding.NearestExists | interface/src/simulator/energySession.js:83-92 | every number has a nearest double |
| Rounding.RelativeError | interface/src/simulator/energySession.js:83-92 | a nearest double differs by at most 2^-53 of the value, from the definition of representable numbers |
| Rounding.RoundedQuotientIsExact | interface/src/simulator/energySession.js:83-92 | for numerators below 2^53 and even divisors up to 2^20, dividing in doubles and rounding is exact half-up division |
| Rounding.JsRoundOfProductIsExact | interface/src/simulator/energySession.js:83-120 | the whole expression with its two roundings is exact for the divisors 60, 3600, 10000 and 1000000 |
| Pricing.ChargeInDoublesIsExact | interface/src/simulator/energySession.js:82-100 | a charge computed in doubles, sums included, equals the integer charge part by part when its three products and its total are safe integers |
| Pricing.SanitizingExactly | interface/src/simulator/energySession.js:63-64 | nearest integer with ties up, or whole seconds rounded down, never negative, NaN as zero |
| Pricing.PartsAreNearest | interface/src/simulator/energySession.js:82-92 | each part is the integer nearest to its exact value and the tax is taken of the rounded parts |
| Pricing.PriceMonotone | interface/src/simulator/energySession.js:66-101 | the total grows with energy, seconds and every rate |
| Pricing.PriceError | interface/src/simulator/energySession.js:82-101 | the total is within 3/2 + taxBasisPoints/10000 of the unrounded price |
| Pricing.RepricingTruncatedEnergy | interface/src/simulator/gatewayContract.js:35-36 | pricing whole watt-hours never charges more, and its energy part is at most ceil(999 rate / 10^6) lower |
| Session.SequencesExactly | interface/src/simulator/energySession.js:19-51 | an event sequence is accepted exactly if each event may follow the one before it; the last tells the state; the first that may not is refused with its state |
| Session.StateTellsLastEvents | interface/src/simulator/energySession.js:19-51 | over every accepted event sequence, the state determines the last events: active means just started and confirmed |
| Session.TickExactly | interface/src/simulator/energySession.js:103-122 | one tick: a second later, current from limit and load factor, power the nearest watt to 0.96 of it times whole volts, its energy added |
| Session.ToHundredthsExactly | interface/src/simulator/energySession.js:118-118 | the shown current is the nearest hundredth |
| Session.LastOfExactly | interface/src/containers/SmartPodDemo.js:330-330 | the graph keeps the last 36 |
| Session.TickEnergyError | interface/src/simulator/energySession.js:120-120 | one tick is within half a milli-watt-hour |
| Session.TickEnergyInDoublesIsExact | interface/src/simulator/energySession.js:120-120 | the tick's doubles round to the integer result |
| Session.MeterError | interface/src/simulator/energySession.js:103-122 | after n ticks the meter is within 18n/36 mWh of the summed power |
| Session.DurationReadsBack | interface/src/simulator/energySession.js:124-132 | the displayed fields read back to the whole seconds, with minutes and seconds below 60 |
| Session.ProjectionKeepsEnergy | interface/src/simulator/gatewayContract.js:3-38 | Wh and remainder give the meter back; each port state and session state comes from exactly one state; available exactly with open output and no session in progress |
| Session.ProjectionAcceptsExactly | interface/src/simulator/gatewayContract.js:21-26 | accepted exactly for whole numbers from 0 to 2^53-1 and one of the three outputs |
| Session.ProjectionTellsState | interface/src/simulator/gatewayContract.js:3-10 | equal projections come from equal states |
| Session.PricingTheProjection | interface/src/simulator/gatewayContract.js:28-37 | pricing a projection's energy never charges more than pricing the meter |
| Demo.ClicksAreGuarded | interface/src/containers/SmartPodDemo.js:465-690 | after any run, exactly which events can come: starts only online and from available or completed, stops only when active, edits only between sessions |
| Demo.SwitchesTold | interface/src/containers/SmartPodDemo.js:520-557 | network and limit are the ones last set |
| Demo.NeverThrows | interface/src/containers/SmartPodDemo.js:335-388 | no enabled click and no timer makes an invalid transition |
| Demo.NoStaleTimer | interface/src/containers/SmartPodDemo.js:347-367 | a timer that fires is the remembered one and finds the state it was set for |
| Demo.RunKeepsInvariant | interface/src/containers/SmartPodDemo.js:321-399 | over every run of enabled events nothing throws and timers, state and meter match |
| Demo.ReachablePages | interface/src/containers/SmartPodDemo.js:321-399 | start and stop timers pending exactly when starting and stopping; no power outside active; fault exactly when faulted; started exactly outside available; energy, time and samples are those of the readings |
| Demo.TickAdvancesActiveMeter | interface/src/containers/SmartPodDemo.js:321-333 | on every reachable page a tick adds at least 118 mWh to an active session and changes nothing otherwise |
| Demo.ReachableTickIsExact | interface/src/containers/SmartPodDemo.js:321-333 | for typed voltages and seconds that keep the meter a safe integer, product, quotient and sum of the next tick of every reachable page are in doubles exactly the integer meter |
| Demo.MeterOfPageIsAtMost | interface/src/containers/SmartPodDemo.js:321-333 | with voltages typed up to V, the meter of every reachable page is at most 8 V mWh per second |
| Demo.ReachableChargeIsExact | interface/src/containers/SmartPodDemo.js:459-464 | the charge shown on every reachable page is in doubles exactly the integer one, as long as the largest session that the typed voltages, rates and seconds allow is safe |
| Demo.ADayIsSafe | interface/src/simulator/energySession.js:82-100 | a day at up to 1000 V with rates up to 100000 minor units is such a session |
| Demo.DraftEditIsLocal | interface/src/containers/SmartPodDemo.js:391-399 | a typed rate changes that draft rate only, never the charge shown |
| Demo.TypedRateExactly | interface/src/containers/SmartPodDemo.js:392-392 | a typed rate is the nearest minor unit to a hundred times the number, never negative |
| Demo.TypedVoltageExactly | interface/src/containers/SmartPodDemo.js:544-544 | a typed voltage is taken from 100 V up; nothing and zero give 230 V |
| Demo.RunningChargeIsCalculated | interface/src/containers/SmartPodDemo.js:459-464 | the shown charge is calculateCharge of the page's state, and all zero before a start |
| Demo.DefaultCharge | interface/src/simulator/energySession.js:53-61 | at the default rates a first kilowatt-hour within a minute costs 500 + 1200 + 20 and 310 tax |
| Demo.SineLoadIsFactor | interface/src/simulator/energySession.js:111-111 | 0.82 + 0.08 sin stays in the range used for the load factor |
| Demo.ChargeWithinSession | interface/src/containers/SmartPodDemo.js:321-399 | within a session the charge never falls; from stop or fault on it is frozen whatever is edited |
| Demo.TariffSnapshot | interface/src/containers/SmartPodDemo.js:335-346 | a session is priced with the tariff drafted when it started |
| SmartPodDemo.SmartPodDemo.Tick | interface/src/containers/SmartPodDemo.js:321-333 | the handler does the step and keeps the invariant |
| SmartPodDemo.SmartPodDemo.StartSession | interface/src/containers/SmartPodDemo.js:335-353 | likewise, clearing the old timer and setting the start timer |
| SmartPodDemo.SmartPodDemo.StopSession | interface/src/containers/SmartPodDemo.js:355-367 | likewise, setting the stop timer |
| SmartPodDemo.SmartPodDemo.SimulateFault | interface/src/containers/SmartPodDemo.js:369-377 | likewise, with no timer left |
| SmartPodDemo.SmartPodDemo.ResetSimulator | interface/src/containers/SmartPodDemo.js:379-389 | likewise, keeping limit, voltage, network and draft |
| SmartPodDemo.SmartPodDemo.UpdateTariff | interface/src/containers/SmartPodDemo.js:391-399 | likewise, one draft rate |
| SmartPodDemo.SmartPodDemo.FireTimer | interface/src/containers/SmartPodDemo.js:348-366 | a fired timer completes its transition |
| Recognisers.HostnameExactly | interface/src/validators/isHostname.js:1-6 | accepted exactly if at most 32 characters and every dot-separated part is a label (RFC 1123 section 2.1) |
| Recognisers.HostnamePatternExactly | interface/src/validators/isHostname.js:2-2 | the nested-star pattern is the check of the parts between dots |
| Recognisers.LabelMatches | interface/src/validators/isHostname.js:2-2 | the label pattern: non-empty, letters, digits and hyphens, no hyphen at either end |
| Recognisers.LabelsExactly | interface/src/validators/isHostname.js:2-2 | which labels those are, character by character |
| Recognisers.OctetMatches | interface/src/validators/isIP.js:1-1 | the octet pattern: one to three digits of value at most 255 |
| Recognisers.IPExactly | interface/src/validators/isIP.js:1-5 | accepted exactly if the dots cut the text into four octets |
| Release.VerifyExactly | scripts/release.py:171-198 | passes exactly if there are the seven regular files, the identity matches, every payload file has exactly one fitting entry and the checksum file agrees |
| Release.SumsExactly | scripts/release.py:165-196 | the six lines of the checksum file, by file name |
| Release.FullCommitExactly | scripts/release.py:179-179 | forty lower-case hexadecimal digits |
| Release.CountedNamesExactly | scripts/release.py:185-187 | equal count and equal name set is a bijection, and conversely |
| Release.ManifestDeterminesPayload | scripts/release.py:176-198 | with a collision-free digest, two passing directories with the same manifest bytes have the same payload bytes |
| Release.AssembledPasses | scripts/release.py:140-168 | what assemble writes passes verify, for the commit and tag it was made from |
| Release.UniqueObject | scripts/release.py:50-56 | succeeds exactly if all keys differ, and then maps every key to its value |
| Publish.ExecuteKeepsObservations | scripts/release.py:209-229 | a run's observations are kept by its next command |
| Publish.OthersMayDo | scripts/release.py:209-229 | what may happen between any two commands: tag, release and directories changed, runs started |
| Publish.RunExplained | scripts/release.py:209-229 | whatever position a run has reached, each command before it was executed, and with what result: identity, local check, ancestor, tag, creation, upload, download, comparison, tag again |
| Publish.EditOnlyAfterAllChecks | scripts/release.py:209-229 | whatever anyone changes meanwhile, the edit is issued only by a run whose identity and ancestor commands succeeded, whose local directory passed, whose own create succeeded, that saw the tag at its commit before and after, and whose download passes and matches |
| Publish.StepKeepsIntact | scripts/release.py:209-229 | each command of any publisher, and every orderly change by others, keeps the one owner, its copy and the meaning of being public |
| Publish.PublicReleaseIsVerified | scripts/release.py:209-229 | over all interleavings, with tag and directories changed by anyone at any time and the release rewritten or deleted by anyone while no run is between its download and its end, a public release was published by a run that made all its checks, the ancestor check and the local one included, and whose download of exactly these assets passed and matched |
| Publish.ToleranceExactly | scripts/release.py:222-229 | the positions at which the release must be left alone |
| Publish.TagCommitExactly | scripts/release.py:201-206 | an annotated tag counts by the commit it peels to, a plain one by itself |
| Publish.PublishedByItsCreator | scripts/release.py:216-229 | if deletions moreover wait until no run is past creation and still going, that run created this release |
| Publish.OthersCopyHolds | scripts/release.py:216-221 | no other run's command changes assets that a run has downloaded and that pass, since uploads never replace a file |
| Publish.LateRewriteIsPublished | scripts/release.py:224-229 | a rewrite anywhere between download and edit is published as it is |
| Publish.UnverifiedCanBePublished | scripts/release.py:209-229 | such a run from its first command |
| Publish.LateDeletionIsPublished | scripts/release.py:224-229 | a deletion between download and edit lets a run publish another's empty draft |
| Publish.EarlyDeletionChangesCreator | scripts/release.py:216-229 | a deletion while a run is past creation lets it publish a draft created by another |
| Publish.PublicAssetsAreLocalFiles | scripts/release.py:222-229 | under the same conditions, with a collision-free digest, the public bytes are the compared local bytes |
| Publish.OneOwner | scripts/release.py:216-220 | no two runs get past creation unless somebody deletes the release, whatever else is done to it |
| Publish.OwnersBounded | scripts/release.py:216-220 | over every run, at most one owner more per deletion |
| Publish.TwoOwnersAfterDeletion | scripts/release.py:216-220 | a run with one deletion and two owners |
| Publish.EditDecides | scripts/release.py:228-229 | from the edit on the release is a draft exactly if the edit had no effect, and the run reports success exactly if the command did |
| Publish.EndedReleaseStays | scripts/release.py:216-229 | the release of a run that has ended is never changed by a publisher again, and it is a draft if the run failed before the edit |
| Install.SelectChecksum | install.sh:100-107 | a checksum is selected exactly if one line matches and it has two fields, and it is that line's first field |
| Install.MatchesExactly | install.sh:101-101 | a line names the asset bare or after one asterisk |
| Install.GoodDownloadExactly | install.sh:98-117 | a download is good exactly if it is not empty and the only line naming it has two fields, the first its digest in 64 hexadecimal digits |
| Install.LowerExactly | install.sh:110-110 | lowering keeps each digit's value |
| Install.Sha256Exactly | install.sh:108-108 | 64 hexadecimal digits of either case |
| Install.VouchedDigestIsUnique | install.sh:100-117 | a manifest vouches for one digest only |
| Install.Installer.Cleanup | install.sh:77-85 | with a failure, signal or kill at each of the trap's commands: how it ends, which files are gone, and exactly when the work directory is |
| Install.Installer.Verified | install.sh:98-117 | succeeds exactly for a non-empty download that the manifest vouches for |
| Install.Installer.Install | install.sh:77-128 | after every command of script and trap the destination is the old one or vouched bytes; how the run ends, what the destination holds, whether the staged file is left and whether anything is left are each given exactly by the fates of the commands |
| Install.DestinationDecides | install.sh:67-128 | if every command completes, a good download replaces a missing or regular destination and no other |
| Install.UndisturbedTrapCleansUp | install.sh:77-85 | if the trap's commands complete, a caught exit leaves something exactly if `mktemp` failed after creating its file |
| Install.LateMktempLeavesFile | install.sh:120-120 | such an exit |
| Install.SecondSignalLeavesFiles | install.sh:77-85 | a second signal in the trap leaves the work directory |
| Install.FailingRmLeavesFiles | install.sh:77-85 | so does a failing `rm`, after an installation that went through |
| Streaming.ChunkPrint.WriteByte | src/AsyncArduinoJson6.h:25-35 | the destination holds exactly its slice of everything printed, bytes beyond are untouched, and the result says whether the byte was taken |
| Streaming.ChunkPrint.WriteBlock | src/AsyncArduinoJson6.h:36-42 | the same for a block, with the number of bytes taken |
| Streaming.AsyncJsonResponse.FillBuffer | src/AsyncArduinoJson6.h:72-76 | for any mix of byte and block writes the buffer receives the slice from the sent length on |
| Streaming.AsyncJsonResponse.Send | src/AsyncArduinoJson6.h:64-76 | for any chunk sizes the concatenated chunks are the serialized document |
| Streaming.AsyncJsonWebHandler.AcceptedFits | src/AsyncJsonWebHandler.h:101-103 | the guard, in modular arithmetic, accepts exactly the chunks that lie inside the buffer |
| Streaming.AsyncJsonWebHandler.HandleBody | src/AsyncJsonWebHandler.h:98-117 | for any arguments at all, a copy stays inside the allocation and changes exactly its range |
| Streaming.AsyncJsonWebHandler.Receive | src/AsyncJsonWebHandler.h:63-117 | for every split into consecutive chunks the parser gets exactly the body, or the request ends in the stated status |
| Timers.MillisRollsOver | src/APSettingsService.cpp:13-14 | the clock shows milliseconds and rolls over after 2^32 |
| Timers.ElapsedIsExact | src/APSettingsService.cpp:13-14 | wrap-around subtraction is the real interval when that is shorter than one rollover |
| Timers.ApCallsAreSpaced | src/APSettingsService.cpp:11-21 | over any number of rollovers, management calls not separated by a reset are at least 10000 and less than 10000 + P apart, P bounding the gap between loops; after a reset the next loop calls |
| Timers.ApCallsKeepComing | src/APSettingsService.cpp:11-21 | whatever resets lie between them, management calls are less than 10000 + P apart, and the first loop calls |
| Timers.WifiAttemptsAreSpaced | src/WiFiSettingsService.cpp:65-91 | an attempt is at least 60000 after the one before unless a reset or a stamp of 0 came between; after either the next loop attempts |
| Timers.WifiAttemptsKeepComing | src/WiFiSettingsService.cpp:65-91 | whatever resets lie between them, with at most P between loops, attempts are less than 60000 + P apart, and the first loop attempts |
| Timers.TooSoonExactly | src/WiFiSettingsService.cpp:85-91 | with loops less than a delay apart, two neighbouring attempts are too close if and only if the first fell on a stamp of 0 |
| Timers.RolloverRepeatsAttempt | src/WiFiSettingsService.cpp:85-91 | such a run |
| Timers.APSettingsService.RunLoop | src/APSettingsService.cpp:11-21 | the new stamp and whether the network is managed |
| Timers.WiFiSettingsService.RunLoop | src/WiFiSettingsService.cpp:85-91 | the new stamp and whether a connection is attempted |

## Left out

- Json.ParseExactlyUndoesPrint: the parser accepts only texts the printer writes; whitespace, other escapes, fractions, `null`, nested values and trailing text are errors here, while ArduinoJson accepts more. ArduinoJson is not part of this model.
- Base64Url.DecodeInto: characters outside the alphabet are skipped, as libb64 does; libb64 and its length macros are not part of this model and are written from RFC 4648 and their documented lengths. The variant with line breaks for the ESP32 is not modelled.
- TokenService.ArduinoJsonJWT.BuildJWT: the buffer of `encode` is the only allocation that can fail; `String` objects get their memory and JSON documents fit their capacity.
- HMAC-SHA256 and SHA-256 are arbitrary functions; where a result needs it, the digest is assumed collision-free.
- Gateway.StepKeepsInvariant: goroutines, channels and contexts are positions and fields of a state, since Dafny has no threads; HTTP handlers still running after a timed-out shutdown, and their reads, are not modelled.
- Gateway.NoDeadlock: that the scheduler eventually runs an enabled main is left to the reader; the lemmas say that main stays enabled and that only finitely many steps remain after cancellation.
- Argument parsing, listener validation and token validation in `run`: single checks.
- Store.Connection.AppendReading: SQLite's locking is seen only as transactions that fail; files, permissions, URLs and the text form of timestamps are not modelled.
- Demo.ReachableTickIsExact: the power that goes into the tick is taken as its integer value, as is a typed rate; sessions beyond the stated bounds are not followed.
- Rounding.RoundedQuotientIsExact: infinities and NaN are not doubles here.
- Session.MeterError: `Math.sin` and the product that gives the power are real arithmetic; the load factor is any function, and only its range is used.
- Demo.RunKeepsInvariant: a state update and its rendering are one step; rendering, styling and the chart are not modelled, and typed numbers are finite.
- Session.ProjectionKeepsEnergy: states outside the six of the table, which the source refuses, cannot be written in this model.
- Recognisers.HostnameExactly: strings are sequences of characters; the patterns contain none outside the basic plane.
- Release.VerifyExactly: JSON, ASCII and line splitting are functions of the bytes; a manifest with missing keys is an unreadable one.
- The firmware inventory, the two bills of materials and the toolchain record: contents that the checker only hashes.
- Publish.PublicReleaseIsVerified: a failed upload is taken to have stored all or none of its files, as a part of them passes no check; an upload is refused as a whole if the release already has one of its files, as without `--clobber`; the attestation workflow is not modelled.
- Install.Installer.Install: each command takes effect as a whole or not at all, except a download or copy, which may stop half way. A failing command in the trap is taken to end it, as `set -e` asks. Nobody else changes the destination between setting the trap and the rename. Version resolution, platform detection and PATH advice are not modelled.
- Streaming.AsyncJsonResponse.Send: the server library's loop is not in the repository; it is taken to clip each chunk to what is left and to advance by the returned length.
- Timers.ApCallsAreSpaced: what a management call does with the radio mode and the captive portal, and what a Wi-Fi attempt does, are not modelled.
- Settings plumbing, status endpoints, NTP, OTA, sensor sampling and the React forms: wrappers or single-branch facts.
