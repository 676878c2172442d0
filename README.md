# play0mq in Dafny

play0mq is one C program that runs as one of four roles of a small ZeroMQ
pipeline:
- a **source** counts 1, 2, 3, ... and sends each number to the broker;
- the **broker** acknowledges every request with `("ack", 42)`, republishes it to
  the sinks, and pushes the `"number"` requests to the workers;
- a **worker** tests each number it pulls for primality and reports the primes
  back to the broker;
- a **sink** prints what it receives on its subscriptions.

Every message is a pair `(identifier, value)` sent as the C string
`"<identifier> <value>"` with its terminating NUL.

This project models, and proves properties of, the following parts of the
program.

- `wire.dfy` (module `Wire`): the wire format.
  - `%ld` formatting (`FormatLong`).
  - The frame `pack_and_send` produces (`Encode`).
  - `sscanf(frame, "%s %ld")` as glibc performs it (`ScanTokenLong`, `Decode`). This covers white-space skipping, the longest non-space token, an optional sign, and saturation at `LONG_MIN`/`LONG_MAX`.
  - What `recv_and_unpack` leaves in its output arguments (`Unpack`). Because the static buffer is reused, a frame without a token yields the identifier of the previous receive. A frame without a number leaves `*value` as the caller had it. A failed receive gives NULL and 0.
  - The round trip: decoding an encoded pair gives the pair back, for every `long`.
- `primes.dfy` (module `Primes`): `isPrime`'s trial division, as a method with the loop of the C code, proved to decide primality.
- `roles.dfy` (module `Roles`): a process as a class that owns the two 1024-byte static buffers and a log of every frame it sends.
  - `pack_and_send` and `recv_and_unpack` are methods on the buffers.
  - Each role's loop is a method over the frames the transport delivers:
    - `Serve` for the broker;
    - `SourceRun` for the source;
    - `WorkerRun` for a worker.
  - Each loop is proved against a specification of what goes out, on which socket and in which order:
    - the broker sends one acknowledgement per request, republishes every request unchanged, dispatches exactly the `"number"` requests, and sends nothing else;
    - the source counts from 1 and stops at the first reply that is not 42;
    - a worker reports exactly the primes, in order, and stops at the first acknowledgement that is not 42.
- `launch.dfy` (module `Launch`): `main`.
  - `strcmp` and `isRole`.
  - The dispatch on the role name.
  - Each role's check of its argument count, with its exact diagnostics.
  - `usage` and `failure`.
  - For every configuration a command line can describe (any configuration except a sink without a filter), its own command line starts it, and a command line that starts a role is read back from the configuration.

C's `assert` in the source and the worker is modelled as the end of the loop:
the run methods return how many passes were made and whether the last one failed
its assert. The program's endless loops are modelled over finite sequences of
deliveries.

## Where the code is followed

- **A malformed frame is not an error.** `sscanf` stores what it can. A frame with no token leaves the static buffer as the previous receive left it, and the identifier is a copy of that stale string. A frame with a token but no number leaves `*value` unchanged. The model computes exactly these values (`Wire.Unpack`).
- **A failed receive is not a distinct condition.** `recv_and_unpack` reports it only as a NULL identifier and a value of 0 (`Wire.Unpack`).
- **A sink needs at least one filter argument.** It refuses to start without one (`Launch.SinkStart`). Subscribing to every message takes the empty filter `""`, which the sink accepts like any other.
- **An unknown role gets the code's own message.** The message is `"Unkown role"`, spelled as in the code.
- **Failed starts exit with -1.** The status passed to `exit` is -1 (`Launch.Failure`, `Launch.Usage`).
- **Leftover arguments are ignored.** The broker binds its fixed endpoints and pays no attention to any further arguments (`Launch.BrokerStart`).
- **Values are clamped.** `%ld` scanning of digits outside the range of `long` stores `LONG_MAX` or `LONG_MIN`, as glibc does (`Wire.Clamp`).
- **The "number" test is string equality.** The broker's `strcmp(identifier, "number") == 0` is modelled as equality of strings. `Launch.StrcmpZeroIffEqual` proves the two agree on C strings.

## Model

| member | source | states |
|---|---|---|
| Wire.FormatLong | play0mq.c:16 | `%ld` writes a minus sign exactly for negative values; every other character is a decimal digit, so a non-negative value starts with a digit |
| Wire.FormatLongLength | play0mq.c:16 | no `long` takes more than 20 characters, so every identifier the program sends fits the 1024-byte buffer |
| Wire.ShortIdentifierFits | play0mq.c:15-16 | an identifier of at most 1000 characters fits the static buffer together with any `long` value |
| Wire.Encode | play0mq.c:14-24 | the frame is the identifier, one blank, the value exactly as `%ld` formats it and one NUL, `strlen(buffer) + 1` characters and at most 1024; it holds no NUL before the last character |
| Wire.CStr | play0mq.c:18 | `strlen`: the C string is the longest NUL-free prefix of the frame and is followed by a NUL |
| Wire.CStrOfTerminated | play0mq.c:18 | the C string of a text followed by NUL is that text, whatever follows |
| Wire.DigitsValueOfDecimal | play0mq.c:36 | reading back the decimal digits of n gives n |
| Wire.ScanFormatLong | play0mq.c:36 | `%ld` scanning reads back every value `%ld` formatting wrote, zero and negative values included |
| Wire.ScanTokenLong | play0mq.c:36 | `sscanf("%s %ld")` finds no input exactly when the string is all white space; otherwise the token is non-empty and free of white space and NUL |
| Wire.ScanIdentifier | play0mq.c:36 | `%s` takes exactly the identifier from an encoded text and stops at the blank, which the next directive skips |
| Wire.ScanText | play0mq.c:36 | `sscanf` on a text `sprintf` wrote performs both conversions and yields the identifier and the value |
| Wire.RoundTrip | play0mq.c:14-43 | decoding an encoded pair gives back the identifier and the value, for every `long` |
| Wire.Decode | play0mq.c:36 | the token of a decoded frame is non-empty and NUL-free |
| Wire.Unpack | play0mq.c:26-43 | a failed receive gives a NULL identifier and the value 0; a delivered frame always gives an identifier |
| Wire.UnpackEncoded | play0mq.c:26-43 | a frame written by `pack_and_send` fits the receive buffer and unpacks to its own pair, whatever the buffer held and the value was before |
| Primes.TrialDivision | play0mq.c:131-136 | `isPrime` returns true exactly when v is prime (at least 2 and without a divisor between 1 and v) |
| Primes.PrimeIffNoDivisorUpToRoot | play0mq.c:133-135 | for v at least 2, having no divisor d with d·d ≤ v is the same as being prime, which is why the loop may stop at the square root |
| Primes.NoCandidateLeft | play0mq.c:133-135 | once d·d exceeds v and no candidate below d divided v, v is prime |
| Primes.NextOddCandidate | play0mq.c:133 | skipping the even candidates after 2 misses no divisor: for an odd d of at least 3 that does not divide v, no divisor below d means none below d + 2 |
| Primes.PrimesInKeepsThePrimes | play0mq.c:152-153 | the numbers kept are exactly the primes among the input: every kept number is a prime of the input, and every prime of the input is kept |
| Primes.PrimesInSnoc | play0mq.c:147-153 | a new number adds itself to the kept numbers when it is prime and nothing otherwise |
| Roles.Process.constructor | play0mq.c:15 | a fresh process has sent nothing, and both static buffers are zero, so the stale identifier is empty |
| Roles.Process.Stale | play0mq.c:35-39 | the identifier copied out of the receive buffer is NUL-free and shorter than the buffer |
| Roles.Process.PackAndSend | play0mq.c:14-24 | one frame is appended to the log on the given socket with the given flag, and that frame is the encoding of the pair; the receive buffer is untouched |
| Roles.Process.StoreToken | play0mq.c:35-36 | `%s` stores the token and a NUL at the start of the buffer, leaves the rest as it was, and the buffer's C string becomes the token |
| Roles.Process.RecvAndUnpack | play0mq.c:26-43 | the identifier and value are those `Unpack` gives for the frame, the stale buffer and the prior value; the buffer's C string afterwards is the returned identifier, or is unchanged after a failed receive |
| Roles.Request | play0mq.c:109 | the pair the broker acts on has a NUL-free identifier |
| Roles.RoutedOrder | play0mq.c:109-117 | one pass sends the acknowledgement first and only on the reply socket, then the request unchanged on the publish socket, then, exactly for `"number"`, the request on the dispatch socket; only the dispatch uses `ZMQ_DONTWAIT` |
| Roles.Process.BrokerStep | play0mq.c:108-119 | one pass through the broker's loop appends exactly the sends of `Routed` for the request it unpacked, and leaves that request's identifier in the receive buffer |
| Roles.Process.Serve | play0mq.c:102-121 | the broker's loop over a sequence of requests sends exactly the concatenated passes of `RoutedAll`, in order, and leaves the last request's identifier in the receive buffer (the buffer is unchanged when there was no request) |
| Roles.OneAckPerRequest | play0mq.c:111 | over any run, the reply socket carries exactly one `("ack", 42)` per request |
| Roles.EveryRequestPublished | play0mq.c:112 | over any run, the publish socket carries every request's frame unchanged, in the order received |
| Roles.OnlyNumbersDispatched | play0mq.c:113-117 | over any run, the dispatch socket carries exactly the `"number"` requests, in order |
| Roles.NothingElseSent | play0mq.c:109-119 | a run sends two frames per request plus one per `"number"` request, and nothing on a client socket |
| Roles.RoutedSocketFrames | play0mq.c:111-117 | one pass puts one acknowledgement on the reply socket, the request on the publish socket, and the request on the dispatch socket exactly for `"number"` |
| Roles.FramesOnAppend | play0mq.c:102-121 | the frames a socket receives from two stretches of a run are those of the first, then those of the second |
| Roles.Process.SourceStep | play0mq.c:62-66 | one round sends `("number", k + 1)` to the broker, the loop ends at this round exactly when the assert on reply k fails, and the receive buffer then holds what `recv_and_unpack` leaves for reply k |
| Roles.Process.SourceRun | play0mq.c:59-69 | the source's loop ends where `SourceOutcome` says, its log is the requests `("number", 1)` up to `("number", rounds)`, and its receive buffer holds what the replies it read left there, in order |
| Roles.SourceCountsFromOne | play0mq.c:59-67 | round i + 1 of a source sends the request for i + 1: the counter starts at 1 and goes up by one a round |
| Roles.NumberRequestDecodes | play0mq.c:62 | a source's request goes to the broker, waits for the reply, and reads back as `("number", n)` |
| Roles.FirstStopIsFirst | play0mq.c:60-69 | a loop that stops at a failed assert stops at the first failing pass; without one it runs through every pass |
| Roles.AckFailureAt | play0mq.c:65-66 | reply k makes the source's assert fail exactly when the value it unpacks is not 42 |
| Roles.SourceStopsAtFirstMismatch | play0mq.c:60-69 | the source stops at the first reply whose value is not 42, every earlier reply carried 42, and without such a reply it handles all of them |
| Roles.ReceivedValues | play0mq.c:150 | the values a worker receives, one per item, each the value `recv_and_unpack` leaves |
| Roles.ReportedPrimesArePrimesIn | play0mq.c:150-153 | the numbers a worker reports are exactly the primes among the values it receives, in order |
| Roles.PrimeReportsDecode | play0mq.c:153 | report j goes to the broker, waits for the reply, and reads back as `("prime", p)` for the j-th reported prime p |
| Roles.Process.WorkerStep | play0mq.c:148-158 | one pass sends `("prime", n)` exactly when the number pulled is prime, the assert fails exactly when it is prime and the reply's value is not 42, and the receive buffer holds what the item, then the reply when one was read, left there |
| Roles.Process.WorkerRun | play0mq.c:147-163 | the worker's loop ends where `WorkerOutcome` says, its log is the reports of the primes among the items it handled, in order, and its receive buffer holds what those passes left there |
| Roles.WorkerStopsAtFirstMismatch | play0mq.c:147-163 | a worker stops at the first prime whose acknowledgement is not 42; every earlier pass went through, and without such a prime it handles every item |
| Launch.Strcmp | play0mq.c:205 | `strcmp` gives a sign: -1, 0 or 1 |
| Launch.StrcmpZeroIffEqual | play0mq.c:204-206 | `strcmp` returns 0 exactly on equal C strings |
| Launch.IsRole | play0mq.c:204-206 | `isRole` holds exactly when the argument is the role's name |
| Launch.Usage | play0mq.c:197-202 | `usage` exits with -1 after writing the usage line, followed, exactly when there is a comment, by seven blanks, the comment and a newline |
| Launch.Failure | play0mq.c:45-48 | `failure` exits with -1 after writing the comment followed by `". Exiting ..."` and a newline |
| Launch.SourceStart | play0mq.c:53-55 | a source starts exactly when given one argument, the broker's URL; otherwise it fails with "URL of broker needed" |
| Launch.BrokerStart | play0mq.c:86-94 | a broker always starts, whatever its arguments |
| Launch.SinkStart | play0mq.c:172-181 | a sink starts exactly when given a publisher URL and at least one filter, which it keeps in order; otherwise it fails with its diagnostic |
| Launch.WorkerStart | play0mq.c:138-146 | a worker starts exactly when given two arguments, the dispatcher's and the broker's URL; otherwise it fails with its diagnostic |
| Launch.RoleStart | play0mq.c:215-224 | each of the four role names hands the arguments to that role's own check, so the dispatch starts exactly the four roles with their argument counts; any other name gets usage with "Unkown role" |
| Launch.Main | play0mq.c:208-227 | `main` dispatches on `av[1]` with the arguments from `av[2]` on, so it starts a role exactly when one is named with the argument count it takes; without a role it gets usage with "At least a role must be specified" |
| Launch.WrongArgumentCount | play0mq.c:215-222 | a source, sink or worker named with the wrong number of arguments exits through that role's own diagnostic, never through usage |
| Launch.RoleStartRoundTrip | play0mq.c:215-224 | every configuration a command line can express is started by its role name and arguments |
| Launch.RoleStartRead | play0mq.c:215-224 | a role that starts is named by its configuration, and, except for the broker, its arguments are read back from it |
| Launch.LaunchRoundTrip | play0mq.c:208-224 | every configuration a command line can express is started by its own command line, whatever the program name |
| Launch.StartedFromCommandLine | play0mq.c:208-224 | a command line that starts a role is the program name, the role's name and, except for the broker, exactly the configuration's arguments |

## Left out

- The ZeroMQ transport itself is not modelled: contexts, sockets, `zmq_bind`, `zmq_connect`, messages and `zmq_poll`. A receive takes the frame the transport delivered as a parameter, and a send appends to the process's log.
- `zmq_endpoint` (play0mq.c:77-84) is left out with its bind assertions and `printf`. The broker's endpoints appear only as the sockets of the log.
- `zmq_poll` and the readiness test in the broker's loop are left out. The model's loop runs once per request that arrived.
- Subscription filtering is left out because the transport does it. For the sink, only its argument check and the configuration it starts with are modelled, not its `zmq_setsockopt` calls or its printing loop.
- What `ZMQ_DONTWAIT` does when no worker is connected (the message is dropped) belongs to the transport. The model records that the flag was passed.
- Concurrency between the processes is left out. Each process is modelled on its own over the frames it receives.
- The endless loops are modelled over finite, arbitrary sequences of deliveries.
- `exit`, the abort of a failed `assert`, `malloc` and `free` are left out. A failed assert ends the modelled loop. Copied identifiers are values. The source never frees its identifiers, and a worker frees only the one copied from the broker's reply, leaking the one copied from each item it pulls (play0mq.c:150, 154); these leaks are not modelled.
- `main`'s `zmq_version` call and the version banner it prints are left out.
- Primes.TrialDivision: does not model the signed overflow of `d * d` for values above 3037000499²; the model computes with unbounded integers.
- Roles.Process.RecvAndUnpack: requires a frame whose token is shorter than the 1024-byte buffer, because a longer token overflows the static buffer in C.
- Roles.Process.RecvAndUnpack: requires a NUL in every delivered frame, because `sscanf` on a frame without one reads past the end of the message in C. `Wire.Unpack` requires the same.
- Wire.Fits: counts one `char` as one byte of the buffer; multi-byte encodings are not modelled.
- Roles.Process.BrokerStep: requires a delivered request. A failed receive would hand a NULL identifier to `pack_and_send` and `strcmp`, which is undefined in C.
- Roles.Process.BrokerStep: takes the uninitialised `number` of the C loop as a parameter.
- Roles.Process.BrokerStep: requires the unpacked pair to fit the send buffer.
- Roles.Process.Serve: takes requests that are frames `pack_and_send` wrote, so each one decodes to its own pair.
- Roles.Process.SourceStep: does not state the value it reads, only whether the loop ends at this round. The value is stated by `AckFailureAt` and `SourceStopsAtFirstMismatch`.
- Roles.Process.SourceRun: requires fewer than `LONG_MAX` replies, so that the `long` counter cannot overflow.
- Asserts are assumed to be compiled in; with `NDEBUG` the source and the worker would never stop.
