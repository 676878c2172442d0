/*
 * How play0mq starts: main checks that a role is named, compares it with the
 * four role names by strcmp, and hands the arguments after the role to that
 * role, which checks how many it received. A start that goes wrong writes a
 * diagnostic to stderr and calls exit(-1); a start that succeeds goes on
 * with the role's configuration (its URLs and, for a sink, its filters).
 */
module Launch {
  import opened Wire

  /** A command line argument: a C string, so it holds no NUL. */
  type CString = s: string | NUL !in s

  // ---------------------------------------------------------------------------
  // strcmp and isRole
  // ---------------------------------------------------------------------------

  /** The character at the head of a C string, or its terminating NUL. */
  function Head(s: CString): int {
    if s == [] then 0 else s[0] as int
  }

  /**
   * The sign of strcmp(a, b): the C strings are compared character by
   * character up to the first difference, a terminating NUL counting as
   * smaller than every other character.
   */
  function Strcmp(a: CString, b: CString): (r: int)
    ensures -1 <= r <= 1
    decreases |a|
  {
    if Head(a) < Head(b) then -1
    else if Head(a) > Head(b) then 1
    else if a == [] then 0
    else Strcmp(a[1..], b[1..])
  }

  /** strcmp returns 0 exactly on equal strings. */
  lemma {:induction false} StrcmpZeroIffEqual(a: CString, b: CString)
    ensures Strcmp(a, b) == 0 <==> a == b
    decreases |a|
  {
    if a != [] && b != [] && a[0] == b[0] {
      StrcmpZeroIffEqual(a[1..], b[1..]);
      assert a == [a[0]] + a[1..] && b == [b[0]] + b[1..];
    } else if a != [] && b == [] {
      assert Head(a) > 0;
    } else if a == [] && b != [] {
      assert Head(b) > 0;
    }
  }

  /** isRole: the argument names the role exactly. */
  function IsRole(role: CString, value: CString): (r: bool)
    ensures r <==> role == value
  {
    StrcmpZeroIffEqual(role, value);
    Strcmp(role, value) == 0
  }

  // ---------------------------------------------------------------------------
  // Outcomes of a start
  // ---------------------------------------------------------------------------

  /** What a role is started with. */
  datatype Config =
    | SourceConfig(brokerUrl: CString)
    | BrokerConfig
    | SinkConfig(publisherUrl: CString, filters: seq<CString>)
    | WorkerConfig(dispatcherUrl: CString, brokerUrl: CString)

  /** A start: the role runs with its configuration, or the process exits with a status and what it wrote to stderr. */
  datatype Outcome =
    | Started(config: Config)
    | Exited(status: int, diagnostic: string)

  const EXIT_FAILURE_STATUS: int := -1

  const USAGE_LINE: string := "usage: play0mq <role=source|broker|worker|sink>\n"

  /** usage: the usage line, then the comment when there is one, and exit(-1). */
  function Usage(comment: Option<string>): (o: Outcome)
    ensures o.Exited? && o.status == EXIT_FAILURE_STATUS
    ensures USAGE_LINE <= o.diagnostic
    ensures comment.None? <==> |o.diagnostic| == |USAGE_LINE|
    ensures comment.Some? ==> o.diagnostic[|USAGE_LINE|..] == "       " + comment.value + "\n"
  {
    Exited(EXIT_FAILURE_STATUS, USAGE_LINE + if comment.Some? then "       " + comment.value + "\n" else "")
  }

  /** failure: the comment followed by ". Exiting ...", and exit(-1). */
  function Failure(comment: string): (o: Outcome)
    ensures o.Exited? && o.status == EXIT_FAILURE_STATUS
    ensures comment <= o.diagnostic && o.diagnostic[|comment|..] == ". Exiting ...\n"
  {
    Exited(EXIT_FAILURE_STATUS, comment + ". Exiting ...\n")
  }

  const NO_ROLE: string := "At least a role must be specified"
  const UNKNOWN_ROLE: string := "Unkown role"
  const SOURCE_ARGUMENTS: string := "URL of broker needed"
  const SINK_ARGUMENTS: string := "(1) URL of publisher and (2) one or more filter needed"
  const WORKER_ARGUMENTS: string := "(1) URL of dispatcher and (2) URL of broker needed"

  // ---------------------------------------------------------------------------
  // The roles' argument checks
  // ---------------------------------------------------------------------------

  /** play0mq_source: exactly one argument, the broker's URL. */
  function SourceStart(av: seq<CString>): (o: Outcome)
    ensures o.Started? <==> |av| == 1
    ensures o.Started? ==> o.config == SourceConfig(av[0])
    ensures o.Exited? ==> o == Failure(SOURCE_ARGUMENTS)
  {
    if |av| != 1 then Failure(SOURCE_ARGUMENTS) else Started(SourceConfig(av[0]))
  }

  /** play0mq_broker: binds its fixed endpoints and takes no notice of its arguments. */
  function BrokerStart(av: seq<CString>): (o: Outcome)
    ensures o == Started(BrokerConfig)
  {
    Started(BrokerConfig)
  }

  /** play0mq_sink: the publisher's URL and at least one subscription filter. */
  function SinkStart(av: seq<CString>): (o: Outcome)
    ensures o.Started? <==> |av| >= 2
    ensures o.Started? ==> o.config == SinkConfig(av[0], av[1..]) && o.config.filters != []
    ensures o.Exited? ==> o == Failure(SINK_ARGUMENTS)
  {
    if |av| < 2 then Failure(SINK_ARGUMENTS) else Started(SinkConfig(av[0], av[1..]))
  }

  /** play0mq_worker: exactly two arguments, the dispatcher's URL and the broker's URL. */
  function WorkerStart(av: seq<CString>): (o: Outcome)
    ensures o.Started? <==> |av| == 2
    ensures o.Started? ==> o.config == WorkerConfig(av[0], av[1])
    ensures o.Exited? ==> o == Failure(WORKER_ARGUMENTS)
  {
    if |av| != 2 then Failure(WORKER_ARGUMENTS) else Started(WorkerConfig(av[0], av[1]))
  }

  // ---------------------------------------------------------------------------
  // main
  // ---------------------------------------------------------------------------

  const SOURCE: CString := "source"
  const BROKER: CString := "broker"
  const SINK: CString := "sink"
  const WORKER: CString := "worker"

  lemma RoleNamesDistinct()
    ensures SOURCE != BROKER && SOURCE != SINK && SOURCE != WORKER
    ensures BROKER != SINK && BROKER != WORKER && SINK != WORKER
  {
    assert SOURCE[0] != BROKER[0] && SOURCE[1] != SINK[1] && SOURCE[0] != WORKER[0];
    assert BROKER[0] != SINK[0] && BROKER[0] != WORKER[0] && SINK[0] != WORKER[0];
  }

  /** The role name and argument count with which a role starts. */
  predicate StartsWith(role: CString, av: seq<CString>) {
    (role == SOURCE && |av| == 1) || role == BROKER || (role == SINK && |av| >= 2) || (role == WORKER && |av| == 2)
  }

  /** The dispatch of main on the role name, the role receiving the arguments after it. */
  function RoleStart(role: CString, av: seq<CString>): (o: Outcome)
    ensures o.Started? <==> StartsWith(role, av)
    ensures role !in {SOURCE, BROKER, SINK, WORKER} ==> o == Usage(Some(UNKNOWN_ROLE))
    ensures role == SOURCE ==> o == SourceStart(av)
    ensures role == BROKER ==> o == BrokerStart(av)
    ensures role == SINK ==> o == SinkStart(av)
    ensures role == WORKER ==> o == WorkerStart(av)
  {
    RoleNamesDistinct();
    if IsRole(SOURCE, role) then SourceStart(av)
    else if IsRole(BROKER, role) then BrokerStart(av)
    else if IsRole(SINK, role) then SinkStart(av)
    else if IsRole(WORKER, role) then WorkerStart(av)
    else Usage(Some(UNKNOWN_ROLE))
  }

  /**
   * main(ac, av) with av[0] the program name: usage without a role,
   * otherwise the dispatch on av[1] with the ac - 2 arguments from &av[2].
   */
  function Main(argv: seq<CString>): (o: Outcome)
    ensures o.Started? <==> |argv| >= 2 && StartsWith(argv[1], argv[2..])
    ensures |argv| < 2 ==> o == Usage(Some(NO_ROLE))
    ensures |argv| >= 2 ==> o == RoleStart(argv[1], argv[2..])
    ensures |argv| >= 2 && argv[1] !in {SOURCE, BROKER, SINK, WORKER} ==> o == Usage(Some(UNKNOWN_ROLE))
  {
    if |argv| < 2 then Usage(Some(NO_ROLE)) else RoleStart(argv[1], argv[2..])
  }

  /** A known role given the wrong number of arguments fails with that role's own diagnostic, never with usage. */
  lemma WrongArgumentCount(argv: seq<CString>)
    requires |argv| >= 2 && argv[1] in {SOURCE, SINK, WORKER} && !StartsWith(argv[1], argv[2..])
    ensures Main(argv) == Failure(
      if argv[1] == SOURCE then SOURCE_ARGUMENTS
      else if argv[1] == SINK then SINK_ARGUMENTS
      else WORKER_ARGUMENTS)
  {
    RoleNamesDistinct();
  }

  /** A configuration a command line can describe: a sink has at least one filter. */
  predicate Describable(c: Config) {
    c.SinkConfig? ==> c.filters != []
  }

  /** The role name that starts configuration c. */
  function RoleName(c: Config): CString {
    match c
    case SourceConfig(_) => SOURCE
    case BrokerConfig => BROKER
    case SinkConfig(_, _) => SINK
    case WorkerConfig(_, _) => WORKER
  }

  /** The arguments after the role name that start configuration c. */
  function RoleArguments(c: Config): seq<CString> {
    match c
    case SourceConfig(broker) => [broker]
    case BrokerConfig => []
    case SinkConfig(publisher, filters) => [publisher] + filters
    case WorkerConfig(dispatcher, broker) => [dispatcher, broker]
  }

  /** Every describable configuration is started by its role name and arguments. */
  lemma RoleStartRoundTrip(c: Config)
    requires Describable(c)
    ensures RoleStart(RoleName(c), RoleArguments(c)) == Started(c)
  {
    if c.SinkConfig? {
      assert RoleArguments(c)[1..] == c.filters;
    }
  }

  /** A role that starts is read back from its configuration; the broker discards its arguments. */
  lemma RoleStartRead(role: CString, av: seq<CString>)
    requires RoleStart(role, av).Started?
    ensures Describable(RoleStart(role, av).config)
    ensures RoleName(RoleStart(role, av).config) == role
    ensures !RoleStart(role, av).config.BrokerConfig? ==> RoleArguments(RoleStart(role, av).config) == av
  {
    RoleNamesDistinct();
    if role == SINK {
      assert av == [av[0]] + av[1..];
    } else if role == WORKER {
      assert av == [av[0], av[1]];
    }
  }

  /** Every describable configuration is started by its own command line, whatever the program name. */
  lemma LaunchRoundTrip(program: CString, c: Config)
    requires Describable(c)
    ensures Main([program, RoleName(c)] + RoleArguments(c)) == Started(c)
  {
    var argv := [program, RoleName(c)] + RoleArguments(c);
    assert argv[1] == RoleName(c) && argv[2..] == RoleArguments(c);
    RoleStartRoundTrip(c);
  }

  /**
   * A start is determined by its command line: the role name and its
   * arguments are read back from the configuration, the broker discarding
   * whatever follows its role name.
   */
  lemma StartedFromCommandLine(argv: seq<CString>)
    requires Main(argv).Started?
    ensures Describable(Main(argv).config)
    ensures argv[1] == RoleName(Main(argv).config)
    ensures !Main(argv).config.BrokerConfig? ==> argv == [argv[0], RoleName(Main(argv).config)] + RoleArguments(Main(argv).config)
  {
    RoleStartRead(argv[1], argv[2..]);
    assert argv == [argv[0], argv[1]] + argv[2..];
  }
}
