/**
 * The consumer control loop of main.go (lines 86-122): a `run` flag that
 * starts true, and a cycle that either sees a pending termination signal
 * (and stops without polling) or polls the broker once and classifies the
 * event it gets back.
 *
 * The Kafka poll and the signal channel are not modelled: each cycle's
 * outcome is one `Input`, and a run of the loop is a finite trace of them.
 */
module Consumer {
  import opened Wrappers

  /** The code behind kafka.ErrAllBrokersDown (librdkafka's
      RD_KAFKA_RESP_ERR__ALL_BROKERS_DOWN). */
  const ErrAllBrokersDown: int := -187

  /** What one cycle of the loop observes. */
  datatype Input =
    | Signal                     // SIGINT or SIGTERM waiting on the signal channel
    | NoEvent                    // Poll(100) returned nil
    | Message(hasHeaders: bool)  // a *kafka.Message; hasHeaders when its Headers are non-nil
    | Error(code: int)           // a kafka.Error with this Code()
    | Other                      // any other event type

  /** The abstract record of what a cycle prints (formats are not modelled). */
  datatype Report =
    | CaughtSignal               // "Caught signal ...: terminating."
    | Received(withHeaders: bool) // "Recieved message on ...", plus the headers line when withHeaders
    | ErrorReported(code: int)   // "Error: <code>: ..."
    | Ignored                    // "Ignored ..."

  /** The inputs that end the session: a signal, or the all-brokers-down error. */
  predicate Stops(e: Input) {
    e.Signal? || (e.Error? && e.code == ErrAllBrokersDown)
  }

  /** What the reporter prints for one input, given the verbose flag. */
  function ReportOf(e: Input, verbose: bool): (r: Option<Report>)
    ensures r.None? <==> e.NoEvent?
    ensures r == Some(CaughtSignal) <==> e.Signal?
    ensures (r.Some? && r.value.Received?) <==> e.Message?
    ensures r == Some(Received(true)) <==> e.Message? && e.hasHeaders && verbose
    ensures (r.Some? && r.value.ErrorReported?) <==> e.Error?
    ensures e.Error? ==> r == Some(ErrorReported(e.code))
    ensures e.Other? ==> r == Some(Ignored)
  {
    match e
    case Signal => Some(CaughtSignal)
    case NoEvent => None
    case Message(h) => Some(Received(h && verbose))
    case Error(c) => Some(ErrorReported(c))
    case Other => Some(Ignored)
  }

  /**
   * One pass of the loop body, entered with `run` true: the value of `run`
   * afterwards, whether the broker was polled, and what was printed.
   */
  method Cycle(e: Input, verbose: bool) returns (run: bool, polled: bool, report: Option<Report>)
    ensures polled <==> !e.Signal?
    ensures e.Signal? ==> !run
    ensures e.NoEvent? ==> run
    ensures e.Message? ==> run
    ensures e.Error? ==> (run <==> e.code != ErrAllBrokersDown)
    ensures e.Other? ==> run
    ensures run <==> !Stops(e)
    ensures report == ReportOf(e, verbose)
  {
    run := true;
    polled := false;
    report := None;
    if e.Signal? {
      report := Some(CaughtSignal);
      run := false;
    } else {
      polled := true;
      match e {
        case NoEvent =>
        case Message(hasHeaders) =>
          report := Some(Received(hasHeaders && verbose));
        case Error(code) =>
          report := Some(ErrorReported(code));
          if code == ErrAllBrokersDown {
            run := false;
          }
        case Other =>
          report := Some(Ignored);
      }
    }
  }

  /**
   * The loop `for run == true { ... }` over a finite trace of inputs: how
   * many inputs it consumed, the final value of `run`, how many times it
   * polled the broker, and one report slot per consumed input.
   */
  method Run(trace: seq<Input>, verbose: bool)
    returns (consumed: nat, run: bool, polls: nat, log: seq<Option<Report>>)
    ensures consumed <= |trace|
    // Neither a signal nor a fatal error: everything is consumed, run stays true.
    ensures run <==> forall j :: 0 <= j < |trace| ==> !Stops(trace[j])
    ensures run ==> consumed == |trace|
    // Otherwise the loop stops right after the first such input.
    ensures !run ==> 0 < consumed && Stops(trace[consumed - 1])
    ensures forall j :: 0 <= j < consumed - 1 ==> !Stops(trace[j])
    ensures forall k :: 0 <= k < |trace| && Stops(trace[k]) ==> consumed <= k + 1
    // Every consumed cycle polled, except the one that saw the signal.
    ensures polls == if !run && 0 < consumed && trace[consumed - 1].Signal? then consumed - 1 else consumed
    ensures |log| == consumed
    ensures forall j :: 0 <= j < consumed ==> log[j] == ReportOf(trace[j], verbose)
  {
    consumed, run, polls, log := 0, true, 0, [];
    while run && consumed < |trace|
      invariant consumed <= |trace|
      invariant forall j :: 0 <= j < (if run then consumed else consumed - 1) ==> !Stops(trace[j])
      invariant !run ==> 0 < consumed && Stops(trace[consumed - 1])
      invariant polls == if !run && trace[consumed - 1].Signal? then consumed - 1 else consumed
      invariant |log| == consumed
      invariant forall j :: 0 <= j < consumed ==> log[j] == ReportOf(trace[j], verbose)
    {
      var polled, report;
      run, polled, report := Cycle(trace[consumed], verbose);
      consumed := consumed + 1;
      if polled {
        polls := polls + 1;
      }
      log := log + [report];
    }
  }
}
