/**
 * Startup of the terminal application (src/main.c): choose the command
 * from the command line, forward it over the session bus to an instance
 * that already owns the service name, or become that instance, launch the
 * command and answer later "run_command" calls.
 *
 * The bus, the lifecycle library and the application wrapper are outside
 * the model: what they answer (is the name owned, did the bus open, did
 * the message get built, did initialisation succeed, did a launch
 * succeed) comes in as parameters, and main is modelled by the trace of
 * the actions it takes.
 */
module XtermMain {
  import opened GLibStrings

  const ServiceName := "com.nokia.xterm"
  const ObjectPath := "/com/nokia/xterm"
  const RunCommandMethod := "run_command"

  const ExitSuccess := 0
  const ExitFailure := 1

  // ---------------------------------------------------------------------
  // Command line

  /**
   * The command to run: argv[2] after a leading "-e", otherwise argv[1],
   * otherwise none. argv is what remains after the toolkit took its own
   * options; argv[0] is the program.
   */
  function SelectCommand(argv: seq<string>): (command: Option<string>)
    ensures command.None? <==> |argv| <= 1
    ensures command.Some? ==> command.value == argv[1] || (|argv| > 2 && command.value == argv[2])
    ensures |argv| > 2 && argv[1] == "-e" ==> command == Some(argv[2])
    ensures |argv| > 1 && !(|argv| > 2 && argv[1] == "-e") ==> command == Some(argv[1])
  {
    if |argv| > 2 && argv[1] == "-e" then Some(argv[2])
    else if |argv| > 1 then Some(argv[1])
    else None
  }

  /** A lone "-e" is taken as the command itself. */
  lemma LoneDashEIsTheCommand(program: string)
    ensures SelectCommand([program, "-e"]) == Some("-e")
  {
  }

  // ---------------------------------------------------------------------
  // The RPC values

  /** An RPC argument or reply: a tagged value as libosso passes them. */
  datatype RpcValue = RpcString(s: string) | RpcBool(b: bool) | RpcInt(i: int) | RpcOther

  /** The return code of an RPC handler. */
  datatype OssoReturn = OssoOk | OssoError

  /** A bus method call. */
  datatype MethodCall = MethodCall(destination: string, path: string, iface: string, member: string,
                                   args: seq<RpcValue>, noReply: bool)

  /** The arguments that carry a command: one string, or none. */
  function CommandArgs(command: Option<string>): (args: seq<RpcValue>)
    ensures command.None? ==> args == []
    ensures command.Some? ==> args == [RpcString(command.value)]
  {
    if command.Some? then [RpcString(command.value)] else []
  }

  /** The no-reply "run_command" call a second instance sends. */
  function RunCommandCall(command: Option<string>): (call: MethodCall)
    ensures call.destination == ServiceName && call.path == ObjectPath && call.iface == ServiceName
    ensures call.member == RunCommandMethod && call.noReply
    ensures RequestedCommand(call.args) == command
  {
    MethodCall(ServiceName, ObjectPath, ServiceName, RunCommandMethod, CommandArgs(command), true)
  }

  /** The command a "run_command" call asks for: its first argument when that is a string, else none. */
  function RequestedCommand(arguments: seq<RpcValue>): (command: Option<string>)
    ensures command.Some? <==> |arguments| > 0 && arguments[0].RpcString?
    ensures command.Some? ==> command.value == arguments[0].s
  {
    if |arguments| > 0 && arguments[0].RpcString? then Some(arguments[0].s) else None
  }

  /** Reading the command back from the arguments built for it gives the command. */
  lemma CommandArgsRoundTrip(command: Option<string>)
    ensures RequestedCommand(CommandArgs(command)) == command
  {
  }

  /**
   * osso_xterm_incoming: any method but "run_command" gets the string
   * "Meh" and OSSO_ERROR; "run_command" launches the requested command
   * and replies with whether that succeeded, as a boolean, and OSSO_OK.
   */
  method Incoming(iface: string, member: string, arguments: seq<RpcValue>, launch: Option<string> -> bool)
    returns (code: OssoReturn, retval: RpcValue)
    ensures member != RunCommandMethod ==> code == OssoError && retval == RpcString("Meh")
    ensures member == RunCommandMethod ==>
              code == OssoOk && retval == RpcBool(launch(RequestedCommand(arguments)))
  {
    retval := RpcOther;
    if member != RunCommandMethod {
      retval := RpcString("Meh");
      return OssoError, retval;
    }
    var command: Option<string> := None;
    if |arguments| > 0 && arguments[0].RpcString? {
      command := Some(arguments[0].s);
    }
    var launched := launch(command);
    retval := RpcBool(launched);
    code := OssoOk;
  }

  // ---------------------------------------------------------------------
  // main

  /** What the bus answers at startup. */
  datatype Bus = Bus(systemBusOpen: bool, serviceHasOwner: bool, sessionBusOpen: bool, messageBuilt: bool)

  /** What the lifecycle library and the application wrapper answer. */
  datatype Platform = Platform(lifecycleStarts: bool, launch: Option<string> -> bool)

  /** The observable steps of main. */
  datatype Action =
    | Send(call: MethodCall)   // dbus_connection_send on the session bus
    | Flush
    | CreateWrapper            // terminal_app_wrapper_new
    | InitLifecycle            // osso_initialize
    | Launch(command: Option<string>)
    | RegisterHandler          // osso_rpc_set_default_cb_f with Incoming
    | RunMainLoop
    | Exit(status: int)

  /** Whether another instance owns the service name on the system bus. */
  predicate AlreadyRunning(bus: Bus): (running: bool)
    ensures !bus.systemBusOpen ==> !running
    ensures bus.systemBusOpen ==> (running <==> bus.serviceHasOwner)
  {
    bus.systemBusOpen && bus.serviceHasOwner
  }

  /** The actions of main, ending with the exit status (after the main loop returns, on the primary path). */
  function StartupTrace(argv: seq<string>, bus: Bus, platform: Platform): (trace: seq<Action>)
    ensures |trace| >= 1 && trace[|trace| - 1].Exit?
  {
    var command := SelectCommand(argv);
    if AlreadyRunning(bus) then
      if !bus.sessionBusOpen then [Exit(ExitFailure)]
      else if !bus.messageBuilt then [Exit(ExitFailure)]
      else [Send(RunCommandCall(command)), Flush, Exit(ExitSuccess)]
    else
      [CreateWrapper, InitLifecycle]
      + if !platform.lifecycleStarts then [Exit(ExitFailure)]
        else [Launch(command)]
             + if !platform.launch(command) then [Exit(ExitFailure)]
               else [RegisterHandler, RunMainLoop, Exit(ExitSuccess)]
  }

  function ExitStatus(trace: seq<Action>): int
    requires |trace| >= 1 && trace[|trace| - 1].Exit?
  {
    trace[|trace| - 1].status
  }

  /**
   * When another instance owns the name, this one creates no window,
   * launches nothing and registers no handler: it sends one no-reply
   * "run_command" call carrying the selected command (no argument when
   * there is none) and exits with success, or exits with failure when the
   * session bus or the message is unavailable.
   */
  lemma ForwardWhenRunning(argv: seq<string>, bus: Bus, platform: Platform)
    requires AlreadyRunning(bus)
    ensures var trace := StartupTrace(argv, bus, platform);
            && CreateWrapper !in trace && RegisterHandler !in trace
            && (forall i :: 0 <= i < |trace| ==> !trace[i].Launch?)
            && (ExitStatus(trace) == ExitSuccess <==> bus.sessionBusOpen && bus.messageBuilt)
            && (bus.sessionBusOpen && bus.messageBuilt ==>
                  trace[0] == Send(RunCommandCall(SelectCommand(argv)))
                  && (forall i :: 1 <= i < |trace| ==> !trace[i].Send?))
  {
  }

  /**
   * On the primary path nothing is sent; the handler is registered only
   * after the initial launch succeeded, and a failed initialisation or
   * launch exits with failure.
   */
  lemma PrimaryWhenNotRunning(argv: seq<string>, bus: Bus, platform: Platform)
    requires !AlreadyRunning(bus)
    ensures var trace := StartupTrace(argv, bus, platform);
            && trace[0] == CreateWrapper
            && (forall i :: 0 <= i < |trace| ==> !trace[i].Send?)
            && (RegisterHandler in trace <==> platform.lifecycleStarts && platform.launch(SelectCommand(argv)))
            && (ExitStatus(trace) == ExitFailure <==>
                  !platform.lifecycleStarts || !platform.launch(SelectCommand(argv)))
  {
    var trace := StartupTrace(argv, bus, platform);
    if platform.lifecycleStarts && platform.launch(SelectCommand(argv)) {
      assert trace == [CreateWrapper, InitLifecycle, Launch(SelectCommand(argv)),
                       RegisterHandler, RunMainLoop, Exit(ExitSuccess)];
    }
  }

  /** The handler is registered only after a launch of the selected command that succeeded. */
  lemma HandlerAfterLaunch(argv: seq<string>, bus: Bus, platform: Platform, i: nat)
    requires var trace := StartupTrace(argv, bus, platform);
             i < |trace| && trace[i] == RegisterHandler
    ensures var trace := StartupTrace(argv, bus, platform);
            && 0 < i
            && trace[i - 1] == Launch(SelectCommand(argv))
            && platform.launch(SelectCommand(argv))
  {
  }

  /**
   * End to end: the call a second instance sends is the one-way
   * "run_command" call that Incoming answers, and the command Incoming
   * reads from it is exactly the one the second instance selected.
   */
  lemma ForwardedCommandIsLaunched(argv: seq<string>, bus: Bus, platform: Platform, call: MethodCall)
    requires Send(call) in StartupTrace(argv, bus, platform)
    ensures call.member == RunCommandMethod && call.noReply && call.destination == ServiceName
    ensures RequestedCommand(call.args) == SelectCommand(argv)
  {
    CommandArgsRoundTrip(SelectCommand(argv));
  }
}
