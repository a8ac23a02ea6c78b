/** The command-line client's side of the text protocol: which request each
    subcommand sends and how `send_cli_command` writes it. */
module Cli {
  import opened Wrappers
  import opened Bytes
  import opened Text
  import opened Decimal

  /** A request as the client assembles it: an optional device serial, a command
      name and its options. */
  datatype CliRequest = CliRequest(serial: Option<string>, command: string, options: seq<string>)

  /** The target prefix: `host` without a serial, otherwise the serial verbatim. */
  function SerialPrefix(serial: Option<string>): string
  {
    match serial
    case None => "host"
    case Some(s) => s
  }

  /** The loop of `send_cli_command`: append `:` and each option in turn. */
  function AppendOptions(service: string, options: seq<string>): (r: string)
    ensures r == Join([service] + options, ':')
    decreases |options|
  {
    if |options| == 0 then service
    else
      var r := AppendOptions(service + ":" + options[0], options[1..]);
      assert [service] + options == [service, options[0]] + options[1..];
      assert ([service, options[0]] + options[1..])[1..] == [options[0]] + options[1..];
      assert [service + ":" + options[0]] + options[1..] == [service + [':'] + options[0]] + options[1..];
      if |options| == 1 then r
      else
        assert ([service + [':'] + options[0]] + options[1..])[1..] == options[1..];
        assert ([options[0]] + options[1..])[1..] == options[1..];
        r
  }

  /** The text `send_cli_command` writes to the daemon: the target prefix, `:` and
      the command, then `:` and each option, in order. */
  function Wire(req: CliRequest): (w: string)
    ensures w == Join([SerialPrefix(req.serial), req.command] + req.options, ':')
  {
    var r := AppendOptions(SerialPrefix(req.serial) + ":" + req.command, req.options);
    assert [SerialPrefix(req.serial) + ":" + req.command] + req.options
        == [SerialPrefix(req.serial) + [':'] + req.command] + req.options;
    if |req.options| == 0 then r
    else
      assert ([SerialPrefix(req.serial) + [':'] + req.command] + req.options)[1..] == req.options;
      assert ([SerialPrefix(req.serial), req.command] + req.options)[1..] == [req.command] + req.options;
      assert ([req.command] + req.options)[1..] == req.options;
      r
  }

  /** `send_cli_command` adds exactly 1 + |options| separators to those already in
      the prefix, the command and the options. */
  lemma WireSeparators(req: CliRequest)
    ensures Occurrences(Wire(req), ':') ==
      Occurrences(SerialPrefix(req.serial), ':') + Occurrences(req.command, ':')
      + OccurrencesAll(req.options, ':') + 1 + |req.options|
  {
    var parts := [SerialPrefix(req.serial), req.command] + req.options;
    JoinOccurrences(parts, ':');
    assert parts[1..] == [req.command] + req.options;
    assert parts[1..][1..] == req.options;
  }

  /** With separator-free parts, the daemon's split recovers the prefix, the command
      and every option: 2 + |options| fields. */
  lemma WireFields(req: CliRequest)
    requires ':' !in SerialPrefix(req.serial) && ':' !in req.command && FreeOf(req.options, ':')
    ensures Split(Wire(req), ':') == [SerialPrefix(req.serial), req.command] + req.options
  {
    var parts := [SerialPrefix(req.serial), req.command] + req.options;
    assert FreeOf(parts, ':') by {
      forall i | 0 <= i < |parts| ensures ':' !in parts[i] {
        if i >= 2 {
          assert parts[i] == req.options[i - 2];
        }
      }
    }
    SplitJoin(parts, ':');
  }

  /** What a subcommand does: print a message without contacting the daemon, or
      send a request. */
  datatype CliAction = PrintOnly(message: string) | Send(request: CliRequest)

  const InvalidSerial: string := "Invalid Serial"

  /** The `connect` subcommand: split `host:port` at the first `:` into two
      options; with no `:` it prints `Invalid Serial` and sends nothing. */
  function ConnectCommand(server: string): (a: CliAction)
    ensures a.PrintOnly? <==> ':' !in server
    ensures a.PrintOnly? ==> a.message == InvalidSerial
    ensures a.Send? ==>
      && a.request.serial == None && a.request.command == "connect"
      && |a.request.options| == 2
      && ':' !in a.request.options[0]
      && a.request.options[0] + ":" + a.request.options[1] == server
  {
    match SplitOnce(server, ':')
    case None => PrintOnly(InvalidSerial)
    case Some((host, port)) => Send(CliRequest(None, "connect", [host, port]))
  }

  /** The `connect` subcommand writes `host:connect:` followed by its input verbatim. */
  lemma ConnectWire(server: string)
    requires ':' in server
    ensures Wire(ConnectCommand(server).request) == "host:connect:" + server
  {
    var req := ConnectCommand(server).request;
    var host, port := req.options[0], req.options[1];
    assert [SerialPrefix(req.serial), req.command] + req.options == ["host", "connect", host, port];
    assert ["host", "connect", host, port][1..] == ["connect", host, port];
    assert ["connect", host, port][1..] == [host, port];
    assert [host, port][1..] == [port];
    assert Join([host, port], ':') == host + [':'] + port;
    assert Join(["connect", host, port], ':') == "connect" + [':'] + (host + [':'] + port);
    assert Join(["host", "connect", host, port], ':') == "host" + [':'] + ("connect" + [':'] + (host + [':'] + port));
    assert "host:connect:" + server == "host" + [':'] + ("connect" + [':'] + (host + [':'] + port));
  }

  /** The `start-instance` subcommand: the instance id as one decimal option, the
      serial passed through. */
  function StartInstanceCommand(serial: Option<string>, instanceId: u16): (req: CliRequest)
    ensures req.serial == serial && req.command == "start-instance"
    ensures |req.options| == 1 && ParseU16(req.options[0]) == Some(instanceId)
    ensures FreeOf(req.options, ':')
  {
    ParseToDecimal(instanceId);
    CliRequest(serial, "start-instance", [ToDecimal(instanceId)])
  }

  /** Without a serial, `start-instance` writes `host:start-instance:` and the id. */
  lemma StartInstanceWire(instanceId: u16)
    ensures Wire(StartInstanceCommand(None, instanceId)) == "host:start-instance:" + ToDecimal(instanceId)
  {
    var req := StartInstanceCommand(None, instanceId);
    var d := ToDecimal(instanceId);
    assert [SerialPrefix(req.serial), req.command] + req.options == ["host", "start-instance", d];
    assert ["host", "start-instance", d][1..] == ["start-instance", d];
    assert ["start-instance", d][1..] == [d];
  }
}
