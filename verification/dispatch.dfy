/** The daemon's command dispatcher, `handle_commands` in `server.rs`: the text a
    client sends is `TARGET:COMMAND:ARG...`, where the target is `host` or an
    `ip:port` pair spread over two fields. */
module Dispatch {
  import opened Wrappers
  import opened Text
  import opened Registry
  import opened ServerConnect
  import opened Frame

  /** A parsed client request. `device` is `None` for the `host` target. */
  datatype Request = Request(device: Option<string>, command: string, arguments: seq<string>)

  /** The target field(s) of a request as they appear on the wire. */
  function TargetText(device: Option<string>): string
  {
    match device
    case None => "host"
    case Some(d) => d
  }

  const HostPrefix: string := "host:"

  /** Merging the first two fields of a join into one leaves the text unchanged. */
  lemma JoinMergeFirst(x: string, y: string, rest: seq<string>, sep: char)
    requires |rest| > 0
    ensures Join([x + [sep] + y] + rest, sep) == Join([x, y] + rest, sep)
  {
    assert ([x + [sep] + y] + rest)[1..] == rest;
    assert ([x, y] + rest)[1..] == [y] + rest;
    assert ([y] + rest)[1..] == rest;
  }

  /** A text starts with `host:` exactly when its first field is `host` and a
      separator follows it. */
  lemma HostFirstField(text: string)
    ensures SplitOnce(text, ':').Some? && SplitOnce(text, ':').value.0 == "host" <==> StartsWith(text, HostPrefix)
  {
    if StartsWith(text, HostPrefix) {
      assert text == "host" + [':'] + text[5..];
      SplitOnceUnique("host", ':', text[5..]);
    }
  }

  /** What the fields of a text say about the text itself. */
  lemma FieldFacts(text: string)
    ensures |Split(text, ':')| == 1 <==> ':' !in text
    ensures |Split(text, ':')| == 2 <==> Occurrences(text, ':') == 1
    ensures Split(text, ':')[0] == "host" <==> text == "host" || StartsWith(text, HostPrefix)
    ensures Join(Split(text, ':'), ':') == text
  {
    SplitFirstField(text, ':');
    HostFirstField(text);
    JoinSplit(text, ':');
    OccurrencesAbsent(text, ':');
  }

  /** Reading the target as one field and the command as the next loses nothing. */
  lemma JoinHostFields(fields: seq<string>)
    requires |fields| >= 2
    ensures Join([fields[0], fields[1]] + fields[2..], ':') == Join(fields, ':')
  {
    HostFieldsRegroup(fields);
  }

  lemma HostFieldsRegroup(fields: seq<string>)
    requires |fields| >= 2
    ensures [fields[0], fields[1]] + fields[2..] == fields
  {
  }

  /** Reading an `ip:port` target from two fields loses nothing either. */
  lemma JoinDeviceFields(fields: seq<string>)
    requires |fields| >= 3
    ensures Join([fields[0] + ":" + fields[1], fields[2]] + fields[3..], ':') == Join(fields, ':')
  {
    DeviceFieldsRegroup(fields);
    JoinMergeFirst(fields[0], fields[1], fields[2..], ':');
  }

  lemma DeviceFieldsRegroup(fields: seq<string>)
    requires |fields| >= 3
    ensures [fields[0] + ":" + fields[1], fields[2]] + fields[3..] == [fields[0] + ":" + fields[1]] + fields[2..]
    ensures [fields[0], fields[1]] + fields[2..] == fields
  {
    assert fields[2..] == [fields[2]] + fields[3..];
  }

  /** The first steps of `handle_commands`: split at every `:`, read the target
      (one field for `host`, otherwise two), then the command; the remaining fields
      are the arguments. A missing port or command field panics. */
  function ParseRequest(text: string): (r: Result<Request, Panic>)
    ensures r.Failure? ==> r.error == NoPortProvided || r.error == NoCommandProvided
    ensures r.Success? ==> ':' !in r.value.command
  {
    var fields := Split(text, ':');
    if fields[0] == "host" then
      if |fields| < 2 then Failure(NoCommandProvided)
      else Success(Request(None, fields[1], fields[2..]))
    else if |fields| < 2 then Failure(NoPortProvided)
    else if |fields| < 3 then Failure(NoCommandProvided)
    else Success(Request(Some(fields[0] + ":" + fields[1]), fields[2], fields[3..]))
  }

  /** A text without `:` other than `host` lacks a port field, and no other text
      does. */
  lemma ParseRequestNoPort(text: string)
    ensures ParseRequest(text) == Failure(NoPortProvided) <==> ':' !in text && text != "host"
  {
    FieldFacts(text);
  }

  /** `host` alone, or a device text with a single `:`, lacks a command field,
      and no other text does. */
  lemma ParseRequestNoCommand(text: string)
    ensures ParseRequest(text) == Failure(NoCommandProvided) <==>
      text == "host" || (Occurrences(text, ':') == 1 && !StartsWith(text, HostPrefix))
  {
    FieldFacts(text);
  }

  /** An accepted request is addressed to `host` exactly when the text starts
      with `host:`. */
  lemma ParseRequestTarget(text: string)
    requires ParseRequest(text).Success?
    ensures ParseRequest(text).value.device.None? <==> StartsWith(text, HostPrefix)
  {
    FieldFacts(text);
  }

  /** An accepted request is the text read field by field: joining its target,
      command and arguments with `:` gives the text back, and no field but the
      target holds a `:`. */
  lemma ParseRequestRejoins(text: string)
    requires ParseRequest(text).Success?
    ensures var req := ParseRequest(text).value;
      && Join([TargetText(req.device), req.command] + req.arguments, ':') == text
      && ':' !in req.command && FreeOf(req.arguments, ':')
  {
    var fields := Split(text, ':');
    JoinSplit(text, ':');
    if fields[0] == "host" {
      JoinHostFields(fields);
    } else {
      JoinDeviceFields(fields);
    }
  }

  /** The command names `handle_commands` recognises. The five instance lifecycle
      commands share one shape and are told apart by the device command kind
      they stand for. */
  datatype Command = KillServer | ConnectDevice | ListDevices | Lifecycle(kind: CommandKind) | Unrecognised

  /** The command name of each lifecycle kind. */
  function LifecycleName(k: CommandKind): string
  {
    match k
    case StartInstance => "start-instance"
    case CloseInstance => "close-instance"
    case RestartInstance => "restart-instance"
    case StopInstance => "stop-instance"
    case ResumeInstance => "resume-instance"
  }

  /** The name of a recognised command: a single non-empty field. */
  function NameOf(c: Command): (name: string)
    requires !c.Unrecognised?
    ensures |name| > 0 && ':' !in name
  {
    match c
    case KillServer => "kill-server"
    case ConnectDevice => "connect"
    case ListDevices => "devices"
    case Lifecycle(k) => LifecycleName(k)
  }

  /** The command a name selects; any other name is unrecognised. A name selects
      only the command whose name it is. */
  function CommandOf(name: string): (c: Command)
    ensures !c.Unrecognised? ==> NameOf(c) == name
  {
    if name == "kill-server" then KillServer
    else if name == "connect" then ConnectDevice
    else if name == "devices" then ListDevices
    else if name == "start-instance" then Lifecycle(StartInstance)
    else if name == "close-instance" then Lifecycle(CloseInstance)
    else if name == "restart-instance" then Lifecycle(RestartInstance)
    else if name == "stop-instance" then Lifecycle(StopInstance)
    else if name == "resume-instance" then Lifecycle(ResumeInstance)
    else Unrecognised
  }

  /** Every recognised command's name selects it. */
  lemma NameOfSelects(c: Command)
    requires !c.Unrecognised?
    ensures CommandOf(NameOf(c)) == c
  {
  }

  /** A name is unrecognised exactly when it is no recognised command's name. */
  lemma UnrecognisedNames(name: string)
    ensures CommandOf(name).Unrecognised? <==> forall c: Command :: !c.Unrecognised? ==> NameOf(c) != name
  {
    forall c: Command | !c.Unrecognised? && NameOf(c) == name
      ensures !CommandOf(name).Unrecognised?
    {
      NameOfSelects(c);
    }
  }

  const SuccessReply: string := "Success"

  /** What handling one request amounts to: a reply (or none) with the registry
      afterwards, the daemon exiting, or the handling thread panicking (the
      registry is then unchanged). */
  datatype Outcome = Replied(reply: Option<string>, registry: Registry) | Exited | Panicked(reason: Panic)

  /** The `match` of `handle_commands` on the command name. `order` is how the
      registry's map happens to iterate its keys, used by `devices`. The target
      is not consulted by any branch. */
  function Execute(req: Request, reg: Registry, net: StdNet, dial: Dialer, order: seq<SocketAddr>): (o: Outcome)
    requires Enumerates(order, reg.Keys)
    ensures o.Exited? <==> CommandOf(req.command) == KillServer
    ensures o.Panicked? <==> CommandOf(req.command).Lifecycle? && |req.arguments| == 0
    ensures o.Panicked? ==> o.reason == MissingArgument
    ensures CommandOf(req.command) == Unrecognised ==> o == Replied(None, reg)
    ensures CommandOf(req.command).Lifecycle? && |req.arguments| > 0 ==> o == Replied(Some(SuccessReply), reg)
    ensures CommandOf(req.command) == ListDevices ==> o == Replied(Some(Listing(net, order)), reg)
    ensures CommandOf(req.command) == ConnectDevice ==>
      o == Replied(Some(Connect(reg, req.arguments, net, dial).reply), Connect(reg, req.arguments, net, dial).registry)
    ensures o.Replied? && o.registry != reg ==> CommandOf(req.command) == ConnectDevice && o.reply == Some(Connected)
    ensures o.Replied? ==> reg.Keys <= o.registry.Keys && |o.registry| <= |reg| + 1
  {
    match CommandOf(req.command)
    case KillServer => Exited
    case ConnectDevice =>
      var c := Connect(reg, req.arguments, net, dial);
      Replied(Some(c.reply), c.registry)
    case ListDevices => Replied(Some(Listing(net, order)), reg)
    case Lifecycle(_) =>
      if |req.arguments| == 0 then Panicked(MissingArgument) else Replied(Some(SuccessReply), reg)
    case Unrecognised => Replied(None, reg)
  }

  /** `handle_commands`: parse the text, then act on the command. */
  function HandleCommands(text: string, reg: Registry, net: StdNet, dial: Dialer, order: seq<SocketAddr>): (o: Outcome)
    requires Enumerates(order, reg.Keys)
    ensures o == Panicked(NoPortProvided) <==> ':' !in text && text != "host"
    ensures o == Panicked(NoCommandProvided) <==>
      text == "host" || (Occurrences(text, ':') == 1 && !StartsWith(text, HostPrefix))
    ensures o.Replied? ==> reg.Keys <= o.registry.Keys && |o.registry| <= |reg| + 1
    ensures o.Replied? && o.registry != reg ==> o.reply == Some(Connected)
  {
    ParseRequestNoPort(text);
    ParseRequestNoCommand(text);
    match ParseRequest(text)
    case Failure(p) => Panicked(p)
    case Success(req) => Execute(req, reg, net, dial, order)
  }

  /** A text with a `host` target splits into `host` and the fields of the rest. */
  lemma SplitViaHost(rest: string)
    ensures Split("host:" + rest, ':') == ["host"] + Split(rest, ':')
  {
    SplitCons("host", ':', rest);
    assert "host:" + rest == "host" + [':'] + rest;
  }

  /** A text with an `ip:port` target splits into the two and the fields of the rest. */
  lemma SplitViaDevice(ip: string, port: string, rest: string)
    requires ':' !in ip && ':' !in port
    ensures Split(ip + ":" + port + ":" + rest, ':') == [ip, port] + Split(rest, ':')
  {
    SplitCons(port, ':', rest);
    SplitCons(ip, ':', port + ":" + rest);
    assert ip + ":" + port + ":" + rest == ip + [':'] + (port + [':'] + rest);
  }

  /** How a request addressed to `host` parses. */
  lemma ParseViaHost(rest: string)
    ensures var fields := Split(rest, ':');
      ParseRequest("host:" + rest) == Success(Request(None, fields[0], fields[1..]))
  {
    SplitViaHost(rest);
    var fields := Split(rest, ':');
    DropPrefix(["host"], fields);
  }

  /** How a request addressed to a device `ip:port` parses. */
  lemma ParseViaDevice(ip: string, port: string, rest: string)
    requires ':' !in ip && ':' !in port && ip != "host"
    ensures var fields := Split(rest, ':');
      ParseRequest(ip + ":" + port + ":" + rest) == Success(Request(Some(ip + ":" + port), fields[0], fields[1..]))
  {
    SplitViaDevice(ip, port, rest);
    var fields := Split(rest, ':');
    DropPrefix([ip, port], fields);
  }

  /** Indexing past a known prefix reads the rest. */
  lemma DropPrefix(prefix: seq<string>, fields: seq<string>)
    requires |fields| > 0
    ensures (prefix + fields)[|prefix|] == fields[0]
    ensures (prefix + fields)[|prefix| + 1..] == fields[1..]
  {
  }

  /** The reply never depends on the target: a request addressed to `host` and the
      same request addressed to a device `ip:port` are handled alike. */
  lemma ReplyIgnoresTarget(ip: string, port: string, rest: string,
                           reg: Registry, net: StdNet, dial: Dialer, order: seq<SocketAddr>)
    requires Enumerates(order, reg.Keys)
    requires ':' !in ip && ':' !in port && ip != "host"
    ensures HandleCommands(ip + ":" + port + ":" + rest, reg, net, dial, order)
         == HandleCommands("host:" + rest, reg, net, dial, order)
  {
    ParseViaHost(rest);
    ParseViaDevice(ip, port, rest);
  }

  /** The daemon reads `host:` and a colon-free name as that command with no
      arguments. */
  lemma HostCommandParses(name: string)
    requires ':' !in name
    ensures ParseRequest("host:" + name) == Success(Request(None, name, []))
  {
    ParseViaHost(name);
    SplitFree(name, ':');
    assert Split(name, ':')[1..] == [];
  }

  /** The daemon handles `host:` and a colon-free name as that command with no
      arguments. */
  lemma HandleHostCommand(name: string, reg: Registry, net: StdNet, dial: Dialer, order: seq<SocketAddr>)
    requires Enumerates(order, reg.Keys)
    requires ':' !in name
    ensures HandleCommands("host:" + name, reg, net, dial, order) == Execute(Request(None, name, []), reg, net, dial, order)
  {
    HostCommandParses(name);
  }

  /** The daemon's `devices` command replies the listing and changes nothing. */
  lemma ExecuteDevices(req: Request, reg: Registry, net: StdNet, dial: Dialer, order: seq<SocketAddr>)
    requires Enumerates(order, reg.Keys)
    requires req.command == "devices"
    ensures Execute(req, reg, net, dial, order) == Replied(Some(Listing(net, order)), reg)
  {
  }
}
