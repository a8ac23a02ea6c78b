/** Properties that follow a request from the command-line client through the
    daemon's parser and dispatcher to the registry and the device frame. */
module EndToEnd {
  import opened Wrappers
  import opened Bytes
  import opened Text
  import opened Decimal
  import opened Registry
  import opened ServerConnect
  import opened ServerStartInstance
  import opened Dispatch
  import opened Cli

  /** What the client writes without a serial, the daemon reads back: with a
      separator-free command and options, parsing the wire text gives the `host`
      target, the same command and the same options. */
  lemma WireParsesBack(req: CliRequest)
    requires req.serial.None? && ':' !in req.command && FreeOf(req.options, ':')
    ensures ParseRequest(Wire(req)) == Success(Request(None, req.command, req.options))
  {
    WireFields(req);
    var fields := ["host", req.command] + req.options;
    assert fields[0] == "host" && fields[1] == req.command && fields[2..] == req.options;
  }

  /** With an `ip:port` serial the daemon reads the same device back. */
  lemma DeviceWireParsesBack(req: CliRequest, ip: string, port: string)
    requires req.serial == Some(ip + ":" + port) && ':' !in ip && ':' !in port && ip != "host"
    requires ':' !in req.command && FreeOf(req.options, ':')
    ensures ParseRequest(Wire(req)) == Success(Request(req.serial, req.command, req.options))
  {
    var rest := [req.command] + req.options;
    var parts := [ip, port] + rest;
    assert FreeOf(parts, ':') by {
      forall i | 0 <= i < |parts| ensures ':' !in parts[i] {
        if i >= 3 {
          assert parts[i] == req.options[i - 3];
        }
      }
    }
    JoinMergeFirst(ip, port, rest, ':');
    assert [ip + [':'] + port] + rest == [req.serial.value, req.command] + req.options;
    SplitJoin(parts, ':');
    var fields := Split(Wire(req), ':');
    assert fields == parts;
    assert fields[0] == ip && fields[1] == port && fields[2] == req.command && fields[3..] == req.options;
  }

  /** The daemon's `connect` only ever registers IPv4 devices. Every argument it
      parses is free of `:`, and the text of an IPv6 address always holds a `:`
      (a fact about `str::parse::<IpAddr>`, required of `net`), so the host
      argument never parses as an IPv6 address. */
  lemma DaemonConnectsIpv4Only(text: string, net: StdNet)
    requires forall s :: net.parseIp(s).Some? && net.parseIp(s).value.V6? ==> ':' in s
    requires ParseRequest(text).Success?
    ensures var args := ParseRequest(text).value.arguments;
      Target(args, net).Success? ==> Target(args, net).value.ip.V4?
  {
    ParseRequestRejoins(text);
    var args := ParseRequest(text).value.arguments;
    if Target(args, net).Success? {
      assert ':' !in args[0];
    }
  }

  /** `acb connect ip:port` reaches the daemon's `connect` with `ip` and `port`
      as its two arguments. */
  lemma ConnectReachesDaemon(ip: string, port: string, reg: Registry, net: StdNet, dial: Dialer, order: seq<SocketAddr>)
    requires Enumerates(order, reg.Keys)
    requires ':' !in ip && ':' !in port
    ensures ConnectCommand(ip + ":" + port).Send?
    ensures var c := Connect(reg, [ip, port], net, dial);
      HandleCommands(Wire(ConnectCommand(ip + ":" + port).request), reg, net, dial, order)
        == Replied(Some(c.reply), c.registry)
  {
    var server := ip + ":" + port;
    assert server == ip + [':'] + port;
    SplitOnceUnique(ip, ':', port);
    var req := ConnectCommand(server).request;
    assert req.options == [ip, port];
    WireParsesBack(req);
    assert CommandOf("connect") == ConnectDevice;
  }

  /** `acb start-instance <id>` without a serial gets `Success` from the daemon and
      leaves the registry alone. */
  lemma StartInstanceReachesDaemon(id: u16, reg: Registry, net: StdNet, dial: Dialer, order: seq<SocketAddr>)
    requires Enumerates(order, reg.Keys)
    ensures HandleCommands(Wire(StartInstanceCommand(None, id)), reg, net, dial, order)
      == Replied(Some(SuccessReply), reg)
  {
    WireParsesBack(StartInstanceCommand(None, id));
    assert CommandOf("start-instance") == Lifecycle(Frame.StartInstance);
  }

  /** Given the option `acb start-instance <id>` sends, the server's
      `start_instance` writes the 9-byte frame for that same id. The daemon's
      dispatcher never calls `start_instance`; its lifecycle branch only replies
      `Success`. */
  lemma StartInstanceFrameFromCli(serial: Option<string>, id: u16)
    ensures var args := StartInstanceCommand(serial, id).options;
      StartInstance(args) == Success([(id / 256) as byte, (id % 256) as byte, 0, 0, 0, 0, 0, 0, 1])
  {
  }

  /** After a successful `connect`, every listing of the registry shows the
      address's line, and the address exactly once among the listed keys. */
  lemma ConnectedIsListedOnce(reg: Registry, args: seq<string>, net: StdNet, dial: Dialer, order: seq<SocketAddr>)
    requires Connect(reg, args, net, dial).reply == Connected
    requires Enumerates(order, Connect(reg, args, net, dial).registry.Keys)
    requires SingleLine(net, order)
    ensures Target(args, net).Success?
    ensures multiset(order)[Target(args, net).value] == 1
    ensures "\t" + ShowAddr(net, Target(args, net).value) in Split(Listing(net, order), '\n')
  {
    var addr := Target(args, net).value;
    EnumerationOnce(order, Connect(reg, args, net, dial).registry.Keys, addr);
    var i :| 0 <= i < |order| && order[i] == addr;
    ListedLine(net, order, i);
  }

  /** Every listed address has its own line in the listing. */
  lemma ListedLine(net: StdNet, order: seq<SocketAddr>, i: nat)
    requires SingleLine(net, order) && i < |order|
    ensures "\t" + ShowAddr(net, order[i]) in Split(Listing(net, order), '\n')
  {
    ListingLines(net, order);
    LineTextAt(net, order, i);
    var texts := LineTexts(net, order);
    var parts := ["Connected devices:"] + texts + [""];
    assert parts[i + 1] == texts[i];
  }

  /** The `i`th line text belongs to the `i`th listed address. */
  lemma {:induction false} LineTextAt(net: StdNet, order: seq<SocketAddr>, i: nat)
    requires i < |order|
    ensures LineTexts(net, order)[i] == "\t" + ShowAddr(net, order[i])
    decreases i
  {
    if i > 0 {
      LineTextAt(net, order[1..], i - 1);
    }
  }

  /** Connecting again to an address already registered replaces its connection
      without adding an entry. */
  lemma ReconnectKeepsKeys(reg: Registry, args: seq<string>, net: StdNet, dial: Dialer, dial2: Dialer)
    requires Connect(reg, args, net, dial).reply == Connected
    requires Connect(Connect(reg, args, net, dial).registry, args, net, dial2).reply == Connected
    ensures var once := Connect(reg, args, net, dial).registry;
      var twice := Connect(once, args, net, dial2).registry;
      twice.Keys == once.Keys && |twice| == |once|
      && twice[Target(args, net).value] == dial2(Target(args, net).value).value
  {
    var once := Connect(reg, args, net, dial).registry;
    var twice := Connect(once, args, net, dial2).registry;
    assert twice == Insert(once, Target(args, net).value, dial2(Target(args, net).value).value);
  }

  /** An unrecognised command name addressed to `host` gets no reply and changes
      nothing. */
  lemma UnrecognisedIsIgnored(name: string, args: seq<string>, reg: Registry, net: StdNet, dial: Dialer, order: seq<SocketAddr>)
    requires Enumerates(order, reg.Keys)
    requires ':' !in name && FreeOf(args, ':') && CommandOf(name) == Unrecognised
    ensures HandleCommands(Wire(CliRequest(None, name, args)), reg, net, dial, order) == Replied(None, reg)
  {
    WireParsesBack(CliRequest(None, name, args));
  }

  /** A bare command with no target, such as `devices`, makes the handler panic
      for want of a port field. */
  lemma BareCommandPanics(reg: Registry, net: StdNet, dial: Dialer, order: seq<SocketAddr>)
    requires Enumerates(order, reg.Keys)
    ensures HandleCommands("devices", reg, net, dial, order) == Panicked(NoPortProvided)
  {
    FieldFacts("devices");
    assert ':' !in "devices";
  }
}
