/** The daemon's `connect` command: validate the host, then the port, then try to
    open a connection and record it in the registry. */
module ServerConnect {
  import opened Wrappers
  import opened Decimal
  import opened Registry

  /** The outcome of `TcpStream::connect_timeout` with its one-second limit, for each
      address: a new connection, or `None` for a timeout or any other error. */
  type Dialer = SocketAddr -> Option<Conn>

  const InvalidHost: string := "Invalid Host"
  const InvalidPort: string := "Invalid Port"
  const Connected: string := "Connected to Socket"

  /** The address `connect` builds from its arguments: the first must parse as an
      IP address, the second as a `u16` port; further arguments are not read. */
  function Target(args: seq<string>, net: StdNet): (r: Result<SocketAddr, string>)
    ensures r == Failure(InvalidHost) <==> |args| == 0 || net.parseIp(args[0]).None?
    ensures r == Failure(InvalidPort) <==>
      |args| > 0 && net.parseIp(args[0]).Some? && (|args| < 2 || ParseU16(args[1]).None?)
    ensures r.Success? ==>
      |args| >= 2 && net.parseIp(args[0]) == Some(r.value.ip) && ParseU16(args[1]) == Some(r.value.port)
      && r.value.scopeId == 0
  {
    if |args| == 0 then Failure(InvalidHost)
    else match net.parseIp(args[0])
      case None => Failure(InvalidHost)
      case Some(ip) =>
        if |args| < 2 then Failure(InvalidPort)
        else match ParseU16(args[1])
          case None => Failure(InvalidPort)
          case Some(port) => Success(SocketAddrOf(ip, port))
  }

  datatype ConnectReply = ConnectReply(reply: string, registry: Registry)

  /** `connect`: the reply text and the registry afterwards. Validation happens
      before any connection attempt or change; only a successful connection changes
      the registry, by inserting (or replacing) that one address. */
  function Connect(reg: Registry, args: seq<string>, net: StdNet, dial: Dialer): (r: ConnectReply)
    ensures Target(args, net).Failure? ==> r == ConnectReply(Target(args, net).error, reg)
    ensures Target(args, net).Success? && dial(Target(args, net).value).None? ==> r == ConnectReply("", reg)
    ensures Target(args, net).Success? && dial(Target(args, net).value).Some? ==>
      var addr := Target(args, net).value;
      r.reply == Connected && addr in r.registry && r.registry[addr] == dial(addr).value
      && r.registry.Keys == reg.Keys + {addr}
      && (forall a :: a in reg && a != addr ==> r.registry[a] == reg[a])
    ensures r.reply == Connected || r.registry == reg
    ensures r.reply in {InvalidHost, InvalidPort, Connected, ""}
  {
    match Target(args, net)
    case Failure(e) => ConnectReply(e, reg)
    case Success(addr) =>
      match dial(addr)
      case Some(conn) => ConnectReply(Connected, Insert(reg, addr, conn))
      case None => ConnectReply("", reg)
  }

  /** Arguments after the port do not change what `connect` does. */
  lemma ConnectIgnoresExtra(reg: Registry, args: seq<string>, extra: seq<string>, net: StdNet, dial: Dialer)
    requires |args| >= 2
    ensures Connect(reg, args + extra, net, dial) == Connect(reg, args, net, dial)
  {
    assert (args + extra)[0] == args[0] && (args + extra)[1] == args[1];
  }
}

/** The daemon-side `start_instance` command: the frame it writes to a device. */
module ServerStartInstance {
  import opened Wrappers
  import opened Bytes
  import opened Decimal
  import Frame
  import Utf8

  /** `start_instance`: the first argument must be present and parse as a `u16`
      (otherwise the handler panics); the frame is a `StartInstance` command for
      that instance with an empty message. */
  function StartInstance(args: seq<string>): (r: Result<seq<byte>, Panic>)
    ensures |args| == 0 ==> r == Failure(MissingArgument)
    ensures |args| > 0 && ParseU16(args[0]).None? ==> r == Failure(BadInstanceId)
    ensures |args| > 0 && ParseU16(args[0]).Some? ==>
      var id := ParseU16(args[0]).value;
      r == Success([(id / 256) as byte, (id % 256) as byte, 0, 0, 0, 0, 0, 0, 1])
  {
    if |args| == 0 then Failure(MissingArgument)
    else match ParseU16(args[0])
      case None => Failure(BadInstanceId)
      case Some(id) =>
        var c := Frame.From(Frame.StartInstance, Some(id), "");
        assert Utf8.Encode(c.message) == [];
        var r := Frame.Encode(c);
        assert r.value[4..7] == BE24(0) by {
          BE24OfValue(r.value[4..7]);
        }
        assert r.value == [(id / 256) as byte, (id % 256) as byte, 0, 0, 0, 0, 0, 0, 1];
        r
  }

  /** The frame carries the instance id, `StartInstance` and no message, as a device
      reads it back. */
  lemma StartInstanceFrameReads(args: seq<string>, id: u16)
    requires |args| > 0 && ParseU16(args[0]) == Some(id)
    ensures Frame.Decode(StartInstance(args).value) ==
      Some(Frame.Header(id, Frame.Ordinal(Frame.StartInstance), Frame.Version, []))
  {
    var c := Frame.From(Frame.StartInstance, Some(id), "");
    assert Utf8.Encode(c.message) == [];
    Frame.DecodeEncode(c);
    assert StartInstance(args) == Frame.Encode(c);
  }
}
