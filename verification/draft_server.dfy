/** The earlier dispatcher in `acb.rs`: a command starting with `connect:` carries
    an `ip:port` address after that prefix, and exactly `devices` lists the
    registry; everything else is ignored. */
module DraftServer {
  import opened Wrappers
  import opened Text
  import opened Registry
  import opened ServerConnect
  import opened Dispatch

  const ConnectPrefix: string := "connect:"

  /** `handle_connect_command`: the address must parse as a socket address (the
      handler panics otherwise); a successful connection is inserted, replacing
      any earlier one for the same address, and a failed one leaves the registry
      alone with an empty reply. */
  function HandleConnectDraft(addrText: string, reg: Registry, net: StdNet, dial: Dialer): (o: Outcome)
    ensures net.parseSocketAddr(addrText).None? ==> o == Panicked(BadSocketAddr)
    ensures net.parseSocketAddr(addrText).Some? ==>
      var addr := net.parseSocketAddr(addrText).value;
      && (dial(addr).None? ==> o == Replied(Some(""), reg))
      && (dial(addr).Some? ==>
            && o.Replied? && o.reply == Some(Connected)
            && addr in o.registry && o.registry[addr] == dial(addr).value
            && o.registry.Keys == reg.Keys + {addr}
            && (forall a :: a in reg && a != addr ==> o.registry[a] == reg[a]))
  {
    match net.parseSocketAddr(addrText)
    case None => Panicked(BadSocketAddr)
    case Some(addr) =>
      match dial(addr)
      case Some(conn) => Replied(Some(Connected), Insert(reg, addr, conn))
      case None => Replied(Some(""), reg)
  }

  /** `handle_commands` of the draft. The `connect:` test comes first; the address
      is what follows the first occurrence of `connect:`, which for a command that
      starts with it is everything after the prefix. */
  function HandleCommandsDraft(command: string, reg: Registry, net: StdNet, dial: Dialer, order: seq<SocketAddr>): (o: Outcome)
    requires Enumerates(order, reg.Keys)
    ensures StartsWith(command, ConnectPrefix) ==>
      o == HandleConnectDraft(command[|ConnectPrefix|..], reg, net, dial)
    ensures !StartsWith(command, ConnectPrefix) && command == "devices" ==>
      o == Replied(Some(Listing(net, order)), reg)
    ensures !StartsWith(command, ConnectPrefix) && command != "devices" ==> o == Replied(None, reg)
    ensures !o.Panicked? ==> o.Replied?
  {
    if StartsWith(command, ConnectPrefix) then
      var split := SplitOnceStr(command, ConnectPrefix);
      assert OccursAt(command, ConnectPrefix, 0);
      assert |split.value.0| == 0;
      assert split.value.1 == command[|ConnectPrefix|..];
      HandleConnectDraft(split.value.1, reg, net, dial)
    else if command == "devices" then Replied(Some(Listing(net, order)), reg)
    else Replied(None, reg)
  }

  /** The `devices` test is an exact comparison: a trailing line break makes the
      command unrecognised. */
  lemma DraftDevicesExact(reg: Registry, net: StdNet, dial: Dialer, order: seq<SocketAddr>)
    requires Enumerates(order, reg.Keys)
    ensures HandleCommandsDraft("devices", reg, net, dial, order) == Replied(Some(Listing(net, order)), reg)
    ensures HandleCommandsDraft("devices\n", reg, net, dial, order) == Replied(None, reg)
  {
    assert !StartsWith("devices", ConnectPrefix) by {
      assert |"devices"| < |ConnectPrefix|;
    }
    assert !StartsWith("devices\n", ConnectPrefix) by {
      assert "devices\n"[..|ConnectPrefix|][0] != ConnectPrefix[0];
    }
  }

  /** Across all commands, only a successful `connect:` changes the registry, and
      it keeps every earlier address and adds at most one. */
  lemma DraftOnlyConnectChanges(command: string, reg: Registry, net: StdNet, dial: Dialer, order: seq<SocketAddr>)
    requires Enumerates(order, reg.Keys)
    ensures var o := HandleCommandsDraft(command, reg, net, dial, order);
      && (o.Panicked? ==> StartsWith(command, ConnectPrefix) && o.reason == BadSocketAddr)
      && (o.Replied? ==> reg.Keys <= o.registry.Keys && |o.registry| <= |reg| + 1)
      && (o.Replied? && o.registry != reg ==> StartsWith(command, ConnectPrefix) && o.reply == Some(Connected))
  {
    if StartsWith(command, ConnectPrefix) {
      var addrText := command[|ConnectPrefix|..];
      match net.parseSocketAddr(addrText)
      case None =>
      case Some(addr) =>
        if dial(addr).Some? {
          var r := Insert(reg, addr, dial(addr).value);
          assert |r| <= |reg| + 1;
        }
    }
  }

  /** The draft's `devices` and the daemon's `host:devices` give the same reply
      and leave the registry alone. */
  lemma DraftAgreesOnDevices(reg: Registry, net: StdNet, dial: Dialer, order: seq<SocketAddr>)
    requires Enumerates(order, reg.Keys)
    ensures HandleCommandsDraft("devices", reg, net, dial, order) == HandleCommands("host:devices", reg, net, dial, order)
  {
    DraftDevicesExact(reg, net, dial, order);
    HandleHostCommand("devices", reg, net, dial, order);
    ExecuteDevices(Request(None, "devices", []), reg, net, dial, order);
    assert "host:" + "devices" == "host:devices";
  }
}
