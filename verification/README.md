# AutoClashBot daemon and client protocol, modelled in Dafny

AutoClashBot's `acb` program is two things in one binary:

- a command-line client;
- a daemon that keeps connections to Android devices and forwards instance lifecycle commands.

The two talk over TCP in a colon-separated text grammar, `TARGET:COMMAND:ARG...`:

- the target is `host`, or a device written as `ip:port`;
- the client writes the line in `send_cli_command`;
- the daemon reads it in `handle_commands`.

The daemon keeps a registry: a map from a device's socket address to the connection opened by `connect`. The command `devices` lists the registry. To a device the daemon writes a binary frame, laid out in this order, all big-endian:

- a 16-bit instance id;
- a 16-bit command id;
- a 24-bit message length;
- a 16-bit version, always 1;
- the message's UTF-8 bytes.

This project models, as pure functions:

- the frame encoder (`Frame`);
- the text grammar in both directions (`Cli`, `Dispatch`);
- the daemon's `connect`, `devices` and `start_instance` commands (`ServerConnect`, `Registry`, `ServerStartInstance`);
- the earlier dispatcher in `acb.rs` (`DraftServer`).

Shared pieces live in their own modules:

- `Text`: Rust's `split`, `split_once` and `starts_with`;
- `Decimal`: `u16::to_string` and `str::parse::<u16>`;
- `Utf8`: `str::as_bytes`;
- `Bytes`: big-endian integer writes;
- `Wrappers`: `Option`, `Result` and the panics of `unwrap`/`expect`.

Properties that span the client and the daemon are in `EndToEnd`.

How the model handles effects:

- A panic (`unwrap`, `expect`) is an outcome, `Panicked(reason)` or `Failure(...)`, never a precondition.
- `std::process::exit` is the outcome `Exited`.
- The result of `TcpStream::connect_timeout` is a parameter, `dial: SocketAddr -> Option<Conn>`.
- The standard library's address parsing and printing is a parameter, `StdNet`.
- `HashMap` iteration order is a parameter `order`, required to enumerate the keys exactly once. The method `Registry.Devices` shows that such an order always exists.

What the code does that a reader may not expect:

- A lifecycle command such as `start-instance` does not send a device frame. It answers `Success` once it has at least one argument, and panics otherwise.
- The daemon never picks a default device or looks one up in the registry; no lifecycle command reads the registry.
- The daemon's `connect` can only register IPv4 devices. The daemon splits its input at every `:`, so no argument holds a `:`, and every IPv6 address's text does. `acb connect ::1:5555` sends `host:connect:::1:5555`, whose host argument is empty.
- The registry's key is the whole `SocketAddr`, so for IPv6 its scope id is part of it. The older dispatcher parses `[fe80::1%2]:5555` with its scope, and the listing prints the scope after a `%`.
- Malformed input makes the handler panic instead of producing an error reply:
  - a bare command such as `devices` has no port field;
  - `host` alone has no command field;
  - a lifecycle command may lack its argument.

## Model

| member | source | states |
|---|---|---|
| Bytes.BE16 | src/server/server.rs:45-46 | `write_u16::<BigEndian>`: two bytes, high byte first, whose big-endian value is the number written |
| Bytes.BE24 | src/server/server.rs:47 | `write_u24::<BigEndian>` for a value below 2^24: three bytes, most significant first, whose big-endian value is the number written |
| Bytes.BE16OfValue | src/server/server.rs:45-48 | every two bytes are the `write_u16` encoding of their value, so a reader recovers the 16-bit fields exactly |
| Bytes.BE24OfValue | src/server/server.rs:47 | every three bytes are the `write_u24` encoding of their value, which is below 2^24 |
| Utf8.EncodeChar | src/server/server.rs:37 | a character takes one to four bytes, exactly one iff it is ASCII, and an ASCII byte is the character's code |
| Utf8.Encode | src/server/server.rs:37 | `as_bytes` gives between one and four bytes per character, and no bytes exactly for the empty message |
| Utf8.DecodeEncodeChar | src/server/server.rs:37 | a UTF-8 decoder reading an encoded character recovers it and consumes exactly its bytes, whatever follows |
| Utf8.DecodeEncode | src/server/server.rs:37 | the message bytes decode back to the message: no information is lost by `as_bytes` |
| Utf8.EncodeDecodeChar | src/server/server.rs:37 | the decoder accepts one byte form per character (no overlong forms): a well-formed sequence is the encoding of the character it decodes to |
| Utf8.EncodeDecode | src/server/server.rs:37 | bytes that decode at all are exactly the `as_bytes` of the string they decode to |
| Utf8.EncodeConcat | src/server/server.rs:37 | the bytes of a concatenation are the concatenation of the bytes |
| Frame.Ordinal | src/server/server.rs:9-16 | `DaemonCommands as u16` is below 5 and names back its own variant |
| Frame.OrdinalBijective | src/server/server.rs:9-16 | distinct command kinds get distinct ids, and every id 0-4 names exactly one kind |
| Frame.From | src/server/server.rs:25-31 | `DaemonCommand::from` stores the kind's id, the instance id and the message unchanged |
| Frame.Encode | src/server/server.rs:36-49 | the frame is refused exactly when the UTF-8 message needs more than 24 bits of length. Otherwise it is 9 + length bytes: instance id (0 for none), command id, a length field holding the byte count, version 0x0001, then the message bytes (this is the intended encoder; the code as written is Frame.EncodeAsWritten, see ## Findings) |
| Frame.DecodeEncode | src/server/server.rs:36-49 | a reader of any encoded frame gets back the instance id, command id, version 1 and the message's bytes, which decode to the message |
| Frame.LayoutDecode | src/server/server.rs:45-49 | every byte string accepted as a frame is exactly the five fields it was read as, so the frame format is unambiguous |
| Frame.StartInstanceSevenExample | src/server/server.rs:36-49 | `StartInstance` for instance 7 with an empty message is the frame `00 07 00 00 00 00 00 00 01` |
| Frame.EncodeAsWritten | src/server/server.rs:47 | the code as written fails only by the length panic of `write_u24` |
| Frame.AsWrittenAgrees | src/server/server.rs:47 | below 2^32 message bytes, the code as written and the intended encoder give the same frame or the same panic |
| Frame.AsWrittenLengthWraps | src/server/server.rs:47 | a message of exactly 2^32 bytes passes the as-written guard with length field 0, so no reader accepts the frame; the intended encoder refuses it |
| Text.Split | src/server/server.rs:120 | `split(":")` yields one field more than there are separators, and no field contains the separator |
| Text.SplitJoin | src/server/server.rs:120 | splitting the join of separator-free fields gives back those fields |
| Text.JoinSplit | src/server/server.rs:120-133 | joining the fields of a split with the separator gives back the text, so no character is lost by the daemon's parse |
| Text.SplitCons | src/server/server.rs:120-126 | a separator-free first field followed by `:` is split off as one field, ahead of the fields of the rest |
| Text.JoinOccurrences | src/cli/commandline.rs:58-63 | joining adds exactly one separator between neighbours to those already in the parts |
| Text.SplitOnce | src/cli/commands/connect.rs:4-10 | `split_once(":")` fails exactly when there is no `:`; otherwise the first part has no `:` and the parts with `:` between them are the input |
| Text.SplitOnceUnique | src/cli/commands/connect.rs:4-10 | the split is at the first separator: a separator-free first part is the one found |
| Text.SplitFirstField | src/server/server.rs:120-121 | the first field of `split` is the part before the first `:` (the whole text when there is none) |
| Text.SplitOnceStr | src/acb.rs:74 | `split_once(pat)` fails exactly when the pattern occurs nowhere. Otherwise the parts around it rebuild the text, and the pattern occurs nowhere earlier |
| Decimal.ToDecimal | src/cli/commands/start_instance.rs:4 | `to_string` of a number is a non-empty digit string without a leading zero and without `:` |
| Decimal.ToDecimalValue | src/cli/commands/start_instance.rs:4 | the rendered digits are worth the number rendered |
| Decimal.ParseU16 | src/server/commands/connect.rs:15 | `parse::<u16>` accepts exactly an optional `+` and one or more digits worth at most 65535, and yields their value. The empty text is rejected |
| Decimal.ParseToDecimal | src/server/commands/connect.rs:15 | every `u16` rendered by `to_string` parses back to itself |
| Decimal.ParsePlus | src/server/commands/connect.rs:15 | a leading `+` does not change the parsed value |
| Decimal.ParsedForm | src/server/commands/connect.rs:15 | every accepted text is an optional `+`, some zeros, and the `to_string` rendering of its value |
| Decimal.StripZerosSound | src/server/commands/connect.rs:15 | dropping redundant leading zeros keeps a digit string's value and leaves no leading zero |
| Decimal.CanonicalIsToDecimal | src/server/commands/connect.rs:15 | a digit string without redundant leading zeros is the `to_string` rendering of its value |
| Registry.SocketAddrOf | src/server/commands/connect.rs:21 | `SocketAddr::new` keeps the IP and port and gives scope 0 |
| Registry.ShowAddr | src/server/commands/devices.rs:9 | an address prints as text ending in `:` and the port in decimal, and an IPv6 address starts with `[` |
| Registry.ShowAddrScopes | src/server/commands/devices.rs:9 | two IPv6 addresses that differ only in scope print differently, as their registry keys differ |
| Registry.Insert | src/server/commands/connect.rs:25 | `HashMap::insert` maps the address to the new connection, replacing any earlier one. It keeps every other entry and adds at most one key |
| Registry.EnumerationSize | src/server/commands/devices.rs:8 | iterating a map's keys visits as many addresses as the map has entries |
| Registry.EnumerationOnce | src/server/commands/devices.rs:8 | every key is visited exactly once, and nothing else is visited |
| Registry.EnumerationExtend | src/server/commands/devices.rs:8-10 | extending a visit of some keys by one fresh key visits one key more |
| Registry.Listing | src/server/commands/devices.rs:6-11 | the reply starts with the header line `Connected devices:`, and an empty registry gives the header alone; its lines are stated by Registry.ListingLines |
| Registry.ListingAppend | src/server/commands/devices.rs:9 | each visited address appends its own line to the reply |
| Registry.ListingLines | src/server/commands/devices.rs:6-11 | split at line breaks, the reply is the header, one `\tip:port` line per address in visit order, and the empty text after the last newline. So it has 1 + (number of devices) newlines |
| Registry.Devices | src/server/commands/devices.rs:5-12 | `devices` visits every registered address once in some order and lists it. The reply starts with the header, and an empty registry gives the header alone |
| ServerConnect.Target | src/server/commands/connect.rs:6-19 | `Invalid Host` exactly when the first argument is missing or not an IP. `Invalid Port` exactly when the host is valid but the second argument is missing or not a `u16`. Otherwise the address is the two parsed values |
| ServerConnect.Connect | src/server/commands/connect.rs:5-34 | validation failures and failed connections leave the registry unchanged, replying the error or the empty text. A successful connection inserts exactly that address and replies `Connected to Socket`. Nothing else changes the registry |
| ServerConnect.ConnectIgnoresExtra | src/server/commands/connect.rs:6-19 | arguments after the port do not affect `connect` |
| ServerStartInstance.StartInstance | src/server/commands/start_instance.rs:6-10 | a missing argument panics and a non-`u16` argument panics. Otherwise the frame is the id in two bytes, command 0, length 0, version 1 |
| ServerStartInstance.StartInstanceFrameReads | src/server/commands/start_instance.rs:6-10 | a device reads that frame back as `StartInstance` for that instance with an empty message |
| Dispatch.ParseRequest | src/server/server.rs:120-133 | the parse fails only for want of a port or a command field, and an accepted command is one field without `:`; Dispatch.ParseRequestNoPort, ParseRequestNoCommand, ParseRequestTarget and ParseRequestRejoins state exactly when each case happens |
| Dispatch.ParseRequestNoPort | src/server/server.rs:123-127 | the parse panics for want of a port exactly when the text has no `:` and is not `host` |
| Dispatch.ParseRequestNoCommand | src/server/server.rs:131 | the parse panics for want of a command exactly on `host` alone, or on a device text with a single `:` |
| Dispatch.ParseRequestTarget | src/server/server.rs:123-129 | an accepted request is addressed to `host` exactly when the text starts with `host:` |
| Dispatch.ParseRequestRejoins | src/server/server.rs:120-133 | target, command and arguments rejoined with `:` give the text back, and only the target may hold a `:` |
| Dispatch.NameOf | src/server/server.rs:135-170 | every recognised command's name is one non-empty field without `:` |
| Dispatch.CommandOf | src/server/server.rs:135-171 | a name that selects a recognised command is that command's name |
| Dispatch.NameOfSelects | src/server/server.rs:135-170 | every recognised command's name selects it |
| Dispatch.UnrecognisedNames | src/server/server.rs:135-171 | a name falls to the `_` arm exactly when it is no recognised command's name |
| Dispatch.Execute | src/server/server.rs:135-172 | `kill-server` exits, and a lifecycle command without argument panics. A lifecycle command with an argument replies `Success`, and an unknown command gets no reply. `devices` replies the listing and `connect` replies as `connect` does. Only a successful `connect` changes the registry, by at most one key |
| Dispatch.HandleCommands | src/server/server.rs:119-173 | which texts panic for want of a port or command field. The registry only grows, by at most one key, and only when the reply is `Connected to Socket` |
| Dispatch.ParseViaHost | src/server/server.rs:120-133 | a `host:` text has no device, and its command and arguments are the fields of the rest |
| Dispatch.ParseViaDevice | src/server/server.rs:120-133 | an `ip:port:` text names that device, and its command and arguments are the fields of the rest |
| Dispatch.ReplyIgnoresTarget | src/server/server.rs:123-171 | the same request addressed to `host` or to any device is handled identically: no branch consults the target |
| Dispatch.HostCommandParses | src/server/server.rs:120-133 | the daemon reads `host:` and a colon-free name as target `host`, that command and no arguments |
| Dispatch.HandleHostCommand | src/server/server.rs:119-135 | `host:` and a colon-free name is handled as that command with no arguments |
| Dispatch.ExecuteDevices | src/server/server.rs:145 | `devices` replies the listing and leaves the registry alone |
| DraftServer.HandleConnectDraft | src/acb.rs:93-107 | an unparsable address panics, and a failed connection replies the empty text and changes nothing. A successful one inserts exactly that address and replies `Connected to Socket` |
| DraftServer.HandleCommandsDraft | src/acb.rs:72-91 | a command starting with `connect:` connects to the text after that prefix. Exactly `devices` lists the registry. Anything else gets no reply and changes nothing |
| DraftServer.DraftDevicesExact | src/acb.rs:79-89 | `devices` is matched exactly: `devices\n` is ignored |
| DraftServer.DraftOnlyConnectChanges | src/acb.rs:72-107 | for every command, only a `connect:` command panics, and only for an unparsable address. Only a successful `connect:` changes the registry, keeping every key and adding at most one |
| DraftServer.DraftAgreesOnDevices | src/acb.rs:79-89 | the draft's `devices` and the daemon's `host:devices` give the same reply and registry |
| Cli.AppendOptions | src/cli/commandline.rs:61-63 | appending `:option` for each option gives the service and the options joined with `:` |
| Cli.Wire | src/cli/commandline.rs:52-63 | the text sent is the target (`host` without a serial), the command and the options, joined with `:` |
| Cli.WireSeparators | src/cli/commandline.rs:52-63 | the text has exactly 1 + (number of options) separators more than its parts |
| Cli.WireFields | src/cli/commandline.rs:52-63 | with separator-free parts, splitting the text at `:` recovers the target, the command and every option |
| Cli.ConnectCommand | src/cli/commands/connect.rs:3-16 | `acb connect` prints `Invalid Serial` and sends nothing exactly when the input has no `:`. Otherwise it sends `connect` to `host` with the part before the first `:` and the rest, which rejoin to the input |
| Cli.ConnectWire | src/cli/commands/connect.rs:3-16 | `acb connect` sends `host:connect:` followed by its input verbatim |
| Cli.StartInstanceCommand | src/cli/commands/start_instance.rs:3-10 | `acb start-instance` sends the serial and one option that parses back to the instance id |
| Cli.StartInstanceWire | src/cli/commands/start_instance.rs:3-10 | without a serial it sends `host:start-instance:` and the id in decimal |
| EndToEnd.WireParsesBack | src/cli/commandline.rs:52-63 | what the client sends without a serial, the daemon parses back to target `host`, the same command and the same options |
| EndToEnd.DeviceWireParsesBack | src/cli/commandline.rs:52-63 | what the client sends with an `ip:port` serial, the daemon parses back to that device, command and options |
| EndToEnd.ConnectReachesDaemon | src/cli/commands/connect.rs:3-16 | for a colon-free `ip` and `port` (an IPv4 address), `acb connect ip:port` makes the daemon run `connect` with exactly `ip` and `port` |
| EndToEnd.DaemonConnectsIpv4Only | src/server/server.rs:120-144 | every argument the daemon parses is free of `:`, so the host given to `connect` never parses as an IPv6 address and only IPv4 devices are registered |
| EndToEnd.StartInstanceReachesDaemon | src/cli/commands/start_instance.rs:3-10 | `acb start-instance` without a serial gets `Success` and leaves the registry alone |
| EndToEnd.StartInstanceFrameFromCli | src/server/commands/start_instance.rs:6-10 | `start_instance`, given the option `acb start-instance` sends, writes the frame for the same id; the daemon's dispatcher never calls it |
| EndToEnd.ConnectedIsListedOnce | src/server/commands/devices.rs:5-12 | after a successful `connect`, any listing shows the address's line, and lists the address exactly once |
| EndToEnd.ListedLine | src/server/commands/devices.rs:8-10 | every listed address has its own line in the `devices` reply |
| EndToEnd.ReconnectKeepsKeys | src/server/commands/connect.rs:21-26 | connecting again to a registered address replaces its connection without adding an entry |
| EndToEnd.UnrecognisedIsIgnored | src/server/server.rs:171 | an unknown command name gets no reply and changes nothing |
| EndToEnd.BareCommandPanics | src/server/server.rs:126 | a bare `devices`, with no target, panics for want of a port field |

## Left out

- The TCP listener and per-client threads are not modelled. Neither are the `Okay` greeting, the 1024-byte read buffer or lossy UTF-8 decoding of what is read. These are I/O; the model starts from the decoded text.
- The `RwLock`/`Mutex` locking is not modelled. Each call is one atomic step on an immutable registry.
- The final `write_all` of a frame to a device is not modelled; the frame's bytes are the result.
- `kill-server` is modelled only as the outcome `Exited`. Shutting down every stream and calling `process::exit` are side effects.
- The lifecycle commands' HTTP GET to the instance manager is not modelled. This covers the address `http:/localhost:8000/instance/{id}/{action}` and the panic when that request fails. The model replies `Success` as if the request completed.
- `TcpStream::connect_timeout` is the `dial` parameter: a timeout and any other error are both `None`, as the code treats them alike.
- `IpAddr` parsing and `Display` and `SocketAddr` parsing belong to Rust's standard library. They are the `StdNet` parameters, required to print without line breaks where a listing's lines are counted.
- The IPv6 flow label of `SocketAddrV6` is not represented. Neither `SocketAddr::new` nor `str::parse::<SocketAddr>` gives it a value other than 0, so it never tells two keys apart.
- Registry.Devices: its contract holds for some iteration order, the one `HashMap` happens to use; which order that is, is not modelled.
- Text.SplitOnceStr: requires a non-empty pattern; the only call passes `connect:`.
- The client's connection to the daemon is not modelled. This covers `connect_to_server`, `try_connect_to_server`, starting the daemon when absent, and reading the reply (src/cli/commandline.rs:65-121).
- The client's `close-instance`, `restart-instance`, `stop-instance`, `resume-instance` and `kill-server` wrappers are not part of this model. They are called from src/cli/commandline.rs:130-138 but are not in the sources. The daemon side of those commands is modelled.
- Not part of this model: src/acb_client.rs, src/cli/commands/start_server.rs, src/cli/commands/devices.rs, src/main.rs, and the `mod.rs` files (argument parsing, process spawning, module wiring).

## Findings

| source | as written | input that shows it | evidently intended | confidence | as-written member | corrected member |
|---|---|---|---|---|---|---|
| src/server/server.rs:47 | `msg_bytes.len() as u32` keeps only the low 32 bits before `write_u24` checks that the length fits 24 bits | a message of 2^32 UTF-8 bytes: the cast gives 0, the guard passes, and a frame with length field 0 and 2^32 payload bytes is written | refuse every message longer than 2^24 - 1 bytes | low; not executed (needs a 4 GiB message) | Frame.AsWrittenLengthWraps | Frame.DecodeEncode |
