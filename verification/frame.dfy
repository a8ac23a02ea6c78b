/** The binary command frame the daemon writes to a device connection:
    instance id (16 bits), command id (16 bits), message length (24 bits),
    protocol version (16 bits, always 1), then the message's UTF-8 bytes, all
    big-endian. */
module Frame {
  import opened Wrappers
  import opened Bytes
  import Utf8

  /** `DaemonCommands`, the kinds of command a device understands. */
  datatype CommandKind = StartInstance | CloseInstance | RestartInstance | StopInstance | ResumeInstance

  /** The kind a command id on the wire stands for, if any. */
  function KindOf(id: int): Option<CommandKind>
  {
    match id
    case 0 => Some(StartInstance)
    case 1 => Some(CloseInstance)
    case 2 => Some(RestartInstance)
    case 3 => Some(StopInstance)
    case 4 => Some(ResumeInstance)
    case _ => None
  }

  /** `command as u16`: the enum's discriminant. */
  function Ordinal(k: CommandKind): (id: u16)
    ensures id < 5
    ensures KindOf(id) == Some(k)
  {
    match k
    case StartInstance => 0
    case CloseInstance => 1
    case RestartInstance => 2
    case StopInstance => 3
    case ResumeInstance => 4
  }

  /** Distinct kinds have distinct ordinals, and every id below 5 names a kind. */
  lemma OrdinalBijective(k1: CommandKind, k2: CommandKind, id: int)
    ensures Ordinal(k1) == Ordinal(k2) ==> k1 == k2
    ensures 0 <= id < 5 ==> KindOf(id).Some? && Ordinal(KindOf(id).value) == id
  {
    assert KindOf(Ordinal(k1)) == Some(k1);
  }

  /** `DaemonCommand`. */
  datatype DaemonCommand = DaemonCommand(commandId: u16, instanceId: Option<u16>, message: string)

  /** `DaemonCommand::from`. */
  function From(kind: CommandKind, instanceId: Option<u16>, message: string): (c: DaemonCommand)
    ensures KindOf(c.commandId) == Some(kind)
    ensures c.instanceId == instanceId && c.message == message
  {
    DaemonCommand(Ordinal(kind), instanceId, message)
  }

  /** The instance id field: the id itself, or 0 when there is none. */
  function InstanceField(c: DaemonCommand): u16
  {
    match c.instanceId
    case Some(id) => id
    case None => 0
  }

  const Version: u16 := 1

  /** The bytes of a frame whose length field holds `lengthField`. */
  function Layout(instance: u16, commandId: u16, lengthField: nat, payload: seq<byte>): (bs: seq<byte>)
    requires lengthField < 0x100_0000
    ensures |bs| == 9 + |payload| && bs[9..] == payload
  {
    BE16(instance) + BE16(commandId) + BE24(lengthField) + BE16(Version) + payload
  }

  /** The body of `DaemonCommand::send` as written: the length is cast with
      `len() as u32`, which keeps only its low 32 bits, and `write_u24` then panics
      when that value does not fit in 24 bits. */
  function EncodeAsWritten(c: DaemonCommand): (r: Result<seq<byte>, Panic>)
    ensures r.Failure? ==> r.error == LengthOverflow
  {
    var payload := Utf8.Encode(c.message);
    var len32 := |payload| % 0x1_0000_0000;
    if len32 >= 0x100_0000 then Failure(LengthOverflow)
    else Success(Layout(InstanceField(c), c.commandId, len32, payload))
  }

  /** The frame the sender intends: a message too long for the 24-bit length field
      is refused, whatever its length modulo 2^32. */
  function Encode(c: DaemonCommand): (r: Result<seq<byte>, Panic>)
    ensures r.Failure? <==> |Utf8.Encode(c.message)| >= 0x100_0000
    ensures r.Failure? ==> r.error == LengthOverflow
    ensures r.Success? ==> var bs := r.value;
      && |bs| == 9 + |Utf8.Encode(c.message)|
      && bs[0] as int == InstanceField(c) / 256 && bs[1] as int == InstanceField(c) % 256
      && bs[2] as int == c.commandId / 256 && bs[3] as int == c.commandId % 256
      && ValueBE(bs[4..7]) == |Utf8.Encode(c.message)|
      && bs[7] == 0 && bs[8] == 1
      && bs[9..] == Utf8.Encode(c.message)
  {
    var payload := Utf8.Encode(c.message);
    if |payload| >= 0x100_0000 then Failure(LengthOverflow)
    else
      var bs := Layout(InstanceField(c), c.commandId, |payload|, payload);
      assert bs[4..7] == BE24(|payload|);
      Success(bs)
  }

  /** What a device reads back from a frame. */
  datatype Header = Header(instance: u16, commandId: u16, version: u16, payload: seq<byte>)

  /** Reads a frame: a 9-byte header whose length field equals the number of bytes
      that follow it. */
  function Decode(bs: seq<byte>): (r: Option<Header>)
    ensures r.Some? ==> |bs| == 9 + |r.value.payload| && bs[9..] == r.value.payload
  {
    if |bs| < 9 then None
    else if ValueBE(bs[4..7]) != |bs| - 9 then None
    else
      BE16OfValue(bs[0..2]);
      BE16OfValue(bs[2..4]);
      BE16OfValue(bs[7..9]);
      Some(Header(ValueBE(bs[0..2]), ValueBE(bs[2..4]), ValueBE(bs[7..9]), bs[9..]))
  }

  /** Reading an encoded frame gives back the instance id (0 for none), the command
      id, version 1 and the message's UTF-8 bytes, which decode to the message. */
  lemma DecodeEncode(c: DaemonCommand)
    requires Encode(c).Success?
    ensures Decode(Encode(c).value) == Some(Header(InstanceField(c), c.commandId, Version, Utf8.Encode(c.message)))
    ensures Utf8.Decode(Decode(Encode(c).value).value.payload) == Some(c.message)
  {
    var payload := Utf8.Encode(c.message);
    var bs := Encode(c).value;
    assert bs[0..2] == BE16(InstanceField(c));
    assert bs[2..4] == BE16(c.commandId);
    assert bs[4..7] == BE24(|payload|);
    assert bs[7..9] == BE16(Version);
    Utf8.DecodeEncode(c.message);
  }

  /** Every byte string a device accepts as a frame is the layout of what it read,
      so the reader loses nothing either. */
  lemma LayoutDecode(bs: seq<byte>)
    requires Decode(bs).Some?
    ensures var h := Decode(bs).value;
      && |h.payload| < 0x100_0000
      && bs == BE16(h.instance) + BE16(h.commandId) + BE24(|h.payload|) + BE16(h.version) + h.payload
      && (h.version == Version ==> bs == Layout(h.instance, h.commandId, |h.payload|, h.payload))
  {
    var h := Decode(bs).value;
    BE16OfValue(bs[0..2]);
    BE16OfValue(bs[2..4]);
    BE24OfValue(bs[4..7]);
    BE16OfValue(bs[7..9]);
    assert bs == bs[0..2] + bs[2..4] + bs[4..7] + bs[7..9] + bs[9..];
  }

  /** The frame for instance 7, `StartInstance` and an empty message. */
  lemma StartInstanceSevenExample()
    ensures Encode(From(StartInstance, Some(7), "")) == Success([0x00, 0x07, 0x00, 0x00, 0x00, 0x00, 0x00, 0x00, 0x01])
  {
    var c := From(StartInstance, Some(7), "");
    assert Utf8.Encode(c.message) == [];
    var bs := Encode(c).value;
    assert bs[4..7] == BE24(0) by {
      BE24OfValue(bs[4..7]);
    }
    assert bs == [0x00, 0x07, 0x00, 0x00, 0x00, 0x00, 0x00, 0x00, 0x01];
  }

  /** While the message fits the length field, the code as written and the
      intended encoder produce the same frame or the same panic up to 2^32 bytes. */
  lemma AsWrittenAgrees(c: DaemonCommand)
    requires |Utf8.Encode(c.message)| < 0x1_0000_0000
    ensures EncodeAsWritten(c) == Encode(c)
  {
  }

  /** The cast `len() as u32` lets a message of exactly 2^32 bytes past the
      24-bit guard: the code as written sends a frame whose length field says 0,
      which no reader accepts, where the intended encoder panics. */
  lemma AsWrittenLengthWraps(c: DaemonCommand)
    requires |Utf8.Encode(c.message)| == 0x1_0000_0000
    ensures EncodeAsWritten(c).Success?
    ensures ValueBE(EncodeAsWritten(c).value[4..7]) == 0
    ensures Decode(EncodeAsWritten(c).value) == None
    ensures Encode(c) == Failure(LengthOverflow)
  {
    var bs := EncodeAsWritten(c).value;
    assert bs[4..7] == BE24(0);
  }
}
