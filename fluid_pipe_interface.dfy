/**
 * The state of a fluid pipe's interface screen as it is synchronised between
 * server and client: the fluid the pipe network carries, the connection type
 * (insert / extract mode) and the priority. The sender writes the three
 * fields to a packet; the receiver reads them back into a stand-alone object
 * whose getters and setters work on its own copy of the three values.
 */
module FluidPipeInterface {
  import opened JavaInt
  import opened Wrappers
  import opened PacketBuf

  /** A fluid as the fluid registry identifies it. Its contents do not matter here. */
  type FluidKey(==, !new)

  /** A player asking to use the screen. */
  type Player

  /**
   * The fluid key's own packet format, which belongs to the fluid registry:
   * `write` gives the bytes `toPacket` appends, `read` the key `fromPacket`
   * reads at the start of the given bytes and how many bytes it consumed.
   */
  datatype FluidCodec = FluidCodec(write: FluidKey -> seq<Byte>, read: seq<Byte> -> Option<(FluidKey, nat)>)

  /** A fluid codec that only consumes bytes it was given. */
  ghost predicate Bounded(codec: FluidCodec)
  {
    forall data :: codec.read(data).Some? ==> codec.read(data).value.1 <= |data|
  }

  /** A fluid codec that reads back what it wrote, whatever follows. */
  ghost predicate RoundTrips(codec: FluidCodec)
  {
    forall key, rest :: codec.read(codec.write(key) + rest) == Some((key, |codec.write(key)|))
  }

  datatype EndpointState = EndpointState(networkFluid: FluidKey, connectionType: Int32, priority: Int32)

  /** The bytes `toBuf` appends: the fluid, then the connection type, then the priority. */
  function Encode(codec: FluidCodec, state: EndpointState): (data: seq<Byte>)
    ensures |data| == |codec.write(state.networkFluid)| + 8
  {
    codec.write(state.networkFluid) + EncodeInt(state.connectionType) + EncodeInt(state.priority)
  }

  /**
   * What `ofBuf` reads at the start of `data`, and how many bytes it
   * consumes; nothing when one of the three reads fails.
   */
  function Decode(codec: FluidCodec, data: seq<Byte>): (decoded: Option<(EndpointState, nat)>)
    requires Bounded(codec)
    ensures decoded.Some? ==> decoded.value.1 <= |data|
  {
    match codec.read(data)
    case None => None
    case Some((fluid, n)) =>
      match DecodeInt(data[n..])
      case None => None
      case Some(connectionType) =>
        match DecodeInt(data[n + 4..])
        case None => None
        case Some(priority) => Some((EndpointState(fluid, connectionType, priority), n + 8))
  }

  /**
   * Decoding fails exactly when one of the three reads fails. A decoded
   * state is exactly three fields read one after another: the fluid at the
   * start, the connection type right after it, the priority in the last
   * four bytes consumed.
   */
  lemma DecodeReadsInOrder(codec: FluidCodec, data: seq<Byte>)
    requires Bounded(codec)
    ensures Decode(codec, data).None? <==>
      || codec.read(data).None?
      || (var n := codec.read(data).value.1;
          DecodeInt(data[n..]).None? || DecodeInt(data[n + 4..]).None?)
    ensures Decode(codec, data).Some? ==>
      var (state, n) := Decode(codec, data).value;
      && n >= 8
      && codec.read(data) == Some((state.networkFluid, n - 8))
      && DecodeInt(data[n - 8..n]) == Some(state.connectionType)
      && DecodeInt(data[n - 4..n]) == Some(state.priority)
  {
    if Decode(codec, data).Some? {
      var (state, n) := Decode(codec, data).value;
      var (_, m) := codec.read(data).value;
      assert n == m + 8;
      assert data[n - 8..n][..4] == data[m..][..4];
      assert data[n - 4..n][..4] == data[m + 4..][..4];
    }
  }

  /** Reading back what `toBuf` wrote gives the same three fields and consumes exactly them. */
  lemma RoundTrip(codec: FluidCodec, state: EndpointState, rest: seq<Byte>)
    requires Bounded(codec) && RoundTrips(codec)
    ensures Decode(codec, Encode(codec, state) + rest) == Some((state, |Encode(codec, state)|))
  {
    var fluidBytes := codec.write(state.networkFluid);
    var n := |fluidBytes|;
    var data := Encode(codec, state) + rest;
    assert data == fluidBytes + (EncodeInt(state.connectionType) + EncodeInt(state.priority) + rest);
    assert codec.read(data) == Some((state.networkFluid, n));
    assert data[n..] == EncodeInt(state.connectionType) + (EncodeInt(state.priority) + rest);
    IntRoundTrip(state.connectionType, EncodeInt(state.priority) + rest);
    assert data[n + 4..] == EncodeInt(state.priority) + rest;
    IntRoundTrip(state.priority, rest);
  }

  /**
   * The object `ofBuf` returns. Each of its three values lives in a cell of
   * its own (a one-element array in the Java code) that the getters read and
   * the setters overwrite.
   */
  class DecodedInterface {
    var networkFluid: FluidKey
    var connectionType: Int32
    var priority: Int32

    constructor (fluid: FluidKey, connectionType: Int32, priority: Int32)
      ensures State() == EndpointState(fluid, connectionType, priority)
    {
      this.networkFluid := fluid;
      this.connectionType := connectionType;
      this.priority := priority;
    }

    /** The three values the object holds. */
    function State(): EndpointState
      reads this
    {
      EndpointState(networkFluid, connectionType, priority)
    }

    method GetNetworkFluid() returns (fluid: FluidKey)
      ensures fluid == State().networkFluid
    {
      fluid := networkFluid;
    }

    method SetNetworkFluid(fluid: FluidKey)
      modifies this
      ensures State() == old(State()).(networkFluid := fluid)
    {
      networkFluid := fluid;
    }

    method GetConnectionType() returns (t: Int32)
      ensures t == State().connectionType
    {
      t := connectionType;
    }

    method SetConnectionType(t: Int32)
      modifies this
      ensures State() == old(State()).(connectionType := t)
    {
      connectionType := t;
    }

    method GetPriority() returns (p: Int32)
      ensures p == State().priority
    {
      p := priority;
    }

    method SetPriority(p: Int32)
      modifies this
      ensures State() == old(State()).(priority := p)
    {
      priority := p;
    }

    /** Every player may use a decoded interface. */
    function CanUse(player: Player): (allowed: bool)
      ensures allowed
    {
      true
    }

    /** `toBuf`: appends the fluid, the connection type and the priority to `buf`. */
    method ToBuf(codec: FluidCodec, buf: PacketByteBuf)
      requires buf.Valid()
      modifies buf
      ensures buf.Valid()
      ensures buf.bytes == old(buf.bytes) + Encode(codec, State())
      ensures buf.readerIndex == old(buf.readerIndex)
      ensures buf.Readable() == old(buf.Readable()) + Encode(codec, State())
    {
      var fluid := GetNetworkFluid();
      buf.WriteBytes(codec.write(fluid));
      var t := GetConnectionType();
      buf.WriteInt(t);
      var p := GetPriority();
      buf.WriteInt(p);
    }
  }

  /**
   * `ofBuf`: reads the fluid, the connection type and the priority from
   * `buf` and wraps them in a fresh object. When a read fails nothing is
   * returned.
   */
  method OfBuf(codec: FluidCodec, buf: PacketByteBuf) returns (iface: Option<DecodedInterface>)
    requires buf.Valid() && Bounded(codec)
    modifies buf
    ensures buf.Valid() && buf.bytes == old(buf.bytes)
    ensures iface.None? <==> Decode(codec, old(buf.Readable())).None?
    ensures iface.Some? ==> fresh(iface.value)
    ensures iface.Some? ==>
      Decode(codec, old(buf.Readable())) == Some((iface.value.State(), buf.readerIndex - old(buf.readerIndex)))
  {
    var unread := buf.Readable();
    var fluidRead := codec.read(unread);
    if fluidRead.None? {
      return None;
    }
    var (fluid, n) := fluidRead.value;
    buf.Skip(n);
    var t := buf.ReadInt();
    if t.None? {
      return None;
    }
    var p := buf.ReadInt();
    if p.None? {
      return None;
    }
    var decoded := new DecodedInterface(fluid, t.value, p.value);
    return Some(decoded);
  }

  /** A state sent with `toBuf` and received with `ofBuf` arrives unchanged, and the reader ends where the writer stopped. */
  method Resend(codec: FluidCodec, iface: DecodedInterface, buf: PacketByteBuf) returns (received: Option<DecodedInterface>)
    requires buf.Valid() && buf.Readable() == [] && Bounded(codec) && RoundTrips(codec)
    modifies buf
    ensures received.Some? && received.value.State() == iface.State()
    ensures buf.Valid() && buf.Readable() == []
  {
    iface.ToBuf(codec, buf);
    RoundTrip(codec, iface.State(), []);
    assert buf.Readable() == Encode(codec, iface.State()) + [];
    received := OfBuf(codec, buf);
  }
}
