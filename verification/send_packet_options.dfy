/**
  The options of a send call, and the internal struct they are marshalled
  into: user ids become native handles, the optional socket id and the
  payload become pinned-buffer pointers, and booleans become C ints.
 */
module SendPacketOptionsModel {
  import opened Interop
  import SocketIds

  /** How the transport delivers a packet; native policy, passed through as is. */
  datatype PacketReliability = UnreliableUnordered | ReliableUnordered | ReliableOrdered

  datatype SendPacketOptions = SendPacketOptions(
    localUserId: Option<ProductUserId>,
    remoteUserId: Option<ProductUserId>,
    socketId: Option<SocketIds.SocketId>,
    channel: byte,
    data: Segment,
    allowDelayedDelivery: bool,
    reliability: PacketReliability,
    disableAutoAcceptConnection: bool)

  datatype SendPacketOptionsInternal = SendPacketOptionsInternal(
    apiVersion: int,
    localUserId: Ptr,
    remoteUserId: Ptr,
    socketId: Ptr,
    channel: byte,
    dataLengthBytes: uint32,
    data: Ptr,
    allowDelayedDelivery: int,
    reliability: PacketReliability,
    disableAutoAcceptConnection: int)

  /** A C# `bool` as the C int the native struct expects. */
  function CBool(b: bool): (i: int)
    ensures i == 0 || i == 1
    ensures i == 1 <==> b
  {
    if b then 1 else 0
  }

  datatype Marshalled = Marshalled(internal: SendPacketOptionsInternal, pins: PinTable)

  /**
    `Set` from a present options value. The socket-id buffer is pinned when
    the id is present (a present id that never allocated storage has no buffer
    and gives a zero pointer); the payload is always pinned.
   */
  function SetFrom(i: SendPacketOptionsInternal, pins: PinTable, other: SendPacketOptions): (r: Marshalled)
    requires pins.Valid()
    ensures r.pins.Valid()
    ensures r.internal.apiVersion == SendPacketApiLatest
    ensures r.internal.localUserId == HandleOf(other.localUserId)
    ensures r.internal.remoteUserId == HandleOf(other.remoteUserId)
    ensures other.socketId.None? ==> r.internal.socketId == Zero
    ensures other.socketId.Some? ==>
      (r.internal.socketId == Zero <==> other.socketId.value.allBytes.None?)
    ensures other.socketId.Some? && other.socketId.value.allBytes.Some? ==> r.internal.socketId.Pinned?
    ensures r.internal.socketId.Pinned? ==>
      && r.internal.socketId.slot in r.pins.live
      && r.pins.live[r.internal.socketId.slot] == other.socketId.value.allBytes.value
    ensures other.socketId.Some? && SocketIds.StorageInvariant(other.socketId.value) && r.internal.socketId.Pinned? ==>
      |r.pins.live[r.internal.socketId.slot]| == SocketIds.TotalSizeInBytes
    ensures r.internal.channel == other.channel
    ensures r.internal.data.Pinned? && r.internal.data.slot in r.pins.live
    ensures r.pins.live[r.internal.data.slot] == other.data
    ensures r.internal.dataLengthBytes == |other.data|
    ensures r.internal.allowDelayedDelivery == CBool(other.allowDelayedDelivery)
    ensures r.internal.reliability == other.reliability
    ensures r.internal.disableAutoAcceptConnection == CBool(other.disableAutoAcceptConnection)
    ensures r.internal.socketId != r.internal.data
    ensures forall k | k in pins.live :: k in r.pins.live && r.pins.live[k] == pins.live[k]
    ensures r.internal.socketId.Pinned? ==> r.internal.socketId.slot !in pins.live
    ensures r.internal.data.slot !in pins.live
    ensures r.pins.live.Keys == pins.live.Keys + (if r.internal.socketId.Pinned? then {r.internal.socketId.slot} else {}) + {r.internal.data.slot}
  {
    var socketBuffer := if other.socketId.Some? then other.socketId.value.allBytes else None;
    var socketPin := AddPinnedBuffer(pins, socketBuffer);
    var dataPin := AddPinnedBuffer(socketPin.table, Some(other.data));
    var marshalled := i.(
      apiVersion := SendPacketApiLatest,
      localUserId := HandleOf(other.localUserId),
      remoteUserId := HandleOf(other.remoteUserId),
      socketId := socketPin.ptr,
      channel := other.channel,
      dataLengthBytes := |other.data|,
      data := dataPin.ptr,
      allowDelayedDelivery := CBool(other.allowDelayedDelivery),
      reliability := other.reliability,
      disableAutoAcceptConnection := CBool(other.disableAutoAcceptConnection));
    Marshalled(marshalled, dataPin.table)
  }

  /** `Set` from a nullable options value: null leaves the struct and the pins alone. */
  function SetFromNullable(i: SendPacketOptionsInternal, pins: PinTable, other: Option<SendPacketOptions>): (r: Marshalled)
    requires pins.Valid()
    ensures other.None? ==> r == Marshalled(i, pins)
    ensures other.Some? ==> r == SetFrom(i, pins, other.value)
  {
    match other
    case None => Marshalled(i, pins)
    case Some(o) =>
      var socketBuffer := if o.socketId.Some? then o.socketId.value.allBytes else None;
      var socketPin := AddPinnedBuffer(pins, socketBuffer);
      var dataPin := AddPinnedBuffer(socketPin.table, Some(o.data));
      var marshalled := i.(
        apiVersion := SendPacketApiLatest,
        localUserId := HandleOf(o.localUserId),
        remoteUserId := HandleOf(o.remoteUserId),
        socketId := socketPin.ptr,
        channel := o.channel,
        dataLengthBytes := |o.data|,
        data := dataPin.ptr,
        allowDelayedDelivery := CBool(o.allowDelayedDelivery),
        reliability := o.reliability,
        disableAutoAcceptConnection := CBool(o.disableAutoAcceptConnection));
      Marshalled(marshalled, dataPin.table)
  }

  /** Releases the two user handles, the socket-id pin and the payload pin, zeroing all four. */
  function DisposeSendOptions(i: SendPacketOptionsInternal, pins: PinTable): (r: Marshalled)
    ensures pins.Valid() ==> r.pins.Valid()
    ensures r.internal == i.(localUserId := Zero, remoteUserId := Zero, socketId := Zero, data := Zero)
    ensures forall k | k in r.pins.live :: k in pins.live && r.pins.live[k] == pins.live[k]
    ensures i.localUserId.Pinned? ==> i.localUserId.slot !in r.pins.live
    ensures i.remoteUserId.Pinned? ==> i.remoteUserId.slot !in r.pins.live
    ensures i.socketId.Pinned? ==> i.socketId.slot !in r.pins.live
    ensures i.data.Pinned? ==> i.data.slot !in r.pins.live
    ensures forall k | k in pins.live && Pinned(k) != i.localUserId && Pinned(k) != i.remoteUserId
                       && Pinned(k) != i.socketId && Pinned(k) != i.data ::
      k in r.pins.live
  {
    var t := Release(Release(Release(Release(pins, i.localUserId), i.remoteUserId), i.socketId), i.data);
    Marshalled(i.(localUserId := Zero, remoteUserId := Zero, socketId := Zero, data := Zero), t)
  }

  /**
    Marshalling a send and disposing the result leaves the live pins exactly as
    they were, whatever the struct held before.
   */
  lemma SetThenDisposeIsBalanced(i: SendPacketOptionsInternal, pins: PinTable, other: SendPacketOptions)
    requires pins.Valid()
    ensures
      var m := SetFrom(i, pins, other);
      DisposeSendOptions(m.internal, m.pins).pins.live == pins.live
  {
    var m := SetFrom(i, pins, other);
    var d := DisposeSendOptions(m.internal, m.pins);
    assert forall k | k in pins.live ::
      && Pinned(k) != m.internal.localUserId && Pinned(k) != m.internal.remoteUserId
      && Pinned(k) != m.internal.socketId && Pinned(k) != m.internal.data;
  }

  /** A socket id that has a name set is always handed over as a pinned pointer. */
  lemma NamedSocketIdIsPinned(i: SendPacketOptionsInternal, pins: PinTable, other: SendPacketOptions, name: string)
    requires pins.Valid()
    requires other.socketId.Some?
    ensures
      var named := other.(socketId := Some(SocketIds.SetSocketName(other.socketId.value, Some(name))));
      SetFrom(i, pins, named).internal.socketId.Pinned?
  {
  }
}
