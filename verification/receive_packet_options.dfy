/**
  The options of a receive call, and the internal struct they are marshalled
  into for the native call. The optional channel filter is stored as a
  one-byte buffer so that it can be pinned and handed over as a pointer.
 */
module ReceivePacketOptionsModel {
  import opened Interop

  datatype ReceivePacketOptions = ReceivePacketOptions(
    requestedChannelBuffer: Option<seq<byte>>,
    localUserId: Option<ProductUserId>,
    maxDataSizeBytes: uint32)

  /** The getter can read the buffer: a present buffer has a first byte. */
  predicate ChannelReadable(o: ReceivePacketOptions) {
    o.requestedChannelBuffer.Some? ==> |o.requestedChannelBuffer.value| >= 1
  }

  /** What the setter maintains: a present buffer holds exactly one byte. */
  predicate ChannelBufferIsOneByte(o: ReceivePacketOptions) {
    o.requestedChannelBuffer.Some? ==> |o.requestedChannelBuffer.value| == 1
  }

  /** The `RequestedChannel` getter: null when there is no buffer, else its first byte. */
  function GetRequestedChannel(o: ReceivePacketOptions): (channel: Option<byte>)
    requires ChannelReadable(o)
    ensures channel.None? <==> o.requestedChannelBuffer.None?
    ensures channel.Some? ==> channel.value == o.requestedChannelBuffer.value[0]
  {
    match o.requestedChannelBuffer
    case None => None
    case Some(buffer) => Some(buffer[0])
  }

  /**
    The `RequestedChannel` setter: null drops the buffer; a value goes into the
    first byte of the existing buffer, or of a new one-byte buffer.
   */
  function SetRequestedChannel(o: ReceivePacketOptions, value: Option<byte>): (r: ReceivePacketOptions)
    requires ChannelReadable(o)
    ensures ChannelReadable(r) && GetRequestedChannel(r) == value
    ensures r.localUserId == o.localUserId && r.maxDataSizeBytes == o.maxDataSizeBytes
    ensures value.None? ==> r.requestedChannelBuffer.None?
    ensures value.Some? && o.requestedChannelBuffer.None? ==> r.requestedChannelBuffer == Some([value.value])
    ensures value.Some? && o.requestedChannelBuffer.Some? ==>
      && |r.requestedChannelBuffer.value| == |o.requestedChannelBuffer.value|
      && r.requestedChannelBuffer.value[1..] == o.requestedChannelBuffer.value[1..]
    ensures ChannelBufferIsOneByte(o) ==> ChannelBufferIsOneByte(r)
  {
    match value
    case None => o.(requestedChannelBuffer := None)
    case Some(v) =>
      var buffer := o.requestedChannelBuffer.GetOr([0]);
      assert [0][0 := v] == [v];
      o.(requestedChannelBuffer := Some(buffer[0 := v]))
  }

  /** Setting the channel twice is the same as setting it once to the second value. */
  lemma SetRequestedChannelTwice(o: ReceivePacketOptions, a: Option<byte>, b: Option<byte>)
    requires ChannelBufferIsOneByte(o)
    ensures SetRequestedChannel(SetRequestedChannel(o, a), b) == SetRequestedChannel(o, b)
  {
    if b.Some? {
      if a.Some? {
        var first := SetRequestedChannel(o, a).requestedChannelBuffer.value;
        assert first[0 := b.value] == [b.value];
      }
      if o.requestedChannelBuffer.Some? {
        assert o.requestedChannelBuffer.value[0 := b.value] == [b.value];
      }
    }
  }

  datatype ReceivePacketOptionsInternal = ReceivePacketOptionsInternal(
    apiVersion: int,
    localUserId: Ptr,
    maxDataSizeBytes: uint32,
    requestedChannel: Ptr)

  /** The outcome of building the internal struct: built, or a null dereference. */
  datatype Construction =
    | Constructed(internal: ReceivePacketOptionsInternal, pins: PinTable)
    | ThrewNullReference(pins: PinTable)

  /**
    The constructor as written: it pins the channel buffer, and only then
    dereferences `LocalUserId`, which throws when the id is null. The pin
    made before the throw is never released.
   */
  function NewReceivePacketOptionsInternal(o: ReceivePacketOptions, pins: PinTable): (r: Construction)
    requires ChannelReadable(o) && pins.Valid()
    ensures r.pins.Valid()
    ensures r.ThrewNullReference? <==> o.localUserId.None?
    ensures r.Constructed? ==>
      && r.internal.apiVersion == ReceivePacketApiLatest
      && r.internal.localUserId == o.localUserId.value.innerHandle
      && r.internal.maxDataSizeBytes == o.maxDataSizeBytes
      && (r.internal.requestedChannel != Zero <==> GetRequestedChannel(o).Some?)
      && (GetRequestedChannel(o).Some? ==> r.internal.requestedChannel == Pinned(pins.next))
    ensures o.requestedChannelBuffer.None? ==> r.pins == pins
    ensures o.requestedChannelBuffer.Some? ==>
      && r.pins.live == pins.live[pins.next := o.requestedChannelBuffer.value]
      && r.pins.live.Keys == pins.live.Keys + {pins.next}
      && pins.next !in pins.live
  {
    var channel := if GetRequestedChannel(o).Some? then o.requestedChannelBuffer else None;
    var pinned := AddPinnedBuffer(pins, channel);
    match o.localUserId
    case None => ThrewNullReference(pinned.table)
    case Some(user) =>
      Constructed(
        ReceivePacketOptionsInternal(ReceivePacketApiLatest, user.innerHandle, o.maxDataSizeBytes, pinned.ptr),
        pinned.table)
  }

  /**
    The constructor with the null dereference moved before the pin, so that a
    throw leaves the pin table as it was; otherwise identical.
   */
  function NewReceivePacketOptionsInternalChecked(o: ReceivePacketOptions, pins: PinTable): (r: Construction)
    requires ChannelReadable(o) && pins.Valid()
    ensures r.ThrewNullReference? <==> o.localUserId.None?
    ensures r.ThrewNullReference? ==> r.pins == pins
    ensures r.Constructed? ==> r == NewReceivePacketOptionsInternal(o, pins)
  {
    match o.localUserId
    case None => ThrewNullReference(pins)
    case Some(user) =>
      var channel := if GetRequestedChannel(o).Some? then o.requestedChannelBuffer else None;
      var pinned := AddPinnedBuffer(pins, channel);
      Constructed(
        ReceivePacketOptionsInternal(ReceivePacketApiLatest, user.innerHandle, o.maxDataSizeBytes, pinned.ptr),
        pinned.table)
  }

  datatype DisposedReceive = DisposedReceive(internal: ReceivePacketOptionsInternal, pins: PinTable)

  /** Releases the user handle and the channel pin, and zeroes both fields. */
  function DisposeReceiveOptions(i: ReceivePacketOptionsInternal, pins: PinTable): (r: DisposedReceive)
    ensures pins.Valid() ==> r.pins.Valid()
    ensures r.internal == i.(localUserId := Zero, requestedChannel := Zero)
    ensures forall k | k in r.pins.live :: k in pins.live && r.pins.live[k] == pins.live[k]
    ensures i.requestedChannel.Pinned? ==> i.requestedChannel.slot !in r.pins.live
    ensures i.localUserId.Pinned? ==> i.localUserId.slot !in r.pins.live
    ensures forall k | k in pins.live && Pinned(k) != i.localUserId && Pinned(k) != i.requestedChannel ::
      k in r.pins.live
  {
    var afterUser := Release(pins, i.localUserId);
    DisposedReceive(i.(localUserId := Zero, requestedChannel := Zero), Release(afterUser, i.requestedChannel))
  }

  /** Building the internal struct and disposing it leaves the live pins as they were. */
  lemma ConstructThenDisposeIsBalanced(o: ReceivePacketOptions, pins: PinTable)
    requires ChannelReadable(o) && pins.Valid() && o.localUserId.Some?
    ensures
      var c := NewReceivePacketOptionsInternal(o, pins);
      DisposeReceiveOptions(c.internal, c.pins).pins.live == pins.live
  {
  }

  /** As written, a null `LocalUserId` leaks the channel pin when a channel was requested. */
  lemma NullUserLeaksChannelPin(o: ReceivePacketOptions, pins: PinTable)
    requires ChannelReadable(o) && pins.Valid()
    requires o.localUserId.None? && o.requestedChannelBuffer.Some?
    ensures NewReceivePacketOptionsInternal(o, pins).pins.live.Keys == pins.live.Keys + {pins.next}
    ensures pins.next !in pins.live
  {
  }
}
