/**
  `ReceivePacket`: the wrapper around the native receive call. It runs the
  socket id's change-detection protocol around the call, pins every managed
  buffer the call writes into, resolves the sender's user id (reusing the
  caller's object when there is one), and releases in its `finally` block
  the pins it made inside the `try`.

  The native call is not modelled: it is an arbitrary `NativeReceive`, which
  says what it returned, which outputs it wrote, and whether the body of the
  `try` throws.
 */
module P2PInterfaceModel {
  import opened Interop
  import opened SocketIds
  import opened ReceivePacketOptionsModel

  /** The SDK's result codes, of which a receive surfaces these three. */
  datatype EosResult = Success | NotFound | InvalidParameters | OtherResult(code: int)

  /**
    One run of the native receive. Each output is `None` when the native side
    did not write it. `throwsInTry` says that an exception escapes the body of
    the `try` after the native side has written its outputs, from the
    binding's marshalling or from `Helper.Get`; `result` then never reaches
    the caller.
   */
  datatype NativeReceive = NativeReceive(
    result: EosResult,
    outPeerId: Option<Handle>,
    outChannel: Option<byte>,
    outBytesWritten: Option<uint32>,
    socketIdWrite: Option<seq<byte>>,
    dataWrite: Option<seq<byte>>,
    throwsInTry: bool)

  /** The native side writes inside the buffers it is given and cannot resize them. */
  predicate WritesFit(n: NativeReceive, dataLength: nat) {
    && (n.socketIdWrite.Some? ==> |n.socketIdWrite.value| == TotalSizeInBytes)
    && (n.dataWrite.Some? ==> |n.dataWrite.value| == dataLength)
  }

  datatype ReceiveOutcome =
    | Returned(
        result: EosResult,
        peerId: Option<ProductUserId>,
        socketId: SocketId,
        channel: byte,
        data: seq<byte>,
        bytesWritten: uint32,
        pins: PinTable)
    | Threw(socketId: SocketId, pins: PinTable)

  /**
    How `Helper.Get` allocates the sender's id, which is not part of this
    model: the reference identity the new object gets, and whether a zero
    address yields null rather than an object wrapping zero.
   */
  datatype PeerAllocation = PeerAllocation(identity: nat, nullForZero: bool)

  /**
    Where the sender's id ends up: a null reference is replaced by what
    `Helper.Get` makes of the returned handle; an existing object is kept and
    its handle overwritten only when it differs.
   */
  function ResolvePeerId(outPeerId: Option<ProductUserId>, address: Handle, alloc: PeerAllocation): (r: Option<ProductUserId>)
    ensures r.Some? ==> r.value.innerHandle == address
    ensures outPeerId.None? && address != Zero ==> r == Some(ProductUserId(alloc.identity, address))
    ensures outPeerId.None? && r.Some? ==> r.value.identity == alloc.identity
    ensures r.None? <==> outPeerId.None? && address == Zero && alloc.nullForZero
    ensures outPeerId.Some? ==> r.Some? && r.value.identity == outPeerId.value.identity
    ensures outPeerId.Some? && outPeerId.value.innerHandle == address ==> r == outPeerId
  {
    match outPeerId
    case None =>
      if address == Zero && alloc.nullForZero then None else Some(ProductUserId(alloc.identity, address))
    case Some(peer) =>
      if peer.innerHandle != address then Some(peer.(innerHandle := address)) else outPeerId
  }

  /** The slots of the pins a receive makes for the native call. */
  function CallPinSlots(socketPin: Ptr, dataPin: Ptr, channelPin: Ptr): set<nat> {
    (if socketPin.Pinned? then {socketPin.slot} else {})
    + (if dataPin.Pinned? then {dataPin.slot} else {})
    + (if channelPin.Pinned? then {channelPin.slot} else {})
  }

  /**
    The pins live during the native call are those live before, plus fresh,
    distinct pins for the socket id, the payload and possibly the channel.
   */
  predicate PinnedForCall(before: PinTable, during: PinTable, socketPin: Ptr, dataPin: Ptr, channelPin: Ptr) {
    && socketPin.Pinned? && dataPin.Pinned? && socketPin.slot != dataPin.slot
    && (channelPin.Pinned? ==> channelPin.slot != socketPin.slot && channelPin.slot != dataPin.slot)
    && CallPinSlots(socketPin, dataPin, channelPin) !! before.live.Keys
    && during.live.Keys == before.live.Keys + CallPinSlots(socketPin, dataPin, channelPin)
    && (forall k | k in before.live :: during.live[k] == before.live[k])
  }

  /** Releasing the call's pins, in the order the `finally` does, restores the table. */
  lemma ReleasingCallPinsRestores(
    before: PinTable, during: PinTable, socketPin: Ptr, dataPin: Ptr, user: Ptr, channelPin: Ptr)
    requires PinnedForCall(before, during, socketPin, dataPin, channelPin) && !user.Pinned?
    ensures Release(Release(Release(Release(during, socketPin), dataPin), user), channelPin).live == before.live
  {
    var after := Release(Release(Release(Release(during, socketPin), dataPin), user), channelPin);
    assert after.live.Keys == before.live.Keys;
  }

  /** The sizes of the set of pins a call makes. */
  lemma CallPinCount(socketPin: Ptr, dataPin: Ptr, channelPin: Ptr)
    requires socketPin.Pinned? && dataPin.Pinned? && socketPin.slot != dataPin.slot
    requires channelPin.Pinned? ==> channelPin.slot != socketPin.slot && channelPin.slot != dataPin.slot
    ensures |CallPinSlots(socketPin, dataPin, channelPin)| == if channelPin.Pinned? then 3 else 2
  {
    if channelPin.Pinned? {
      assert CallPinSlots(socketPin, dataPin, channelPin) == {socketPin.slot, dataPin.slot} + {channelPin.slot};
    } else {
      assert CallPinSlots(socketPin, dataPin, channelPin) == {socketPin.slot, dataPin.slot};
    }
  }

  /**
    The socket id as the native call leaves it, before `CheckIfChanged`: the
    buffer holds what was written and the cache is still marked invalid.
   */
  function SocketIdWritten(prepared: Prepared, native: NativeReceive): (t: SocketId)
    requires StorageInvariant(prepared.socketId) && prepared.socketId.allBytes.Some?
    requires native.socketIdWrite.Some? ==> |native.socketIdWrite.value| == TotalSizeInBytes
    ensures StorageInvariant(t)
    ensures t.allBytes == Some(native.socketIdWrite.GetOr(prepared.socketId.allBytes.value))
    ensures t == prepared.socketId.(allBytes := t.allBytes)
  {
    if native.socketIdWrite.Some? then ExternalWrite(prepared.socketId, native.socketIdWrite.value)
    else prepared.socketId
  }

  /** The socket id as the native call and `CheckIfChanged` leave it. */
  function SocketIdAfterCall(prepared: Prepared, native: NativeReceive): (t: SocketId)
    requires StorageInvariant(prepared.socketId) && prepared.socketId.allBytes.Some?
    requires native.socketIdWrite.Some? ==> |native.socketIdWrite.value| == TotalSizeInBytes
    ensures StorageInvariant(t)
    ensures t.allBytes == Some(native.socketIdWrite.GetOr(prepared.socketId.allBytes.value))
  {
    CheckIfChanged(SocketIdWritten(prepared, native), prepared.wasCacheValid)
  }

  /**
    The body of the `try` and its `finally`, once the socket id is prepared,
    both buffers are pinned and the options are marshalled. The `finally`
    releases the pins whether the body returns or throws; a throw skips
    `CheckIfChanged` and the peer-id update.
   */
  function CallAndRelease(
    prepared: Prepared, socketPin: Ptr, dataPin: Ptr, optionsInternal: ReceivePacketOptionsInternal,
    pinsDuringCall: PinTable, pinsBefore: PinTable,
    outPeerId: Option<ProductUserId>, outData: seq<byte>, native: NativeReceive, alloc: PeerAllocation): (r: ReceiveOutcome)
    requires StorageInvariant(prepared.socketId) && prepared.socketId.allBytes.Some?
    requires WritesFit(native, |outData|)
    requires PinnedForCall(pinsBefore, pinsDuringCall, socketPin, dataPin, optionsInternal.requestedChannel)
    requires !optionsInternal.localUserId.Pinned?
    ensures r.Threw? <==> native.throwsInTry
    ensures r.Threw? ==> r.socketId == SocketIdWritten(prepared, native)
    ensures r.Returned? ==>
      && r.result == native.result
      && r.channel == native.outChannel.GetOr(0)
      && r.bytesWritten == native.outBytesWritten.GetOr(0)
      && r.data == native.dataWrite.GetOr(outData)
      && r.peerId == ResolvePeerId(outPeerId, native.outPeerId.GetOr(Zero), alloc)
      && r.socketId == SocketIdAfterCall(prepared, native)
    ensures r.pins.live == pinsBefore.live
  {
    // outChannel and outBytesWritten are reset before the call; outPeerIdAddress starts at zero.
    var address := native.outPeerId.GetOr(Zero);
    var channel := native.outChannel.GetOr(0);
    var bytesWritten := native.outBytesWritten.GetOr(0);
    var data := native.dataWrite.GetOr(outData);
    var peer := ResolvePeerId(outPeerId, address, alloc);
    var socketId := SocketIdAfterCall(prepared, native);
    // finally
    var afterSocket := Release(pinsDuringCall, socketPin);
    var afterData := Release(afterSocket, dataPin);
    var disposed := DisposeReceiveOptions(optionsInternal, afterData);
    ReleasingCallPinsRestores(pinsBefore, pinsDuringCall, socketPin, dataPin,
                              optionsInternal.localUserId, optionsInternal.requestedChannel);
    if native.throwsInTry then Threw(SocketIdWritten(prepared, native), disposed.pins)
    else Returned(native.result, peer, socketId, channel, data, bytesWritten, disposed.pins)
  }

  /**
    `ReceivePacket` as written: the socket id is prepared and the socket-id
    and data buffers are pinned before the `try`, so when marshalling the
    options throws, those pins are never released.
   */
  function ReceivePacketAsWritten(
    options: ReceivePacketOptions, outPeerId: Option<ProductUserId>, outSocketId: SocketId,
    outData: seq<byte>, pins: PinTable, native: NativeReceive, alloc: PeerAllocation): (r: ReceiveOutcome)
    requires ChannelReadable(options) && pins.Valid() && StorageInvariant(outSocketId)
    requires WritesFit(native, |outData|)
    ensures r.Threw? <==> options.localUserId.None? || native.throwsInTry
    ensures r.Returned? ==> r.result == native.result
    ensures options.localUserId.Some? ==> r.pins.live == pins.live
    ensures options.localUserId.None? ==>
      var socketPin := AddPinnedBuffer(pins, PrepareForUpdate(outSocketId).socketId.allBytes);
      var dataPin := AddPinnedBuffer(socketPin.table, Some(outData));
      r.pins == NewReceivePacketOptionsInternal(options, dataPin.table).pins
  {
    var prepared := PrepareForUpdate(outSocketId);
    var socketPin := AddPinnedBuffer(pins, prepared.socketId.allBytes);
    var dataPin := AddPinnedBuffer(socketPin.table, Some(outData));
    match NewReceivePacketOptionsInternal(options, dataPin.table)
    case ThrewNullReference(leaked) => Threw(prepared.socketId, leaked)
    case Constructed(optionsInternal, pinsDuringCall) =>
      var channelPin := optionsInternal.requestedChannel;
      assert PinnedForCall(pins, pinsDuringCall, socketPin.ptr, dataPin.ptr, channelPin) by {
        assert channelPin.Pinned? ==> channelPin.slot == dataPin.table.next;
      }
      CallAndRelease(prepared, socketPin.ptr, dataPin.ptr, optionsInternal, pinsDuringCall, pins,
                     outPeerId, outData, native, alloc)
  }

  /**
    `ReceivePacket` with the null check of the options moved after the socket
    id is prepared but before anything is pinned, so that no exit path leaves
    a pin behind. With a non-null user it is exactly the code as written; with
    a null one it differs from it only in the pins.
   */
  function ReceivePacket(
    options: ReceivePacketOptions, outPeerId: Option<ProductUserId>, outSocketId: SocketId,
    outData: seq<byte>, pins: PinTable, native: NativeReceive, alloc: PeerAllocation): (r: ReceiveOutcome)
    requires ChannelReadable(options) && pins.Valid() && StorageInvariant(outSocketId)
    requires WritesFit(native, |outData|)
    ensures r.Threw? <==> options.localUserId.None? || native.throwsInTry
    ensures r.pins.live == pins.live
    ensures options.localUserId.None? ==> r.socketId == PrepareForUpdate(outSocketId).socketId
    ensures r.Threw? && options.localUserId.Some? ==>
      r.socketId == SocketIdWritten(PrepareForUpdate(outSocketId), native)
    ensures r.Threw? ==> !r.socketId.cacheValid
    ensures r.Returned? ==>
      && r.result == native.result
      && r.channel == native.outChannel.GetOr(0)
      && r.bytesWritten == native.outBytesWritten.GetOr(0)
      && r.data == native.dataWrite.GetOr(outData)
      && r.peerId == ResolvePeerId(outPeerId, native.outPeerId.GetOr(Zero), alloc)
      && r.socketId == SocketIdAfterCall(PrepareForUpdate(outSocketId), native)
  {
    var prepared := PrepareForUpdate(outSocketId);
    match options.localUserId
    case None => Threw(prepared.socketId, pins)
    case Some(_) =>
      var socketPin := AddPinnedBuffer(pins, prepared.socketId.allBytes);
      var dataPin := AddPinnedBuffer(socketPin.table, Some(outData));
      var constructed := NewReceivePacketOptionsInternalChecked(options, dataPin.table);
      PinsForCall(options, prepared.socketId.allBytes.value, outData, pins);
      CallAndRelease(prepared, socketPin.ptr, dataPin.ptr, constructed.internal, constructed.pins, pins,
                     outPeerId, outData, native, alloc)
  }

  /**
    With a non-null user, the corrected wrapper pins the socket id, the
    payload and possibly the channel, each in a fresh slot of its own.
   */
  lemma PinsForCall(options: ReceivePacketOptions, socketBuffer: seq<byte>, outData: seq<byte>, pins: PinTable)
    requires ChannelReadable(options) && pins.Valid() && options.localUserId.Some?
    ensures
      var socketPin := AddPinnedBuffer(pins, Some(socketBuffer));
      var dataPin := AddPinnedBuffer(socketPin.table, Some(outData));
      var c := NewReceivePacketOptionsInternalChecked(options, dataPin.table);
      && c.Constructed?
      && !c.internal.localUserId.Pinned?
      && PinnedForCall(pins, c.pins, socketPin.ptr, dataPin.ptr, c.internal.requestedChannel)
      && |CallPinSlots(socketPin.ptr, dataPin.ptr, c.internal.requestedChannel)|
           == if GetRequestedChannel(options).Some? then 3 else 2
  {
    var socketPin := AddPinnedBuffer(pins, Some(socketBuffer));
    var dataPin := AddPinnedBuffer(socketPin.table, Some(outData));
    var c := NewReceivePacketOptionsInternalChecked(options, dataPin.table);
    var channelPin := c.internal.requestedChannel;
    assert PinnedForCall(pins, c.pins, socketPin.ptr, dataPin.ptr, channelPin) by {
      assert channelPin.Pinned? ==> channelPin.slot == dataPin.table.next;
    }
    CallPinCount(socketPin.ptr, dataPin.ptr, channelPin);
  }

  /**
    The two versions agree on every input where marshalling the options
    succeeds, including when the body of the `try` throws.
   */
  lemma ReceivePacketAgreesWithNonNullUser(
    options: ReceivePacketOptions, outPeerId: Option<ProductUserId>, outSocketId: SocketId,
    outData: seq<byte>, pins: PinTable, native: NativeReceive, alloc: PeerAllocation)
    requires ChannelReadable(options) && pins.Valid() && StorageInvariant(outSocketId)
    requires WritesFit(native, |outData|)
    requires options.localUserId.Some?
    ensures ReceivePacketAsWritten(options, outPeerId, outSocketId, outData, pins, native, alloc)
         == ReceivePacket(options, outPeerId, outSocketId, outData, pins, native, alloc)
  {
  }

  /**
    On a null `LocalUserId` both versions throw with the socket id prepared
    alike; only the code as written leaves pins behind.
   */
  lemma NullUserDiffersOnlyInPins(
    options: ReceivePacketOptions, outPeerId: Option<ProductUserId>, outSocketId: SocketId,
    outData: seq<byte>, pins: PinTable, native: NativeReceive, alloc: PeerAllocation)
    requires ChannelReadable(options) && pins.Valid() && StorageInvariant(outSocketId)
    requires WritesFit(native, |outData|)
    requires options.localUserId.None?
    ensures
      var written := ReceivePacketAsWritten(options, outPeerId, outSocketId, outData, pins, native, alloc);
      var corrected := ReceivePacket(options, outPeerId, outSocketId, outData, pins, native, alloc);
      && written.Threw? && corrected.Threw?
      && written.socketId == corrected.socketId
      && !corrected.socketId.cacheValid
      && corrected.pins == pins
      && written.pins != pins
  {
    NullUserLeaksPins(options, outPeerId, outSocketId, outData, pins, native, alloc);
  }

  /**
    As written, a null `LocalUserId` leaves the socket-id pin and the data pin
    (and the channel pin, when a channel was requested) live after the call.
   */
  lemma NullUserLeaksPins(
    options: ReceivePacketOptions, outPeerId: Option<ProductUserId>, outSocketId: SocketId,
    outData: seq<byte>, pins: PinTable, native: NativeReceive, alloc: PeerAllocation)
    requires ChannelReadable(options) && pins.Valid() && StorageInvariant(outSocketId)
    requires WritesFit(native, |outData|)
    requires options.localUserId.None?
    ensures
      var r := ReceivePacketAsWritten(options, outPeerId, outSocketId, outData, pins, native, alloc);
      && r.Threw?
      && pins.live.Keys < r.pins.live.Keys
      && |r.pins.live.Keys - pins.live.Keys| == (if options.requestedChannelBuffer.Some? then 3 else 2)
  {
    var socketBuffer := PrepareForUpdate(outSocketId).socketId.allBytes;
    LeakedPins(options, socketBuffer.value, outData, pins);
  }

  /** The pins left behind when the options constructor throws after both buffers were pinned. */
  lemma LeakedPins(options: ReceivePacketOptions, socketBuffer: seq<byte>, outData: seq<byte>, pins: PinTable)
    requires ChannelReadable(options) && pins.Valid() && options.localUserId.None?
    ensures
      var socketPin := AddPinnedBuffer(pins, Some(socketBuffer));
      var dataPin := AddPinnedBuffer(socketPin.table, Some(outData));
      var leaked := NewReceivePacketOptionsInternal(options, dataPin.table).pins;
      && pins.live.Keys < leaked.live.Keys
      && |leaked.live.Keys - pins.live.Keys| == (if options.requestedChannelBuffer.Some? then 3 else 2)
  {
    var n := pins.next;
    var channel := options.requestedChannelBuffer.Some?;
    LeakedKeys(options, socketBuffer, outData, pins);
    DistinctSlotCount(n, n + 1, n + 2, channel);
    assert forall k | k in pins.live :: k < n;
    DisjointGrowth(pins.live.Keys, if channel then {n, n + 1, n + 2} else {n, n + 1});
  }

  /** The slots the three pins take are the next ones the table hands out. */
  lemma LeakedKeys(options: ReceivePacketOptions, socketBuffer: seq<byte>, outData: seq<byte>, pins: PinTable)
    requires ChannelReadable(options) && pins.Valid() && options.localUserId.None?
    ensures
      var socketPin := AddPinnedBuffer(pins, Some(socketBuffer));
      var dataPin := AddPinnedBuffer(socketPin.table, Some(outData));
      var leaked := NewReceivePacketOptionsInternal(options, dataPin.table).pins;
      var n := pins.next;
      leaked.live.Keys
        == pins.live.Keys + if options.requestedChannelBuffer.Some? then {n, n + 1, n + 2} else {n, n + 1}
  {
    var n := pins.next;
    var socketPin := AddPinnedBuffer(pins, Some(socketBuffer));
    var dataPin := AddPinnedBuffer(socketPin.table, Some(outData));
    assert dataPin.table.next == n + 2;
    assert dataPin.table.live.Keys == pins.live.Keys + {n, n + 1};
  }

  /** Adding a non-empty set of new keys grows a key set strictly, by exactly those keys. */
  lemma DisjointGrowth(base: set<nat>, added: set<nat>)
    requires added != {} && added !! base
    ensures base < base + added
    ensures (base + added) - base == added
  {
    var k :| k in added;
    assert k in base + added && k !in base;
  }

  /** Two or three distinct slots form a set of that size. */
  lemma DistinctSlotCount(s1: nat, s2: nat, s3: nat, three: bool)
    requires s1 != s2 && (three ==> s3 != s1 && s3 != s2)
    ensures |if three then {s1, s2, s3} else {s1, s2}| == if three then 3 else 2
  {
  }

  // ---------------------------------------------------------------------
  // What a receive does to the socket id's name

  /** The name region the native call left, as it compares with the snapshot. */
  predicate NameRegionUnchanged(outSocketId: SocketId, native: NativeReceive)
    requires StorageInvariant(outSocketId)
    requires native.socketIdWrite.Some? ==> |native.socketIdWrite.value| == TotalSizeInBytes
  {
    var before := EnsureStorage(outSocketId).allBytes.value;
    native.socketIdWrite.Some? ==> native.socketIdWrite.value[ApiVersionLength..] == before[ApiVersionLength..]
  }

  /**
    With a valid cache, a receive that leaves the name region as it was keeps
    the name the caller saw before the call, untruncated if it was set long.
   */
  lemma ReceiveKeepsNameWhenBytesUnchanged(
    options: ReceivePacketOptions, outPeerId: Option<ProductUserId>, outSocketId: SocketId,
    outData: seq<byte>, pins: PinTable, native: NativeReceive, alloc: PeerAllocation)
    requires ChannelReadable(options) && pins.Valid() && StorageInvariant(outSocketId)
    requires WritesFit(native, |outData|)
    requires outSocketId.cacheValid && NameRegionUnchanged(outSocketId, native)
    ensures
      var r := ReceivePacket(options, outPeerId, outSocketId, outData, pins, native, alloc);
      r.Returned? ==>
        && r.socketId.cacheValid
        && GetSocketName(r.socketId).value == GetSocketName(outSocketId).value
  {
    if native.socketIdWrite.Some? {
      UnchangedBytesKeepCachedName(outSocketId, native.socketIdWrite.value);
    }
  }

  /**
    With a valid cache, a receive that rewrites the name region with other
    bytes makes the next read decode the new name.
   */
  lemma ReceiveDecodesWhenBytesChanged(
    options: ReceivePacketOptions, outPeerId: Option<ProductUserId>, outSocketId: SocketId,
    outData: seq<byte>, pins: PinTable, native: NativeReceive, alloc: PeerAllocation)
    requires ChannelReadable(options) && pins.Valid() && StorageInvariant(outSocketId)
    requires WritesFit(native, |outData|)
    requires !NameRegionUnchanged(outSocketId, native)
    ensures
      var r := ReceivePacket(options, outPeerId, outSocketId, outData, pins, native, alloc);
      r.Returned? ==>
        && !r.socketId.cacheValid
        && GetSocketName(r.socketId).value == Some(Decode(native.socketIdWrite.value))
  {
    if outSocketId.cacheValid {
      ChangedBytesForceDecode(outSocketId, native.socketIdWrite.value);
    } else {
      InvalidCacheForcesDecode(outSocketId, native.socketIdWrite.value);
    }
  }

  /**
    With an invalid cache, the name read after a receive is decoded from the
    buffer as the native call left it, even when it left it untouched.
   */
  lemma ReceiveDecodesWhenCacheWasInvalid(
    options: ReceivePacketOptions, outPeerId: Option<ProductUserId>, outSocketId: SocketId,
    outData: seq<byte>, pins: PinTable, native: NativeReceive, alloc: PeerAllocation)
    requires ChannelReadable(options) && pins.Valid() && StorageInvariant(outSocketId)
    requires WritesFit(native, |outData|)
    requires !outSocketId.cacheValid
    ensures
      var r := ReceivePacket(options, outPeerId, outSocketId, outData, pins, native, alloc);
      var finalBytes := native.socketIdWrite.GetOr(EnsureStorage(outSocketId).allBytes.value);
      r.Returned? ==> GetSocketName(r.socketId).value == Some(Decode(finalBytes))
  {
    InvalidCacheForcesDecode(outSocketId, native.socketIdWrite.GetOr(EnsureStorage(outSocketId).allBytes.value));
  }

  /**
    When the body of the `try` throws, the `finally` still releases every pin,
    but `CheckIfChanged` never runs: the cache stays invalid, so the next read
    decodes the buffer as the native call left it, even if the name region
    was untouched.
   */
  lemma ThrowInTryForcesDecode(
    options: ReceivePacketOptions, outPeerId: Option<ProductUserId>, outSocketId: SocketId,
    outData: seq<byte>, pins: PinTable, native: NativeReceive, alloc: PeerAllocation)
    requires ChannelReadable(options) && pins.Valid() && StorageInvariant(outSocketId)
    requires WritesFit(native, |outData|)
    requires options.localUserId.Some? && native.throwsInTry
    ensures
      var r := ReceivePacket(options, outPeerId, outSocketId, outData, pins, native, alloc);
      var finalBytes := native.socketIdWrite.GetOr(EnsureStorage(outSocketId).allBytes.value);
      && r.Threw?
      && r.pins.live == pins.live
      && !r.socketId.cacheValid
      && GetSocketName(r.socketId).value == Some(Decode(finalBytes))
  {
  }

  /**
    An empty poll (the native side reports not-found and writes nothing)
    still resets the channel and byte count and points the peer id at the
    zero address, while it keeps the payload and leaves a valid cached name
    as it was.
   */
  lemma EmptyPollResetsOutputs(
    options: ReceivePacketOptions, outPeerId: Option<ProductUserId>, outSocketId: SocketId,
    outData: seq<byte>, pins: PinTable, alloc: PeerAllocation)
    requires ChannelReadable(options) && pins.Valid() && StorageInvariant(outSocketId)
    requires options.localUserId.Some?
    ensures
      var native := NativeReceive(NotFound, None, None, None, None, None, false);
      var r := ReceivePacket(options, outPeerId, outSocketId, outData, pins, native, alloc);
      && r.Returned? && r.result == NotFound
      && r.channel == 0 && r.bytesWritten == 0 && r.data == outData
      && r.peerId == ResolvePeerId(outPeerId, Zero, alloc)
      && (outPeerId.Some? ==> r.peerId == Some(outPeerId.value.(innerHandle := Zero)))
      && r.pins.live == pins.live
      && (outSocketId.cacheValid ==> GetSocketName(r.socketId).value == GetSocketName(outSocketId).value)
  {
    var native := NativeReceive(NotFound, None, None, None, None, None, false);
    var prepared := PrepareForUpdate(outSocketId);
    var after := SocketIdAfterCall(prepared, native);
    assert after == CheckIfChanged(prepared.socketId, prepared.wasCacheValid);
    if outSocketId.cacheValid {
      assert RegionUnchanged(prepared.socketId);
      assert after.cacheValid && after.cachedSocketName == outSocketId.cachedSocketName;
    }
  }
}
