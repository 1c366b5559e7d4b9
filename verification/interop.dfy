/**
  Shared vocabulary of the managed/native boundary: fixed-width integers,
  an Option for C# nullables and null references, native pointers, and the
  table of pinned managed buffers that the marshalling helpers maintain.

  The helper class that really pins buffers is not part of this model; it is
  represented here by `AddPinnedBuffer` and `Release`, which act on an
  abstract table of live pins.
 */
module Interop {

  /** A C# `byte`. */
  type byte = b: int | 0 <= b < 0x100

  /** A C# `uint`. */
  type uint32 = n: int | 0 <= n < 0x1_0000_0000

  /** A C# `ArraySegment<byte>`: its `Count` is a non-negative `int`. */
  type Segment = s: seq<byte> | |s| < 0x8000_0000

  /** A nullable value or a possibly-null reference. */
  datatype Option<+T> = None | Some(value: T) {
    function GetOr(default: T): T {
      match this
      case Some(v) => v
      case None => default
    }
  }

  /**
    An `IntPtr` crossing the boundary: zero, an address the native SDK handed
    out (a user handle, say), or the address of a pinned managed buffer,
    identified by its slot in the pin table.
   */
  datatype Ptr = Zero | Native(address: nat) | Pinned(slot: nat)

  /** A handle owned by the native SDK; it never names a pinned managed buffer. */
  type Handle = p: Ptr | !p.Pinned? witness Zero

  /**
    A `ProductUserId` object. `identity` stands for the object's reference
    identity, so that reusing a caller's object can be told apart from
    allocating a new one.
   */
  datatype ProductUserId = ProductUserId(identity: nat, innerHandle: Handle)

  /** The `InnerHandle` of a possibly-null user id, zero for null. */
  function HandleOf(user: Option<ProductUserId>): (h: Handle)
    ensures user.None? ==> h == Zero
    ensures user.Some? ==> h == user.value.innerHandle
  {
    match user
    case None => Zero
    case Some(u) => u.innerHandle
  }

  /** The API versions the P2P interface stamps into its native structs. */
  const SocketIdApiLatest: int := 1
  const ReceivePacketApiLatest: int := 2
  const SendPacketApiLatest: int := 3

  /**
    The live pinned buffers: each slot maps to the contents of the buffer it
    pins. `next` is the slot the next pin will take.
   */
  datatype PinTable = PinTable(next: nat, live: map<nat, seq<byte>>) {
    /** Every live slot was handed out before `next`, so `next` is fresh. */
    predicate Valid() {
      forall k | k in live :: k < next
    }
  }

  datatype Pinning = Pinning(ptr: Ptr, table: PinTable)

  /**
    Pins a managed buffer for the duration of a native call. A null buffer
    is not pinned and yields a zero pointer.
   */
  function AddPinnedBuffer(t: PinTable, buffer: Option<seq<byte>>): (r: Pinning)
    requires t.Valid()
    ensures r.table.Valid()
    ensures buffer.None? <==> r.ptr == Zero
    ensures buffer.None? ==> r.table == t
    ensures buffer.Some? ==>
      && r.ptr.Pinned?
      && r.ptr.slot !in t.live
      && r.table.live == t.live[r.ptr.slot := buffer.value]
      && r.table.live.Keys == t.live.Keys + {r.ptr.slot}
  {
    match buffer
    case None => Pinning(Zero, t)
    case Some(b) => Pinning(Pinned(t.next), PinTable(t.next + 1, t.live[t.next := b]))
  }

  /**
    Releases whatever a pointer pins: a pinned slot leaves the table; zero
    and native handles leave it as it is.
   */
  function Release(t: PinTable, p: Ptr): (r: PinTable)
    ensures t.Valid() ==> r.Valid()
    ensures r.live.Keys == if p.Pinned? then t.live.Keys - {p.slot} else t.live.Keys
    ensures forall k | k in r.live :: k in t.live && r.live[k] == t.live[k]
  {
    match p
    case Pinned(slot) => t.(live := t.live - {slot})
    case _ => t
  }
}
