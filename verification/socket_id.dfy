/**
  The P2P socket id: an application-defined name of at most 32 ASCII
  characters, held in a fixed buffer laid out as
  `[4-byte API version][32-byte name][1 NUL]`, with a cached decoded string
  and a snapshot buffer used to detect whether a native call rewrote the
  name.

  The struct is modelled as an immutable record; every operation that
  mutates the C# struct returns the updated record.
 */
module SocketIds {
  import opened Interop

  const MaxSocketNameLength: nat := 32
  const ApiVersionLength: nat := 4
  const NullTerminatorSpace: nat := 1
  const TotalSizeInBytes: nat := MaxSocketNameLength + ApiVersionLength + NullTerminatorSpace
  /** The swap buffer covers the name and the terminator, not the version. */
  const SwapSizeInBytes: nat := TotalSizeInBytes - ApiVersionLength

  /**
    The four bytes of `SOCKETID_API_LATEST` as the platform lays them out.
    Their order is not modelled; they are an opaque constant.
   */
  const VersionTag: seq<byte> := [SocketIdApiLatest, 0, 0, 0]

  datatype SocketId = SocketId(
    allBytes: Option<seq<byte>>,
    swapBuffer: Option<seq<byte>>,
    cacheValid: bool,
    cachedSocketName: Option<string>)

  /** `new SocketId()`: no storage, and a `false` cache flag. */
  const Empty := SocketId(None, None, false, None)

  /**
    The storage the struct keeps for itself: both buffers are allocated
    together, at their fixed sizes, or neither is.
   */
  predicate StorageInvariant(s: SocketId) {
    && (s.allBytes.Some? <==> s.swapBuffer.Some?)
    && (s.allBytes.Some? ==>
          |s.allBytes.value| == TotalSizeInBytes && |s.swapBuffer.value| == SwapSizeInBytes)
  }

  function Zeros(n: nat): (z: seq<byte>)
    ensures |z| == n
    ensures forall i | 0 <= i < n :: z[i] == 0
  {
    seq(n, _ => 0)
  }

  // ---------------------------------------------------------------------
  // ASCII encoding: characters outside ASCII become '?', and so do bytes
  // above 0x7F when decoding.

  predicate IsAscii(s: string) {
    forall i | 0 <= i < |s| :: s[i] as int < 0x80
  }

  predicate NulFree(s: string) {
    forall i | 0 <= i < |s| :: s[i] != '\0'
  }

  function AsciiByte(c: char): (b: byte)
    ensures c as int < 0x80 ==> b == c as int
    ensures c as int >= 0x80 ==> b == '?' as int
  {
    if c as int < 0x80 then c as int else '?' as int
  }

  function AsciiChar(b: byte): (c: char)
    ensures b < 0x80 ==> c as int == b
    ensures b >= 0x80 ==> c == '?'
  {
    if b < 0x80 then b as char else '?'
  }

  /** `ASCIIEncoding.ASCII.GetBytes` of a whole string. */
  function AsciiBytes(s: string): (r: seq<byte>)
    ensures |r| == |s|
    ensures forall i | 0 <= i < |s| :: r[i] == AsciiByte(s[i])
  {
    seq(|s|, i requires 0 <= i < |s| => AsciiByte(s[i]))
  }

  /** `ASCIIEncoding.ASCII.GetString` of a whole byte range. */
  function AsciiString(b: seq<byte>): (r: string)
    ensures |r| == |b|
    ensures forall i | 0 <= i < |b| :: r[i] == AsciiChar(b[i])
  {
    seq(|b|, i requires 0 <= i < |b| => AsciiChar(b[i]))
  }

  /** Decoding undoes encoding exactly on ASCII text. */
  lemma AsciiRoundTrip(s: string)
    requires IsAscii(s)
    ensures AsciiString(AsciiBytes(s)) == s
  {
  }

  /** An ASCII string with no NUL encodes to bytes with no zero. */
  lemma AsciiBytesNonZero(s: string)
    requires IsAscii(s) && NulFree(s)
    ensures forall i | 0 <= i < |s| :: AsciiBytes(s)[i] != 0
  {
    forall i | 0 <= i < |s|
      ensures AsciiBytes(s)[i] != 0
    {
      assert s[i] as int < 0x80 && s[i] != '\0';
    }
  }

  // ---------------------------------------------------------------------
  // Storage

  /**
    Allocates both buffers, stamping the version tag, when the name buffer is
    missing or too short; otherwise leaves the struct alone. This is the only
    place the version tag is written.
   */
  function EnsureStorage(s: SocketId): (t: SocketId)
    ensures t.allBytes.Some? && |t.allBytes.value| >= TotalSizeInBytes
    ensures t.cacheValid == s.cacheValid && t.cachedSocketName == s.cachedSocketName
    ensures s.allBytes.Some? && |s.allBytes.value| >= TotalSizeInBytes ==> t == s
    ensures s.allBytes.None? || |s.allBytes.value| < TotalSizeInBytes ==>
      && |t.allBytes.value| == TotalSizeInBytes
      && t.allBytes.value[..ApiVersionLength] == VersionTag
      && (forall k | ApiVersionLength <= k < TotalSizeInBytes :: t.allBytes.value[k] == 0)
      && t.swapBuffer.Some? && |t.swapBuffer.value| == SwapSizeInBytes
      && (forall k | 0 <= k < SwapSizeInBytes :: t.swapBuffer.value[k] == 0)
    ensures StorageInvariant(s) ==> StorageInvariant(t)
  {
    if s.allBytes.None? || |s.allBytes.value| < TotalSizeInBytes then
      s.(allBytes := Some(VersionTag + Zeros(TotalSizeInBytes - ApiVersionLength)),
         swapBuffer := Some(Zeros(SwapSizeInBytes)))
    else
      s
  }

  /** Snapshots the name region (name and terminator) into the swap buffer. */
  function CopyIdToSwapBuffer(s: SocketId): (t: SocketId)
    requires s.allBytes.Some? && s.swapBuffer.Some?
    requires ApiVersionLength + |s.swapBuffer.value| <= |s.allBytes.value|
    ensures t.allBytes == s.allBytes && t.cacheValid == s.cacheValid
    ensures t.cachedSocketName == s.cachedSocketName
    ensures t.swapBuffer.Some? && |t.swapBuffer.value| == |s.swapBuffer.value|
    ensures forall i | 0 <= i < |s.swapBuffer.value| ::
      t.swapBuffer.value[i] == s.allBytes.value[ApiVersionLength + i]
  {
    var n := |s.swapBuffer.value|;
    s.(swapBuffer := Some(s.allBytes.value[ApiVersionLength..ApiVersionLength + n]))
  }

  // ---------------------------------------------------------------------
  // Decoding

  /**
    The index of the first zero byte at or after `i`, or the end of the
    buffer when there is none.
   */
  function TerminatorFrom(b: seq<byte>, i: nat): (e: nat)
    requires i <= |b|
    ensures i <= e <= |b|
    ensures forall j | i <= j < e :: b[j] != 0
    ensures e < |b| ==> b[e] == 0
    decreases |b| - i
  {
    if i == |b| || b[i] == 0 then i else TerminatorFrom(b, i + 1)
  }

  /** The scan loop of the decoder, as the struct runs it. */
  method FindStringEnd(allBytes: seq<byte>) returns (stringEndIndex: nat)
    requires ApiVersionLength <= |allBytes|
    ensures ApiVersionLength <= stringEndIndex <= |allBytes|
    ensures forall j | ApiVersionLength <= j < stringEndIndex :: allBytes[j] != 0
    ensures stringEndIndex < |allBytes| ==> allBytes[stringEndIndex] == 0
    ensures stringEndIndex == TerminatorFrom(allBytes, ApiVersionLength)
  {
    stringEndIndex := ApiVersionLength;
    while stringEndIndex < |allBytes| && allBytes[stringEndIndex] != 0
      invariant ApiVersionLength <= stringEndIndex <= |allBytes|
      invariant forall j | ApiVersionLength <= j < stringEndIndex :: allBytes[j] != 0
    {
      stringEndIndex := stringEndIndex + 1;
    }
  }

  /** The name a buffer holds: the bytes after the version up to the first NUL. */
  function Decode(allBytes: seq<byte>): (name: string)
    requires ApiVersionLength <= |allBytes|
    ensures |name| <= |allBytes| - ApiVersionLength
    ensures forall i | 0 <= i < |name| ::
      allBytes[ApiVersionLength + i] != 0 && name[i] == AsciiChar(allBytes[ApiVersionLength + i])
    ensures ApiVersionLength + |name| < |allBytes| ==> allBytes[ApiVersionLength + |name|] == 0
  {
    AsciiString(allBytes[ApiVersionLength..TerminatorFrom(allBytes, ApiVersionLength)])
  }

  /** Every name decoded from the struct's own buffer fits in 33 characters. */
  lemma DecodeLength(allBytes: seq<byte>)
    requires |allBytes| == TotalSizeInBytes
    ensures |Decode(allBytes)| <= MaxSocketNameLength + NullTerminatorSpace
  {
  }

  /** The scan from `i` stops right after a run of non-zero bytes followed by a NUL. */
  lemma {:induction false} TerminatorFromStopsAtNul(b: seq<byte>, i: nat, name: seq<byte>)
    requires i + |name| < |b|
    requires b[i..i + |name|] == name && b[i + |name|] == 0
    requires forall j | 0 <= j < |name| :: name[j] != 0
    ensures TerminatorFrom(b, i) == i + |name|
    decreases |name|
  {
    if |name| > 0 {
      assert b[i] == name[0];
      assert b[i + 1..i + 1 + |name[1..]|] == name[1..];
      TerminatorFromStopsAtNul(b, i + 1, name[1..]);
    }
  }

  /** A name written with its terminator decodes to exactly that name. */
  lemma DecodeEncoded(allBytes: seq<byte>, name: string)
    requires IsAscii(name) && NulFree(name)
    requires ApiVersionLength + |name| < |allBytes|
    requires allBytes[ApiVersionLength..ApiVersionLength + |name|] == AsciiBytes(name)
    requires allBytes[ApiVersionLength + |name|] == 0
    ensures Decode(allBytes) == name
  {
    AsciiBytesNonZero(name);
    TerminatorFromStopsAtNul(allBytes, ApiVersionLength, AsciiBytes(name));
    AsciiRoundTrip(name);
  }

  // ---------------------------------------------------------------------
  // The SocketName property

  /**
    Decodes the buffer into the cache, allocating storage first if there is
    none. Afterwards the cache is valid and agrees with the buffer.
   */
  function RebuildStringFromBuffer(s: SocketId): (t: SocketId)
    ensures t.allBytes == EnsureStorage(s).allBytes && t.swapBuffer == EnsureStorage(s).swapBuffer
    ensures t.cacheValid
    ensures t.cachedSocketName == Some(Decode(t.allBytes.value))
  {
    var u := EnsureStorage(s);
    u.(cachedSocketName := Some(Decode(u.allBytes.value)), cacheValid := true)
  }

  /** What a read of `SocketName` returns, with the struct as the read leaves it. */
  datatype Read = Read(value: Option<string>, socketId: SocketId)

  /** The `SocketName` getter. */
  function GetSocketName(s: SocketId): (r: Read)
    ensures s.cacheValid ==> r == Read(s.cachedSocketName, s)
    ensures !s.cacheValid && s.allBytes.None? ==> r == Read(None, s)
    ensures !s.cacheValid && s.allBytes.Some? ==>
      && r.socketId.allBytes == EnsureStorage(s).allBytes
      && r.socketId.cacheValid
      && r.value == r.socketId.cachedSocketName == Some(Decode(r.socketId.allBytes.value))
    ensures StorageInvariant(s) ==> r.socketId.allBytes == s.allBytes && r.socketId.swapBuffer == s.swapBuffer
  {
    if s.cacheValid then
      Read(s.cachedSocketName, s)
    else if s.allBytes.None? then
      Read(None, s)
    else
      var t := RebuildStringFromBuffer(s);
      Read(t.cachedSocketName, t)
  }

  /** The number of name characters the setter writes. */
  function WrittenLength(value: string): (k: nat)
    ensures k <= MaxSocketNameLength && k <= |value|
    ensures |value| <= MaxSocketNameLength ==> k == |value|
    ensures |value| > MaxSocketNameLength ==> k == MaxSocketNameLength
  {
    if |value| < MaxSocketNameLength then |value| else MaxSocketNameLength
  }

  /**
    The `SocketName` setter. Null only marks the cache valid and empty. A
    string is written truncated to 32 characters and terminated, but the cache
    keeps the whole, untruncated string.
   */
  function SetSocketName(s: SocketId, value: Option<string>): (t: SocketId)
    ensures t.cacheValid && t.cachedSocketName == value
    ensures value.None? ==> t.allBytes == s.allBytes && t.swapBuffer == s.swapBuffer
    ensures value.Some? ==>
      var before := EnsureStorage(s).allBytes.value;
      var k := WrittenLength(value.value);
      && t.allBytes.Some?
      && t.swapBuffer == EnsureStorage(s).swapBuffer
      && |t.allBytes.value| == |before|
      && t.allBytes.value[..ApiVersionLength] == before[..ApiVersionLength]
      && t.allBytes.value[ApiVersionLength..ApiVersionLength + k] == AsciiBytes(value.value[..k])
      && t.allBytes.value[ApiVersionLength + k] == 0
      && t.allBytes.value[ApiVersionLength + k + 1..] == before[ApiVersionLength + k + 1..]
    ensures StorageInvariant(s) ==> StorageInvariant(t)
  {
    match value
    case None =>
      s.(cachedSocketName := None, cacheValid := true)
    case Some(v) =>
      var u := EnsureStorage(s);
      var b := u.allBytes.value;
      var k := WrittenLength(v);
      var written := b[..ApiVersionLength] + AsciiBytes(v[..k]) + [0] + b[ApiVersionLength + k + 1..];
      assert written[ApiVersionLength..ApiVersionLength + k] == AsciiBytes(v[..k]);
      u.(allBytes := Some(written), cachedSocketName := value, cacheValid := true)
  }

  // ---------------------------------------------------------------------
  // Change detection around a native call that rewrites the buffer

  datatype Prepared = Prepared(wasCacheValid: bool, socketId: SocketId)

  /**
    Before a native call: remembers whether the cache was valid, distrusts it,
    makes sure storage exists and snapshots the name region.
   */
  function PrepareForUpdate(s: SocketId): (r: Prepared)
    requires StorageInvariant(s)
    ensures r.wasCacheValid == s.cacheValid
    ensures !r.socketId.cacheValid && r.socketId.cachedSocketName == s.cachedSocketName
    ensures StorageInvariant(r.socketId) && r.socketId.allBytes.Some?
    ensures r.socketId.allBytes == EnsureStorage(s).allBytes
    ensures r.socketId.swapBuffer == Some(r.socketId.allBytes.value[ApiVersionLength..])
  {
    var u := EnsureStorage(s.(cacheValid := false));
    var t := CopyIdToSwapBuffer(u);
    assert t.swapBuffer.value == t.allBytes.value[ApiVersionLength..];
    Prepared(s.cacheValid, t)
  }

  /** The native call writing into the pinned name buffer. */
  function ExternalWrite(s: SocketId, contents: seq<byte>): (t: SocketId)
    requires s.allBytes.Some? && |contents| == |s.allBytes.value|
    ensures StorageInvariant(s) ==> StorageInvariant(t)
    ensures t.allBytes == Some(contents)
    ensures t.swapBuffer == s.swapBuffer && t.cacheValid == s.cacheValid
    ensures t.cachedSocketName == s.cachedSocketName
  {
    s.(allBytes := Some(contents))
  }

  /** Whether the name region still equals the snapshot. */
  predicate RegionUnchanged(s: SocketId)
    requires s.allBytes.Some? && s.swapBuffer.Some?
    requires ApiVersionLength + |s.swapBuffer.value| <= |s.allBytes.value|
  {
    s.allBytes.value[ApiVersionLength..ApiVersionLength + |s.swapBuffer.value|] == s.swapBuffer.value
  }

  /**
    After a native call: when the cache was valid beforehand and the name
    bytes equal the snapshot, the old cached string is trusted again;
    otherwise the cache stays as it is. Only the cache flag can change.
   */
  function CheckIfChanged(s: SocketId, wasCacheValid: bool): (t: SocketId)
    requires StorageInvariant(s)
    ensures t == s.(cacheValid := t.cacheValid)
    ensures !wasCacheValid ==> t == s
    ensures t.cacheValid <==>
      || s.cacheValid
      || (wasCacheValid && s.allBytes.Some? && RegionUnchanged(s))
  {
    if !wasCacheValid || s.swapBuffer.None? || s.allBytes.None? then
      s
    else if RegionUnchanged(s) then
      s.(cacheValid := true)
    else
      s
  }

  /** The byte-by-byte comparison loop of `CheckIfChanged`, with its early exit. */
  method CompareWithSwapBuffer(s: SocketId) returns (identical: bool)
    requires s.allBytes.Some? && s.swapBuffer.Some?
    requires ApiVersionLength + |s.swapBuffer.value| <= |s.allBytes.value|
    ensures identical <==> RegionUnchanged(s)
  {
    var allBytes, swapBuffer := s.allBytes.value, s.swapBuffer.value;
    identical := true;
    var i := 0;
    while i < |swapBuffer|
      invariant 0 <= i <= |swapBuffer|
      invariant forall j | 0 <= j < i :: allBytes[ApiVersionLength + j] == swapBuffer[j]
    {
      if allBytes[ApiVersionLength + i] != swapBuffer[i] {
        assert allBytes[ApiVersionLength..ApiVersionLength + |swapBuffer|][i] != swapBuffer[i];
        identical := false;
        break;
      }
      i := i + 1;
    }
  }

  // ---------------------------------------------------------------------
  // Properties relating several operations

  /** A read settles the cache: reading again returns the same value and changes nothing. */
  lemma ReadIsIdempotent(s: SocketId)
    ensures GetSocketName(GetSocketName(s).socketId) == Read(GetSocketName(s).value, GetSocketName(s).socketId)
  {
  }

  /** Right after a set, a read answers from the cache with the string as given. */
  lemma ReadAfterSet(s: SocketId, value: Option<string>)
    ensures GetSocketName(SetSocketName(s, value)) == Read(value, SetSocketName(s, value))
  {
  }

  /** Setting null allocates nothing: a fresh struct keeps no storage. */
  lemma SetNullAllocatesNothing()
    ensures SetSocketName(Empty, None).allBytes.None?
    ensures GetSocketName(SetSocketName(Empty, None)).value.None?
  {
  }

  /**
    Round trip through the buffer: once the cache is distrusted, a read
    decodes the name truncated to 32 characters.
   */
  lemma TruncatingRoundTrip(s: SocketId, name: string)
    requires StorageInvariant(s)
    requires IsAscii(name) && NulFree(name)
    ensures
      var p := PrepareForUpdate(SetSocketName(s, Some(name)));
      GetSocketName(CheckIfChanged(p.socketId, false)).value == Some(name[..WrittenLength(name)])
  {
    var t := SetSocketName(s, Some(name));
    var k := WrittenLength(name);
    var b := t.allBytes.value;
    assert IsAscii(name[..k]) && NulFree(name[..k]) by {
      assert forall i | 0 <= i < k :: name[..k][i] == name[i];
    }
    DecodeEncoded(b, name[..k]);
  }

  /**
    Truncation is invisible until the cache is distrusted: a long name reads
    back whole, then cut to 32 characters after an update that forced a decode.
   */
  lemma TruncationVisibleOnlyAfterDecode(s: SocketId, name: string)
    requires StorageInvariant(s)
    requires IsAscii(name) && NulFree(name) && |name| > MaxSocketNameLength
    ensures GetSocketName(SetSocketName(s, Some(name))).value == Some(name)
    ensures
      var p := PrepareForUpdate(SetSocketName(s, Some(name)));
      GetSocketName(CheckIfChanged(p.socketId, false)).value == Some(name[..MaxSocketNameLength])
    ensures name[..MaxSocketNameLength] != name
  {
    TruncatingRoundTrip(s, name);
  }

  /**
    With a valid cache, a native call that leaves the name region as it was
    does not change what the socket name reads as.
   */
  lemma UnchangedBytesKeepCachedName(s: SocketId, contents: seq<byte>)
    requires StorageInvariant(s) && s.cacheValid
    requires
      var p := PrepareForUpdate(s);
      && |contents| == TotalSizeInBytes
      && contents[ApiVersionLength..] == p.socketId.allBytes.value[ApiVersionLength..]
    ensures
      var p := PrepareForUpdate(s);
      var after := CheckIfChanged(ExternalWrite(p.socketId, contents), p.wasCacheValid);
      && after.cacheValid
      && GetSocketName(after).value == GetSocketName(s).value
  {
  }

  /**
    With a valid cache, a native call that changes the name region forces the
    next read to decode the new bytes.
   */
  lemma ChangedBytesForceDecode(s: SocketId, contents: seq<byte>)
    requires StorageInvariant(s) && s.cacheValid
    requires
      var p := PrepareForUpdate(s);
      && |contents| == TotalSizeInBytes
      && contents[ApiVersionLength..] != p.socketId.allBytes.value[ApiVersionLength..]
    ensures
      var p := PrepareForUpdate(s);
      var after := CheckIfChanged(ExternalWrite(p.socketId, contents), p.wasCacheValid);
      && !after.cacheValid
      && GetSocketName(after).value == Some(Decode(contents))
  {
  }

  /**
    With an invalid cache, whatever the native call writes, even the same
    bytes, the next read decodes the buffer.
   */
  lemma InvalidCacheForcesDecode(s: SocketId, contents: seq<byte>)
    requires StorageInvariant(s) && !s.cacheValid
    requires |contents| == TotalSizeInBytes
    ensures
      var p := PrepareForUpdate(s);
      var after := CheckIfChanged(ExternalWrite(p.socketId, contents), p.wasCacheValid);
      && !after.cacheValid
      && GetSocketName(after).value == Some(Decode(contents))
  {
  }

  /**
    Only storage allocation writes the version tag: the setter, the
    update protocol and the getter leave the first four bytes alone once
    storage exists.
   */
  lemma VersionTagWrittenOnlyOnAllocation(s: SocketId, value: Option<string>, was: bool)
    requires StorageInvariant(s) && s.allBytes.Some?
    ensures SetSocketName(s, value).allBytes.value[..ApiVersionLength] == s.allBytes.value[..ApiVersionLength]
    ensures PrepareForUpdate(s).socketId.allBytes == s.allBytes
    ensures CheckIfChanged(s, was).allBytes == s.allBytes
    ensures GetSocketName(s).socketId.allBytes == s.allBytes
  {
  }

  /** A freshly allocated struct carries the version tag and the fixed sizes. */
  lemma AllocationLayout(value: string)
    ensures
      var t := SetSocketName(Empty, Some(value));
      && StorageInvariant(t)
      && |t.allBytes.value| == TotalSizeInBytes == 37
      && |t.swapBuffer.value| == SwapSizeInBytes == 33
      && t.allBytes.value[..ApiVersionLength] == VersionTag
  {
  }

  /**
    The cache agrees with the buffer whenever it is valid and storage exists.
   */
  predicate Coherent(s: SocketId) {
    s.cacheValid && s.allBytes.Some? && |s.allBytes.value| >= ApiVersionLength ==>
      s.cachedSocketName == Some(Decode(s.allBytes.value))
  }

  /** A name that fits is cached exactly as the buffer holds it. */
  lemma ShortNameKeepsCacheCoherent(s: SocketId, name: string)
    requires StorageInvariant(s)
    requires IsAscii(name) && NulFree(name) && |name| <= MaxSocketNameLength
    ensures Coherent(SetSocketName(s, Some(name)))
  {
    var t := SetSocketName(s, Some(name));
    assert name[..WrittenLength(name)] == name;
    DecodeEncoded(t.allBytes.value, name);
  }

  /**
    Setting null after a name marks the cache valid and empty but leaves the
    name in the buffer. A receive that leaves the name region as it was then
    re-validates that null, while the buffer still decodes to the old name.
   */
  lemma NullAfterSetSurvivesReceive(s: SocketId, name: string, contents: seq<byte>)
    requires StorageInvariant(s)
    requires IsAscii(name) && NulFree(name) && |name| <= MaxSocketNameLength
    requires
      var p := PrepareForUpdate(SetSocketName(SetSocketName(s, Some(name)), None));
      && |contents| == TotalSizeInBytes
      && contents[ApiVersionLength..] == p.socketId.allBytes.value[ApiVersionLength..]
    ensures
      var p := PrepareForUpdate(SetSocketName(SetSocketName(s, Some(name)), None));
      var after := CheckIfChanged(ExternalWrite(p.socketId, contents), p.wasCacheValid);
      && after.cacheValid
      && GetSocketName(after).value == None
      && Decode(after.allBytes.value) == name
      && !Coherent(after)
  {
    var named := SetSocketName(s, Some(name));
    var t := SetSocketName(named, None);
    assert name[..WrittenLength(name)] == name;
    DecodeEncoded(named.allBytes.value, name);
    UnchangedBytesKeepCachedName(t, contents);
    DecodeSeesOnlyNameRegion(contents, named.allBytes.value);
  }

  /** The decoder reads nothing before the name region. */
  lemma DecodeSeesOnlyNameRegion(a: seq<byte>, b: seq<byte>)
    requires ApiVersionLength <= |a| == |b|
    requires a[ApiVersionLength..] == b[ApiVersionLength..]
    ensures Decode(a) == Decode(b)
  {
    var x, y := Decode(a), Decode(b);
    assert forall i | ApiVersionLength <= i < |a| :: a[i] == b[i] by {
      forall i | ApiVersionLength <= i < |a|
        ensures a[i] == b[i]
      {
        assert a[i] == a[ApiVersionLength..][i - ApiVersionLength];
      }
    }
    assert |x| == |y|;
  }

  /**
    Outside the null case the cache stays coherent: when the cache agrees
    with the buffer before a receive that leaves the name region as it was,
    it still agrees afterwards.
   */
  lemma UnchangedReceiveKeepsCoherence(s: SocketId, contents: seq<byte>)
    requires StorageInvariant(s) && s.allBytes.Some? && Coherent(s)
    requires
      var p := PrepareForUpdate(s);
      && |contents| == TotalSizeInBytes
      && contents[ApiVersionLength..] == p.socketId.allBytes.value[ApiVersionLength..]
    ensures
      var p := PrepareForUpdate(s);
      Coherent(CheckIfChanged(ExternalWrite(p.socketId, contents), p.wasCacheValid))
  {
    DecodeSeesOnlyNameRegion(contents, s.allBytes.value);
  }

  /**
    A name that does not fit leaves the cache holding a string the buffer
    does not: the cache and the bytes disagree until the next decode.
   */
  lemma LongNameCacheDisagreesWithBuffer(s: SocketId, name: string)
    requires StorageInvariant(s)
    requires IsAscii(name) && NulFree(name) && |name| > MaxSocketNameLength
    ensures !Coherent(SetSocketName(s, Some(name)))
  {
    var t := SetSocketName(s, Some(name));
    var k := WrittenLength(name);
    assert IsAscii(name[..k]) && NulFree(name[..k]) by {
      assert forall i | 0 <= i < k :: name[..k][i] == name[i];
    }
    DecodeEncoded(t.allBytes.value, name[..k]);
    assert |name[..k]| != |name|;
  }
}
