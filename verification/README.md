# OpenEOS P2P receive path and launcher arguments, in Dafny

This project models the parts of the OpenEOS Unity wrapper around the Epic
Online Services SDK that carry logic of their own, and proves properties of
that model.

- **`SocketId`** (`socket_id.dfy`, module `SocketIds`). This struct holds a
  peer-to-peer connection name.
  - The name is stored in a 37-byte buffer: a 4-byte API version, up to 32
    ASCII characters, and a NUL terminator.
  - The struct caches the decoded string. It uses a 33-byte swap buffer to
    tell whether a native call rewrote the name, so that the string is
    decoded again only when needed.
- **`P2PInterface.ReceivePacket`** (`p2p_interface.dfy`, module
  `P2PInterfaceModel`). This is the managed wrapper around the native receive
  call.
  - It prepares the socket id, pins the buffers the native side writes into,
    and marshals the options.
  - It resolves the sender's user id, reusing the caller's object when there
    is one.
  - It releases its pins in a `finally` block, whether the body of the `try`
    returns or throws. The one exception is a null local user id, which
    throws before that block is entered (see Findings).
- **Receive and send options marshalling** (`receive_packet_options.dfy`,
  `send_packet_options.dfy`). These turn the public option structs into the
  internal structs handed to the native side.
  - The optional receive channel is stored as a one-byte buffer.
  - User ids become native handles.
  - Socket-id and payload buffers become pinned pointers.
  - Booleans become C ints.
- **`EOSEnv`** (`eos_env.dfy`, module `EosEnv`). These are the command-line
  lookups that read the Epic launcher's `-NAME=VALUE` arguments: the sandbox
  id and the exchange-code login token.

`interop.dfy` (module `Interop`) holds the vocabulary shared across the
managed/native boundary:
- fixed-width integers;
- `Option` for nullables and null references;
- native pointers;
- an abstract table of live pinned buffers.

The helper class that really pins and releases buffers is not part of this
model. `AddPinnedBuffer` and `Release` stand in for it.

Every C# struct that the code mutates is modelled as an immutable record. An
operation returns the updated record, so a `ref` parameter becomes an input
plus a field of the result. The native receive call is not modelled: it is an
arbitrary `NativeReceive` value. Each output of that value is `None` when the
native side did not write it. A flag of that value says whether an exception
escapes the body of the `try` after the native side has written, from the
binding or from `Helper.Get`.

## Model

| member | source | states |
|---|---|---|
| Interop.AddPinnedBuffer | Runtime/EOSSDK/SDK/Source/Core/P2P/ReceivePacketOptions.cs:68-71 | A null buffer gives a zero pointer and leaves the pin table alone. A present buffer gets a fresh slot, holding its contents, and nothing else in the table changes. |
| Interop.Release | Runtime/EOSSDK/SDK/Source/Core/P2P/ReceivePacketOptions.cs:76-80 | Releasing a pinned pointer removes exactly its slot. Releasing a zero pointer or a native handle changes nothing. Every remaining pin keeps its contents. |
| SocketIds.EnsureStorage | Runtime/EOSSDK/SDK/Source/Core/P2P/SocketId.cs:115-123 | Afterwards the name buffer exists and holds at least 37 bytes. A missing or short buffer is replaced by a 37-byte buffer that starts with the version tag and is zero after it, together with a zero-filled 33-byte swap buffer. A buffer that is already large enough is left as it is. The cache is never touched. |
| SocketIds.CopyIdToSwapBuffer | Runtime/EOSSDK/SDK/Source/Core/P2P/SocketId.cs:125-128 | Swap byte `i` equals name-buffer byte `4 + i` for every index of the swap buffer. Nothing else changes. |
| SocketIds.TerminatorFrom | Runtime/EOSSDK/SDK/Source/Core/P2P/SocketId.cs:106-109 | Returns the index of the first zero byte at or after `i`, or the buffer's end when there is none. |
| SocketIds.FindStringEnd | Runtime/EOSSDK/SDK/Source/Core/P2P/SocketId.cs:106-109 | The scan loop stops at the first NUL after the version field, or at the buffer's end. Every byte it passes is non-zero. The index it returns is the one `TerminatorFrom` defines, which is what `Decode` uses. |
| SocketIds.Decode | Runtime/EOSSDK/SDK/Source/Core/P2P/SocketId.cs:111 | The decoded name fits after the version field. Each character comes from a non-zero byte at the matching offset, with non-ASCII bytes read as '?'. The byte right after the name is the NUL, when inside the buffer. |
| SocketIds.DecodeLength | Runtime/EOSSDK/SDK/Source/Core/P2P/SocketId.cs:102-113 | A name decoded from the struct's own 37-byte buffer is at most 33 characters long. |
| SocketIds.TerminatorFromStopsAtNul | Runtime/EOSSDK/SDK/Source/Core/P2P/SocketId.cs:107 | When a run of non-zero bytes is followed by a NUL, the scan stops exactly at that NUL. It is a corollary of `TerminatorFrom`'s contract. |
| SocketIds.DecodeEncoded | Runtime/EOSSDK/SDK/Source/Core/P2P/SocketId.cs:62-64 | Decoding inverts the setter's encoding: a NUL-free ASCII name, written after the version field and followed by a NUL, decodes to exactly that name. |
| SocketIds.AsciiRoundTrip | Runtime/EOSSDK/SDK/Source/Core/P2P/SocketId.cs:62 | Decoding the ASCII bytes of an ASCII string gives the string back. |
| SocketIds.RebuildStringFromBuffer | Runtime/EOSSDK/SDK/Source/Core/P2P/SocketId.cs:102-113 | Afterwards storage exists, the cache is valid, and the cached name equals the decoded buffer. |
| SocketIds.GetSocketName | Runtime/EOSSDK/SDK/Source/Core/P2P/SocketId.cs:34-49 | A valid cache is returned untouched. An invalid cache with no buffer reads null and changes nothing. Otherwise the read decodes the buffer and caches the result. A struct with proper storage keeps its buffers. |
| SocketIds.SetSocketName | Runtime/EOSSDK/SDK/Source/Core/P2P/SocketId.cs:50-66 | Null only marks the cache valid and null, and allocates nothing. A string is cached whole, while only its first min(32, length) characters are written as ASCII after the version field, followed by a NUL. All other bytes are unchanged. |
| SocketIds.WrittenLength | Runtime/EOSSDK/SDK/Source/Core/P2P/SocketId.cs:61 | The setter writes the whole name when it has at most 32 characters, and exactly 32 otherwise. |
| SocketIds.PrepareForUpdate | Runtime/EOSSDK/SDK/Source/Core/P2P/SocketId.cs:69-76 | Returns whether the cache was valid and marks it invalid. Storage exists afterwards, and the swap buffer equals the name region of the buffer. |
| SocketIds.CheckIfChanged | Runtime/EOSSDK/SDK/Source/Core/P2P/SocketId.cs:78-100 | Only the cache flag can change. It is valid afterwards if and only if it already was, or the cache was valid before the call and the name region still equals the snapshot. |
| SocketIds.CompareWithSwapBuffer | Runtime/EOSSDK/SDK/Source/Core/P2P/SocketId.cs:85-93 | The early-exit loop reports "identical" exactly when `RegionUnchanged` holds, the condition `CheckIfChanged` decides on. |
| SocketIds.ReadIsIdempotent | Runtime/EOSSDK/SDK/Source/Core/P2P/SocketId.cs:34-49 | A second read returns the same value and changes nothing. |
| SocketIds.ReadAfterSet | Runtime/EOSSDK/SDK/Source/Core/P2P/SocketId.cs:50-66 | Right after a set, a read returns the value as given, even when it is longer than 32 characters. |
| SocketIds.SetNullAllocatesNothing | Runtime/EOSSDK/SDK/Source/Core/P2P/SocketId.cs:52-57 | Setting null on a fresh struct allocates no buffer, and the name then reads null. |
| SocketIds.TruncatingRoundTrip | Runtime/EOSSDK/SDK/Source/Core/P2P/SocketId.cs:59-64 | Set the name, distrust the cache and read: the result is the name cut to 32 characters. |
| SocketIds.TruncationVisibleOnlyAfterDecode | Runtime/EOSSDK/SDK/Source/Core/P2P/SocketId.cs:52-65 | A name longer than 32 characters reads back whole from the cache. After an update that forces a decode, it reads back cut to 32 characters, which differs. |
| SocketIds.UnchangedBytesKeepCachedName | Runtime/EOSSDK/SDK/Source/Core/P2P/SocketId.cs:95-99 | Start with a valid cache, then prepare, write the same name region and check. The cache is valid again, and the name reads as before the update. |
| SocketIds.ChangedBytesForceDecode | Runtime/EOSSDK/SDK/Source/Core/P2P/SocketId.cs:85-93 | Start with a valid cache, then write a different name region. The cache stays invalid, and the next read decodes the new bytes. |
| SocketIds.InvalidCacheForcesDecode | Runtime/EOSSDK/SDK/Source/Core/P2P/SocketId.cs:80-83 | Start with an invalid cache. Whatever bytes are written, even the same ones, the next read decodes them. |
| SocketIds.VersionTagWrittenOnlyOnAllocation | Runtime/EOSSDK/SDK/Source/Core/P2P/SocketId.cs:117-122 | Once storage exists, the setter, the update protocol and the getter all leave the four version bytes alone. |
| SocketIds.AllocationLayout | Runtime/EOSSDK/SDK/Source/Core/P2P/SocketId.cs:21-24 | Allocation gives a 37-byte buffer that starts with the version tag, and a 33-byte swap buffer. |
| SocketIds.ShortNameKeepsCacheCoherent | Runtime/EOSSDK/SDK/Source/Core/P2P/SocketId.cs:50-66 | After setting a NUL-free ASCII name of at most 32 characters, the cache equals what the buffer decodes to. |
| SocketIds.LongNameCacheDisagreesWithBuffer | Runtime/EOSSDK/SDK/Source/Core/P2P/SocketId.cs:52-64 | After setting a longer name, the cache and the buffer disagree until the next decode. |
| SocketIds.NullAfterSetSurvivesReceive | Runtime/EOSSDK/SDK/Source/Core/P2P/SocketId.cs:50-58 | Set a name of at most 32 characters, then set null. Then run a receive that leaves the name region as it was. The change check re-validates the null (SocketId.cs:93-99), so the name reads null while the buffer still decodes to the old name, and the cache is not coherent. |
| SocketIds.DecodeSeesOnlyNameRegion | Runtime/EOSSDK/SDK/Source/Core/P2P/SocketId.cs:106-111 | Two buffers of equal length that agree from offset 4 on decode to the same name. |
| SocketIds.UnchangedReceiveKeepsCoherence | Runtime/EOSSDK/SDK/Source/Core/P2P/SocketId.cs:69-99 | Start with a buffer whose valid cache agrees with it. A receive that leaves the name region as it was keeps the cache coherent. A null set after a name breaks that agreement before the receive, which is why the null survives it. |
| ReceivePacketOptionsModel.GetRequestedChannel | Runtime/EOSSDK/SDK/Source/Core/P2P/ReceivePacketOptions.cs:29-37 | The channel is null exactly when there is no buffer. Otherwise it is the buffer's first byte. |
| ReceivePacketOptionsModel.SetRequestedChannel | Runtime/EOSSDK/SDK/Source/Core/P2P/ReceivePacketOptions.cs:38-52 | Reading after the setter returns the value set. Null drops the buffer. A value goes into a new one-byte buffer, or into byte 0 of the existing buffer with the rest kept. The other fields are unchanged. |
| ReceivePacketOptionsModel.SetRequestedChannelTwice | Runtime/EOSSDK/SDK/Source/Core/P2P/ReceivePacketOptions.cs:38-52 | Setting the channel twice equals setting it once to the second value. |
| ReceivePacketOptionsModel.NewReceivePacketOptionsInternal | Runtime/EOSSDK/SDK/Source/Core/P2P/ReceivePacketOptions.cs:64-74 | The constructor as written. It throws exactly when `LocalUserId` is null. When it succeeds, it copies the version, the user handle and the size limit. The channel pointer is non-zero exactly when a channel is requested, and it is then the pin in the table's next slot, which holds the channel buffer. A channel buffer is pinned whether or not it then throws. |
| ReceivePacketOptionsModel.NewReceivePacketOptionsInternalChecked | Runtime/EOSSDK/SDK/Source/Core/P2P/ReceivePacketOptions.cs:64-74 | The corrected constructor checks for null before pinning. A throw leaves the pin table unchanged. Otherwise it equals the constructor as written. |
| ReceivePacketOptionsModel.DisposeReceiveOptions | Runtime/EOSSDK/SDK/Source/Core/P2P/ReceivePacketOptions.cs:76-80 | The user and channel fields become zero, and their pins are released. Every other live pin survives with its contents, and no pin is added. |
| ReceivePacketOptionsModel.ConstructThenDisposeIsBalanced | Runtime/EOSSDK/SDK/Source/Core/P2P/ReceivePacketOptions.cs:64-80 | For a non-null user, constructing and then disposing leaves the live pins exactly as they were. |
| ReceivePacketOptionsModel.NullUserLeaksChannelPin | Runtime/EOSSDK/SDK/Source/Core/P2P/ReceivePacketOptions.cs:68-72 | With a null user and a requested channel, the constructor as written leaves one new pin live. |
| SendPacketOptionsModel.CBool | Runtime/EOSSDK/SDK/Source/Core/P2P/SendPacketOptions.cs:55-76 | A boolean becomes the C int 1 when true and 0 when false. |
| SendPacketOptionsModel.SetFrom | Runtime/EOSSDK/SDK/Source/Core/P2P/SendPacketOptions.cs:79-96 | Covers every field. The version is the send API version, and the user handles come from the ids. The socket pointer is zero exactly when there is no id or the id has no buffer. Otherwise it is a fresh pin holding the id's buffer, which is 37 bytes long whenever the id's two buffers are allocated together at their fixed sizes. The payload is freshly pinned with its length. The channel and reliability are copied, and the flags are converted to C ints. Earlier pins are kept. |
| SendPacketOptionsModel.SetFromNullable | Runtime/EOSSDK/SDK/Source/Core/P2P/SendPacketOptions.cs:98-118 | Null options leave the struct and the pins untouched. Present options behave exactly like the non-nullable overload. |
| SendPacketOptionsModel.DisposeSendOptions | Runtime/EOSSDK/SDK/Source/Core/P2P/SendPacketOptions.cs:120-126 | The four pointer fields become zero, and whatever they pinned is released. Every other pin survives unchanged. |
| SendPacketOptionsModel.SetThenDisposeIsBalanced | Runtime/EOSSDK/SDK/Source/Core/P2P/SendPacketOptions.cs:79-126 | Marshalling a send and then disposing it leaves the live pins exactly as they were. |
| SendPacketOptionsModel.NamedSocketIdIsPinned | Runtime/EOSSDK/SDK/Source/Core/P2P/SendPacketOptions.cs:85-89 | A socket id that has had a name set is always passed as a pinned pointer. |
| P2PInterfaceModel.ResolvePeerId | Runtime/EOSSDK/SDK/Source/Core/P2P/P2PInterface.cs:37-46 | Any sender id wraps the returned handle. A null reference becomes a new object when the handle is non-zero. The result is null exactly when the reference was null, the handle is zero, and `Helper.Get` makes null of a zero address; otherwise a null reference becomes a new object. An existing object keeps its identity, takes the handle, and is untouched when its handle already matches. |
| P2PInterfaceModel.ReleasingCallPinsRestores | Runtime/EOSSDK/SDK/Source/Core/P2P/P2PInterface.cs:53-58 | Releasing the call's socket, payload, user and channel pointers, in the `finally` block's order, restores the pin table that was live before the call. |
| P2PInterfaceModel.CallPinCount | Runtime/EOSSDK/SDK/Source/Core/P2P/P2PInterface.cs:27-29 | A call makes three distinct pins when a channel is requested, and two otherwise. |
| P2PInterfaceModel.SocketIdWritten | Runtime/EOSSDK/SDK/Source/Core/P2P/P2PInterface.cs:26-35 | The socket id as the native call leaves it, before the change check: the buffer is what was written, or the prepared buffer when nothing was written, and every other field, the invalid cache among them, is as prepared. The storage invariant holds. |
| P2PInterfaceModel.SocketIdAfterCall | Runtime/EOSSDK/SDK/Source/Core/P2P/P2PInterface.cs:35-49 | After the call and the change check, the socket id's buffer is what the native side wrote, or the prepared buffer when nothing was written. The storage invariant holds. |
| P2PInterfaceModel.CallAndRelease | Runtime/EOSSDK/SDK/Source/Core/P2P/P2PInterface.cs:30-58 | The `try`/`finally` body. It throws exactly when the body of the `try` throws, and then the socket id is as the native call wrote it, with no change check. Otherwise it returns the native result. Channel and byte count are 0 unless written, and the payload is what was written. The peer-id rule and the socket-id check are applied. On both exits every pin made for the call is released. |
| P2PInterfaceModel.ReceivePacketAsWritten | Runtime/EOSSDK/SDK/Source/Core/P2P/P2PInterface.cs:24-59 | As written, the call throws exactly when `LocalUserId` is null or the body of the `try` throws. On a null user, the pins then left live are those the socket id, the payload and the options constructor made. With a non-null user the pins are restored on both exits. When it returns, it passes the native result through. |
| P2PInterfaceModel.ReceivePacket | Runtime/EOSSDK/SDK/Source/Core/P2P/P2PInterface.cs:24-59 | The corrected wrapper. It throws exactly when the user is null or the body of the `try` throws. On every path, including both throws, the live pins afterwards equal those before. A null user throws with the socket id prepared, as line 26 leaves it. A throw inside the `try` leaves the socket id as the native call wrote it. Either throw leaves the cache invalid. Otherwise, the effects are these: the result passes through, the channel and byte count default to 0, the peer-id rule applies, and the socket id goes through prepare, write and check. |
| P2PInterfaceModel.ReceivePacketAgreesWithNonNullUser | Runtime/EOSSDK/SDK/Source/Core/P2P/P2PInterface.cs:24-59 | Whenever marshalling the options succeeds, the corrected wrapper and the code as written give identical outcomes, whether the body of the `try` returns or throws. |
| P2PInterfaceModel.NullUserDiffersOnlyInPins | Runtime/EOSSDK/SDK/Source/Core/P2P/P2PInterface.cs:26-30 | On a null user both versions throw and leave the same prepared socket id, with its cache invalid. Only the code as written leaves new pins live. |
| P2PInterfaceModel.PinsForCall | Runtime/EOSSDK/SDK/Source/Core/P2P/P2PInterface.cs:27-29 | With a non-null user, the socket id, the payload and a requested channel each get a fresh, distinct pin: the call holds 3 fresh pins with a channel filter and 2 without. The user pointer is a native handle. |
| P2PInterfaceModel.LeakedKeys | Runtime/EOSSDK/SDK/Source/Core/P2P/P2PInterface.cs:27-29 | When the options constructor throws on a null `LocalUserId`, the pins left live are the next two slots, or three with a channel buffer. |
| P2PInterfaceModel.NullUserLeaksPins | Runtime/EOSSDK/SDK/Source/Core/P2P/P2PInterface.cs:26-30 | As written, a null `LocalUserId` throws after pinning. The live pins grow strictly, by 3 with a channel buffer and by 2 without. |
| P2PInterfaceModel.LeakedPins | Runtime/EOSSDK/SDK/Source/Core/P2P/P2PInterface.cs:27-29 | Counts the pins left behind when the options constructor throws after both buffers were pinned. |
| P2PInterfaceModel.ReceiveKeepsNameWhenBytesUnchanged | Runtime/EOSSDK/SDK/Source/Core/P2P/P2PInterface.cs:48-49 | Start with a valid cache, and let the receive leave the name region unchanged. The cache stays valid, and the name reads as before, untruncated if it was set long. |
| P2PInterfaceModel.ReceiveDecodesWhenBytesChanged | Runtime/EOSSDK/SDK/Source/Core/P2P/P2PInterface.cs:48-49 | A receive that rewrites the name region with different bytes leaves the cache invalid. The next read decodes the new name. |
| P2PInterfaceModel.ReceiveDecodesWhenCacheWasInvalid | Runtime/EOSSDK/SDK/Source/Core/P2P/P2PInterface.cs:26 | With an invalid cache, the name read after a receive is decoded from the buffer as left by the native side. |
| P2PInterfaceModel.ThrowInTryForcesDecode | Runtime/EOSSDK/SDK/Source/Core/P2P/P2PInterface.cs:30-58 | When the body of the `try` throws, the call throws and the `finally` still restores the pins. The change check never runs, so the cache stays invalid and the next read decodes the buffer as the native call left it. |
| P2PInterfaceModel.EmptyPollResetsOutputs | Runtime/EOSSDK/SDK/Source/Core/P2P/P2PInterface.cs:32-46 | When no packet arrives and the native side writes nothing, the result is NotFound. Channel and byte count are reset to 0. The peer id is rewritten for the zero address: a caller's object gets the zero handle, and a null reference becomes what `Helper.Get` makes of zero. The payload is untouched, the pins are restored, and a valid cached name is kept. |
| EosEnv.SearchPrefix | Runtime/EnvLayer/EOSEnv.cs:107-111 | The searched prefix always starts with '-' and ends with the given name. It is one character longer exactly when the name lacked the dash. |
| EosEnv.SearchPrefixIdempotent | Runtime/EnvLayer/EOSEnv.cs:107-111 | Adding the dash twice is the same as adding it once. |
| EosEnv.FirstWithPrefix | Runtime/EnvLayer/EOSEnv.cs:113-119 | Returns the lowest index from `from` onward whose argument starts with the prefix, or none when no argument from there does. |
| EosEnv.GetCommandLineArg | Runtime/EnvLayer/EOSEnv.cs:105-121 | Returns null exactly when no argument starts with the dashed name. Otherwise it returns an argument that does, with no earlier argument matching. |
| EosEnv.FindCommandLineArg | Runtime/EnvLayer/EOSEnv.cs:105-121 | The argument loop with its early return computes exactly the first-match lookup. |
| EosEnv.IndexOf | Runtime/EnvLayer/EOSEnv.cs:79 | Finds the first occurrence of the separator, and none exactly when the string lacks it. |
| EosEnv.SplitOnce | Runtime/EnvLayer/EOSEnv.cs:79 | Splitting on '=' with at most two parts gives the whole string when there is no '='. Otherwise it gives two parts that rejoin with '=' into the original, the first part free of '='. |
| EosEnv.GetCommandLineArgValue | Runtime/EnvLayer/EOSEnv.cs:74-94 | There is a value exactly when a matching argument exists and contains '='. That argument is then key + "=" + value, with no '=' in the key. |
| EosEnv.FirstMatchIsReturned | Runtime/EnvLayer/EOSEnv.cs:113-119 | The first argument that carries the prefix is the one returned. |
| EosEnv.IndexOfFirst | Runtime/EnvLayer/EOSEnv.cs:79 | A separator at index `i`, with none before it, is found at `i`. |
| EosEnv.ValueIsTextAfterFirstEquals | Runtime/EnvLayer/EOSEnv.cs:79-82 | This is the converse of the value contract. If the matched argument is key + "=" + text and the key has no '=', the value is the text, including any later '='. |
| EosEnv.NoMatchAt | Runtime/EnvLayer/EOSEnv.cs:115 | An argument that differs from the prefix at some position does not match it. |
| EosEnv.DashAdded | Runtime/EnvLayer/EOSEnv.cs:108-111 | A name that does not start with '-' is searched for with a dash in front. |
| EosEnv.SandboxIdFromFirstArgument | Runtime/EnvLayer/EOSEnv.cs:27-31 | The sandbox id is the text after `-epicsandboxid=` in the first argument that starts with `-epicsandboxid`. |
| EosEnv.GetSandboxId | Runtime/EnvLayer/EOSEnv.cs:27-31 | The sandbox id is the value lookup of `epicsandboxid`. |
| EosEnv.GetExchangeCodeToken | Runtime/EnvLayer/EOSEnv.cs:44-63 | The token is the AUTH_PASSWORD value, possibly null, when the AUTH_TYPE value is exactly "exchangecode". Otherwise it is null. |
| EosEnv.ValueOfFirstArgument | Runtime/EnvLayer/EOSEnv.cs:74-83 | For any arguments, when the first argument starting with `-name` is `-name=` followed by some text, the value is that text. |
| EosEnv.AuthTypeOfFirstArgument | Runtime/EnvLayer/EOSEnv.cs:46 | The AUTH_TYPE value is the text after `-AUTH_TYPE=` in the first argument starting with `-AUTH_TYPE`. |
| EosEnv.PasswordOfFirstArgument | Runtime/EnvLayer/EOSEnv.cs:49 | The AUTH_PASSWORD value is the text after `-AUTH_PASSWORD=` in the first argument starting with `-AUTH_PASSWORD`. |
| EosEnv.ExchangeCodeYieldsPassword | Runtime/EnvLayer/EOSEnv.cs:44-56 | For any arguments, when the first AUTH_TYPE argument is `-AUTH_TYPE=exchangecode` and the first AUTH_PASSWORD argument is `-AUTH_PASSWORD=` followed by `v`, the token is `v`. |
| EosEnv.OtherAuthTypeYieldsNull | Runtime/EnvLayer/EOSEnv.cs:47-62 | For any arguments, when the first AUTH_TYPE argument carries any other value, there is no token. |
| EosEnv.LauncherArgumentsYieldToken | Runtime/EnvLayer/EOSEnv.cs:44-56 | The launcher's exchange-code arguments yield the password as the token. |
| EosEnv.OtherAuthTypeYieldsNoToken | Runtime/EnvLayer/EOSEnv.cs:57-62 | A different auth type yields no token, even when a password is present. |
| EosEnv.LongerNameMatchesByPrefix | Runtime/EnvLayer/EOSEnv.cs:115-118 | Matching is by prefix: `-AUTH_TYPEX=other` listed first answers a lookup of `AUTH_TYPE`. |

## Left out

- Pinning and releasing are abstract. `Helper.AddPinnedBuffer`, `Helper.Dispose`, `Helper.Set` and `Helper.Get` are not part of this model. A null buffer is assumed to pin to a zero pointer. What `Helper.Get` makes of a zero address is a parameter (`PeerAllocation.nullForZero`): null, or a new `ProductUserId` wrapping zero. A non-zero address is assumed to be wrapped in a new `ProductUserId`. Disposing a native user handle is assumed to leave the pin table alone.
- The native calls `EOS_P2P_ReceivePacket` and `EOS_P2P_SendPacket` are left out because they are foreign code. The receive call is an arbitrary `NativeReceive`: it can write into the pinned socket-id and payload buffers, but cannot resize them.
- The managed `SendPacket` wrapper is not part of this model. Only the options marshalling it uses is modelled.
- `SOCKETID_API_LATEST`, `RECEIVEPACKET_API_LATEST` and `SENDPACKET_API_LATEST` are defined in the generated half of `P2PInterface`, which is not part of this model. The values 1, 2 and 3 stand in for them.
- The byte order `BitConverter` uses for the version tag is not modelled. `VersionTag` is an opaque four-byte constant.
- Characters are Dafny `char`s. UTF-16 surrogate pairs are not modelled; ASCII encoding maps any character at or above 0x80 to '?'.
- `StartsWith` is modelled as ordinal prefix comparison. The culture-sensitive comparison that .NET's single-argument `String.StartsWith` performs is not modelled.
- `Environment.GetCommandLineArgs` is replaced by an argument sequence parameter.
- The warnings `EOSCore.LogEOS` prints are not modelled, since they are output only.
- Reference aliasing is not modelled. Two `SocketId` copies that share one buffer array in C# are independent records here. A `ProductUserId`'s reference identity is a number, and the caller supplies the identity of a newly allocated one.
- `SocketIds.Empty`: `new SocketId()` has its cache flag false, because the struct's fields default to false. Either way the name reads null, since there is no buffer.
- `P2PInterfaceModel.ReceivePacket`: an empty poll does not leave every output as it was. The code resets `outChannel` and `outBytesWritten` to 0 before the native call. It also overwrites the peer id from the zero address the native side leaves behind: a caller's object gets the zero handle, and a null reference goes through `Helper.Get` of zero. The model follows the code.
- `P2PInterfaceModel.ReceivePacket`: when the body of the `try` throws, the outcome records only the socket id and the pins. Bytes the native side wrote into the caller's payload array before the throw are not part of it.
- `SendPacketOptionsModel.SetFrom`: the socket-id pointer is zero when the id is absent or has no buffer. A present id that never allocated storage has a null buffer, so it is not pinned either.

## Findings

| source | as written | input that shows it | evidently intended | confidence | as-written member | corrected member |
|---|---|---|---|---|---|---|
| Runtime/EOSSDK/SDK/Source/Core/P2P/P2PInterface.cs:26-30 | The socket-id and payload buffers are pinned before the `try`. The options constructor then pins the channel buffer (ReceivePacketOptions.cs:68-71) and dereferences `LocalUserId` (ReceivePacketOptions.cs:72). A null id therefore throws a NullReferenceException that the `finally` block never sees. The leak is shown by `P2PInterfaceModel.NullUserLeaksPins` and `ReceivePacketOptionsModel.NullUserLeaksChannelPin`. The corrected wrapper restores the pins on every path. It agrees with the code whenever the user is non-null, even when the body of the `try` throws (`P2PInterfaceModel.ReceivePacketAgreesWithNonNullUser`). On a null user it differs only in the pins (`P2PInterfaceModel.NullUserDiffersOnlyInPins`). | `options.LocalUserId == null`, with any channel filter | Every pin is released on every exit path. Line 26 still runs first; the null check of the local user id moves after it and before the pinning at lines 27-28. | medium, not executed | P2PInterfaceModel.ReceivePacketAsWritten | P2PInterfaceModel.ReceivePacket |
