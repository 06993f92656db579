# GxNetwork replication core, modelled in Dafny

This project models the replication and remote-call layer of GxNetwork and proves properties of the model. The layer covers:

- the byte buffer and its two cursor streams;
- the fixed-layout codecs of GUIDs, headers, vectors of three floats, strings and integral vectors;
- the typed properties and the self-describing property block of an object;
- the event and command variants and their batch decoders;
- the peers of the network manager;
- the engine, with its class factory, object list, role rules, events loop and snapshot reader and writer.

Stateful C++ classes become Dafny classes whose methods are proved against value-level functions:

- `FBuffer` becomes `Buffers.Buffer`;
- `FIStream`/`FOStream` become `Streams.IStream`/`Streams.OStream`;
- `FObject` becomes `NetObjects.NetObject`;
- `FRemoteEngine` becomes `Remotes.RemoteEngine`;
- `FManager` becomes `Managers.Manager`;
- `FEngineClassFactory` becomes `Factories.ClassFactory`;
- `FEngine` becomes `Engines.Engine`.

A writer stream inserts at its cursor rather than overwriting. So every size field is written after its payload, by rewinding the cursor and inserting the size in front. The model does the same, and the round-trip lemmas show that what is written this way reads back.

Modules, in dependency order:

- `Options`: `Option` and the `Parsed` result of a decoder.
- `Bytes`: bytes, 32-bit truncation, little-endian words, two's complement.
- `Buffers`: `FBuffer` and the insert/resize algebra.
- `Streams`: `FIStream`, `FOStream`, typed reads and writes.
- `NetTypes`: GUID, Vec3f, header, string, integral vector and sized byte run codecs; GUID equality.
- `Properties`: property type tags, the C++ type to tag map, payload codecs.
- `Registries`: the `std::map` registries as key-ordered association lists.
- `Objects`: roles, declarations and the property block as values (writer and reader).
- `NetObjects`: `FObject` as a class, with its serialize and deserialize loops.
- `Events`, `Commands`: the two tagged unions and their batch decoders.
- `Remotes`, `Managers`: peers, broadcast, connect/disconnect and the `ProcessResponse` demultiplexer.
- `Factories`: the class factory.
- `Worlds`: the engine's object list as values, and the role tables.
- `EventEffects`: the events loop of `ReplicateEvents` as a function, with its properties.
- `Snapshots`: the replication frame writer and reader as functions, with the round trip and the Server rule.
- `Engines`: `FEngine`, proved against `Worlds`, `EventEffects` and `Snapshots`.

The C++ virtual hooks become parameters or logs:

- the results of `OnInit` and of the manager's `OnInit` are boolean parameters;
- a command handler (`OnProcessResponse*`) is a function from the peer and the decoded command to its result and the bytes it writes;
- `OnObjectCreated`/`OnObjectRemoved` and `OnRemoteEngineConnected`/`OnRemoteEngineDisconnected` calls are recorded in ghost logs;
- an `FFunction::Exec` call is recorded as a `Call` of the function's identity with its parameter bytes.

`GX_NETWORK_ASSERT` expands to nothing, so its conditions are not checked at run time; the model states them as preconditions.

## Model

| member | source | states |
|---|---|---|
| `Bytes.Trunc32` | GxNetwork/Include/Common/Network.h:20 | the `(uint32_t)` cast of a size: the value itself below 2^32, never more than it |
| `Bytes.LeBytes` | GxNetwork/Include/Common/NetworkStream.h:120-126 | a typed write's bytes: exactly `sizeof(T)` of them |
| `Bytes.LeValue` | GxNetwork/Include/Common/NetworkStream.h:76-81 | a typed read's value fits in `sizeof(T)` bytes |
| `Bytes.LeValueOfBytes` | GxNetwork/Include/Common/NetworkStream.h:76-126 | reading back the bytes of a written value yields the value |
| `Bytes.LeBytesOfValue` | GxNetwork/Include/Common/NetworkStream.h:76-126 | any `sizeof(T)` bytes are the encoding of the value read from them |
| `Bytes.LeBytesInjective` | GxNetwork/Include/Common/NetworkStream.h:120-126 | distinct values of one width are written as distinct bytes |
| `Bytes.Le32` | GxNetwork/Include/Common/NetworkStream.h:120-126 | a uint32 field is four bytes that read back as the value cut to 32 bits |
| `Bytes.ToUnsigned` | GxNetwork/Include/Common/NetworkStream.h:120-126 | the bit pattern a signed field is written as fits its width |
| `Bytes.ToSigned` | GxNetwork/Include/Common/NetworkStream.h:76-81 | a signed field read from its bytes lies in the signed range of its width |
| `Bytes.SignedRoundTrip` | GxNetwork/Include/Common/NetworkStream.h:76-126 | a signed value written and read back is unchanged |
| `Buffers.Inserted` | GxNetwork/Src/Common/NetworkBuffer.cpp:68-71 | an insert lengthens the buffer by exactly the inserted bytes |
| `Buffers.InsertAtEndIsAppend` | GxNetwork/Src/Common/NetworkBuffer.cpp:63-71 | inserting at the current size is appending |
| `Buffers.InsertedWindow` | GxNetwork/Src/Common/NetworkBuffer.cpp:68-71 | the inserted bytes sit at the insert position |
| `Buffers.InsertedTwice` | GxNetwork/Src/Common/NetworkStream.cpp:59-63 | two writes in a row insert their concatenation |
| `Buffers.InsertedBefore` | GxNetwork/Src/Engine/NetworkObject.cpp:158-163 | an insert at the position of an earlier insert lands in front of it: a size written after its payload, at the payload's start, ends up before the payload |
| `Buffers.Resized` | GxNetwork/Src/Common/NetworkBuffer.cpp:33-36 | `resize(n)`: exactly `n` bytes, the first `min(n, size)` kept, the rest zero |
| `Buffers.Buffer.constructor` | GxNetwork/Src/Common/NetworkBuffer.cpp:8-11 | a new buffer is empty whatever capacity it reserves |
| `Buffers.Buffer.Clear` | GxNetwork/Src/Common/NetworkBuffer.cpp:28-31 | the buffer is empty afterwards |
| `Buffers.Buffer.Resize` | GxNetwork/Src/Common/NetworkBuffer.cpp:33-36 | the contents become `Resized(old, n)` |
| `Buffers.Buffer.Reserve` | GxNetwork/Src/Common/NetworkBuffer.cpp:38-41 | the contents do not change |
| `Buffers.Buffer.Size` | GxNetwork/Src/Common/NetworkBuffer.cpp:43-46 | the number of bytes held |
| `Buffers.Buffer.Capacity` | GxNetwork/Src/Common/NetworkBuffer.cpp:48-51 | the capacity, never below the size; nothing changes |
| `Buffers.Buffer.Data` | GxNetwork/Src/Common/NetworkBuffer.cpp:58-61 | the bytes held; nothing changes |
| `Buffers.Buffer.Append` | GxNetwork/Src/Common/NetworkBuffer.cpp:63-66 | the contents become old ++ chunk, longer by the chunk's length |
| `Buffers.Buffer.Insert` | GxNetwork/Src/Common/NetworkBuffer.cpp:68-71 | the contents become old[..p] ++ chunk ++ old[p..] |
| `Streams.IStream.constructor` | GxNetwork/Src/Common/NetworkStream.cpp:21-26 | a reader starts at position 0 of its buffer |
| `Streams.IStream.Pos` | GxNetwork/Src/Common/NetworkStream.cpp:11-14 | the cursor |
| `Streams.IStream.SetPos` | GxNetwork/Src/Common/NetworkStream.cpp:16-19 | only the cursor moves |
| `Streams.IStream.IsEOF` | GxNetwork/Src/Common/NetworkStream.cpp:33-37 | true exactly when the cursor is at the end of the buffer |
| `Streams.IStream.Read` | GxNetwork/Src/Common/NetworkStream.cpp:39-45 | the `n` bytes at the cursor; the cursor moves by `n`; requires the read to stay in the buffer |
| `Streams.IStream.ReadWord` | GxNetwork/Include/Common/NetworkStream.h:76-81 | a typed read consumes `sizeof(T)` bytes and yields the value they encode |
| `Streams.IStream.ReadByte` | GxNetwork/Include/Common/NetworkStream.h:76-81 | the byte at the cursor; the cursor moves by one |
| `Streams.IStream.ReadU32` | GxNetwork/Include/Common/NetworkStream.h:76-81 | the uint32 at the cursor; the cursor moves by four |
| `Streams.OStream.constructor` | GxNetwork/Src/Common/NetworkStream.cpp:47-52 | a writer starts at the end of its buffer |
| `Streams.OStream.Pos` | GxNetwork/Src/Common/NetworkStream.cpp:11-14 | the cursor |
| `Streams.OStream.SetPos` | GxNetwork/Src/Common/NetworkStream.cpp:16-19 | only the cursor moves, the contents stay |
| `Streams.OStream.Write` | GxNetwork/Src/Common/NetworkStream.cpp:59-63 | the chunk is inserted at the cursor, later bytes shift right, the cursor moves past it |
| `Streams.OStream.WriteWord` | GxNetwork/Include/Common/NetworkStream.h:120-126 | a typed write inserts the `sizeof(T)` bytes of the value at the cursor |
| `Streams.OStream.WriteByte` | GxNetwork/Include/Common/NetworkStream.h:120-126 | one byte inserted at the cursor |
| `Streams.OStream.WriteU32` | GxNetwork/Include/Common/NetworkStream.h:120-126 | four bytes of the uint32 inserted at the cursor |
| `Streams.WordWriteThenRead` | GxNetwork/Include/Common/NetworkStream.h:76-126 | a value written at a position and read back from it is the same value |
| `Streams.WriteAllIsOneInsert` | GxNetwork/Src/Common/NetworkStream.cpp:47-63 | writes with no `SetPos` between them insert their concatenation, and from a fresh writer append it |
| `NetTypes.GuidEq` | GxNetwork/Src/Common/NetworkTypes.cpp:76-79 | true exactly when all four components agree |
| `NetTypes.GuidNe` | GxNetwork/Src/Common/NetworkTypes.cpp:81-84 | the exact negation of `==` |
| `NetTypes.IndexOf` | GxNetwork/Src/Engine/NetworkEngine.cpp:348-358 | the first position holding the GUID, and none exactly when it is absent |
| `NetTypes.EncodeGuid` | GxNetwork/Src/Common/NetworkTypes.cpp:95-102 | 16 bytes |
| `NetTypes.DecodeGuid` | GxNetwork/Src/Common/NetworkTypes.cpp:86-93 | defined exactly when 16 bytes remain, and consumes them |
| `NetTypes.GuidRoundTrip` | GxNetwork/Src/Common/NetworkTypes.cpp:86-102 | an encoded GUID decodes to itself from wherever it sits |
| `NetTypes.GuidDecodeEncode` | GxNetwork/Src/Common/NetworkTypes.cpp:86-102 | any 16 bytes are the encoding of the GUID they decode to |
| `NetTypes.U32Bytes` | GxNetwork/Include/Common/NetworkStream.h:76-126 | any four bytes are the uint32 field of the value they decode to |
| `NetTypes.WriteGuid` | GxNetwork/Src/Common/NetworkTypes.cpp:95-102 | inserts A, B, C, D at the cursor, 16 bytes |
| `NetTypes.ReadGuid` | GxNetwork/Src/Common/NetworkTypes.cpp:86-93 | reads A, B, C, D, as `DecodeGuid` does |
| `NetTypes.EncodeVec3f` | GxNetwork/Src/Common/NetworkTypes.cpp:68-74 | 12 bytes |
| `NetTypes.DecodeVec3f` | GxNetwork/Src/Common/NetworkTypes.cpp:60-66 | defined exactly when 12 bytes remain, and consumes them |
| `NetTypes.Vec3fRoundTrip` | GxNetwork/Src/Common/NetworkTypes.cpp:60-74 | x, y, z written and read back in order |
| `NetTypes.WriteVec3f` | GxNetwork/Src/Common/NetworkTypes.cpp:68-74 | inserts x, y, z at the cursor, 12 bytes |
| `NetTypes.ReadVec3f` | GxNetwork/Src/Common/NetworkTypes.cpp:60-66 | reads x, y, z, as `DecodeVec3f` does |
| `NetTypes.EncodeHeader` | GxNetwork/Src/Common/NetworkTypes.cpp:114-122 | 20 bytes |
| `NetTypes.DecodeHeader` | GxNetwork/Src/Common/NetworkTypes.cpp:104-112 | defined exactly when 20 bytes remain, and consumes them |
| `NetTypes.HeaderRoundTrip` | GxNetwork/Src/Common/NetworkTypes.cpp:104-122 | GUID[0..3] then PacketSize, written and read back |
| `NetTypes.WriteHeader` | GxNetwork/Src/Common/NetworkTypes.cpp:114-122 | inserts the header's 20 bytes at the cursor |
| `NetTypes.ReadHeader` | GxNetwork/Src/Common/NetworkTypes.cpp:104-112 | reads the header, as `DecodeHeader` does |
| `NetTypes.CStringRun` | GxNetwork/Src/Common/NetworkTypes.cpp:129 | the text built from a `const char*` is the NUL-free run up to the first NUL |
| `NetTypes.CStringAt` | GxNetwork/Src/Common/NetworkTypes.cpp:129 | a NUL-free run followed by a NUL is read as exactly that run |
| `NetTypes.EncodeString` | GxNetwork/Src/Common/NetworkTypes.cpp:133-140 | uint32 (length + 1), then the text and its NUL |
| `NetTypes.StringRoundTrip` | GxNetwork/Src/Common/NetworkTypes.cpp:124-140 | a string without NUL decodes to itself and consumes exactly 4 + size bytes |
| `NetTypes.StringWithNulTruncates` | GxNetwork/Src/Common/NetworkTypes.cpp:124-140 | a string with an embedded NUL decodes to its part before the NUL, the cursor still past the whole encoding |
| `NetTypes.CStringFrom` | GxNetwork/Src/Common/NetworkTypes.cpp:129 | the scan for the NUL returns the text `CString` defines |
| `NetTypes.WriteString` | GxNetwork/Src/Common/NetworkTypes.cpp:133-140 | inserts `EncodeString(str)` at the cursor |
| `NetTypes.ReadString` | GxNetwork/Src/Common/NetworkTypes.cpp:124-131 | reads the size, moves past that many bytes, yields the text up to the NUL, as `DecodeString` does |
| `NetTypes.IntBytes` | GxNetwork/Include/Common/NetworkTypes.h:221-229 | one element is `sizeof(T)` raw bytes |
| `NetTypes.IntOfBytes` | GxNetwork/Include/Common/NetworkTypes.h:204-213 | an element copied from raw bytes lies in its type's range |
| `NetTypes.IntRoundTrip` | GxNetwork/Include/Common/NetworkTypes.h:204-229 | an element's raw bytes copy back to the element |
| `NetTypes.RawInts` | GxNetwork/Include/Common/NetworkTypes.h:227 | the raw bytes of a vector are count × `sizeof(T)` long |
| `NetTypes.IntsOfRaw` | GxNetwork/Include/Common/NetworkTypes.h:210-211 | the elements copied from raw bytes are in range |
| `NetTypes.IntsOfRawInts` | GxNetwork/Include/Common/NetworkTypes.h:204-229 | the raw bytes of a vector copy back to its elements |
| `NetTypes.EncodeVector` | GxNetwork/Include/Common/NetworkTypes.h:221-229 | uint32 byte length = count × `sizeof(T)`, then the raw elements |
| `NetTypes.VectorRoundTrip` | GxNetwork/Include/Common/NetworkTypes.h:204-229 | an integral vector decodes to itself and consumes exactly 4 + length bytes |
| `NetTypes.RawIntsWhole` | GxNetwork/Include/Common/NetworkTypes.h:210 | an encoded vector's length is a whole number of elements |
| `NetTypes.WriteVector` | GxNetwork/Include/Common/NetworkTypes.h:221-229 | inserts `EncodeVector` at the cursor |
| `NetTypes.ReadVector` | GxNetwork/Include/Common/NetworkTypes.h:204-213 | reads the length, the elements and moves past 4 + length bytes, as `DecodeVector` does |
| `NetTypes.EncodeSized` | GxNetwork/Include/Network/NetworkEvent.h:159-160 | uint32 size then the bytes; a run of 2^32 bytes or more carries only its truncated count |
| `NetTypes.DecodeSized` | GxNetwork/Include/Network/NetworkEvent.h:148-149 | a size and that many bytes, which end inside the buffer |
| `NetTypes.SizedRoundTrip` | GxNetwork/Include/Network/NetworkEvent.h:144-161 | a sized run decodes to itself and the cursor ends right after it |
| `NetTypes.WriteSized` | GxNetwork/Include/Network/NetworkEvent.h:159-160 | inserts `EncodeSized` at the cursor |
| `NetTypes.ReadSized` | GxNetwork/Include/Network/NetworkEvent.h:148-149 | reads the size and the bytes, as `DecodeSized` does |
| `Properties.Tag` | GxNetwork/Include/Engine/NetworkProperty.h:24-38 | each type's `EType` byte is one of the twelve values 0 to 11 |
| `Properties.TagInjective` | GxNetwork/Include/Engine/NetworkProperty.h:88-158 | two types have the same tag exactly when they are the same type, so each C++ type maps to exactly one tag |
| `Properties.ElementTypeOf` | GxNetwork/Src/Engine/NetworkProperty.cpp:23-36 | a vector property's element type is an integral one, with a tag from 0 to 5 |
| `Properties.DecodePayload` | GxNetwork/Include/Engine/NetworkProperty.h:226-229 | a payload read into a property yields a value of the property's own type and ends inside the buffer |
| `Properties.IntegralRoundTrip` | GxNetwork/Include/Engine/NetworkProperty.h:226-237 | an integral payload is read back as written |
| `Properties.FloatRoundTrip` | GxNetwork/Include/Engine/NetworkProperty.h:226-237 | a float payload (its four-byte word) is read back as written |
| `Properties.DoubleRoundTrip` | GxNetwork/Include/Engine/NetworkProperty.h:226-237 | a double payload (its eight-byte word) is read back as written |
| `Properties.StrRoundTrip` | GxNetwork/Include/Engine/NetworkProperty.h:226-237 | a string payload without NUL is read back as written |
| `Properties.VectorPayloadRoundTrip` | GxNetwork/Include/Engine/NetworkProperty.h:276-287 | a vector payload is read back as written |
| `Properties.Vec3PayloadRoundTrip` | GxNetwork/Include/Engine/NetworkProperty.h:226-237 | a Vec3f payload is read back as written |
| `Properties.IdPayloadRoundTrip` | GxNetwork/Include/Engine/NetworkProperty.h:226-237 | a GUID payload is read back as written |
| `Properties.PayloadRoundTrip` | GxNetwork/Include/Engine/NetworkProperty.h:226-287 | a property of the same type reads the payload of any transmissible value back to that value, consuming exactly the payload |
| `Properties.PayloadWriteThenRead` | GxNetwork/Include/Engine/NetworkProperty.h:226-287 | a payload inserted at a position is read back from that position |
| `Properties.WritePayload` | GxNetwork/Include/Engine/NetworkProperty.h:234-237 | `stream << _target`: inserts the bound value's payload codec, with no name or tag |
| `Properties.ReadPayload` | GxNetwork/Include/Engine/NetworkProperty.h:226-229 | `stream >> _target`: the value `DecodePayload` reads, for the property's type |
| `Registries.LessIrreflexive` | GxNetwork/Include/Engine/NetworkObject.h:172-173 | no name orders before itself in the `std::string` order of the registries |
| `Registries.LessTransitive` | GxNetwork/Include/Engine/NetworkObject.h:172-173 | the registry key order is transitive |
| `Registries.LessTotal` | GxNetwork/Include/Engine/NetworkObject.h:172-173 | any two different names are ordered one way or the other |
| `Registries.LessAsymmetric` | GxNetwork/Include/Engine/NetworkObject.h:172-173 | no two names order both ways |
| `Registries.Keys` | GxNetwork/Include/Engine/NetworkObject.h:172-173 | the names of a registry, one per entry, in iteration order |
| `Registries.Find` | GxNetwork/Src/Engine/NetworkObject.cpp:41-59 | the lookup finds a value exactly when the name is registered, and what it finds is stored under that name |
| `Registries.Lookup` | GxNetwork/Src/Engine/NetworkObject.cpp:41-59 | the loop over the registry that stops at the first entry with the name returns what `Find` specifies |
| `Registries.FindStored` | GxNetwork/Src/Engine/NetworkObject.cpp:41-59 | in a key-ordered registry, a stored entry is what the lookup of its name returns |
| `Registries.Insert` | GxNetwork/Src/Engine/NetworkObject.cpp:65 | `map[name] = value` on a new name adds one entry |
| `Registries.InsertEntries` | GxNetwork/Src/Engine/NetworkObject.cpp:65 | inserting keeps every old entry, adds the new one and nothing else |
| `Registries.InsertSorted` | GxNetwork/Src/Engine/NetworkObject.cpp:65 | inserting a new name keeps the registry in key order |
| `Registries.FindInsert` | GxNetwork/Src/Engine/NetworkObject.cpp:65 | after inserting, the new name finds the new value and every other name finds what it found before |
| `Registries.Register` | GxNetwork/Src/Engine/NetworkObject.cpp:61-75 | registration succeeds exactly when the name is not yet registered; a refused one leaves the registry unchanged; an accepted one adds exactly one entry and keeps key order |
| `Registries.FindRegister` | GxNetwork/Src/Engine/NetworkObject.cpp:61-75 | after a registration, the name finds the new value if it was accepted and the old one otherwise; other names are unaffected |
| `Registries.RegisterTwice` | GxNetwork/Src/Engine/NetworkObject.cpp:61-75 | registering a name a second time fails and changes nothing, so the first registration wins |
| `Registries.Update` | GxNetwork/Include/Engine/NetworkProperty.h:226-229 | giving a registered property a new value keeps every name and changes only the entry of that name |
| `Registries.UpdateSorted` | GxNetwork/Include/Engine/NetworkProperty.h:226-229 | a value update keeps the registry in key order |
| `Registries.FindUpdate` | GxNetwork/Include/Engine/NetworkProperty.h:226-229 | after an update, the name finds the new value if it was registered; other names are unaffected |
| `Objects.ValidRoleExactlyOne` | GxNetwork/Src/Engine/NetworkObject.cpp:14-22 | a role passes the constructor's checks exactly when it holds one of Proxy/Authority and one of RemoteProxy/RemoteAuthority |
| `Objects.Declare` | GxNetwork/Src/Engine/NetworkProperty.cpp:7-11 | the member constructors' registrations keep the registry in key order and add only declared entries |
| `Objects.DeclareFirstWins` | GxNetwork/Src/Engine/NetworkFunction.cpp:7-11 | after the declarations a name finds its existing binding, else its first declaration |
| `Objects.DeclareWellTyped` | GxNetwork/Src/Engine/NetworkProperty.cpp:7-11 | declaring well-typed properties gives a well-typed registry |
| `Objects.TypeTags` | GxNetwork/Src/Engine/NetworkObject.cpp:152-157 | the type tag is written first, and the element tag follows exactly when the property is a vector |
| `Objects.EntryBytes` | GxNetwork/Src/Engine/NetworkObject.cpp:151-163 | an entry is the name, the tags, a 4-byte size and the payload |
| `Objects.EncodeEntry` | GxNetwork/Src/Engine/NetworkObject.cpp:151-163 | an encoded entry is longer than its 4-byte size field |
| `Objects.DecodeEntryHead` | GxNetwork/Src/Engine/NetworkObject.cpp:101-114 | a head that reads ends past its start and inside the buffer |
| `Objects.DecodeHeadTail` | GxNetwork/Src/Engine/NetworkObject.cpp:104-114 | the tags and size after a name end inside the buffer |
| `Objects.UpdateSameLayout` | GxNetwork/Src/Engine/NetworkObject.cpp:115-119 | a property receiving a value of its own type keeps the names, order and types of the registry |
| `Objects.ApplyEntry` | GxNetwork/Src/Engine/NetworkObject.cpp:99-141 | one pass of the loop moves the cursor forward within the buffer |
| `Objects.ReceiveLayout` | GxNetwork/Src/Engine/NetworkObject.cpp:115-137 | receiving or skipping a payload never renames, reorders or retypes a property |
| `Objects.ApplyEntryLayout` | GxNetwork/Src/Engine/NetworkObject.cpp:99-141 | one pass of the loop keeps the registry layout |
| `Objects.DecodeEntriesLayout` | GxNetwork/Src/Engine/NetworkObject.cpp:99-141 | whatever the bytes, the whole loop keeps the registry layout |
| `Objects.DecodeBlockCursor` | GxNetwork/Src/Engine/NetworkObject.cpp:95-97 | whatever the bytes, deserializing leaves the cursor at the block start plus 4 plus the size read (lines 142-143) |
| `Objects.DecodeBlockLayout` | GxNetwork/Src/Engine/NetworkObject.cpp:93-144 | whatever the bytes, deserializing keeps the names, order and types of the properties |
| `Objects.HeadRoundTrip` | GxNetwork/Src/Engine/NetworkObject.cpp:101-114 | the head written in front of a payload reads back as the name, tags and size written |
| `Objects.EntryHeadRoundTrip` | GxNetwork/Src/Engine/NetworkObject.cpp:146-163 | an encoded entry's head reads back, and its payload fills the rest of the entry |
| `Objects.PayloadOfEntry` | GxNetwork/Include/Engine/NetworkProperty.h:226-237 | an entry's payload decodes back to the entry's value |
| `Objects.AcceptsSameType` | GxNetwork/Src/Engine/NetworkObject.cpp:116-117 | a property accepts the tags written for a value exactly when it has the value's type |
| `Objects.DecodePayloadByType` | GxNetwork/Include/Engine/NetworkProperty.h:226-229 | reading a payload depends only on the receiving property's type |
| `Objects.ReceiveOf` | GxNetwork/Src/Engine/NetworkObject.cpp:115-120 | a registered property of the entry's type receives the value its payload decodes to |
| `Objects.ReceiveSkips` | GxNetwork/Src/Engine/NetworkObject.cpp:121-137 | a missing property, or one of another type, leaves the registry unchanged |
| `Objects.ApplyEntryRoundTrip` | GxNetwork/Src/Engine/NetworkObject.cpp:99-141 | an encoded entry whose property is registered with its type is received into that property, with the cursor past the entry |
| `Objects.ApplyEntrySkips` | GxNetwork/Src/Engine/NetworkObject.cpp:121-140 | an entry with no matching property is stepped over by its size and changes nothing |
| `Objects.DecodeEntriesSkipsMismatch` | GxNetwork/Src/Engine/NetworkObject.cpp:99-141 | skipping an entry does not stop the loop: the entries after it are still applied |
| `Objects.LaidEnd` | GxNetwork/Src/Engine/NetworkObject.cpp:99-141 | where the reader ends after the given entries, never behind where it started |
| `Objects.EntriesOfLaid` | GxNetwork/Src/Engine/NetworkObject.cpp:99-141 | the loop over laid-out entries into a registry of the same layout yields exactly those entries |
| `Objects.EntriesRoundTrip` | GxNetwork/Src/Engine/NetworkObject.cpp:99-169 | the loop reading the written entries, into a registry of the same layout, restores every value |
| `Objects.BlockRoundTrip` | GxNetwork/Src/Engine/NetworkObject.cpp:93-169 | serializing then deserializing into an object with the same layout restores every property value and leaves the cursor just past the block |
| `NetObjects.WriteEntryHead` | GxNetwork/Src/Engine/NetworkObject.cpp:151-157 | the name and tags are inserted at the cursor, which moves past them |
| `NetObjects.WriteSizedPayload` | GxNetwork/Src/Engine/NetworkObject.cpp:158-163 | the payload, then its size in front of it, are inserted at the cursor, which ends past both |
| `NetObjects.WriteEntry` | GxNetwork/Src/Engine/NetworkObject.cpp:151-163 | one loop round inserts exactly the encoded entry at the cursor |
| `NetObjects.EntryInserted` | GxNetwork/Src/Engine/NetworkObject.cpp:151-163 | the head insertion followed by the sized payload equals inserting the entry in one piece |
| `NetObjects.WriteEntries` | GxNetwork/Src/Engine/NetworkObject.cpp:149-164 | the loop over the registry inserts the encoded entries, in key order, at the cursor |
| `NetObjects.NetObject.constructor` | GxNetwork/Src/Engine/NetworkObject.cpp:8-24 | the object keeps its GUID, role and class name, has no calls yet, and holds the registries its member declarations build |
| `NetObjects.NetObject.GetProperty` | GxNetwork/Src/Engine/NetworkObject.cpp:51-59 | the property registered under the name, or none |
| `NetObjects.NetObject.GetFunction` | GxNetwork/Src/Engine/NetworkObject.cpp:41-49 | the function registered under the name, or none |
| `NetObjects.NetObject.RegisterProperty` | GxNetwork/Src/Engine/NetworkObject.cpp:69-75 | the property registry changes as `Register` says; the functions and calls do not change |
| `NetObjects.NetObject.RegisterFunction` | GxNetwork/Src/Engine/NetworkObject.cpp:61-67 | the function registry changes as `Register` says; the properties and calls do not change |
| `NetObjects.NetObject.ExecFunction` | GxNetwork/Src/Engine/NetworkObject.cpp:77-86 | true exactly when the name is registered, and then one call of that function with those parameter bytes is logged; the registries are kept as they were, because the member function's own effect on the properties is not modelled (see Left out) |
| `NetObjects.NetObject.Serialize` | GxNetwork/Src/Engine/NetworkObject.cpp:146-169 | the property block, size first, is inserted at the cursor, which ends past it |
| `NetObjects.NetObject.Deserialize` | GxNetwork/Src/Engine/NetworkObject.cpp:93-144 | the new properties and cursor are what the block decoder gives; the functions and calls do not change |
| `NetObjects.ReadBlock` | GxNetwork/Src/Engine/NetworkObject.cpp:95-143 | the registry and cursor after reading are the block decoder's |
| `NetObjects.SerializedBlockDecodes` | GxNetwork/Src/Engine/NetworkObject.cpp:93-169 | what `Serialize` inserts, decoding into a peer object with the same layout gives back every property value, with the cursor past the block |
| `NetObjects.ReadEntryHead` | GxNetwork/Src/Engine/NetworkObject.cpp:101-114 | the head read is the decoder's and the cursor is at the payload |
| `NetObjects.ReadEntry` | GxNetwork/Src/Engine/NetworkObject.cpp:101-140 | one loop round yields the registry and cursor of `ApplyEntry` |
| `NetObjects.ReadEntries` | GxNetwork/Src/Engine/NetworkObject.cpp:99-141 | the loop yields the registry of `DecodeEntries` over the block |
| `Factories.FoundClassValid` | GxNetwork/Src/Engine/NetworkEngine.cpp:42-53 | the creator a registered class name finds builds objects whose properties are well typed |
| `Factories.ClassFactory.constructor` | GxNetwork/Src/Engine/NetworkEngine.cpp:16-18 | the factory starts with no class registered |
| `Factories.ClassFactory.FindClass` | GxNetwork/Src/Engine/NetworkEngine.cpp:42-53 | the creator registered under the name, found exactly when the name is registered |
| `Factories.ClassFactory.RegisterClass` | GxNetwork/Src/Engine/NetworkEngine.cpp:61-72 | succeeds exactly when the name is new; the name then finds the new creator, and a refused name keeps its first creator |
| `Events.Tag` | GxNetwork/Include/Network/NetworkEvent.h:11-17 | every event's tag is below `EEvent::MaxValue` |
| `Events.DecodeEvent` | GxNetwork/Include/Network/NetworkEvent.h:87-150 | a decoded event has the tag it was read for, and its fields (at least a GUID) end inside the buffer |
| `Events.CreateObjectRoundTrip` | GxNetwork/Include/Network/NetworkEvent.h:87-102 | GUID, class name and owner GUID written in that order read back as the same event |
| `Events.ExecFunctionRemoteRoundTrip` | GxNetwork/Include/Network/NetworkEvent.h:144-161 | GUID, function name and sized parameters read back as the same event |
| `Events.EventRoundTrip` | GxNetwork/Include/Network/NetworkEvent.h:87-161 | every event whose strings carry no NUL reads back as itself, with the cursor at the end of its fields |
| `Events.ParseEventsCons` | GxNetwork/Src/Engine/NetworkEngine.cpp:255-301 | one round of the events loop reads a tag and its event, then the loop goes on from there |
| `Events.FrameHead` | GxNetwork/Include/Network/NetworkRemoteEngine.h:43-51 | an events frame starts with the first event's tag and fields, and the rest of the frame holds the other events |
| `Events.FrameRoundTrip` | GxNetwork/Include/Network/NetworkRemoteEngine.h:43-51 | a frame of pushed events read by the events loop gives back exactly those events, and the loop ends at the end of the frame |
| `Events.FrameSnoc` | GxNetwork/Include/Network/NetworkRemoteEngine.h:43-51 | pushing one more event appends its tag and fields to the frame |
| `Events.WriteEvent` | GxNetwork/Include/Network/NetworkEvent.h:97-161 | the event's fields are inserted at the cursor, which moves past them |
| `Events.ReadEvent` | GxNetwork/Include/Network/NetworkEvent.h:87-150 | the event and cursor after reading are the decoder's |
| `Commands.Tag` | GxNetwork/Include/Network/NetworkAPI.h:11-23 | every command's tag is below `ECommand::MaxValue` |
| `Commands.Empty` | GxNetwork/Include/Network/NetworkCommand.h:67-131 | the command of a tag whose variant has no fields carries that tag |
| `Commands.DecodeCommand` | GxNetwork/Include/Network/NetworkCommand.h:67-210 | a decoded command has the tag it was read for; a frame reply reads at least its size field; the cursor stays inside the buffer |
| `Commands.CommandRoundTrip` | GxNetwork/Include/Network/NetworkCommand.h:67-210 | every command written reads back as itself, with the cursor at the end of its fields |
| `Commands.PacketRoundTrip` | GxNetwork/Src/Network/NetworkManager.cpp:47-117 | a packet of written commands read by the `ProcessResponse` loop gives back exactly those commands, to the end of the packet |
| `Commands.WriteCommand` | GxNetwork/Include/Network/NetworkCommand.h:81-209 | the command's fields are inserted at the cursor, which moves past them |
| `Commands.ReadCommand` | GxNetwork/Include/Network/NetworkCommand.h:73-200 | the command and cursor after reading are the decoder's |
| `Remotes.RemoteEngine.constructor` | GxNetwork/Src/Network/NetworkRemoteEngine.cpp:6-9 | the peer keeps its GUID and starts with an empty events frame of its own |
| `Remotes.RemoteEngine.GetGUID` | GxNetwork/Src/Network/NetworkRemoteEngine.cpp:15-18 | the peer's GUID |
| `Remotes.RemoteEngine.GetEventsFrame` | GxNetwork/Src/Network/NetworkRemoteEngine.cpp:20-23 | the peer's own events frame |
| `Remotes.RemoteEngine.PushEvent` | GxNetwork/Include/Network/NetworkRemoteEngine.h:43-51 | the event's tag and fields are appended to the frame, after everything queued before |
| `Managers.Guids` | GxNetwork/Src/Network/NetworkManager.cpp:140-149 | the peers' GUIDs, in list order |
| `Managers.ConnectIdempotent` | GxNetwork/Src/Network/NetworkManager.cpp:122-129 | connecting a peer twice is connecting it once, and afterwards it is connected |
| `Managers.WithoutMembers` | GxNetwork/Src/Network/NetworkManager.cpp:160-175 | the peers left after removal are exactly the old peers with another GUID |
| `Managers.WithoutDistinct` | GxNetwork/Src/Network/NetworkManager.cpp:160-175 | removal keeps the peers' GUIDs and frames distinct |
| `Managers.WithoutKeepsOthers` | GxNetwork/Src/Network/NetworkManager.cpp:160-175 | removing one GUID leaves every other peer connected or not as before |
| `Managers.RunSucceeds` | GxNetwork/Src/Network/NetworkManager.cpp:45-119 | a run of commands succeeds exactly when every handler does, and then the output is every handler's output in order |
| `Managers.RunStops` | GxNetwork/Src/Network/NetworkManager.cpp:45-119 | the first failing handler ends the run: the result is false and the output stops with that handler's |
| `Managers.RespondSucceeds` | GxNetwork/Src/Network/NetworkManager.cpp:45-119 | the loop returns true exactly when it reaches the end of the packet and every handler succeeded |
| `Managers.RespondCons` | GxNetwork/Src/Network/NetworkManager.cpp:47-117 | one round of the loop hands the command to its handler and goes on only if it succeeded |
| `Managers.Manager.constructor` | GxNetwork/Include/Network/NetworkManager.h:161-177 | no peer, no hook call, no broadcast yet |
| `Managers.Manager.Init` | GxNetwork/Src/Network/NetworkManager.cpp:14-17 | the result of the `OnInit` hook |
| `Managers.Manager.BroadcastEvent` | GxNetwork/Include/Network/NetworkManager.h:39-46 | every peer's frame gets the event's tag and fields appended once; the list of peers is unchanged |
| `Managers.Manager.FindRemoteEngine` | GxNetwork/Src/Network/NetworkManager.cpp:140-149 | the first peer with the GUID, or null when no peer has it |
| `Managers.Manager.CreateRemoteEngine` | GxNetwork/Src/Network/NetworkManager.cpp:151-158 | a new peer with the GUID and an empty frame is appended |
| `Managers.Manager.RemoveRemoteEngine` | GxNetwork/Src/Network/NetworkManager.cpp:160-175 | the peers with the GUID are dropped, the others keep their order, and the result is a dropped peer exactly when there was one |
| `Managers.Manager.RemoteEngineConnected` | GxNetwork/Src/Network/NetworkManager.cpp:122-129 | an unknown GUID gets a new peer at the end and one `OnRemoteEngineConnected` call; a known GUID changes nothing |
| `Managers.Manager.RemoteEngineDisconnected` | GxNetwork/Src/Network/NetworkManager.cpp:131-138 | the peer is dropped, and `OnRemoteEngineDisconnected` runs exactly when it was connected |
| `Managers.Manager.ProcessResponse` | GxNetwork/Src/Network/NetworkManager.cpp:24-120 | an unknown peer is refused with nothing written; otherwise the result and the bytes appended to the output are the reply of `ResponseFrom`: the handlers' results and outputs, read one command at a time until the end, a bad tag or the first failing handler |
| `Managers.Demux` | GxNetwork/Src/Network/NetworkManager.cpp:45-119 | the loop's result and output are the reply `ResponseFrom` gives for the packet from its start |
| `Managers.DemuxStep` | GxNetwork/Src/Network/NetworkManager.cpp:49-116 | one round reads one tag and command, appends its handler's output and, while the handlers succeed, leaves the rest of the reply bound to the rest of the packet |
| `Managers.BadTagReply` | GxNetwork/Src/Network/NetworkManager.cpp:52-55 | a tag at or above `ECommand::MaxValue` ends the loop with false |
| `Managers.EndReply` | GxNetwork/Src/Network/NetworkManager.cpp:47 | at the end of the packet the loop ends with true |
| `Managers.ReplyStep` | GxNetwork/Src/Network/NetworkManager.cpp:58-116 | one handled command's output is written; a success goes on after the command, a failure ends the loop with false |
| `Managers.ResponseOfParsed` | GxNetwork/Src/Network/NetworkManager.cpp:45-119 | where the whole packet parses, the loop's reply is `Respond` over its commands, so `RespondSucceeds` and `RunStops` describe it |
| `Managers.ResponseStops` | GxNetwork/Src/Network/NetworkManager.cpp:47-66 | a failing handler ends the loop with its own result and output, whatever bytes follow its command |
| `Managers.RefusedPingBeforeTruncatedReply` | GxNetwork/Src/Network/NetworkManager.cpp:47-90 | a refused Ping followed by an events frame reply with no size field: the packet as a whole does not parse, yet the loop stops after the Ping with its handler's reply |
| `Managers.RemoveIf` | GxNetwork/Src/Network/NetworkManager.cpp:162-172 | the `remove_if`/`erase` loop keeps exactly the peers with another GUID and returns a dropped one |
| `Worlds.StaticRole` | GxNetwork/Src/Engine/NetworkEngine.cpp:375-384 | a valid role that is RemoteProxy, Authority exactly on a Server and Proxy exactly on a Client |
| `Worlds.DynamicRole` | GxNetwork/Src/Engine/NetworkEngine.cpp:416-439 | a valid role, Authority exactly on a Server, Proxy exactly on a Client, and RemoteAuthority exactly when a Client holds its own object or a Server holds another engine's |
| `Worlds.CreateByName` | GxNetwork/Src/Engine/NetworkEngine.cpp:596-645 | an object is made exactly when the class is registered and the GUID is free, and it is what that class's creator builds with the GUID and role |
| `Worlds.CreateByNameValid` | GxNetwork/Src/Engine/NetworkEngine.cpp:637-642 | appending the created object keeps the GUIDs unique and the objects valid, and the GUID then finds it at the end |
| `Worlds.AbsentGuids` | GxNetwork/Src/Engine/NetworkEngine.cpp:348-358 | no object has the GUID exactly when the GUID is not among the objects' GUIDs |
| `Worlds.DropAbsent` | GxNetwork/Src/Engine/NetworkEngine.cpp:653-661 | with no object of the GUID, removal keeps the list as it is |
| `Worlds.DropAt` | GxNetwork/Src/Engine/NetworkEngine.cpp:653-661 | with unique GUIDs, removal takes out exactly the one object with the GUID, keeping the others in order |
| `Worlds.DropValid` | GxNetwork/Src/Engine/NetworkEngine.cpp:653-661 | removal keeps the objects valid, leaves no object with the GUID and shortens the list by one exactly when one was there |
| `Worlds.ExecRemoteSpec` | GxNetwork/Src/Engine/NetworkEngine.cpp:474-484 | a remote call succeeds exactly when the object exists and has the function; it logs one call on that object and leaves the number of objects, their order and their GUIDs as they were; the called member function's own effect on the object's properties is not modelled (see Left out) |
| `Worlds.ExecRemoteValid` | GxNetwork/Src/Engine/NetworkEngine.cpp:474-484 | a remote call keeps the objects valid |
| `EventEffects.EventsStop` | GxNetwork/Src/Engine/NetworkEngine.cpp:255-262 | at the end of the stream, or at a byte that is no event, the events loop is over |
| `EventEffects.NextEvent` | GxNetwork/Src/Engine/NetworkEngine.cpp:257-299 | one round decodes the event after its tag and runs its handler; a failing handler ends the loop, a successful one leaves the rest of the loop to come |
| `EventEffects.RunEventsStops` | GxNetwork/Src/Engine/NetworkEngine.cpp:255 | once a handler has failed, the events after it have no effect |
| `EventEffects.RunEventsSucceeds` | GxNetwork/Src/Engine/NetworkEngine.cpp:253-301 | a run of events succeeds exactly when every handler, each run on the objects the previous ones left, succeeds |
| `EventEffects.EventsOfBatch` | GxNetwork/Src/Engine/NetworkEngine.cpp:255-301 | on a decodable frame the loop runs the handlers of the frame's events, in order |
| `EventEffects.FrameEvents` | GxNetwork/Src/Engine/NetworkEngine.cpp:248-306 | an events frame built by broadcasting events is replayed as those events, up to the first failing handler |
| `EventEffects.ExecRemoteGuids` | GxNetwork/Src/Engine/NetworkEngine.cpp:474-484 | a remote call keeps every object and its GUID |
| `EventEffects.ServerKeepsObjects` | GxNetwork/Src/Engine/NetworkEngine.cpp:505-527 | on a Server, events never create or remove objects or run the object hooks |
| `EventEffects.ApplyEventValid` | GxNetwork/Src/Engine/NetworkEngine.cpp:498-563 | handling one event keeps the objects valid |
| `EventEffects.EventsFromValid` | GxNetwork/Src/Engine/NetworkEngine.cpp:248-306 | replaying an events frame keeps the objects valid |
| `Snapshots.SnapshotSnoc` | GxNetwork/Src/Engine/NetworkEngine.cpp:232-245 | writing one more object appends its record |
| `Snapshots.SnapshotFront` | GxNetwork/Src/Engine/NetworkEngine.cpp:232-245 | the frame is the first object's record followed by the frame of the rest |
| `Snapshots.DecodeRecordHead` | GxNetwork/Src/Engine/NetworkEngine.cpp:136-145 | a record head that reads spans at least the 16-byte GUID and the two size fields, inside the buffer |
| `Snapshots.DecodeRecordHeadUnfold` | GxNetwork/Src/Engine/NetworkEngine.cpp:136-145 | the head is the GUID, the class name and the block size, read in that order |
| `Snapshots.ParseRecordsCons` | GxNetwork/Src/Engine/NetworkEngine.cpp:134-216 | the loop reads a record's head and resumes after its block, whatever the object consumed |
| `Snapshots.ParseRecordsStep` | GxNetwork/Src/Engine/NetworkEngine.cpp:214-215 | a head followed by the records after its block is a run of records |
| `Snapshots.ApplyRecordsCons` | GxNetwork/Src/Engine/NetworkEngine.cpp:134-216 | the records' effect is the first record's effect followed by the rest's |
| `Snapshots.PendingDone` | GxNetwork/Src/Engine/NetworkEngine.cpp:134 | at the end of the stream the replication loop is over |
| `Snapshots.NextPending` | GxNetwork/Src/Engine/NetworkEngine.cpp:136-215 | one round of the loop reads a head, applies the record and moves to the end of its block, with the rest of the loop to come |
| `Snapshots.ApplyRecordsStep` | GxNetwork/Src/Engine/NetworkEngine.cpp:134-216 | a record's effect followed by the rest's is the run's effect |
| `Snapshots.HeadFields` | GxNetwork/Src/Engine/NetworkEngine.cpp:136-145 | the head fields written read back, with the block right after them |
| `Snapshots.RecordHeadRoundTrip` | GxNetwork/Src/Engine/NetworkEngine.cpp:236-243 | an object's record reads back as its GUID, class name and the size of its block |
| `Snapshots.ReceiveCopies` | GxNetwork/Src/Engine/NetworkEngine.cpp:147-180 | a record read into an object of the same GUID, class and layout that may take it gives it the sender's properties and changes nothing else |
| `Snapshots.AcceptsAfterCopy` | GxNetwork/Src/Engine/NetworkEngine.cpp:147-180 | copying one object does not stop another from taking its own record |
| `Snapshots.SnapshotRoundTrip` | GxNetwork/Src/Engine/NetworkEngine.cpp:129-246 | a frame written from objects with unique GUIDs, read by an engine that holds a matching object for each record, gives each of them the sender's properties, in frame order, and changes nothing else |
| `Snapshots.RecordsRoundTrip` | GxNetwork/Src/Engine/NetworkEngine.cpp:129-246 | the records of a written frame parse back one per sent object, and applying them has the effect of copying the properties |
| `Snapshots.RoundTripHead` | GxNetwork/Src/Engine/NetworkEngine.cpp:136-215 | the first record of a frame reads back, copies its object and leaves the rest of the frame after it |
| `Snapshots.FirstRecord` | GxNetwork/Src/Engine/NetworkEngine.cpp:136-215 | an object's record at the front reads back and copies its properties |
| `Snapshots.ReceiveCreates` | GxNetwork/Src/Engine/NetworkEngine.cpp:199-211 | on a Client without the GUID, a record of a registered class of the same layout creates the object with the Client's static role, gives it the sender's properties and runs `OnObjectCreated` once |
| `Snapshots.ReceiveArrives` | GxNetwork/Src/Engine/NetworkEngine.cpp:136-215 | a record at the front that the receiver holds or creates an object for reads back and has the reference effect `Arrive` |
| `Snapshots.LandsAfterArrive` | GxNetwork/Src/Engine/NetworkEngine.cpp:147-212 | copying into or creating one object does not stop a record of another GUID from landing |
| `Snapshots.ArriveTail` | GxNetwork/Src/Engine/NetworkEngine.cpp:134-216 | after the first record lands, the records after it still land and keep unique GUIDs |
| `Snapshots.ArriveHead` | GxNetwork/Src/Engine/NetworkEngine.cpp:136-215 | the first record of a frame reads back, lands and leaves the rest of the frame after it |
| `Snapshots.SnapshotArrives` | GxNetwork/Src/Engine/NetworkEngine.cpp:129-246 | a frame written from objects with unique GUIDs, read by an engine that holds a matching object or, as a Client, creates one for each record: held objects take the sender's properties, missing ones join the list with them and are announced to `OnObjectCreated`, in frame order |
| `Snapshots.RecordsArrive` | GxNetwork/Src/Engine/NetworkEngine.cpp:129-246 | the records of a written frame parse back one per sent object, and applying them copies into held objects and creates the missing ones |
| `Snapshots.ServerRecord` | GxNetwork/Src/Engine/NetworkEngine.cpp:173-198 | on a Server one record never adds or removes objects and writes only into a RemoteAuthority object |
| `Snapshots.ServerUpdateTrans` | GxNetwork/Src/Engine/NetworkEngine.cpp:173-198 | two such updates in a row are one |
| `Snapshots.ServerRecords` | GxNetwork/Src/Engine/NetworkEngine.cpp:134-216 | on a Server a run of records never adds or removes objects and writes only into RemoteAuthority objects |
| `Snapshots.ServerSnapshot` | GxNetwork/Src/Engine/NetworkEngine.cpp:129-217 | on a Server replication never creates, removes or renames objects, runs no hook and writes only into RemoteAuthority objects |
| `Snapshots.ReceiveValid` | GxNetwork/Src/Engine/NetworkEngine.cpp:147-212 | applying one record keeps the objects valid |
| `Snapshots.RecordsValid` | GxNetwork/Src/Engine/NetworkEngine.cpp:134-216 | applying records keeps the objects valid |
| `Snapshots.SnapshotValid` | GxNetwork/Src/Engine/NetworkEngine.cpp:129-217 | replication keeps the objects valid |
| `Engines.Engine.Distinct` | GxNetwork/Src/Engine/NetworkEngine.cpp:620-641 | no object is held twice in the list |
| `Engines.Engine.constructor` | GxNetwork/Src/Engine/NetworkEngine.cpp:81-86 | the engine keeps its GUID, manager and class factory, is not initialized and holds no objects |
| `Engines.Engine.Init` | GxNetwork/Src/Engine/NetworkEngine.cpp:92-100 | sets the mode; initialized exactly when `OnInit` and then the manager's `Init` succeed |
| `Engines.Engine.Shutdown` | GxNetwork/Src/Engine/NetworkEngine.cpp:115-122 | the objects are dropped and the engine is no longer initialized |
| `Engines.Engine.GetObjectByGUID` | GxNetwork/Src/Engine/NetworkEngine.cpp:348-358 | the first object with the GUID, or null when no object has it |
| `Engines.Engine.RegisterClass` | GxNetwork/Src/Engine/NetworkEngine.cpp:365-368 | the factory registers the creator exactly when the class name is new |
| `Engines.Engine.CreateObjectByClassName` | GxNetwork/Src/Engine/NetworkEngine.cpp:596-645 | null when uninitialized, the class unknown or the GUID taken; otherwise a new object, as the class builds it, appended to the list |
| `Engines.Engine.Append` | GxNetwork/Src/Engine/NetworkEngine.cpp:641 | the object goes at the end of the list |
| `Engines.Engine.RemoveObjectByGUID` | GxNetwork/Src/Engine/NetworkEngine.cpp:647-663 | nothing when uninitialized; otherwise the objects with the GUID go, the others keep their order, and the one returned had the GUID |
| `Engines.Engine.CreateObjectStatic` | GxNetwork/Src/Engine/NetworkEngine.cpp:370-394 | creates with the static role; a Server announces a created object as its own; a Client announces nothing; every peer's events frame then ends with that event's tag and fields, and with no announcement no frame changes |
| `Engines.Engine.RemoveObjectStatic` | GxNetwork/Src/Engine/NetworkEngine.cpp:396-409 | removes by GUID; a Server announces the removal of an object that was there; every peer's events frame then ends with that event's tag and fields, and with no announcement no frame changes |
| `Engines.Engine.CreateObjectDynamic` | GxNetwork/Src/Engine/NetworkEngine.cpp:411-453 | the effect of `CreateDynamic`: the object with the owner's role, `OnObjectCreated`, and on a Server the announcement with the owner; every peer's events frame then ends with that event's tag and fields, and with no announcement no frame changes |
| `Engines.Engine.Spawn` | GxNetwork/Src/Engine/NetworkEngine.cpp:416-445 | the object is created with the owner's role and `OnObjectCreated` runs, as `CreateDynamic` says |
| `Engines.Engine.RemoveObjectDynamic` | GxNetwork/Src/Engine/NetworkEngine.cpp:455-472 | the effect of `RemoveDynamic`: `OnObjectRemoved` when an object went, and on a Server its announcement; every peer's events frame then ends with that event's tag and fields, and with no announcement no frame changes |
| `Engines.Engine.Withdraw` | GxNetwork/Src/Engine/NetworkEngine.cpp:460-464 | the object is removed by GUID and `OnObjectRemoved` runs exactly when one went, as `RemoveDynamic` says |
| `Engines.Engine.OnObjectCreated` | GxNetwork/Src/Engine/NetworkEngine.cpp:679-682 | one `OnObjectCreated` call is logged |
| `Engines.Engine.OnObjectRemoved` | GxNetwork/Src/Engine/NetworkEngine.cpp:684-687 | one `OnObjectRemoved` call is logged |
| `Engines.Engine.BroadcastEventCreateObject` | GxNetwork/Src/Engine/NetworkEngine.cpp:565-576 | when initialized, one CreateObject event with the GUID, class name and owner goes to every peer, appended to the end of every peer's events frame; the engine is unchanged |
| `Engines.Engine.BroadcastEventRemoveObject` | GxNetwork/Src/Engine/NetworkEngine.cpp:578-587 | when initialized, one RemoveObject event with the GUID goes to every peer, appended to the end of every peer's events frame; the engine is unchanged |
| `Engines.Engine.BroadcastEventExecFunctionRemote` | GxNetwork/Src/Engine/NetworkEngine.cpp:486-496 | when initialized, one ExecFunctionRemote event with the GUID, name and parameter bytes goes to every peer, appended to the end of every peer's events frame |
| `Engines.Engine.ExecFunctionRemote` | GxNetwork/Src/Engine/NetworkEngine.cpp:338-341 | the same broadcast as `BroadcastEventExecFunctionRemote` |
| `Engines.Engine.ProcessEventCreateObject` | GxNetwork/Src/Engine/NetworkEngine.cpp:498-534 | false when uninitialized; otherwise the result and effect of the event's handler: refused on a Server, `CreateObjectDynamic` on a Client; nothing is announced |
| `Engines.Engine.ProcessEventRemoveObject` | GxNetwork/Src/Engine/NetworkEngine.cpp:536-563 | false when uninitialized; otherwise the event's handler: refused on a Server, `RemoveObjectDynamic` on a Client |
| `Engines.Engine.ProcessEventExecFunctionRemote` | GxNetwork/Src/Engine/NetworkEngine.cpp:474-484 | false when uninitialized; otherwise the named object's `ExecFunction`, or false without the object |
| `Engines.Engine.ExecAt` | GxNetwork/Src/Engine/NetworkEngine.cpp:478-482 | the object found by GUID logs the call exactly as `ExecRemote` says |
| `Engines.Engine.ReplicateEvents` | GxNetwork/Src/Engine/NetworkEngine.cpp:248-306 | nothing when uninitialized; otherwise the objects and hook calls afterwards are what the events loop over the stream gives |
| `Engines.Engine.ProcessEvents` | GxNetwork/Src/Engine/NetworkEngine.cpp:253-301 | the loop ends with the state the events loop is bound to, announcing nothing |
| `Engines.Engine.ProcessNext` | GxNetwork/Src/Engine/NetworkEngine.cpp:257-299 | one round reads a tag, stops at a byte that is no event, else handles the event and moves past it |
| `Engines.Engine.ProcessTagged` | GxNetwork/Src/Engine/NetworkEngine.cpp:265-299 | the event after a valid tag is read and its handler's result and effect are `ApplyEvent`'s |
| `Engines.Engine.ProcessEvent` | GxNetwork/Src/Engine/NetworkEngine.cpp:266-299 | the handler of each kind of event, with the result and effect `ApplyEvent` gives |
| `Engines.Engine.Tick` | GxNetwork/Src/Engine/NetworkEngine.cpp:102-113 | when initialized the replication frame holds exactly the records of the objects; otherwise it is unchanged |
| `Engines.Engine.ReplicateOut` | GxNetwork/Src/Engine/NetworkEngine.cpp:227-246 | inserts at the cursor the record of every Authority or RemoteAuthority object, in list order; nothing when uninitialized |
| `Engines.Engine.ReplicateIn` | GxNetwork/Src/Engine/NetworkEngine.cpp:129-217 | nothing when uninitialized; otherwise the objects and hook calls afterwards are what the replication loop over the stream gives |
| `Engines.Engine.ReceiveAll` | GxNetwork/Src/Engine/NetworkEngine.cpp:134-216 | the loop ends with the state the replication loop is bound to |
| `Engines.Engine.ReceiveNext` | GxNetwork/Src/Engine/NetworkEngine.cpp:136-215 | one round reads a head, applies the record and moves past its block |
| `Engines.Engine.Receive` | GxNetwork/Src/Engine/NetworkEngine.cpp:147-212 | the effect of one record is `ReceiveRecord`'s |
| `Engines.Engine.ReceiveInto` | GxNetwork/Src/Engine/NetworkEngine.cpp:149-180 | a record for a held object of the same class is read into it when the mode and role allow, as `ReceiveRecord` says |
| `Engines.Engine.ReceiveNew` | GxNetwork/Src/Engine/NetworkEngine.cpp:199-211 | a Client creates the object of an unknown GUID, reads the block into it and runs `OnObjectCreated`, as `ReceiveRecord` says |
| `Engines.Engine.DeserializeAt` | GxNetwork/Src/Engine/NetworkEngine.cpp:171-177 | only the properties of the one object change, to what the block decoder gives |
| `Engines.Engine.PlayerJoinGame` | GxNetwork/Src/Engine/NetworkEngine.cpp:308-321 | on an initialized Server, `CreateObjectDynamic` of a `CharacterActor` owned by the player, whose announcement ends every peer's events frame; otherwise nothing |
| `Engines.Engine.PlayerQuitGame` | GxNetwork/Src/Engine/NetworkEngine.cpp:323-336 | on an initialized Server, `RemoveObjectDynamic` of the player's object, whose announcement ends every peer's events frame; otherwise nothing |
| `Engines.RemoveDynamicIs` | GxNetwork/Src/Engine/NetworkEngine.cpp:455-472 | the effect of a removal is the remaining objects and one `OnObjectRemoved` exactly when one went |
| `Engines.Filter` | GxNetwork/Src/Engine/NetworkEngine.cpp:653-660 | the `remove_if` pass keeps exactly the objects with another GUID, in order, and returns one with the GUID exactly when there was one |
| `Engines.Rebuild` | GxNetwork/Src/Engine/NetworkEngine.cpp:107-111 | the cleared frame ends up holding exactly the records of the objects |
| `Engines.WriteSnapshot` | GxNetwork/Src/Engine/NetworkEngine.cpp:232-245 | the loop inserts the frame of the objects at the cursor, which moves past it |
| `Engines.WriteRecord` | GxNetwork/Src/Engine/NetworkEngine.cpp:236-243 | one object's record, with the block size in front of the block, is inserted at the cursor |
| `Engines.SkipBlock` | GxNetwork/Src/Engine/NetworkEngine.cpp:214-215 | the cursor goes to the end of the block, whatever the object read |
| `Engines.ReadRecordHead` | GxNetwork/Src/Engine/NetworkEngine.cpp:136-145 | the head read is the decoder's and the cursor is at the block |

## Left out

- Mutexes and the `Lock`/`UnLock` calls on buffers, the peer list and the class factory are left out, because they only matter under concurrency; every call is modelled as sequential.
- `FLogger`, and every warning and error it prints, is left out as output only.
- Floating point is not modelled. Vec3f components and float and double properties are carried as their 4- and 8-byte words, and float equality is left out.
- `OnTick`, `OnShutdown` and the manager's `Shutdown` only call hooks that have no state in the model, so they are left out. `Engines.Engine.Tick` and `Engines.Engine.Shutdown` model the rest of those calls.
- The transport, and the argument packing of `FFunction` (its templates and macros), are left out. The function an `FFunction` runs is opaque, identified by a number.
- `NetObjects.NetObject.ExecFunction` and `Worlds.ExecRemoteSpec`: the effect of the called function on its object is not modelled. `FFunction::Exec` runs the object's own member function (GxNetwork/Include/Engine/NetworkFunction.h:118-121), which is user code of the object classes (left out below) and may write the members the object's properties are bound to. The model records a call only as a logged `Call` of the function's number and parameter bytes, and keeps the properties unchanged. So `Engines.Engine.ExecAt`, `Engines.Engine.ProcessEventExecFunctionRemote` and the event-replay lemmas say nothing about property changes a remote call makes; what the model proves about a remote call is that it keeps the objects, their order, their GUIDs and their classes.
- The object classes of GxNetworkClasses and the `GX_NETWORK_OBJECT` macros are left out. A class's creator is modelled by the `Schema` its member constructors declare. A `std::shared_ptr` is an object reference.
- The class factory is a process-wide singleton in the code. Here it is an object handed to the engine at construction.
- The plain accessors (`GetGUID`, `GetNetworkRole`, `GetClassName`, `GetReplicationFrame`, `GetNetworkManager`) are left out as methods; the model reads the corresponding fields directly.
- Cursor positions and buffer sizes are unbounded naturals. Buffers of 4 GiB or more, where the code's `uint32_t` positions would wrap, are not modelled. The `(uint32_t)` casts of string and vector lengths are modelled as truncation (`Bytes.Trunc32`).
- `Engines.Engine.Tick` and `Engines.Engine.ReplicateOut` require every sent object's block size to fit in a `uint32_t`, since the code computes the size field in 32 bits.
- `Engines.Engine.ReplicateIn`, `Engines.Engine.ReplicateEvents` and `Managers.Manager.ProcessResponse` require that no read their loops actually make passes the end of the buffer. `ReplicateEvents` and `ProcessResponse` stop at the first failing handler and never read past it, and their specifications (`EventEffects.EventsFrom`, `Managers.ResponseFrom`) do not look past it either. A read past the end of the buffer, or (in `Replicate(FIStream&)`) reading into the null object that `CreateObjectStatic` returns for an unregistered class, is undefined behaviour in the code, so the decoders return None there and the methods require them not to.
- The stream reads (`Streams.IStream.Read` and the typed reads) require that the bytes are there. The code asserts this, and the assertion is not checked at run time.
- `Engines.Engine.Init` requires an uninitialized engine. `Engines.Engine.Shutdown` requires an initialized one. `Engines.Engine.BroadcastEventCreateObject` and `Engines.Engine.BroadcastEventRemoveObject` require Server mode once the engine is initialized. These are the assertions of the code.
- `Managers.Manager.CreateRemoteEngine` requires a GUID that is not yet connected. It is private, and its only caller checks this first.
- `NetTypes.DecodeVector`: a vector whose byte length is not a multiple of the element width reads `length / sizeof(T)` elements in the code but copies `length` bytes into them, overflowing the vector. The model returns None for such a length.
- `NetTypes.DecodeString` reads a C string: a string with an embedded NUL comes back cut at the NUL, while the cursor still moves by the size field (`NetTypes.StringWithNulTruncates`).
- The engine's mode is indeterminate in the code until `Init` sets it. The model starts it at Client, and every mode-dependent operation is gated on `initialized`.
- In the model, a Client's snapshot record for an unknown GUID creates its object with `CreateObjectByClassName` and the static role. The code calls `CreateObjectStatic`, which on a Client does exactly that and announces nothing.
- Reading a replication frame is specified by `Snapshots.SnapshotFrom` as parsing all record boundaries first and then applying the records in order. The code interleaves the two. The outcome is the same: each record's end depends only on its size field, and the whole loop is defined or it is not.
