# broadsock relay server — Dafny model

broadsock is a small TCP relay server for multiplayer games. Clients connect,
are given a numeric uid (10, 11, 12, ...), and every message a client sends
is relayed to the other clients, prefixed with the sender's uid. This project
models the sequential core of the server and proves properties of it:

- **The `Message` byte builder** (`message.dfy`, module `Messages`). It is an
  8192-byte buffer with one cursor, `index`, and a counter, `length`. There
  are writers for big-endian 32-bit integers, length-prefixed strings, C
  strings, decimal numbers and raw bytes. The reader side is `Rewind`,
  `ReadInt32` and `ReadString`. The buffer is an `array<byte>` and each write
  updates it in place. Every write is proved against `Overwrite`, and a
  message under construction keeps `index == length` with zero fill after the
  written bytes.
- **The binary-framed relay server** (`broadsock.dfy`, class
  `Broadsock.Server`). Its registry is an array of `MAX_CLIENTS` slots with
  `clientCount` and the next `uid`. It has four delivery policies, and a frame
  is a 4-byte big-endian length followed by the content. The connection
  lifecycle covers accepting or rejecting a client, the CONNECT_OTHER,
  CONNECT_SELF and DISCONNECT notices, and serving one ready client: read one
  frame, drop it if oversized, evict the client at end of stream, or relay
  the frame.
- **The older newline-delimited server** (`linebroadsock.dfy`, class
  `LineBroadsock.LineServer`). It has the same registry and dispatchers over
  the program's globals, the in-place `strip_newline`, and the line reader of
  the event loop. Its JSON-like notices are kept as `Event` records.
- **The claim-intercepting handler of the hosted variant** (`gamelift.dfy`,
  module `GameLift`). A message whose first field is
  `GL_CLAIM_PLAYER_SESSION` carries a player-session token. The sender alone
  gets SUCCESS or FAILED; every other message goes to the default relay.
- Shared vocabulary:
  - `bytes.dfy`: bytes, the 32-bit big-endian layout, C strings and `%d` text.
  - `registry.dfy`: the value-level meaning of the slot scans, which every
    dispatcher and queue operation is proved against.

How the effects are modelled:
- Socket writes are appended to an `outbox` as (descriptor, bytes) pairs.
- A socket read consumes a byte sequence that stands for what the peer sent.
- The hosting service's verdict on a token is a parameter, `accept`.
- Buffers that C leaves uninitialised are modelled as zero-filled.

Two behaviours of the code are easy to miss:

- **Capacity.** A connection is rejected when `clientCount + 1 == MAX_CLIENTS`
  (`server/Broadsock.cpp:275`), so at most `MAX_CLIENTS - 1` clients are ever
  registered. `Accept` proves exactly that cut-off.
- **Content offset.** `MessageContent()` points four bytes into the buffer
  (`server/Message.cpp:14-16`), but `MessageLength()` counts every written
  byte. So a frame skips the first four written bytes and ends with four
  bytes from past the written data. The model keeps this offset
  (`Messages.WireOf`, `Broadsock.Relay`). As a consequence, the message the
  server builds to relay "hi" from client 10 is the field "10" followed by
  two zero bytes, not the fields `["10", "hi"]`, and the frame a client
  receives for it is `00 00 00 08 '1' '0'` followed by six zero bytes
  (`Broadsock.RelayShortPayload`). The notices are hit the same way: their
  built messages read back field by field (`Broadsock.NoticeFields`,
  `Broadsock.ConnectOtherFields`), but the frame drops the first four bytes
  (`Broadsock.NoticeOnWire`), so a client reading the received payload as
  fields finds a first length of 0x31300000 and cannot read it
  (`Broadsock.NoticeOnWireUnreadable`).

## Model

| member | source | states |
|---|---|---|
| Bytes.EncodeBE32 | server/Message.cpp:39-43 | the four bytes WriteInt32 stores for a C `int`, most significant first |
| Bytes.DecodeBE32 | server/Broadsock.cpp:296 | the header decode gives a C `int`, and it is negative exactly when the top byte is 0x80 or more |
| Bytes.DecodeEncodeBE32 | server/Message.cpp:39-45 | decoding the four bytes written for any C `int` gives it back |
| Bytes.EncodeDecodeBE32 | server/Broadsock.cpp:296 | re-encoding a decoded header gives the same four bytes, so the layout is a bijection |
| Bytes.DecodeBE32Injective | server/Broadsock.cpp:296 | distinct headers announce distinct lengths |
| Bytes.CStr | server/Message.cpp:54-56 | the C string `strlen` measures: a NUL-free prefix of the buffer, ended by a NUL or by the buffer's end |
| Bytes.CStrTerminated | server/Broadsock.cpp:129 | a literal written with an explicit terminator, such as "DISCONNECT\0", is read as the text before the terminator |
| Bytes.CStrWithoutNul | server/Message.cpp:54-56 | a buffer without NUL is its own C string |
| Bytes.CStrIs | server/GameLiftBroadsock.cpp:80 | a buffer's C string is a NUL-free text exactly when the buffer starts with that text followed by a NUL or the buffer's end |
| Bytes.CStrOfPrefix | server/GameLiftBroadsock.cpp:80 | a buffer starting with a NUL-free text followed by a NUL or its end has that text as its C string |
| Bytes.Decimal | server/Message.cpp:59-60 | the `%d` text is non-empty, starts with '-' exactly for a negative number, has only digits otherwise and contains no NUL |
| Bytes.Digits | server/Message.cpp:58-60 | the base-10 digits of a natural number, without leading zeros |
| Bytes.DecimalRoundTrip | server/Message.cpp:58-62 | the `%d` text of every integer parses back to it |
| Bytes.DecimalInt32Length | server/Message.cpp:59-60 | the `%d` text of a C `int` has 1 to 11 characters, so the 20-byte buffer of WriteNumber is enough |
| Messages.Field | server/Message.cpp:47-52 | a length-prefixed field is four header bytes plus the string |
| Messages.Overwrite | server/Message.cpp:39-52 | a write at the cursor leaves the bytes before and after it unchanged and puts the written bytes in between |
| Messages.OverwriteAtEnd | server/Message.cpp:39-52 | a write at the end of the written bytes appends to them and leaves zero fill after them |
| Messages.OverwriteTwice | server/Message.cpp:47-52 | the length write followed by the byte copy equals one write of the whole field |
| Messages.WireOf | server/Broadsock.cpp:58-70 | the frame Send writes for a fresh message: a 4-byte header and exactly as many content bytes as the header announces |
| Messages.WireOfShape | server/Broadsock.cpp:58-70 | the header decodes to the written length, and for four or more written bytes the content is everything after the first four bytes, then four zeros |
| Messages.FieldAt | server/Message.cpp:30-37 | the field read at an offset has a length that fits a C `int`, and the field it was read from lies in the buffer at that offset |
| Messages.FieldAtField | server/Message.cpp:30-37 | reading a field where one was written gives back its bytes, whatever follows |
| Messages.FieldAfter | server/Message.cpp:30-37 | a field written after any prefix reads back at the prefix's length |
| Messages.TwoFields | server/GameLiftBroadsock.cpp:79-81 | two fields written one after the other are read back in turn |
| Messages.ReadInt32AsWritten | server/Message.cpp:22-28 | the commented-out ReadInt32 yields a C `int`, equal to the big-endian decode when the three low bytes are below 0x80, and between -128 and -1 when the last byte is 0x80 or more |
| Messages.ReadInt32AsWrittenLoses128 | server/Message.cpp:22-28 | the commented-out ReadInt32, with sign-extended `char` bytes, reads the encoding of 128 as -128 |
| Messages.ReadInt32AsWrittenRoundTrip | server/Message.cpp:22-28 | for lengths, the commented-out ReadInt32 inverts WriteInt32 exactly when the three low bytes are all below 0x80 |
| Messages.Message.constructor | server/Message.cpp:6-9 | a new message has `index == 0`, `length == 0`, nothing written and a zero-filled buffer |
| Messages.Message.MessageLength | server/Message.cpp:11-13 | never negative, and for a valid message within the buffer it counts exactly the written bytes |
| Messages.Message.MessageBytes | server/Message.cpp:18-20 | the whole 8192-byte buffer, which begins with the written bytes |
| Messages.Message.MessageContent | server/Message.cpp:14-16 | `n` bytes starting at offset 4 of the buffer |
| Messages.Message.WriteInt32 | server/Message.cpp:39-45 | stores the big-endian bytes of `n` at the cursor, advances index and length by 4 and appends them to the written bytes |
| Messages.Message.CopyIn | server/Message.cpp:49-51 | the memcpy copies the first `n` bytes of the source to the cursor and advances by `n` |
| Messages.Message.WriteString | server/Message.cpp:47-52 | appends the big-endian length `n` and exactly the first `n` bytes; index and length grow by `n + 4` |
| Messages.Message.WriteNullString | server/Message.cpp:54-56 | appends the C string, up to its first NUL, as a field |
| Messages.Message.WriteNumber | server/Message.cpp:58-62 | appends the `%d` text of the number as a field |
| Messages.Message.WriteByte | server/Broadsock.cpp:319 | appends one byte and advances index and length by one |
| Messages.Message.WriteBytes | server/Broadsock.cpp:188 | appends the first `n` bytes with no length prefix |
| Messages.Message.Rewind | server/Broadsock.cpp:321 | moves the cursor to 0 and changes nothing else |
| Messages.Message.ReadInt32 | server/Message.cpp:22-28 | reads the four bytes at the cursor as unsigned bytes, most significant first, and advances by 4 |
| Messages.Message.ReadString | server/Message.cpp:30-37 | returns the field at the cursor and moves the cursor past it |
| Messages.Frame | server/Broadsock.cpp:58-70 | the bytes Send writes: a header holding MessageLength, then MessageLength bytes from MessageContent |
| Messages.ContentPastWritten | server/Message.cpp:11-16 | MessageContent paired with MessageLength is the written bytes from offset 4 on, then zero fill |
| Messages.FrameOfAppending | server/Broadsock.cpp:58-70 | the frame of a message under construction is WireOf of its written bytes |
| Messages.WriteStringThenRead | server/Message.cpp:30-37 | after WriteString and Rewind, ReadString returns exactly the string and advances by `4 + n` |
| Messages.NumberFieldExamples | server/Message.cpp:58-62 | WriteNumber(10) writes 00 00 00 02 '1' '0', and WriteNumber(-7) writes 00 00 00 02 '-' '7' |
| Messages.NumberFieldRoundTrip | server/Message.cpp:58-62 | a number field read back and parsed as decimal text gives the number |
| Messages.WriteInt32ThenRead | server/Message.cpp:22-45 | after WriteInt32(n) and Rewind, ReadInt32 returns `n` for every C `int` |
| Registry.Deliver | server/Broadsock.cpp:73-118 | one send of the same body to each descriptor, in order |
| Registry.Count | server/Broadsock.cpp:31-52 | the number of occupied slots never exceeds the number of slots |
| Registry.CountZero | server/Broadsock.cpp:54-56 | no client is registered exactly when the count is 0 |
| Registry.CountFull | server/Broadsock.cpp:32-38 | every slot is taken exactly when the count equals the number of slots |
| Registry.CountUpdate | server/Broadsock.cpp:31-52 | replacing one slot changes the count by what left and what came in |
| Registry.FirstFree | server/Broadsock.cpp:32-33 | the first empty slot, with every slot before it taken, or no slot at all |
| Registry.FirstMatch | server/Broadsock.cpp:43-45 | the first occupied slot matching a policy, with no match before it, or no slot at all |
| Registry.Added | server/Broadsock.cpp:31-39 | QueueAdd's slots: the same number of slots, the first empty one now holding the client, every other slot unchanged |
| Registry.Deleted | server/Broadsock.cpp:42-52 | QueueDelete's slots: the same number of slots, the first slot with the uid now empty, every other slot unchanged |
| Registry.Fanout | server/Broadsock.cpp:73-92 | a broadcast sends at most once per registered client, and SendMessageAll exactly once per registered client |
| Registry.Recipients | server/Broadsock.cpp:73-118 | no policy reaches more descriptors than there are clients, and the targeted sends reach at most one |
| Registry.AddedSlots | server/Broadsock.cpp:31-39 | QueueAdd fills the first empty slot and raises the count by one, and a full registry is left unchanged |
| Registry.DeletedSlots | server/Broadsock.cpp:42-52 | QueueDelete(u) clears only the first slot with uid `u` and lowers the count by one, and an absent `u` changes nothing |
| Registry.DeleteIdempotent | server/Broadsock.cpp:42-52 | after a delete, `u` is gone and a repeated delete changes nothing |
| Registry.AddedDistinct | server/Broadsock.cpp:158-163 | adding a client with a fresh uid and descriptor keeps uids and descriptors distinct |
| Registry.AddedUidsBelow | server/Broadsock.cpp:158 | after the client with the next uid is added, every uid stays below the following uid |
| Registry.ConnectedSlots | server/Broadsock.cpp:158-179 | a connection adds one client and keeps the invariants; CONNECT_OTHER reaches exactly the earlier clients and CONNECT_SELF reaches the new one alone |
| Registry.DeletedDistinct | server/Broadsock.cpp:138 | a delete keeps uids and descriptors distinct and adds no descriptor |
| Registry.FanoutMembers | server/Broadsock.cpp:73-92 | a broadcast reaches a descriptor exactly when an occupied slot on it satisfies the policy |
| Registry.FanoutNoRepeat | server/Broadsock.cpp:73-92 | with distinct descriptors, a broadcast sends to each descriptor at most once |
| Registry.SenderExcluded | server/Broadsock.cpp:73-82 | SendMessage for a registered sender reaches every other client once and the sender never |
| Registry.TargetedReachesOne | server/Broadsock.cpp:95-118 | SendMessageSelf and SendMessageClient to a registered client reach exactly that client, once |
| Registry.TargetedAbsent | server/Broadsock.cpp:95-118 | a targeted send that nobody matches sends nothing |
| Registry.FanoutAllButAbsent | server/Broadsock.cpp:73-92 | when no client has uid `u`, SendMessage(u) and SendMessageAll reach the same descriptors |
| Registry.FanoutFillExcluded | server/Broadsock.cpp:163-172 | adding a client the policy excludes leaves the broadcast unchanged |
| Registry.FanoutClearExcluded | server/Broadsock.cpp:130-138 | removing a client the policy excludes leaves the broadcast unchanged |
| Registry.ConnectOtherRecipients | server/Broadsock.cpp:163-172 | CONNECT_OTHER, sent after the add, reaches exactly the clients registered before, in slot order |
| Registry.DisconnectRecipients | server/Broadsock.cpp:127-138 | DISCONNECT, sent before the delete, reaches exactly the clients that remain, in slot order |
| Broadsock.Notice | server/Broadsock.cpp:127-129 | a [uid, tag] notice is at most 19 bytes longer than its tag |
| Broadsock.ConnectOtherNotice | server/Broadsock.cpp:166-170 | the [uid, "CONNECT_OTHER", ip, port] notice fits a message |
| Broadsock.TagsText | server/Broadsock.cpp:129 | the notice tags are 13, 12 and 10 bytes with no NUL |
| Broadsock.NoticeFields | server/Broadsock.cpp:175-177 | the notice message the server builds reads back field by field as the uid's decimal text and then the tag |
| Broadsock.ConnectOtherFields | server/Broadsock.cpp:166-170 | the CONNECT_OTHER message the server builds reads back as the [uid, tag] notice, then the address text up to its first NUL, then the port's decimal text |
| Broadsock.NoticeOnWire | server/Broadsock.cpp:58-70 | the frame sent for a [uid, tag] notice is its length header, the uid's bare decimal text without its field header, the tag field and four zero bytes |
| Broadsock.NoticeOnWirePrefix | server/Broadsock.cpp:175-179 | the received payload of a notice from client 10 starts '1' '0' 00 00 and is at most 110 bytes long |
| Broadsock.NoticeOnWireUnreadable | server/Broadsock.cpp:175-179 | a client reading the received payload of a notice from client 10 finds a first field length of 0x31300000, which does not fit the payload |
| Broadsock.Relay | server/Broadsock.cpp:184-190 | the relayed message is at most 15 bytes longer than the payload |
| Broadsock.RelayShape | server/Broadsock.cpp:184-190 | a relayed payload of four or more bytes is the uid field, the payload without its first four bytes, then four zeros |
| Broadsock.RelayShortPayload | server/Broadsock.cpp:184-190 | the message built when client 10 relays "hi" is the field "10" followed by two zero bytes, and the frame sent is `00 00 00 08 '1' '0'` and six zero bytes |
| Broadsock.ReadFrame | server/Broadsock.cpp:289-320 | end of stream reads nothing more; an oversized header drops its declared length and leaves the tail; otherwise the payload is the declared number of bytes, none for a negative length, and the stream is header, payload and rest |
| Broadsock.ReadFrameRoundTrip | server/Broadsock.cpp:291-321 | a frame whose header counts its payload reads back as that payload, and the rest of the stream stays |
| Broadsock.ReadFrameDiscardAligned | server/Broadsock.cpp:300-309 | an oversized frame consumes exactly its header and declared length |
| Broadsock.ReadFrameOfWire | server/Broadsock.cpp:58-70 | every frame Send writes reads back as what follows its header |
| Broadsock.ReadFramePayload | server/Broadsock.cpp:312-321 | a payload read to the end is what ReadFrame returns, and the stream continues after it |
| Broadsock.Server.constructor | server/Broadsock.cpp:22-28 | every slot is empty, `clientCount == 0`, `uid == 10`, and the registry invariant holds |
| Broadsock.Server.QueueAdd | server/Broadsock.cpp:31-39 | the slots become `Added` (first empty slot), the count rises by one unless full, and the count invariant is kept |
| Broadsock.Server.QueueDelete | server/Broadsock.cpp:42-52 | the slots become `Deleted` (first slot with the uid), and the count falls by one exactly when the uid was present |
| Broadsock.Server.IsEmpty | server/Broadsock.cpp:54-56 | true exactly when the count is 0, which holds exactly when every slot is empty |
| Broadsock.Server.Send | server/Broadsock.cpp:58-70 | appends one frame to the descriptor; its header decodes to MessageLength and MessageContent follows it |
| Broadsock.Server.SendMessage | server/Broadsock.cpp:73-82 | one frame to each client whose uid differs, in slot order |
| Broadsock.Server.SendMessageAll | server/Broadsock.cpp:85-92 | one frame to each client, in slot order |
| Broadsock.Server.SendMessageSelf | server/Broadsock.cpp:95-105 | one frame to the first client on the descriptor, or none |
| Broadsock.Server.SendMessageClient | server/Broadsock.cpp:108-118 | one frame to the first client with the uid, or none |
| Broadsock.Server.HandleClientDisconnected | server/Broadsock.cpp:124-145 | DISCONNECT reaches exactly the remaining clients, the client's slot is freed, the count falls by one, and the invariants are kept |
| Broadsock.Server.HandleClientConnected | server/Broadsock.cpp:152-181 | the client gets the next, never-used uid and the first free slot; the earlier clients get CONNECT_OTHER and the new client alone gets CONNECT_SELF |
| Broadsock.Server.NotifyConnected | server/Broadsock.cpp:166-179 | CONNECT_OTHER goes to every client but the new one, and then CONNECT_SELF goes to the first client on its descriptor |
| Broadsock.Server.Accept | server/Broadsock.cpp:264-282 | a connection is rejected, with no state change, exactly when `clientCount + 1 == MAX_CLIENTS`; otherwise it is connected |
| Broadsock.Server.HandleClientMessage | server/Broadsock.cpp:184-190 | the sender's uid field followed by the message content goes to every client but the sender |
| Broadsock.Server.ServeClient | server/Broadsock.cpp:284-325 | at end of stream the client is evicted; an oversized frame is consumed with nothing sent; a payload is relayed to every other client; the rest of the stream is what ReadFrame leaves |
| Broadsock.Server.RelayPayload | server/Broadsock.cpp:321-324 | a payload read into a message, rewound and handled is relayed as `Relay(uid, payload)` |
| Broadsock.NoticeMessage | server/Broadsock.cpp:127-129 | builds a fresh message whose written bytes are the [uid, tag] notice |
| Broadsock.ConnectOtherMessage | server/Broadsock.cpp:166-170 | builds a fresh message whose written bytes are the CONNECT_OTHER notice |
| Broadsock.Skip | server/Broadsock.cpp:300-309 | the drain loop stops after the declared length, or at the end of the stream |
| Broadsock.ReadPayload | server/Broadsock.cpp:312-320 | the read loop writes every byte it reads into a fresh message, up to the declared length or the end of the stream |
| GameLift.ClaimTagsText | server/GameLiftBroadsock.cpp:80-97 | the claim tags are 23, 31 and 30 bytes with no NUL |
| GameLift.BufferText | server/GameLiftBroadsock.cpp:78-80 | the buffer's C string is a NUL-free prefix of the field that was read |
| GameLift.After | server/GameLiftBroadsock.cpp:79-81 | the second ReadString starts right after the first field |
| GameLift.ClaimToken | server/GameLiftBroadsock.cpp:81-84 | the token handed to the hosting service fits the 100-byte buffer and has no NUL |
| GameLift.ClaimRoundTrip | server/GameLiftBroadsock.cpp:79-84 | a message [GL_CLAIM_PLAYER_SESSION, token] is recognised as a claim, and its token is read back |
| GameLift.IsClaim | server/GameLiftBroadsock.cpp:80 | the strcmp test holds exactly when the first field starts with the claim tag followed by a NUL or the field's end |
| GameLift.TagWithSuffixIsNotClaim | server/GameLiftBroadsock.cpp:80 | a tag that only starts with the claim tag is not a claim |
| GameLift.ClaimOfFields | server/GameLiftBroadsock.cpp:79-84 | any first field whose C string is the claim tag makes a claim, whose token is the C string of the second field |
| GameLift.TagWithNulIsClaim | server/GameLiftBroadsock.cpp:80 | the claim tag followed by a NUL and anything else still counts as a claim |
| GameLift.HandleClaimMessage | server/GameLiftBroadsock.cpp:77-105 | a claim asks the service about its token and answers the sender alone with SUCCESS or FAILED; anything else is rewound to 0 and relayed to every client but the sender |
| GameLift.ReplyToClaim | server/GameLiftBroadsock.cpp:85-99 | exactly one [uid, SUCCESS or FAILED] frame, sent on the sender's descriptor, according to the verdict |
| GameLift.ClaimReplyOnlyToSender | server/GameLiftBroadsock.cpp:91-98 | for a registered sender, the reply reaches the sender's descriptor once and no other |
| GameLift.OnHealthCheck | server/GameLiftBroadsock.cpp:39-44 | always reports healthy |
| LineBroadsock.Stripped | server/broadsock.c:110-117 | every CR and LF before the original terminator becomes NUL, and every other byte stays |
| LineBroadsock.LineBreak | server/broadsock.c:111-112 | the first CR or LF, with none before it |
| LineBroadsock.StrippedText | server/broadsock.c:110-117 | after stripping, the string ends at its first line break |
| LineBroadsock.StripIdempotent | server/broadsock.c:110-117 | stripping twice is the same as stripping once |
| LineBroadsock.StripNewline | server/broadsock.c:110-117 | the in-place loop leaves the buffer as `Stripped` of its old contents |
| LineBroadsock.NewlineIndex | server/broadsock.c:294 | the first newline, with no newline before it |
| LineBroadsock.ScanLine | server/broadsock.c:284-303 | a line is the NUL-free text before a newline and shorter than MESSAGE_SIZE; an overflow drops MESSAGE_SIZE bytes with no newline among them; end of stream means no newline came |
| LineBroadsock.LineRoundTrip | server/broadsock.c:287-303 | a line written with its newline is read back whole, and what follows is left |
| LineBroadsock.OverlongLineTail | server/broadsock.c:299-302 | an overlong line loses only its first MESSAGE_SIZE bytes, and the next read returns its tail as a line of its own |
| LineBroadsock.ReadLine | server/broadsock.c:284-303 | the byte-by-byte loop produces exactly `ScanLine` of the stream |
| LineBroadsock.LineServer.constructor | server/broadsock.c:24-35 | every slot is empty, `client_count == 0` and `uid == 10` |
| LineBroadsock.LineServer.QueueAdd | server/broadsock.c:38-46 | the slots become `Added`, and the count rises by one unless full |
| LineBroadsock.LineServer.QueueDelete | server/broadsock.c:49-59 | the slots become `Deleted`, and the count falls by one exactly when the uid was present |
| LineBroadsock.LineServer.SendMessage | server/broadsock.c:62-71 | the notice goes to each client whose uid differs, in slot order |
| LineBroadsock.LineServer.SendMessageAll | server/broadsock.c:74-81 | the notice goes to each client, in slot order |
| LineBroadsock.LineServer.SendMessageSelf | server/broadsock.c:84-94 | the notice goes to the first client on the descriptor, or to none |
| LineBroadsock.LineServer.SendMessageClient | server/broadsock.c:97-107 | the notice goes to the first client with the uid, or to none |
| LineBroadsock.LineServer.HandleClientDisconnected | server/broadsock.c:132-153 | DISCONNECT reaches exactly the remaining clients, the slot is freed and the count falls by one |
| LineBroadsock.LineServer.HandleClientConnected | server/broadsock.c:159-182 | the client gets the next, never-used uid; the earlier clients hear CONNECT with its address, and the new client alone hears its uid |
| LineBroadsock.LineServer.Accept | server/broadsock.c:258-276 | a connection is rejected, with no state change, exactly when `client_count + 1 == MAX_CLIENTS`; otherwise it is connected |
| LineBroadsock.LineServer.ServeClient | server/broadsock.c:279-318 | at end of stream the client is evicted; an overlong or empty line sends nothing; a non-empty line goes as DATA, up to its first NUL, to every other client |

## Left out

- Sockets are not modelled: socket creation, bind, listen, `select`, `accept`, `read` and `close`, and the infinite event loop around them. One accept step (`Accept`) and one ready client (`ServeClient`) are modelled instead. Which descriptors are ready is the caller's choice.
- Short header reads are not modelled, since the code does not handle them: a header read is all or nothing.
- `send` return values and partial writes are not modelled: every send is one whole append to `outbox`.
- The hosting SDK is left out, being foreign calls and process exit: InitSDK, ProcessReady, ActivateGameSession, TerminateGameSession, ProcessEnding, and the OnStartGameSession, OnProcessTerminate, TerminateGameSession and Connect members. AcceptPlayerSession is the parameter `accept`.
- Logging is left out: `printf`, `perror`, `inet_ntoa`, `ntohs` and `print_client_addr`. The address is an `Addr` record of the dotted text and the raw port.
- `malloc`/`free` of a client is not modelled: a client is a value record. The `customData` member that HandleClientConnected clears (`server/Broadsock.cpp:157`) is not declared by the `Client` struct and is not modelled.
- Broadsock.Server.ServeClient: when the stream ends in the middle of a drain or payload read, the model evicts the client and stops. In the code, the `continue` at `server/Broadsock.cpp:305` and `:317` only continues the inner byte loop. HandleClientDisconnected has closed the descriptor (`:135`), so every later `read` at `:303` and `:315` fails with -1 rather than returning 0, and there is no second disconnect. In the drain loop (`:301-307`) the remaining reads just fail. In the payload loop (`:313-320`) each failed read falls through to `WriteByte(ch)` at `:319`, so every remaining position gets the last byte actually read, or an uninitialised byte if the stream ended at the first one. That message is then rewound and relayed on behalf of the freed client (`:321-324`). None of this after the first eviction is modelled.
- Broadsock.Server.ServeClient: requires `FrameReadable`, i.e. a declared length above MESSAGE_SIZE or at most the relay capacity, 8184 minus the uid's digit count `D`. For a length `L` of this client above that capacity and at most MESSAGE_SIZE, the relay is not modelled. If `L` is above 8188 − `D`, HandleClientMessage writes past the 8192-byte out message. If `L` is above 8184 − `D` and at most 8188 − `D`, the out message fits, but Send reads MessageLength bytes from offset 4, up to offset 4 + MessageLength, and so runs past the end of the buffer.
- Broadsock.Server.HandleClientConnected: requires `uid < INT32_MAX`, so the uid counter's signed overflow is not modelled. The line server's uid is unbounded.
- Broadsock.Server.HandleClientConnected: requires that the new descriptor is not already registered. The operating system guarantees this, and the model does not derive it.
- The Message writers require that the write fits the 8192-byte buffer, because the code has no bounds check. An overflow is not modelled.
- GameLift.HandleClaimMessage: requires that the fields it reads fit the 100-byte stack buffer, so its overflow is not modelled.
- GameLift.HandleClaimMessage: it is modelled as a standalone method that takes the server. The event loop does not dispatch to it, since it is neither virtual nor declared in its class.
- The line server's notice texts are kept as `Event` records: the `sprintf` JSON formatting, its missing escaping, and the overflow of `out` by a long line are left out.
- LineBroadsock.StripNewline: modelled on its own. The line server never calls it.
- A buffer C leaves uninitialised is modelled as zero-filled, so the four bytes past the written data that a frame carries are zeros.

## Findings

| source | as written | input that shows it | evidently intended | confidence | as-written member | corrected member |
|---|---|---|---|---|---|---|
| server/Message.cpp:22-28 | the commented-out ReadInt32 combines `char` bytes, which are sign-extended where `char` is signed, so a byte of 0x80 or more sets every higher byte of the result | WriteInt32(128) writes 00 00 00 80, and ReadInt32 reads it back as -128 | read the bytes unsigned, so ReadInt32 inverts WriteInt32 | high where `char` is signed; not executed | Messages.ReadInt32AsWrittenLoses128 | Messages.WriteInt32ThenRead |
