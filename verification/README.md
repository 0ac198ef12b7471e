# SPChat/1.0, verified

The chat system of this repository is a C++ server (`mockServer`) and a Java client
(`BabbleOnClient2_newest`) that speak a protocol of their own, SPChat/1.0. This project models the whole
stack in Dafny and proves what the two programs owe each other:

| layer | modules |
|---|---|
| bytes, fixed-width integers, messages and the wire format as functions | `Bytes`, `Messages` |
| the server's encoders and decoders, its cursor and checked setters; its socket reads; its message loop | `CppCodec`, `CppLogin`, `Socket`, `Decoder` |
| the client's constructors, length sums and encoders; its header and message readers | `JavaCodec`, `JavaReader`, `JavaDecoder` |
| cutting a text into pieces, encrypting them, decrypting block by block | `Splitter`, `Cbc` |
| the password hash and the key text | `Hashing`, `Pem` |
| the three tables, the server's thread, many threads over one database | `Database`, `Server`, `Concurrent`, `ThreadRun` |
| the client's handlers, the two-party login, the polling loop over whole runs | `Client`, `ClientText`, `Handshake`, `Polling` |
| the layers together, from what one user types to what another one reads | `EndToEnd` |

The wire format is given once, as functions on byte sequences (`Messages.Payload`, `Messages.Frame`,
`Messages.DecodePayload`). The loops, buffers, cursors, setters, ciphers, sockets and threads of the two programs
are imperative Dafny, each proved to compute those functions; the theorems are about the functions. Two
encoders that are both proved to write `Frame(m)` write the same bytes.

Assumed of the libraries, always as a `requires`: AES is a block permutation with an inverse, chained as in section
6.2 of NIST SP 800-38A with the padding of section 6.3 of RFC 5652, and the same in both programs
(`Cbc.Inverts`, `EndToEnd.SameCipher`); SHA-256 is a function with 32-byte results, the same in both
programs (`Hashing.IsDigest`); RSA unwrapping inverts wrapping (`Handshake.Valid`). Random challenges, nonces,
key pairs, the clock, the segmentation of the stream, the order in which the database returns rows, and the schedule
are arbitrary.

## What turned out to be false, and what holds instead

- `setMsgNum` tests the field `time`, which is not set yet, instead of its argument. The model keeps that: `stale(i)` is
  what the memory of record i holds there. Decoding a list, and replying to a poll, succeed exactly if none of these is
  negative (`Messages.RoundTrip`, `EndToEnd.ListIsTaken`).
- `doEncryption` drops what its loop encrypts and passes an end index for a length. It is the encryption of its
  argument exactly for 1 to 16 characters; the empty text is not encrypted, and a longer one ends in the cipher's
  exception (`JavaCodec.DoEncryption`). The splitter never leaves that range (`Splitter.Split`).
- On a big-endian host the encoders write the least significant byte first, but both branches of the decoders
  read the most significant one first: a number survives exactly if its bytes are a palindrome
  (`CppCodec.HostRoundTrip`, `CppCodec.BigEndianHostLosesOne`). Everything else is stated for the little-endian branch.
- The server's login encoder writes `key` also for a wrapped key, which is kept in `encSymKey`: the bytes are
  a frame exactly for the other key types (`CppLogin.SPChatLogin.Encode`).
- The server's response encoder announces eight bytes of nonce whatever the nonce is: the bytes are a frame exactly
  for nonces of eight bytes (`CppCodec.EncodeResponse`).
- The server takes a list with a negative count as an empty list: the only payloads that are decoded to a message whose
  encoding they do not start with. Where fewer than eight bytes follow the hash of a response, it drops them without
  complaint (`Messages.Canonicity`).
- The client's loop over an encrypted body reads whole blocks and does not look at how much a read has returned: it stays
  in step with the stream exactly if no read is short and the announced length is a multiple of 16
  (`JavaReader.DecryptBody`).
- The client never uses the length a header announces; it stays in step only because its constructors consume what
  the server wrote (`JavaDecoder.ReadAll`). A message type it does not handle leaves its payload in front of the
  reader (`JavaDecoder.PayloadIsNoHeader`).
- Not every login gets to polling. It does exactly if the name fits, a password was typed, its hash is right for the
  challenge and nonce of the run, the client's key is a 1024-bit one, and no text is sent before the symmetric key
  (`Handshake.LoginCompletes`). With a shorter key the server waits for bytes that never come; where each of the others
  stops is `Handshake.LoginStops`, which also covers texts that fill the place of a shorter key.
- The window for chatting opens with the first acknowledgement, before the keys are exchanged. A text sent before the
  symmetric key ends the session, one sent after it does not (`Handshake.EarlyTextEndsSession`,
  `Handshake.LaterTextIsStored`).
- A text of more than 500 characters, or one from a sender whose name fails the check, is stored but never delivered, and
  the reply loop that meets it ends the session: the rows behind it in the query's result, which has no order of its own,
  are not delivered either
  (`Server.PollReplies`, `Polling.DeliveryDecided`, `EndToEnd.TypedIsRead`).
- If a poll is answered only after the client has read its clock again, a row can be delivered twice. Exactly when is
  `Polling.DeliveredTwice`; a run in which it happens is `Polling.LateAnswerDeliversTwice`.

## Model

| member | source | states |
|---|---|---|
| `Messages.RecordField` | mockServer/protocol/SPChatMsgMessage.cpp:24-48 | a record is decoded at a cursor if and only if its encoding stands there and every setter accepts its fields; the cursor ends behind it |
| `Messages.RecordsField` | mockServer/protocol/SPChatPollResponse.cpp:42-56 | the same, both directions, for a list of records of any length |
| `Messages.PollResponseField` | mockServer/protocol/SPChatPollResponse.cpp:18-40 | a poll response with a count that is not negative is decoded if and only if its encoding is a prefix of the buffer, and the cursor ends at the end of that encoding |
| `Messages.LoginField` | mockServer/protocol/SPChatLogin.cpp:42-75 | a login is decoded if and only if its encoding is a prefix; with a wrapped key, only if it is the whole buffer |
| `Messages.ResponseField` | mockServer/protocol/SPChatResponse.cpp:16-51 | a response is decoded if and only if its encoding is a prefix and, if it has no nonce, fewer than eight bytes follow it |
| `Messages.PollField` | mockServer/protocol/SPChatPoll.cpp:15-30 | a poll is decoded if and only if its encoding is a prefix, whatever its time |
| `Messages.AckField` | mockServer/protocol/SPChatACK.cpp:16-36 | an acknowledgement is decoded if and only if the first byte is its code and sender |
| `Messages.Canonicity` | mockServer/protocol/SPChatMessage.cpp:90-128 | for every payload of every type: what was decoded has the fields a message can have, and its encoding is the front of the bytes read if and only if the payload does not declare a negative count; the nonce is there exactly if eight bytes follow the hash, and otherwise fewer than eight bytes are lost |
| `Messages.NegativeCount` | mockServer/protocol/SPChatPollResponse.cpp:50-56 | a list with a negative count is taken as the empty list, and is not an encoding of it |
| `Messages.RoundTrip` | mockServer/protocol/SPChatMessage.cpp:42-128 | for every message of every type: decoding its payload returns it if and only if its fields are ones a message can have; a nonce has eight bytes or none |
| `Messages.HeaderTellsLength` | mockServer/protocol/SPChatMessage.cpp:47-51 | a body under a header with another length is another byte string, so announcing the right length is part of every encoder's contract |
| `Messages.HeaderInNumbers` | mockServer/protocol/SPChatMessage.cpp:47-51 | the nineteen bytes of a header, number by number |
| `Messages.AcksInNumbers` | mockServer/protocol/SPChatACK.cpp:31-74 | the byte of each acknowledgement |
| `Messages.MessagesInNumbers` | mockServer/protocol/SPChatMessage.cpp:111-127 | a message of each type byte by byte: its type, and which field comes where and how wide |
| `Messages.ListInNumbers` | mockServer/protocol/SPChatPollResponse.cpp:35-48 | the same for a list |
| `Messages.RecordInNumbers` | mockServer/protocol/SPChatMsgMessage.cpp:40-48 | the same for an entry |
| `Messages.DecodedIsChecked` | mockServer/protocol/SPChatMessage.cpp:90-128 | whatever the bytes were, names in a decoded message have only the allowed characters, keys their length and layout, numbers their bounds |
| `Bytes.BigEndianByte` | mockServer/protocol/SPChatMessage.cpp:61-83 | byte i of a number in network byte order is the shifted number cut to a byte, for any width |
| `Bytes.SignedOfBigEndian` | mockServer/protocol/SPChatMessage.cpp:154-205 | reading what was written returns the number, for every number of the width, negative ones included |
| `Bytes.Int32Codec` | mockServer/protocol/SPChatMessage.cpp:180-205 | four bytes read as a number if and only if they are its encoding |
| `Bytes.Int64Codec` | mockServer/protocol/SPChatMessage.cpp:154-177 | eight bytes read as a number if and only if they are its encoding |
| `CppCodec.PushNumber` | mockServer/protocol/SPChatMessage.cpp:61-83 | the encoding loops append the bytes of the number, in the host's order |
| `CppCodec.OrBytes` | mockServer/protocol/SPChatMessage.cpp:154-205 | both decoding loops compute the same number from the bytes, most significant first |
| `CppCodec.HostRoundTrip` | mockServer/protocol/SPChatMessage.cpp:61-83 | a number of any width survives if and only if the host is little-endian or the bytes are a palindrome |
| `CppCodec.BigEndianHostLosesOne` | mockServer/protocol/SPChatMessage.cpp:78-82 | the number 1 does not survive on a big-endian host |
| `CppCodec.EncodeHeader` | mockServer/protocol/SPChatMessage.cpp:47-51 | the header is appended with its type and length |
| `CppCodec.Cursor.DecodeInt` | mockServer/protocol/SPChatMessage.cpp:180-205 | value, new cursor or the too-short error, as the format says |
| `CppCodec.Cursor.DecodeLong` | mockServer/protocol/SPChatMessage.cpp:154-177 | value, new cursor or the too-short error, as the format says |
| `CppCodec.Cursor.DecodeString` | mockServer/protocol/SPChatMessage.cpp:207-224 | the string, or the error for a negative length or for too few bytes |
| `CppCodec.IsValidUsername` | mockServer/protocol/SPChatMessage.cpp:233-242 | true if and only if every character is allowed |
| `CppCodec.MsgMessage.SetMsgNum` | mockServer/protocol/SPChatMsgMessage.cpp:99-104 | the number is set if and only if the old time is not negative; nothing else changes |
| `CppCodec.MsgMessage.SetDecryptMsgLen` | mockServer/protocol/SPChatMsgMessage.cpp:88-93 | lengths above 500 are refused and change nothing |
| `CppCodec.MsgMessage.DecodeFrom` | mockServer/protocol/SPChatMsgMessage.cpp:24-33 | the constructor leaves the fields, the cursor or the exception that the format function gives, in the source's order of checks |
| `CppCodec.EncodeMessage` | mockServer/protocol/SPChatMsgMessage.cpp:40-48 | a record is appended as its encoding |
| `CppCodec.RecordLength` | mockServer/protocol/SPChatMsgMessage.cpp:129-132 | the length computed from the fields is the number of bytes written |
| `CppCodec.SPChatPollResponse.DecodeMsgList` | mockServer/protocol/SPChatPollResponse.cpp:50-56 | the loop decodes the records the format gives, and, whatever the count, builds at most one for every 36 bytes left, also when it throws |
| `CppCodec.SPChatPollResponse.DecodeFrom` | mockServer/protocol/SPChatPollResponse.cpp:18-28 | the constructor returns the message or the exception that the format function gives |
| `CppCodec.SPChatPollResponse.EncodeMsgList` | mockServer/protocol/SPChatPollResponse.cpp:42-48 | count and records are appended in order |
| `CppCodec.SPChatPollResponse.GetPayloadLength` | mockServer/protocol/SPChatPollResponse.cpp:100-106 | the sum over the list is the number of payload bytes |
| `CppCodec.SPChatPollResponse.Encode` | mockServer/protocol/SPChatPollResponse.cpp:35-48 | the bytes appended are the frame of the message, announced length included |
| `CppCodec.EncodePoll` | mockServer/protocol/SPChatPoll.cpp:27-59 | the bytes appended are the frame, the same ones the client writes |
| `CppCodec.EncodeResponse` | mockServer/protocol/SPChatResponse.cpp:30-54 | the bytes appended are the frame if and only if the nonce has eight bytes |
| `CppLogin.Scan` | mockServer/protocol/SPChatLogin.cpp:161-177 | the comparison loop finds out whether the text stands at the position |
| `CppLogin.SPChatLogin.SetAsymmetricKey` | mockServer/protocol/SPChatLogin.cpp:155-188 | the key is taken if and only if header, footer and newlines are in place; otherwise it stays |
| `CppLogin.SPChatLogin.SetKey` | mockServer/protocol/SPChatLogin.cpp:113-128 | which key types and lengths are taken, both directions, and what is kept then |
| `CppLogin.SPChatLogin.SetKeyFrom` | mockServer/protocol/SPChatLogin.cpp:130-140 | a wrapped key is taken if and only if it is all that is left of the buffer |
| `CppLogin.SPChatLogin.DecodeKey` | mockServer/protocol/SPChatLogin.cpp:53-75 | the key fields or the exception, as the format function gives them |
| `CppLogin.SPChatLogin.DecodeFrom` | mockServer/protocol/SPChatLogin.cpp:42-47 | the login message or the exception, as the format function gives them |
| `CppLogin.SPChatLogin.GetPayloadLength` | mockServer/protocol/SPChatLogin.cpp:86-95 | the announced length is that of the payload, for every key type |
| `CppLogin.SPChatLogin.Encode` | mockServer/protocol/SPChatLogin.cpp:77-84 | the bytes are the frame if and only if the key is not a wrapped one; then exactly the wrapped key is missing |
| `Socket.ReadableSegments` | mockServer/PracticalSocket.cpp:286-294 | cutting a stream into segments changes nothing about what can be read from it |
| `Socket.TcpSocket.RecvFully` | mockServer/PracticalSocket.cpp:296-310 | for every sequence of partial reads: as many bytes as asked for or as there are, the buffer prefix is the stream prefix, the rest of buffer and stream is untouched, and it throws if and only if an error comes before the buffer is full |
| `Decoder.DecodeHeader` | mockServer/protocol/SPChatMessage.cpp:130-152 | the length, or the bad-header exception |
| `Decoder.DecodeResponseFrom` | mockServer/protocol/SPChatResponse.cpp:16-51 | the response, or the exception, that the format function gives; a short nonce is dropped |
| `Decoder.DecodePollFrom` | mockServer/protocol/SPChatPoll.cpp:15-20 | the poll, or the exception, that the format function gives |
| `Decoder.Decode` | mockServer/protocol/SPChatMessage.cpp:90-128 | one message from a socket, however segmented: result and bytes consumed are a function of the stream alone |
| `Decoder.FrameIsTaken` | mockServer/protocol/SPChatMessage.cpp:90-128 | what is decoded of a frame, and how much is taken, depends on its payload alone, whatever follows; decode never waits behind a whole frame |
| `Decoder.FrameCutOff` | mockServer/protocol/SPChatMessage.cpp:99-109 | a frame cut off anywhere behind its header is an exception, and everything up to the end is taken |
| `Decoder.OtherHeaderRefused` | mockServer/protocol/SPChatMessage.cpp:130-141 | other bytes than the ten letters in front are the bad-header exception |
| `Decoder.FrameDecodes` | mockServer/protocol/SPChatMessage.cpp:42-128 | in front of any other bytes, a frame is taken whole, 19 bytes and the payload, as its message, if and only if the message has the fields a message can have |
| `Decoder.Framing` | mockServer/protocol/SPChatMessage.cpp:90-152 | a concatenation of frames is read back as the list of the messages, whatever follows |
| `Decoder.ReceiveAll` | mockServer/protocol/SPChatMessage.cpp:90-128 | over any segmentation, repeated calls return the messages sent and leave exactly the rest of the stream |
| `Cbc.CbcInverse` | mockServer/MockServer.cpp:517-520 | chained decryption inverts chained encryption, for any number of blocks |
| `Cbc.XorIs` | mockServer/MockServer.cpp:743-798 | a bit of the combination of two blocks is set if and only if they differ in it |
| `Cbc.Chaining` | mockServer/MockServer.cpp:743-798 | for every block: it is the permutation of the block of the text combined with the block of the ciphertext before it, or with the first vector |
| `Cbc.FirstVectorMatters` | BabbleOnClient2_newest/src/main/java/securityjavaclient/BabbleOnClient.java:254-256 | the same text under another first vector starts differently |
| `Cbc.CbcDecryptAppend` | BabbleOnClient2_newest/src/main/java/protocol/MsgMessage.java:159-163 | decryption may stop after any block and go on from the last one |
| `Cbc.UnpadLast` | BabbleOnClient2_newest/src/main/java/protocol/MsgMessage.java:165-173 | the padding of a text is decided by its last block alone |
| `Cbc.UnpadIs` | BabbleOnClient2_newest/src/main/java/protocol/MsgMessage.java:165-173 | a padding is taken off if and only if it is one: as many bytes as missing, each with that number |
| `Cbc.DecryptEncrypt` | mockServer/MockServer.cpp:541-545 | decryption returns the text that was encrypted, for texts of every length |
| `Cbc.DecryptingCipher.Update` | BabbleOnClient2_newest/src/main/java/protocol/MsgMessage.java:160-163 | what has been released so far is the decryption of all blocks but the one kept back |
| `Cbc.DecryptingCipher.LastBlocks` | BabbleOnClient2_newest/src/main/java/protocol/MsgMessage.java:165-169 | the pieces released and the last two blocks are the one-shot decryption of everything fed |
| `Cbc.DecryptingCipher.DoFinal` | BabbleOnClient2_newest/src/main/java/protocol/MsgMessage.java:165-173 | the end of the text, or an exception exactly when one-shot decryption finds bad padding |
| `Cbc.EncryptingCipher.Update` | BabbleOnClient2_newest/src/main/java/protocol/MsgMessage.java:273-276 | whole blocks come out, the rest is kept back; an offset and length beyond the array throw and change nothing |
| `Cbc.EncryptingCipher.DoFinal` | BabbleOnClient2_newest/src/main/java/protocol/MsgMessage.java:277-280 | everything kept back and handed over is encrypted with its padding, and the cipher is as new |
| `JavaCodec.DoEncryption` | BabbleOnClient2_newest/src/main/java/protocol/MsgMessage.java:266-286 | the result is the one-shot encryption of the text if and only if it has 1 to 16 characters; what happens to all others |
| `JavaCodec.NewMsgMessage` | BabbleOnClient2_newest/src/main/java/protocol/MsgMessage.java:37-119 | fields that pass every check give the piece, with the encryption of its text (nothing for the empty text); others give none |
| `JavaCodec.EncodePiece` | BabbleOnClient2_newest/src/main/java/protocol/MsgMessage.java:206-227 | a piece is written as the encoding of a record with the time of writing |
| `JavaCodec.EncodePieces` | BabbleOnClient2_newest/src/main/java/protocol/PollResponseMessage.java:140-142 | the list is written as the encodings of its pieces in order, with times not before the start |
| `JavaCodec.SummedLengthIsWritten` | BabbleOnClient2_newest/src/main/java/protocol/MsgMessage.java:256-264 | the length summed over the pieces is the number of bytes they are written as |
| `JavaCodec.GetLen` | BabbleOnClient2_newest/src/main/java/protocol/MsgMessage.java:256-264 | the loop computes that sum |
| `JavaCodec.SendPollResponse` | BabbleOnClient2_newest/src/main/java/protocol/PollResponseMessage.java:26-146 | constructor and encoder write exactly the frame of the list, announced length included, if and only if name and list numbers are in range and the list is not empty; otherwise nothing |
| `JavaCodec.SendPoll` | BabbleOnClient2_newest/src/main/java/protocol/PollMessage.java:20-98 | the frame of the poll, if and only if the name fits and the time is neither negative nor in the future |
| `JavaCodec.SendResponse` | BabbleOnClient2_newest/src/main/java/protocol/ResponseMessage.java:22-113 | the frame of the response; the nonce written as a long is the eight bytes the server reads |
| `JavaCodec.SendLogin` | BabbleOnClient2_newest/src/main/java/protocol/LoginMessage.java:50-142 | what is written, and that nothing is if and only if the name is too long |
| `JavaCodec.LoginIsFrame` | BabbleOnClient2_newest/src/main/java/protocol/LoginMessage.java:50-142 | these bytes are the frame of the login if and only if the key has the length its type announces |
| `Splitter.CeilCounts` | BabbleOnClient2_newest/src/main/java/securityjavaclient/BabbleOnClient.java:260 | the rounded-up quotient is the number of pieces |
| `Splitter.Split` | BabbleOnClient2_newest/src/main/java/securityjavaclient/BabbleOnClient.java:260-271 | contiguous pieces of 1 to 15 characters, numbered from 1 to the total, each with its length and its one-shot encryption; no check refuses one, unless a name is too long |
| `Splitter.CutsJoin` | BabbleOnClient2_newest/src/main/java/securityjavaclient/BabbleOnClient.java:262-265 | the first n pieces in order are the text up to the end of piece n |
| `Splitter.CarriesPieces` | BabbleOnClient2_newest/src/main/java/securityjavaclient/BabbleOnClient.java:260-276 | field by field, what a list for a text has in each record: names, the encryption of the i-th fifteen characters, their number, i + 1, the total, the time |
| `Splitter.PiecesJoin` | BabbleOnClient2_newest/src/main/java/securityjavaclient/BabbleOnClient.java:259-271 | all pieces in order are the text |
| `Splitter.BuildText` | BabbleOnClient2_newest/src/main/java/securityjavaclient/BabbleOnClient.java:241-250 | the text is the one typed; if there are several recipients, a line of greeting and each name on a line stand in front of it |
| `Splitter.FullText` | BabbleOnClient2_newest/src/main/java/securityjavaclient/BabbleOnClient.java:241-250 | for one recipient the text typed and nothing else; for several the literal greeting, then every name in order with a newline, then the text |
| `Splitter.SendOne` | BabbleOnClient2_newest/src/main/java/securityjavaclient/BabbleOnClient.java:259-281 | one recipient's list goes out whole, if and only if both names fit; otherwise nothing does |
| `Splitter.Send` | BabbleOnClient2_newest/src/main/java/securityjavaclient/BabbleOnClient.java:239-281 | what goes out is one frame for each recipient, in order, up to the first name that is too long, each carrying the split of the whole text; nothing if the text is empty or too long |
| `Splitter.Served` | BabbleOnClient2_newest/src/main/java/securityjavaclient/BabbleOnClient.java:259-281 | all recipients up to the first one whose name is too long, and none if the user's own is |
| `JavaReader.DecryptBody` | BabbleOnClient2_newest/src/main/java/protocol/MsgMessage.java:156-175 | the loop takes all the blocks it asks for if and only if no read is short; then it equals one-shot decryption of them, and has read as much as was announced if and only if that is a multiple of the block size |
| `JavaReader.ReadName` | BabbleOnClient2_newest/src/main/java/protocol/MsgMessage.java:126-148 | a name of at most 64 bytes is read and the stream is behind it; a longer one is refused |
| `JavaReader.ReadBody` | BabbleOnClient2_newest/src/main/java/protocol/MsgMessage.java:150-175 | if no read is short: a body of whole blocks is read as its decryption and the stream is behind it; with any other body, the stream has gone too far |
| `JavaReader.ReadNumbers` | BabbleOnClient2_newest/src/main/java/protocol/MsgMessage.java:180-203 | the four numbers behind a text are read and taken if and only if they pass the checks |
| `JavaReader.ReadMsgMessage` | BabbleOnClient2_newest/src/main/java/protocol/MsgMessage.java:121-204 | a written record with a body of whole blocks is read, if no read is short, if and only if it passes the client's checks; then the stream is behind it and the text is the decryption |
| `JavaReader.ReadPollResponse` | BabbleOnClient2_newest/src/main/java/protocol/PollResponseMessage.java:75-123 | a written list of such records is read, if no read is short, if its fields and records pass the checks, and only then; every record becomes its decryption |
| `JavaDecoder.ReadHeader` | BabbleOnClient2_newest/src/main/java/protocol/BabbleOnMessage.java:66-95 | type and length, or the exception, for every stream |
| `JavaDecoder.HeaderIs` | BabbleOnClient2_newest/src/main/java/protocol/BabbleOnMessage.java:72-89 | a header is read if and only if it has the ten letters and a length that is not negative |
| `JavaDecoder.HeaderOfFrame` | BabbleOnClient2_newest/src/main/java/protocol/BabbleOnMessage.java:72-89 | of every frame, the client reads the type and length the encoder wrote and stands in front of the payload |
| `JavaDecoder.ReadAck` | BabbleOnClient2_newest/src/main/java/protocol/ACKMessage.java:45-87 | error and sender of every byte, with the sign of a Java byte |
| `JavaDecoder.ReadLogin` | BabbleOnClient2_newest/src/main/java/protocol/LoginMessage.java:81-118 | a written login is read if and only if the name fits and the text of a public key is one; a wrapped key stays in the stream |
| `JavaDecoder.ReadIncoming` | BabbleOnClient2_newest/src/main/java/securityjavaclient/ReaderThread.java:29-53 | if no read is short, every frame the client understands is read as its message and consumed whole; of other types only the header is |
| `JavaDecoder.ReadAll` | BabbleOnClient2_newest/src/main/java/securityjavaclient/ReaderThread.java:24-58 | if no read is short, a whole stream of such frames is read as the messages in order, up to exactly the rest, without using any announced length |
| `JavaDecoder.PayloadIsNoHeader` | BabbleOnClient2_newest/src/main/java/securityjavaclient/ReaderThread.java:49-57 | the payload of a poll or response left in the stream is refused as a header |
| `Hashing.HexAgreement` | BabbleOnClient2_newest/src/main/java/securityjavaclient/BabbleOnClient.java:499 | for every digest, the zero-padded hexadecimal of its value as a number is the two digits of each byte in order |
| `Hashing.HexBytesInjective` | mockServer/Sha256Lib.h:44-49 | different digests print differently |
| `Hashing.HexBytesAt` | mockServer/Sha256Lib.h:45-48 | each byte prints as its two hexadecimal digits in small letters, at its place |
| `Hashing.PrintDigest` | mockServer/Sha256Lib.h:44-49 | the printing loop leaves those digits and a terminator |
| `Hashing.Concatenate` | mockServer/MockServer.cpp:236-250 | the three copy loops lay challenge, nonce and password end to end, for every length |
| `Hashing.HashAgreement` | mockServer/MockServer.cpp:251-255 | the client's and the server's hash texts are equal if and only if the digests are; equal passwords suffice, with the nonce hashed as a number by one and as received bytes by the other |
| `Hashing.HashBytesAgree` | mockServer/MockServer.cpp:255 | comparing the texts as bytes is comparing them |
| `Pem.Wrap` | BabbleOnClient2_newest/src/main/java/protocol/LoginMessage.java:257-266 | a body of n characters becomes n + ceil(n/64), with newline k at 65k and every character in its place |
| `Pem.UnwrapWrapped` | BabbleOnClient2_newest/src/main/java/protocol/LoginMessage.java:257-266 | leaving out the newlines gives back the body |
| `Pem.KeyTextUnwraps` | BabbleOnClient2_newest/src/main/java/protocol/LoginMessage.java:267-287 | what the decoder cuts out of the key text is the body |
| `Pem.LayoutAccepted` | mockServer/protocol/SPChatLogin.cpp:155-188 | the server accepts the client's key text if and only if the body has 216 characters |
| `Pem.LongerTextRefused` | mockServer/protocol/SPChatLogin.cpp:53-75 | of a longer key text the server refuses the 271 characters it takes |
| `Database.UserId` | mockServer/MockServer.cpp:622-652 | a row with that address, if there is one |
| `Database.Password` | mockServer/MockServer.cpp:198-206 | the password of a row that has the address; empty without such a row |
| `Database.PasswordOfRow` | mockServer/MockServer.cpp:198-206 | if one row has the address, that row's password |
| `Database.MessageId` | mockServer/MockServer.cpp:666-674 | a row with exactly that text, if there is one |
| `Database.Select` | mockServer/MockServer.cpp:440-490 | exactly the rows addressed to the user, joined to a text and a sender, of strictly later seconds, each once; one of the results the query may have |
| `Server.LogIn` | mockServer/MockServer.cpp:136-387 | the nested conditions send and decide what the step function of the dialogue does, for every sequence of incoming messages |
| `Server.TurnKeepsOutcome` | mockServer/MockServer.cpp:136-387 | each of the four reads and answers leaves the outcome of the dialogue as it was |
| `Server.ResponseIsJudged` | mockServer/MockServer.cpp:163-271 | an answer is taken if and only if its hash is the one with the password of the user's row; without a row, or with an empty password, it gets the default error |
| `Server.ChallengeIsSent` | mockServer/MockServer.cpp:140-156 | the challenge drawn is the one sent and the one kept |
| `Server.KeyIsUnwrapped` | mockServer/MockServer.cpp:306-344 | the session's key is what the private key unwraps, if and only if that has sixteen bytes |
| `Server.OtherTypesEndLogin` | mockServer/MockServer.cpp:348-386 | in each place of the dialogue, a message of another type ends it without a word |
| `Server.CheckHash` | mockServer/MockServer.cpp:234-255 | the three loops, the digest loop and the comparison accept exactly the text of the server's hash |
| `Server.SendReplies` | mockServer/MockServer.cpp:517-532 | replies row by row, up to the first one a setter refuses |
| `Server.ResultIsSelected` | mockServer/MockServer.cpp:440-490 | whatever order the query returns rows in, each is joined to a text, a sender and the polling user |
| `Server.RepliesAre` | mockServer/MockServer.cpp:517-532 | reply i answers selected row i, and the first row without a reply is one a setter refuses |
| `Server.PollReplies` | mockServer/MockServer.cpp:409-532 | for every order of the result: a row is answered if and only if no row up to it in the result is refused, and the session goes on if and only if none at all is |
| `Server.Assemble` | mockServer/MockServer.cpp:537-545 | the texts decrypted one by one and joined |
| `Server.Store` | mockServer/MockServer.cpp:580-704 | the tables after the five statements |
| `Server.HandleChat` | mockServer/MockServer.cpp:396-724 | one round of the chat loop sends, stores and ends as the step function says |
| `Server.ChatIsTheUsers` | mockServer/MockServer.cpp:409-551 | for every message: replies go only to a poll of the session's own user and each to him; rows come only from a list under his name; a poll or list under another name ends the session; other types do nothing |
| `Server.TruncatedIs` | mockServer/MockServer.cpp:449-450 | seconds are milliseconds divided towards zero |
| `Server.ClientConnectStart` | mockServer/MockServer.cpp:130-727 | everything a thread sends and leaves in the database, from its first message to its last; what that is: `ThreadRun.ChatRunChain`, `ThreadRun.ThreadIsRun` |
| `ThreadRun.ChatRunChain` | mockServer/MockServer.cpp:389-727 | while every message finds the thread chatting and time is left, the replies are those to all messages, one after the other, and the tables are those the last one leaves |
| `ThreadRun.NoMoreRounds` | mockServer/MockServer.cpp:389-398 | once the time is up, nothing more is read |
| `ThreadRun.ThreadIsRun` | mockServer/MockServer.cpp:130-727 | a thread alone does exactly what it does among others when none comes in between: same tables, same replies, same state; so all that holds of every interleaving holds of its loop |
| `Concurrent.ThreadUntouched` | mockServer/MockServer.cpp:110-114 | no step of one thread breaks what another thread rests on |
| `Concurrent.StepKeepsInv` | mockServer/MockServer.cpp:389-727 | every message, statement, failure or expiry of any thread keeps the invariant |
| `Concurrent.RunKeepsInv` | mockServer/MockServer.cpp:389-727 | so does every interleaving of any number of threads |
| `Concurrent.StoreIsSound` | mockServer/MockServer.cpp:546-704 | in every interleaving, each added row names a message row with exactly the text its own thread assembled, the receiver of the list, and as sender the user that logged in; that user's client had sent the hash with the password in his row, and the key exchange had succeeded |
| `Concurrent.ReturnedWasStored` | mockServer/MockServer.cpp:409-532 | each reply goes to the logged-in receiver of its row; if the row was added in the run, it is the text some logged-in thread assembled, under that thread's user, encrypted under the polling thread's key |
| `Concurrent.UninterruptedStore` | mockServer/MockServer.cpp:580-704 | run alone, the five statements have the effect of the thread's own method |
| `Client.BabbleOnClient.HandleACK` | BabbleOnClient2_newest/src/main/java/securityjavaclient/BabbleOnClient.java:404-479 | fields and bytes sent after every acknowledgement, also where the login message cannot be built |
| `Client.BabbleOnClient.HandleChallenge` | BabbleOnClient2_newest/src/main/java/securityjavaclient/BabbleOnClient.java:486-519 | the response and the overwritten password; with a name too long, an exception and neither |
| `Client.BabbleOnClient.HandleLogin` | BabbleOnClient2_newest/src/main/java/securityjavaclient/BabbleOnClient.java:525-532 | the wrapped key goes out; a text that is no key throws; what the cipher or the message throws leaves the flag unset |
| `Client.BabbleOnClient.ReaderRound` | BabbleOnClient2_newest/src/main/java/securityjavaclient/ReaderThread.java:24-58 | one round with its latch: it is set after the round if and only if something was thrown, type by type, and nothing is read any more then |
| `Client.ReceiveChanges` | BabbleOnClient2_newest/src/main/java/securityjavaclient/BabbleOnClient.java:404-532 | which message changes which field, and which ones are answered at all |
| `ClientText.JoinSafe` | mockServer/protocol/SPChatLogin.cpp:168-177 | byte strings without the key footer that start with a byte it does not have keep to that when joined |
| `ClientText.RecordSafe` | BabbleOnClient2_newest/src/main/java/protocol/MsgMessage.java:206-227 | the footer is nowhere in an entry the client writes: names have no space, and no other field is long enough |
| `ClientText.FramesSafe` | BabbleOnClient2_newest/src/main/java/protocol/PollResponseMessage.java:125-146 | nor anywhere in any number of lists |
| `ClientText.TextsFillNoKey` | mockServer/protocol/SPChatLogin.cpp:155-188 | so no texts behind a key text that is too short complete it to one the server takes |
| `Handshake.PhaseStep` | mockServer/MockServer.cpp:136-388 | every event leads from one phase of the joint state to the next, to a place where the login stays, or leaves it |
| `Handshake.EveryRun` | mockServer/MockServer.cpp:136-388 | every reachable state is in a phase |
| `Handshake.PatternIsValid` | BabbleOnClient2_newest/src/main/java/securityjavaclient/PasswordPane.java:173-199 | the names the login window lets through are those the server's check lets through |
| `Handshake.PublicLoginIsTaken` | mockServer/protocol/SPChatLogin.cpp:42-75 | of the client's key login the server decodes the message, refuses it, or waits for more bytes, as the key text has 271 characters, more, or fewer |
| `Handshake.FilledKey` | mockServer/protocol/SPChatLogin.cpp:53-75 | behind a key text that is too short, the server takes bytes of the texts for its end, and refuses the two together, whatever the texts are |
| `Handshake.TextIsDecoded` | mockServer/protocol/SPChatMessage.cpp:111-127 | a list of texts is decoded to a list or refused by a setter, never to a login |
| `Handshake.KeyIsAnswered` | BabbleOnClient2_newest/src/main/java/securityjavaclient/BabbleOnClient.java:351-397 | whatever key the server sends, the symmetric key goes out wrapped for it, as one frame |
| `Handshake.AnswerTaken` | mockServer/MockServer.cpp:163-271 | the server takes the client's answer if and only if there is a password and the two hashes are equal |
| `Handshake.LoginInvariant` | mockServer/MockServer.cpp:136-400 | in every reachable state the poller is started at most once; before, without an early text, at most one login message is in flight and no poll; polls only once the server has left the login; a chatting server has the client's name and its 16-byte key |
| `Handshake.MessagesAreTaken` | BabbleOnClient2_newest/src/main/java/securityjavaclient/ReaderThread.java:29-48 | up to polling, every message on its way to the client is one its reader takes whole |
| `Handshake.KeyNeverChanges` | mockServer/MockServer.cpp:389-400 | a thread that has left the login never takes another user or key |
| `Handshake.ChatKeepsKey` | mockServer/MockServer.cpp:389-727 | a round of the chat loop changes neither user nor key nor the users table, and sends only poll responses, none after a text |
| `Handshake.LoginCompletes` | mockServer/MockServer.cpp:136-388 | once no step is left, the login has got to polling with exactly eight messages if and only if the name fits, a password was typed, this run's hash is the stored password's, the key text has 271 characters and no text came before the symmetric key |
| `Handshake.LoginStops` | BabbleOnClient2_newest/src/main/java/securityjavaclient/BabbleOnClient.java:404-532 | for each of these conditions, where a login that fails it stays |
| `Handshake.LoginGoesOn` | BabbleOnClient2_newest/src/main/java/securityjavaclient/BabbleOnClient.java:404-532 | while they hold, the phase is the number of steps taken, a next step is possible, and nine steps complete the login |
| `Handshake.PasswordDecides` | mockServer/MockServer.cpp:224-271 | in every run the answer is to the challenge drawn, and is taken if and only if its hash, with this run's challenge and nonce, is the stored password's; if not, the server has closed, and the client never becomes authenticated and never polls |
| `Handshake.RowDecides` | mockServer/MockServer.cpp:198-271 | said of the rows of the login table: the answer is taken if and only if the digest with the password typed is the one with the password of the user's row, which is not empty |
| `Handshake.RightPassword` | mockServer/MockServer.cpp:198-271 | with the password of one's row the answer is taken, whatever challenge and nonce |
| `Handshake.EarlyTextEndsSession` | BabbleOnClient2_newest/src/main/java/securityjavaclient/BabbleOnClient.java:408-412 | everything else being right, the session ends without polling if and only if a text was sent before the symmetric key, in any phase and under any schedule |
| `Handshake.LaterTextIsStored` | mockServer/MockServer.cpp:537-724 | a text sent after it is stored and the chat goes on |
| `Handshake.ReaderNeverStops` | BabbleOnClient2_newest/src/main/java/securityjavaclient/ReaderThread.java:24-58 | in every run in which every list can be read, the reader's latch is free |
| `Handshake.QueueEmpties` | BabbleOnClient2_newest/src/main/java/securityjavaclient/ReaderThread.java:24-58 | a polling client reads every list on its way to it, until none is left |
| `Polling.PollThread.Round` | BabbleOnClient2_newest/src/main/java/securityjavaclient/PollThread.java:26-36 | a poll carries the time of the one before and goes out only after five seconds; then the clock is read again; the round is a run of the model's events |
| `Polling.PollsAreSpaced` | BabbleOnClient2_newest/src/main/java/securityjavaclient/PollThread.java:26-36 | in every run, each poll carries a time more than five seconds later than the one before |
| `Polling.QueryFits` | mockServer/MockServer.cpp:396-532 | for any table and any order: what the server's step selects and replies, and that it closes if and only if a row is refused |
| `Polling.DeliveredMeans` | mockServer/MockServer.cpp:409-532 | a reply for a row went out to a poll if and only if the row is in the poll's result and no row up to its place there is refused |
| `Polling.RunKeepsInv` | BabbleOnClient2_newest/src/main/java/securityjavaclient/PollThread.java:25-36 | in every run, poll times and rows seen never decrease, every poll was handled as the server's step does, and only the last one can have been broken off |
| `Polling.RunKeepsPromptInv` | BabbleOnClient2_newest/src/main/java/securityjavaclient/PollThread.java:25-36 | with prompt answers, what a poll has seen is no later than the time of any poll after it |
| `Polling.DeliveryDecided` | mockServer/MockServer.cpp:440-490 | in every run, for every order of results, a row is delivered by the first poll after it was stored, exactly when its second is strictly later than the one that poll carries and no row up to its place in the result is refused, or never |
| `Polling.DeliveredOnce` | mockServer/MockServer.cpp:440-490 | with prompt answers no row is delivered twice |
| `Polling.DeliveredTwice` | mockServer/MockServer.cpp:440-490 | in every run, a row is delivered twice if and only if the poll after its first one has been answered, carries an earlier second, and refuses no row up to its place in the result |
| `Polling.LateAnswerDeliversTwice` | BabbleOnClient2_newest/src/main/java/securityjavaclient/PollThread.java:27-31 | for every user and every order of results, a run in which that happens |
| `EndToEnd.PiecesAssemble` | mockServer/MockServer.cpp:537-545 | decrypting and joining the records of encrypted pieces gives the pieces' texts joined |
| `EndToEnd.TextArrives` | mockServer/MockServer.cpp:537-545 | whatever the text, the server assembles exactly it from the list that carries it |
| `EndToEnd.ListIsText` | BabbleOnClient2_newest/src/main/java/securityjavaclient/BabbleOnClient.java:259-281 | every list the send button writes is one of those the login's theorems call a text |
| `EndToEnd.ListIsTaken` | mockServer/protocol/SPChatPollResponse.cpp:18-56 | the server's decoder takes such a list if and only if the stale memory of none of its records is negative |
| `EndToEnd.ReceiveTexts` | mockServer/MockServer.cpp:389-545 | decoding, decrypting and joining, list after list from one stream |
| `EndToEnd.SendAndReceive` | BabbleOnClient2_newest/src/main/java/securityjavaclient/BabbleOnClient.java:239-281 | from the send button over any segmentation to the server: for one recipient exactly the text typed; for several the text with all of them named in front, once for each, in order, up to the first name that is too long |
| `EndToEnd.ReplyIsShown` | mockServer/MockServer.cpp:517-532 | a reply the server can build is one the client understands and shows as the stored text |
| `EndToEnd.ReadReply` | BabbleOnClient2_newest/src/main/java/protocol/PollResponseMessage.java:75-123 | if no read is short, the client reads it so, out of the server's frame, up to exactly the rest of the stream |
| `EndToEnd.TextIsStored` | mockServer/MockServer.cpp:537-704 | the list one client sent becomes one message row with the text and one transactions row from the sender to the receiver |
| `EndToEnd.StillHolds` | mockServer/MockServer.cpp:580-704 | what other threads store later leaves that row and its text as they are |
| `EndToEnd.RowIsAnswered` | mockServer/MockServer.cpp:409-532 | a poll is answered with a row if and only if that is of a later second and no row up to it in the result is refused |
| `EndToEnd.TypedIsRead` | mockServer/MockServer.cpp:440-532 | whatever has been stored since, and for every order of the result: the receiver's poll selects the row exactly at earlier seconds, and is answered with it exactly if no row up to it is refused; then the text has at most 500 characters, and what the receiver decrypts is the text typed, shown unchanged exactly if it is ASCII |

## Left out

- SHA-256, AES, RSA and base64 themselves: parameters with the laws named above. What the AES calls do on bad padding is arbitrary (`Crypto.decrypt` is total); exceptions of the RSA calls are modelled.
- MySQL: the tables are sequences, a row's number stands for its automatic id, texts and addresses are compared exactly, addresses are taken to be those of one user each, where a lookup by text finds several rows `Server` keeps the last one stored and `Concurrent` any, seconds pass unchanged through `from_unixtime` and `UNIX_TIMESTAMP`, and inserting an empty id is allowed. The table definitions are not part of this model.
- Failing SQL statements: any statement of a store may fail in `Concurrent`; the sequential thread and the login and poll queries do not fail.
- Undefined behaviour of C++: a negative payload length or one beyond `int`, an empty acknowledgement and an index into an empty list end in `Undefined` or `Lost`, after which nothing is claimed. A header cut short by the end of the stream leaves memory unread: `Decoder.Decode` then says nothing beyond the socket error. Deleting uninitialised or already deleted pointers is not modelled, nor is the copy of the password with its terminator into an array one byte too short (mockServer/MockServer.cpp:234-235), which overruns at every login with a stored password; the array is not used.
- Or-ing shifted bytes is modelled as adding them; they never overlap.
- Overflow of the Java and C++ length sums: lists are bounded by `EndToEnd.LargestPayload(...) <= INT_MAX`, which every text below 7500 characters with a short list of recipients meets.
- The Java cipher keeps back the latest block while decrypting, as its provider does.
- Errors while sending, waiting for bytes that never come, and the order of events inside one round of a thread.
- A type byte beyond 6, on which the client's switch throws a null pointer exception.
- `handlePollResponse` beyond decoding: the text of the display. User interface, logging and dialogs.
- The time limit of a session is a number of rounds in `Server` and an event in `Handshake` and `Concurrent`.
- Java setters, the unused decoders `PollMessage(InputStream)` and `ResponseMessage(InputStream)`, challenge and acknowledgement encoders beyond their bytes, `logoutMessage`, `UnixTimeFromMysqlString`.
- Characters are single units; pairs of surrogates are not modelled.
- JavaReader.ReadMsgMessage: once the stream is out of step, by a short read or a body that is not made of whole blocks, nothing is said about what is read; `JavaReader.DecryptBody` says exactly when that happens.
- JavaReader.ReadPollResponse: the same.
- JavaDecoder.ReadIncoming: nothing is said after a short read.
- JavaDecoder.ReadAll: nothing is said after a short read.
- EndToEnd.ReadReply: nothing is said after a short read.
- Client.BabbleOnClient.ReaderRound: whether the rest of a poll response can be read is a parameter; when it can is `JavaDecoder.ReadIncoming`.
- Handshake.LoginCompletes: one login attempt.
- Handshake: that RSA wrapping under a 1024-bit key gives 128 bytes, and that the server's library writes such keys in the layout the server's own check demands, are laws of the libraries.
