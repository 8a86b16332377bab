# Licq: protocols, parsers and allocators, verified

Licq is an instant-messaging client. This project models, in Dafny 4.11, the parts of it whose
behaviour depends on long runs, and proves what they keep over every run:

* the peer-to-peer chat engine of the ICQ plugin (`icq/src/chat.cpp`): the byte-stream parser of
  both wire dialects and its encoder, the three-packet handshake of two peers, the broadcast that
  drops failing users and starts over, the two lists of users, and kick votes;
* the file-transfer engine (`icq/src/filetransfer.cpp`): a sender and a receiver joined by two FIFO
  channels, with resumed files;
* the kses HTML filter of the web plugin (`licqweb/kses.php`): entities, protocols, attributes, tags;
* the list of running events, the allocator of server-side ids and the 0xFE splitter (`icq/src/icq.cpp`);
* the escaping of D-Bus object paths and the paths of owners and contacts (`dbus/src`);
* the OSCAR TLV reader and writer (`icq/src/buffer.cpp`).

Code that updates state in the source is a class or a method with its loops here (`ChatUsers.ChatUser`,
`FileTransfer.FileSender`, `EventBook.EventManager`, `ChatRoom.ChatManager`, `OscarTlv.OscarBuffer`, ...).
Each method is proved to compute a function of the old state, and the theorems are about these functions.
Threads are processes of atomic steps, sockets are FIFO queues, and what a user or a peer does is an
arbitrary sequence of actions. `dafny verify dfyconfig.toml` checks everything.

| file | content |
|---|---|
| `Sequences.dfy`, `Bytes.dfy` | facts about lists; bytes, packed integers and strings, the write side of `Licq::Buffer` |
| `ChatStream.dfy`, `ChatChunks.dfy`, `ChatCodec.dfy`, `ChatUsers.dfy` | the chat stream: parser, chunk independence, encoder, and the loops |
| `ChatPackets.dfy`, `ChatPacketWriters.dfy`, `ChatHandshake.dfy`, `ChatConnections.dfy`, `ChatTalk.dfy` | the handshake: packets, two peers, one end as a class, and the talk behind it |
| `ChatRoom.dfy`, `ChatBroadcast.dfy`, `ChatMembers.dfy`, `KickVote.dfy`, `ChatKicks.dfy` | who is in a chat |
| `FileTransfer.dfy`, `FileTransferRun.dfy`, `FileTransferEnds.dfy`, `FileTransferBreaks.dfy`, `FileTransferStrangers.dfy` | both roles, all interleavings, termination, broken connections, peers that do not keep to the protocol |
| `KsesEntities.dfy`, `KsesProtocol.dfy`, `KsesHair.dfy`, `KsesTags.dfy`, `KsesFilter.dfy` | the HTML filter: its scanners and what they keep out |
| `KsesWords.dfy`, `KsesDisguise.dfy`, `KsesWritten.dfy`, `KsesMarkup.dfy`, `KsesChecks.dfy` | the filter seen from what is written: entities, protocols, attributes, tags and checks as grammars, and what becomes of each |
| `EventBook.dfy`, `EventResults.dfy`, `EventRace.dfy`, `SidAllocator.dfy`, `FeParts.dfy` | events, server-side ids, delimited messages |
| `ObjectPathPart.dfy`, `ObjectPath.dfy` | object paths |
| `OscarTlv.dfy` | TLV blocks |

## Where the code does not do what it is for

The model follows the code. Where a property fails, a lemma states exactly when it holds:

* A font family longer than 117 bytes is lost and leaves the peer waiting (`FamilyArrivesIffItFits`): the
  128-byte buffer of `SendBufferToClient` drops the payload but not the header.
* A v6 font-family frame is only processed once one more byte has arrived (`ParserUndoesEncoder`).
* The background colour of the handshake arrives with green and blue exchanged (`BackgroundSurvivesIff`).
* If both ends think they asked for a chat, each misreads the other's packet; if neither does, both wait
  for ever (`BothAskIsGarbled`, `NobodyAsksIsStuck`).
* A list of 128 other participants or more does not arrive (`ClientsArriveIff`), and a handshake packet of
  64 KiB or more loses fields, because its size is an unsigned short (`ColorIsWholeIff`, `FontIsWholeIff`,
  `ColorFontIsWholeIff`).
* A local file of the full size is not replaced: the new copy of the file stays empty
  (`DeliveredIffResumable`).
* A connection that breaks between two files is taken for the end of the batch: the receiver reports it done
  exactly when every file offered so far was received (`BrokenTransfer`, `BreakBetweenFilesIsDone`).
* The entity rewrites look at each other's output: a number behind `&amp;` is re-armed too, so that
  `&amp;#65;` loses its `amp;`. The normaliser leaves a string alone exactly when it keeps each of its
  ampersands (`KsesWords.NormalizedIff`, `UnchangedIffKept`).
* A v2 peer reads the UIN of a kick one byte early, and takes fewer bytes of a vote's outcome off its queue than
  are sent (`KickIsShifted`, `OutcomeIsCutShort`). A UIN of 2^31 and more arrives as another number
  (`KickArrivesIff`).
* `kses_no_null` leaves a backslash-zero pair exactly when a backslash stands in front of one or more pairs and
  a zero (`NullsRemainIff`), so `kses_bad_protocol` and `kses_hair` are stable exactly
  on values free of them (`UnchangedIff`, `ReparseGivesTheSame`).
* `generateSid` walks out of its range when the owner's PDINFO is 0x7FFF and nothing is free from its start up
  (`GenerateSid`), and never ends when nothing is free at all (`WithoutFreeIdItNeverEnds`).
* `FailEvents` on descriptor -1 after a reset goes round for ever (`OtherwiseItGoesOn`), and an event id above
  65535 cannot be cancelled by its id (`OwnTagIffShort`).
* `decodeObjectPathPart` does not return on any string of two bytes, because `s.size() - 3` is `npos`
  (`LoopEndsIffNotTwo`); so accounts of two alphanumerics have no usable path (`PathRoundTripIff`).
* A contact path whose account differs from the owner's only before normalisation names the owner
  (`ContactPathNamesAnOwnerIff`), and the path of an empty account is not a valid object path (`PathIsValidIff`).
* A TLV whose value would end behind the buffer is stored empty and its bytes are read again as headers
  (`FaithfulIff`, `ConsumesRequestedIff`).
* A kick vote among fewer than two users is not decided (`AlwaysDecidedIff`). Among more, the last voter is not
  heard: the verdict differs from the majority of all participants exactly when the others are tied and the
  last one agrees, or are one ahead and the last one does not (`LastVoterIsNotHeard`).
* A contact list that claims -1 contacts passes the check of its length and is read beyond its end
  (`FeParts.ThrowsIff`).

## Model

| member | source | states |
|---|---|---|
| ChatChunks.ChunkIndependence | icq/src/chat.cpp:1218-1870 | in both dialects, every way of cutting a stream into receives ends in the same queue, line buffer, colours, fonts and flags, and in the same events once adjacent text events are merged |
| ChatChunks.RunIsStable | icq/src/chat.cpp:1564-1870 | bytes that arrive later do not change what the parser makes of the bytes before them |
| ChatChunks.GreedyIsCharwise | icq/src/chat.cpp:1842-1862 | collecting a run of text in one event does to the user what one event per character does |
| ChatCodec.ParserUndoesEncoder | icq/src/chat.cpp:1935-2220 | any list of text runs, newlines, backspaces and commands, sent as the senders do and cut anyhow, is recovered in order with its field values; a font family sent last stays queued whole |
| ChatCodec.MessageIsHeard | icq/src/chat.cpp:1935-1969 | one message in front of any further bytes is parsed to itself and used up exactly |
| ChatCodec.FamilyArrivesIffItFits | icq/src/chat.cpp:1938-1953 | a font family is processed with one more byte if and only if its name has at most 117 bytes |
| ChatCodec.FrameIsReported | icq/src/chat.cpp:1580-1825 | of the v6 frames, besides font families, votes and verdicts, exactly fourteen commands push an event, their own; any other frame is skipped |
| ChatCodec.ByteIsTypedIff | icq/src/chat.cpp:1842-1862 | in both dialects a byte by itself is heard as text if and only if it is printable ASCII or above 0x7F |
| ChatCodec.ControlIsSkipped | icq/src/chat.cpp:1842-1866 | a v6 peer skips every other control character that neither starts a frame nor edits the line |
| ChatCodec.FarewellIsSilent | icq/src/chat.cpp:1803-1806 | in both dialects the farewell is taken off the queue and changes nothing |
| ChatCodec.OutcomeIsCutShort | icq/src/chat.cpp:1501-1521 | what a v2 peer leaves in its queue of the outcome of a vote |
| ChatCodec.KickIsShifted | icq/src/chat.cpp:1387-1399 | the number a v2 peer takes for the UIN to kick, and the byte it leaves |
| ChatCodec.KickArrivesIff | icq/src/chat.cpp:1685-1695 | the UIN to kick keeps its signed value, and its value if and only if it is below 2^31 |
| ChatUsers.ChatUser.ProcessRaw | icq/src/chat.cpp:1218-1238 | appending the received bytes and parsing leaves the state the step function runs to |
| ChatUsers.ChatUser.ProcessRawV6 | icq/src/chat.cpp:1564-1870 | the v6 loop over the queue computes that run |
| ChatUsers.ChatUser.ProcessRawV2 | icq/src/chat.cpp:1240-1561 | the v2 loop over the queue computes that run |
| ChatUsers.ChatUser.RunCommand | icq/src/chat.cpp:1634-1815 | a command's payload changes the fields and the events it is for and leaves the queue |
| ChatUsers.ChatUser.CollectRun | icq/src/chat.cpp:1846-1851 | the longest run of printable bytes is taken off the queue |
| ChatUsers.ChatClient.SendBufferToClient | icq/src/chat.cpp:1935-1969 | the frame on the wire, without the payload where the 128-byte buffer drops it |
| ChatUsers.ChatClient.Send | icq/src/chat.cpp:1998-2220 | each sender puts exactly the wire form of its message behind what was sent |
| ChatPackets.ColorRoundTrip | icq/src/chat.cpp:106-159 | the Color packet read back gives UIN, port, foreground, the name with its NUL, and the background with green and blue exchanged |
| ChatPackets.FontRoundTrip | icq/src/chat.cpp:436-483 | the Font packet read back gives every font field packed |
| ChatPackets.ColorFontRoundTrip | icq/src/chat.cpp:322-428 | the ColorFont packet read back gives colours and font, and the list of clients its count byte announces |
| ChatPackets.ClientsArriveIff | icq/src/chat.cpp:376-426 | the list of clients arrives with all its fields if and only if its length is below 128 or from 65408 to 65535 |
| ChatPackets.MissingFieldsAreZero | icq/src/chat.cpp:142-159 | fields a packet is too short for are read as zeros and empty strings |
| ChatPacketWriters.PackColor | icq/src/chat.cpp:108-140 | the fields go into a buffer whose size is cut to 16 bits, each dropped if it does not fit |
| ChatPacketWriters.PackFont | icq/src/chat.cpp:436-467 | the same of the Font packet |
| ChatPacketWriters.PackColorFont | icq/src/chat.cpp:322-392 | the same of the ColorFont packet, with any number of clients |
| ChatPacketWriters.ColorIsWholeIff | icq/src/chat.cpp:122-139 | a Color packet holds all its fields if and only if they fit the 16-bit size |
| ChatPacketWriters.FontIsWholeIff | icq/src/chat.cpp:453-466 | a Font packet holds all its fields if and only if they fit the 16-bit size |
| ChatPacketWriters.ColorFontIsWholeIff | icq/src/chat.cpp:350-391 | a ColorFont packet holds all its fields and clients if and only if they fit the 16-bit size |
| ChatHandshake.HandshakeIsSafe | icq/src/chat.cpp:861-1173 | for direct and reverse connections, in every interleaving, the head of each channel is the very packet its reader waits for (the Color, ColorFont or Font packet the other end built), the connection handshake, or, for a connected reader only, raw bytes; and nothing is stuck before both are connected |
| ChatHandshake.HandshakeTransfers | icq/src/chat.cpp:939-1173 | each connected end holds the name, colours and font the other packed, the asker also its list of others if and only if they are fewer than 128, and each connection is announced once |
| ChatHandshake.BackgroundSurvivesIff | icq/src/chat.cpp:108-130 | the background arrives unchanged if and only if its green equals its blue |
| ChatHandshake.SessionIsTaken | icq/src/chat.cpp:939-1173 | the answerer's session number becomes that of the asker's Font packet, and no other setting of its own changes |
| ChatTalk.TypedIsDelivered | icq/src/chat.cpp:1218-1238 | in every run, in both directions, what reached an end's parser and what is on its way there is exactly what the other end typed while connected, in order |
| ChatTalk.ConversationArrives | icq/src/chat.cpp:1218-1238 | once everything is read, a conversation typed while connected is heard by the other end's parser as it was meant |
| ChatHandshake.BothAskIsGarbled | icq/src/chat.cpp:861-920 | two askers read each other's Color as ColorFont: both are connected, each with the protocol version for the other's UIN |
| ChatHandshake.NobodyAsksIsStuck | icq/src/chat.cpp:893-920 | without an asker no run leaves the wait for a Color packet |
| ChatConnections.ChatConnection.ProcessPacket | icq/src/chat.cpp:939-1173 | state, settings heard and reply of one packet are those of the function the composition is about |
| ChatRoom.ChatManager.SendBufferRaw | icq/src/chat.cpp:1971-1995 | ends for every pattern of failing sends, in the state the restarting broadcast leads to |
| ChatRoom.ChatManager.SendToEach | icq/src/chat.cpp:1979-1993 | one pass skips users that are not connected and stops at the first failing send |
| ChatRoom.ChatManager.CloseClient | icq/src/chat.cpp:2301-2319 | a listed user is moved and disconnected; the event is pushed in any case |
| ChatRoom.ChatManager.CloseChat | icq/src/chat.cpp:2236-2247 | everybody left is moved, disconnected and announced, in order |
| ChatRoom.ChatManager.FinishKickVote | icq/src/chat.cpp:2254-2297 | a passed vote closes the first user with that number, a failed one nobody |
| ChatBroadcast.ClosesExactlyTheFailing | icq/src/chat.cpp:1971-1995 | the users closed by a broadcast are exactly those whose send failed, in that order, announced once each; the others stay in order |
| ChatBroadcast.StateAfterwards | icq/src/chat.cpp:1971-1995 | a closed user was connected and is disconnected, no other state changes |
| ChatBroadcast.CopiesOfSurvivor | icq/src/chat.cpp:1971-1995 | a surviving connected user gets one copy and one more for each user closed in this call that stood behind it |
| ChatMembers.EachUserInOneList | icq/src/chat.cpp:2223-2319 | at every moment of every run each user who joined is in exactly one list and once; closed users stay disconnected and never return; one announcement per moved user and per later close |
| ChatMembers.EndClosesEverybody | icq/src/chat.cpp:2224-2250 | after CloseChat every user who joined is closed, those still listed last, moved and announced in their order |
| ChatMembers.StepKeepsInv | icq/src/chat.cpp:2223-2319 | joins, closes, broadcasts, verdicts and the end keep list membership and announcements in step, and the closed list only grows |
| ChatKicks.VerdictIsCarriedOut | icq/src/chat.cpp:2254-2319 | a passed vote moves the first user of the number to the end of the closed list, disconnects and announces it once and touches nothing else; a failed one, or one on nobody listed, changes nothing |
| ChatKicks.AnswerClosesIff | icq/src/chat.cpp:1697-1755 | in every run an answer closes somebody if and only if the vote on that user thereby has more than half of its users in favour and the user is listed |
| ChatKicks.ReplyToVote | icq/src/chat.cpp:1697-1755 | an answer is counted and the verdict it brings is carried out |
| KickVote.VoteInfo.Answer | icq/src/chat.cpp:1697-1755 | an answer goes to the first vote on that user, is counted once, and takes a decided vote off the list |
| KickVote.VoteInfo.SendKick | icq/src/chat.cpp:2035-2054 | a vote starts with one yes, one no and the number of users |
| KickVote.VotesInRuns | icq/src/chat.cpp:1697-1755 | in every run, an undecided vote among n >= 2 users has both counts below the majority and their sum two plus its answers; a decided one took at most max(1, n - 2) answers and passed if and only if more than half were in favour |
| KickVote.RunIsConsistent | icq/src/chat.cpp:1697-1755 | over all answers in any order, each vote is decided at most once, by its last answer, and none is lost |
| KickVote.DecidedVote | icq/src/chat.cpp:1720-1727 | a vote is decided by max(1, n - 2) answers, and passes if and only if 2 * yes > n |
| KickVote.AlwaysDecidedIff | icq/src/chat.cpp:2044-2046 | all votes are decided in that many answers if and only if n >= 2 |
| KickVote.TooFewUsers | icq/src/chat.cpp:2044-2046 | with n < 2 no number of answers decides before a 16-bit counter overflows |
| KickVote.OnlyFirstAnswersCount | icq/src/chat.cpp:1720-1727 | of n - 1 answers among n >= 3 users the first n - 2 decide: the vote passes if and only if more than half are in favour after them |
| KickVote.LastVoterIsNotHeard | icq/src/chat.cpp:1720-1727 | the verdict is that of the majority of all n + 1 participants unless the others are tied and the last says yes, or yes leads by one and the last says no |
| FileTransferRun.TransferIsSafe | icq/src/filetransfer.cpp:396-994 | in every interleaving of sender, receiver, confirmations and channels each head packet suits its reader, positions are offset plus bytes transferred, and no end fails |
| FileTransferRun.TransferIsComplete | icq/src/filetransfer.cpp:396-994 | when the sender is done and the receiver has drained, all files have arrived, each equals its source if and only if its local file was resumable, the batch counters agree, and the receiver ends with the batch done |
| FileTransferRun.DeliveredIffResumable | icq/src/filetransfer.cpp:831-888 | a received file equals its source if and only if there was no local file, or a strictly shorter one that is its prefix, or both are empty |
| FileTransferRun.StepKeepsInv | icq/src/filetransfer.cpp:447-994 | every action of either end keeps the invariant on both states, both channels and all counters |
| FileTransferRun.ChunkIs2048 | icq/src/filetransfer.cpp:890-985 | in every run a chunk is the next 2048 bytes of the file, or what is left of it |
| FileTransferBreaks.BrokenTransfer | icq/src/filetransfer.cpp:447-460 | over every run of a connection that may break at any moment: closed files are as delivered, an open one holds a prefix; the receiver ends with the batch done if and only if it was announced and answered and every file offered was received, else with a closed connection; the sender ends with it done if and only if its last chunk was sent |
| FileTransferBreaks.BrokenFileResumesIff | icq/src/filetransfer.cpp:831-886 | a file broken off can be resumed to its source if and only if what was found for it at first could, or had the full size |
| FileTransferBreaks.BreakBetweenFilesIsDone | icq/src/filetransfer.cpp:455-458 | a run in which the batch is reported done with a file missing |
| FileTransferBreaks.RunIsCounted | icq/src/filetransfer.cpp:521-821 | in every unbroken run the counters are the number of files offered and of the batch announced, and the sender is done exactly past its last file |
| FileTransferStrangers.ReceiverRefusesIff | icq/src/filetransfer.cpp:466-706 | whatever packets a peer sends, the receiver refuses one if and only if it is not what a handshake, an announcement or the last complete file calls for |
| FileTransferStrangers.SenderRefusesIff | icq/src/filetransfer.cpp:709-810 | the same of the sender, before the batch is accepted and between an offer and its start |
| FileTransferEnds.TransferEnds | icq/src/filetransfer.cpp:447-994 | a run has at most as many actions as there was work, and one that can take no action is over |
| FileTransferEnds.SomethingIsPossible | icq/src/filetransfer.cpp:447-994 | no reachable state short of the end is stuck |
| FileTransfer.FileSender.ProcessPacket | icq/src/filetransfer.cpp:447-830 | the sender's reply and whole new state for each packet and state |
| FileTransfer.FileSender.SendFilePacket | icq/src/filetransfer.cpp:890-994 | the next chunk, at most 2048 bytes, and behind the last one the next file or the end of the batch |
| FileTransfer.FileReceiver.ProcessPacket | icq/src/filetransfer.cpp:447-830 | the receiver's reply and whole new state for each packet and state |
| FileTransfer.FileReceiver.StartReceivingFile | icq/src/filetransfer.cpp:831-888 | the start offset is the size of the local file, also when that file is not shorter |
| KsesEntities.NormalizeIsIdempotent | licqweb/kses.php:509-539 | normalising twice is normalising once, on every string |
| KsesEntities.EveryAmpersandIsAllowed | licqweb/kses.php:509-539 | every ampersand of the result starts an allowed entity, and the text before the first is kept |
| KsesEntities.NormalizeByPieces | licqweb/kses.php:509-528 | the three ordered rewrites act on the text behind each ampersand separately |
| KsesWords.NormalizedIff | licqweb/kses.php:509-539 | what a string is normalised to, by a grammar of words: a name or a number in front of it keeps an ampersand, a number loses its needless zeros and is disarmed above 65535, every other ampersand gets amp; |
| KsesWords.NumberIsRearmed | licqweb/kses.php:532-539 | wherever it stands, a number gets amp; if and only if it is above 65535, and loses its needless zeros |
| KsesWords.UnchangedIffKept | licqweb/kses.php:509-539 | a string is left alone if and only if a name or a canonical number stands behind each ampersand, and behind amp; no number but one too big |
| KsesWords.AllowedIff | licqweb/kses.php:509-539 | an entity is allowed if and only if it is such a name or number |
| KsesWords.DigitsAreNumber | licqweb/kses.php:523 | zeros, one to five digits and a semicolon are the word of a number |
| KsesWords.HexDigitsAreNumber | licqweb/kses.php:525 | zeros, two or four hex digits and a semicolon are the word of a hex number |
| KsesProtocol.RemoveBadProtocol | licqweb/kses.php:379-398 | ends, by length and then upper-case letters, in a fixpoint of the single rewrite |
| KsesProtocol.OnceShrinks | licqweb/kses.php:468-506 | each rewrite that changes a string shortens it or lowers a letter |
| KsesProtocol.FindIsLongest | licqweb/kses.php:468-479 | the scanner finds a match exactly when the pattern has one, with as many rounds as any |
| KsesProtocol.FixpointIffFine | licqweb/kses.php:468-506 | a string is left alone if and only if it has no protocol, or a whitelisted one in plain lower case with no white space behind the colon |
| KsesProtocol.ResultIsFine | licqweb/kses.php:379-398 | the result of kses_bad_protocol always is such a string |
| KsesProtocol.UnchangedIff | licqweb/kses.php:379-410 | kses_bad_protocol leaves a string alone if and only if it also is free of NULs, soft hyphens and backslash-zero pairs |
| KsesProtocol.NullsRemainIff | licqweb/kses.php:401-410 | kses_no_null leaves a backslash-zero pair if and only if, NULs aside, a backslash stands in front of one or more such pairs and a zero |
| KsesDisguise.DisguiseIsSeenThrough | licqweb/kses.php:481-506 | a word typed in either case or written in decimal or hex entities, with white space, NULs and soft hyphens among them, is compared as the plain word |
| KsesDisguise.ProtocolIsReplaced | licqweb/kses.php:468-506 | however a protocol and its colon are written, it is replaced by the plain word if that is whitelisted and removed otherwise |
| KsesDisguise.ForbiddenProtocolIsRemoved | licqweb/kses.php:379-398 | kses_bad_protocol removes a forbidden protocol and goes on with what was behind it |
| KsesDisguise.AllowedProtocolIsKept | licqweb/kses.php:379-398 | kses_bad_protocol writes a whitelisted protocol out plainly and keeps the rest |
| KsesDisguise.ColonWordIff | licqweb/kses.php:475 | the spellings of a colon are these six |
| KsesHair.ParseAttributes | licqweb/kses.php:188-310 | the mode loop ends on every string, each round shortening it, with the attributes of the specification |
| KsesHair.ParseIsWellFormed | licqweb/kses.php:188-310 | every attribute is a name with, or without, a quoted value free of its quote that is its own kses_bad_protocol |
| KsesHair.PrintedIsParsed | licqweb/kses.php:188-310 | printed attributes separated by spaces are parsed to themselves with their values filtered |
| KsesHair.ReparseGivesTheSame | licqweb/kses.php:188-310 | the attributes of any string, printed and parsed again, are the same if and only if no value holds a NUL, a soft hyphen or a backslash-zero pair |
| KsesWritten.WrittenIsParsed | licqweb/kses.php:188-310 | every list of flags, values in quotes, apostrophes or neither, white space around the equals sign, junk, and values spoiled by text at their quotes gives exactly the attributes that were meant |
| KsesFilter.FilteredIsFine | licqweb/kses.php:33-50 | for every input, allow-list and white list, what the normaliser and the tag filter put out has only closed tags of allowed elements, and every ampersand in it, also in attribute values, starts an allowed entity |
| KsesFilter.SplitTagsIsSound | licqweb/kses.php:70-398 | removing protocols, NULs, brackets and attributes cuts no entity in two and makes no other ampersand |
| KsesFilter.CleanIsLeftAlone | licqweb/kses.php:33-50 | normaliser and tag filter together leave clean markup alone whose ampersands are all kept |
| KsesMarkup.MarkupIsFiltered | licqweb/kses.php:70-185 | for every sequence of text, lone brackets, opening and closing tags and nonsense, followed by anything, each piece comes out as it should: allowed tags with their allowed attributes in order, others shown as text |
| KsesMarkup.UnclosedIsFiltered | licqweb/kses.php:77-84 | so does a last tag without its bracket |
| KsesMarkup.CleanMarkupIsKept | licqweb/kses.php:70-185 | text and allowed tags with allowed attributes, written as the filter writes them, are left alone |
| KsesTags.OutputHasOnlyAllowedTags | licqweb/kses.php:70-185 | for every input and allow-list, the output read from left to right is text without brackets and closed tags of allowed elements |
| KsesTags.TagStructure | licqweb/kses.php:70-121 | the output is a list of bracket-free texts and tags whose elements and attributes are allowed |
| KsesTags.NothingAllowed | licqweb/kses.php:70-121 | with an empty allow-list the output has no bracket |
| KsesTags.TagIsClosed | licqweb/kses.php:123-185 | between the brackets of a shown tag there are no others |
| KsesTags.FilterElement | licqweb/kses.php:123-185 | the loops of kses_attr keep exactly the admitted attributes, in order |
| KsesTags.CheckAttribute | licqweb/kses.php:153-178 | an attribute is kept if and only if it is listed and passes every check |
| KsesChecks.NumberChecksIff | licqweb/kses.php:341-362 | a value passes maxval or minval if and only if it is one to six digits between at most six white-space characters on each side, of a number on that side of the limit |
| KsesChecks.NumberPassesIff | licqweb/kses.php:341-362 | a number written with needless zeros passes exactly the limits it meets |
| KsesChecks.LengthChecksIff | licqweb/kses.php:324-339 | maxlen and minlen with one limit leave exactly the values of that length, and together miss none |
| KsesChecks.ValuelessCheckIff | licqweb/kses.php:364-372 | y passes flags, n passes values, in either case, anything else passes nothing |
| KsesChecks.ChecksAddUp | licqweb/kses.php:153-178 | an attribute passes a list of checks if and only if it passes both parts of it; without a check it passes, without an entry never |
| EventBook.EventManager.DoneEvent | icq/src/icq.cpp:737-909 | all four variants erase the first event they select and report whether there was one |
| EventBook.EventManager.SendExpectEvent | icq/src/icq.cpp:586-636 | the event is pushed, and finished with an error if its thread does not start |
| EventBook.EventManager.FailEvents | icq/src/icq.cpp:671-706 | unless an event would be put back on the socket that is failing, ends in the state all rounds lead to, also when each event is sent again |
| EventBook.FailedLeavesNoneOn | icq/src/icq.cpp:671-706 | afterwards no event is on the failed socket; the others keep their order, those sent again stand behind them without a socket |
| EventBook.OtherwiseItGoesOn | icq/src/icq.cpp:671-706 | where the loop would put an event back on the socket it is failing, every round leads to another such list |
| EventBook.OwnTagIffShort | licq/src/event.cpp:209-222 | an event is found by its own id if and only if the id is below 65536 |
| EventResults.FinishesEvent | icq/src/icq.cpp:775-829 | an event still running leaves the list with the result given and nothing else changes; one that is not changes nothing |
| EventResults.AckFinishesFirst | icq/src/icq.cpp:847-877 | the first event of that socket and sequence number, or nothing |
| EventResults.ReplyFinishesFirst | icq/src/icq.cpp:737-767 | the first event of that subsequence number, or nothing |
| EventResults.CancelFinishesFirst | icq/src/icq.cpp:879-909 | the first event whose id is the low sixteen bits of the number given, or nothing |
| EventResults.FailedAreErrors | icq/src/icq.cpp:671-706 | every event that was on the failed socket has ended with an error, and no other result changes |
| EventResults.SentThenAcked | icq/src/icq.cpp:586-636 | an event sent and acknowledged leaves the list as it was |
| EventResults.NotStarted | icq/src/icq.cpp:586-636 | an event whose thread does not start ends with an error and leaves the list as it was |
| EventRace.FailEventsEnds | icq/src/icq.cpp:671-706 | however other threads interleave, FailEvents makes at most four moves per event on its socket at the start, arriving since, or put back there by itself, which it does only on descriptor -1 after a reset; when it has ended only later arrivals are there |
| EventRace.CountersAreCounts | icq/src/icq.cpp:671-706 | the moves, arrivals and late arrivals of that bound are counted from the actions of the run |
| EventRace.ExactlyOnce | icq/src/icq.cpp:586-909 | at every moment of every run, however many threads race to finish an event, its pushes equal its successful DoneEvents, plus one while it is running |
| EventRace.StepKeepsReady | icq/src/icq.cpp:586-909 | every step keeps that balance, the list free of duplicates, and an event FailEvents is about to send again out of the list |
| EventRace.StepKeepsInv | icq/src/icq.cpp:586-909 | send, ack, timeout, cancel, connect and every move of FailEvents keep conservation and the bound |
| SidAllocator.GenerateSid | icq/src/icq.cpp:1961-2031 | ends with the first free id of the walk from the seed, if PDINFO is not 0x7FFF: 1 to 0x7FFF, not PDINFO, none of any user's three ids and no group's id; with that PDINFO the result is free if and only if an id from the start up is |
| SidAllocator.WalkOn | icq/src/icq.cpp:1973-2028 | stepping past a used candidate comes closer to the next free id and passes none |
| SidAllocator.WithoutFreeIdItNeverEnds | icq/src/icq.cpp:1973-2028 | with every id in use each round leads to another |
| FeParts.SplitFe | icq/src/icq.cpp:2033-2051 | the loop yields the translated parts, under every limit |
| FeParts.PartsJoin | icq/src/icq.cpp:2033-2051 | the parts joined with delimiters are the message, whatever the limit |
| FeParts.PartsAreFree | icq/src/icq.cpp:2033-2051 | only the last part may hold a delimiter, and only when the limit is reached |
| FeParts.JoinSplitsIff | icq/src/icq.cpp:2033-2051 | joined parts split into themselves if and only if none, or with their number as limit none but the last, holds a delimiter |
| FeParts.ParseContactEvent | icq/src/icq.cpp:2065-2085 | the contacts, nothing, or an access beyond the parts |
| FeParts.ContactsAreRead | icq/src/icq-tcp.cpp:376-390 | a contact list sent without delimiters in its fields is read field by field, translated |
| FeParts.ContactsRoundTripIff | icq/src/icq-tcp.cpp:376-390 | an untranslated contact list is read as sent if and only if no id and no alias holds a delimiter |
| FeParts.ThrowsIff | icq/src/icq.cpp:2071-2080 | reading leaves the parts if and only if the count is -1 |
| FeParts.AtoiReads | icq/src/icq.cpp:2072 | the count is read behind white space and one sign, up to the first octet that is no digit |
| ObjectPathPart.Encode | dbus/src/dbusinterface.cpp:374-400 | the loop escapes exactly the octets outside the alphabet |
| ObjectPathPart.Decode | dbus/src/dbusinterface.cpp:402-434 | with the wrapping bound of the loop, ends with the decoded string |
| ObjectPathPart.DecodedUndoesEncoded | dbus/src/dbusinterface.cpp:374-434 | decoding undoes encoding on every string |
| ObjectPathPart.EscapeIsRead | dbus/src/dbusinterface.cpp:402-434 | in any string an underscore and two hex digits are read as their octet |
| ObjectPathPart.OtherIsItself | dbus/src/dbusinterface.cpp:402-434 | any other underscore that at least two octets follow is itself |
| ObjectPathPart.EncodingAlphabet | dbus/src/dbusinterface.cpp:374-400 | only alphanumerics and underscores come out, and nothing only of nothing |
| ObjectPathPart.EncodedIsInjective | dbus/src/dbusinterface.cpp:374-400 | different strings have different encodings |
| ObjectPathPart.LoopEndsIffNotTwo | dbus/src/dbusinterface.cpp:408 | the loop can be left if and only if the part is not two bytes long |
| ObjectPathPart.EncodedAnswersIffNotTwo | dbus/src/dbusinterface.cpp:402-434 | the decoder answers on an encoding if and only if the string is not two alphanumerics |
| ObjectPath.UserIdToObjectPath | dbus/src/plugin.cpp:157-169 | the path is built as specified |
| ObjectPath.PathRoundTripIff | dbus/src/plugin.cpp:157-205 | for every owner and contact, also with empty accounts, the path is parsed back to the id if and only if no account in it is two alphanumerics |
| ObjectPath.PathsDiffer | dbus/src/plugin.cpp:157-169 | two such ids never share a path |
| ObjectPath.PathIsValidIff | dbus/src/plugin.cpp:157-169 | the path is valid in the sense of "Valid Object Paths" of the D-Bus Specification if and only if no account in it is empty |
| ObjectPath.ContactPathNamesAnOwnerIff | dbus/src/plugin.cpp:198-204 | a path of three levels names an owner if and only if its accounts differ but are equal when normalised |
| ObjectPath.KnownProtocolsResolve | licq/src/contactlist/user.cpp:1632-1655 | the names of ICQ, MSN and Jabber lead back to their protocols whatever plugins are loaded |
| ObjectPath.TagIsItsOctets | licq/include/licq/userid.h:32-41 | any other protocol is named by the octets of its id up to the first NUL |
| ObjectPath.NormalizeIdIsIdempotent | licq/src/contactlist/user.cpp:1267-1284 | normalising an account twice is normalising it once |
| ObjectPath.NormalizeIdIff | licq/src/contactlist/user.cpp:1267-1284 | blanks and case do not matter in an ICQ account that does not begin with a digit; any other account is its own normal form |
| OscarTlv.OscarBuffer.ReadTlv | icq/src/buffer.cpp:88-145 | on any bytes and in any mode ends with the cursor inside the buffer, the blocks read in the map, missing bytes skipped; a count of zero does nothing |
| OscarTlv.ReadsExactlyIff | icq/src/buffer.cpp:88-167 | packed blocks followed by other bytes are read back exactly, with the cursor right behind them, if and only if the count or the bytes end the last of them and none before |
| OscarTlv.RoundTrip | icq/src/buffer.cpp:88-167 | with their number as count, or their total length as bytes, they are, whatever follows |
| OscarTlv.ReadsToTheEnd | icq/src/buffer.cpp:99-134 | in the default mode all packed blocks are read if less than a header follows |
| OscarTlv.FaithfulIff | icq/src/buffer.cpp:99-119 | what was read, packed again, is the bytes passed over if and only if the blocks, followed by their declared lengths, have their values inside the buffer; the byte counter agrees with the cursor exactly then |
| OscarTlv.ConsumesRequestedIff | icq/src/buffer.cpp:124-142 | asked for a number of bytes that are there, it consumes exactly these if and only if, by the declared lengths, a block ends there, no header is left before, or the header of a block without its value ends there |
| OscarTlv.TakesAllIff | icq/src/buffer.cpp:124-142 | it reads to the end of the buffer if and only if following the lengths leads there, the length of a missing value being counted although its bytes are read again |
| OscarTlv.InsideTakesAll | icq/src/buffer.cpp:136-142 | asked for more than there is, it does so whenever no value is missing |
| OscarTlv.LastWins | icq/src/buffer.cpp:121-122 | a type is known if and only if a block had it, with the value of the last such block |
| OscarTlv.CountedIsBounded | icq/src/buffer.cpp:97-109 | the byte counter cannot overflow on buffers of up to 64 KiB |
| OscarTlv.PackTlv | icq/src/buffer.cpp:147-167 | type, length and value are appended, each dropped if it does not fit |
| OscarTlv.PackedWholeIff | icq/src/buffer.cpp:147-167 | the pieces make up the block if and only if all of it fits |

## Left out

- ChatStream.Run: does not model what the parser does after a vote or verdict frame, a v6 frame shorter than its command's payload, or a declared length of 65536 and more; the user counts as astray from there on.
- ChatStream.CommandLooks: v2 kick commands read the UIN from the command byte on, as the code does; kick UINs of 2^31 and more are sign-extended, as the code does.
- ChatUsers.ChatUser.ProcessRawV6: says nothing after a frame that leads the parser astray, as ChatStream.Run.
- ChatUsers.ChatUser.ProcessRawV2: says nothing after a vote or verdict command, as ChatStream.Run.
- ChatUsers.ChatClient.SendBufferToClient: the check that the user is connected, and the send itself with its failure.
- ChatUsers.ChatUser.ProcessRaw: text is kept as bytes with its encoding; translation to UTF-8, the return-character conversion and `iscntrl` outside the C locale are not modelled, and the font name is taken to lie in one block of the deque.
- ChatCodec.ParserUndoesEncoder: names of 2^31 bytes and more are excluded.
- ChatHandshake.HandshakeIsSafe: the length in front of each packet and the shake of a connection belong to the socket classes and are items here; connecting to the other participants listed in a ColorFont packet is one list of clients. Settings whose packets reach 64 KiB are excluded; a ChatClient is taken to have 64 bytes, as with 64-bit longs.
- ChatRoom.ChatManager.SendBufferRaw: users are identities with their fields in maps, not shared objects; bytes of the buffer are not distinguished.
- ChatKicks.ReplyToVote: the frame the answer comes in, and the event pushed for it.
- ChatRoom.ChatManager.FinishKickVote: the notices to the users, and the erasing of the vote, which is KickVote.VoteInfo.Answer.
- ChatRoom.ChatManager.CloseChat: the farewell packet, like the notices of FinishKickVote, is sent by SendBuffer, which is not modelled: after a failing send it goes on from an element that may be erased.
- KickVote.VoteInfo.Answer: the frame the answer comes in, and closing the kicked user, which is ChatRoom.ChatManager.FinishKickVote.
- FileTransferRun.TransferIsSafe: excludes what FileTransferRun.TransferIsComplete excludes.
- FileTransferRun.DeliveredIffResumable: a local file longer than the incoming one, as FileTransferRun.TransferIsComplete.
- FileTransferEnds.TransferEnds: excludes what FileTransferRun.TransferIsComplete excludes.
- FileTransferRun.TransferIsComplete: a local file longer than the incoming one is excluded (its read count is negative and platform dependent), as are files of 2^31 bytes and more, failing disk operations, and a speed packet between a file's start and its first chunk.
- FileTransferBreaks.BrokenTransfer: excludes what FileTransferRun.TransferIsComplete excludes; the counters of a sender whose send failed half way.
- FileTransferStrangers.SenderRefusesIff: a start position behind the end of the file, whose read count is negative and platform dependent.
- FileTransfer.FileReceiver.StartReceivingFile: file names, directories and permissions; what `stat` finds is a parameter.
- FileTransfer.FileSender.SendFilePacket: progress events and the clock.
- KsesFilter.CleanIsLeftAlone: excludes what KsesFilter.FilteredIsFine leaves out.
- KsesFilter.FilteredIsFine: kses_no_null and kses_js_entities, which only change the normaliser's input; kses_hook, which returns its argument; kses_array_lc. A white list whose own protocols hold an ampersand outside an entity is excluded.
- KsesMarkup.MarkupIsFiltered: tags with another opening bracket inside, of which KsesTags.OutputHasOnlyAllowedTags speaks, and white lists whose protocols hold brackets.
- KsesWritten.WrittenIsParsed: a quote that is opened and not closed; KsesHair.ParseAttributes and KsesHair.ParseIsWellFormed are about every string.
- KsesDisguise.DisguiseIsSeenThrough: ampersands and backslashes written by their numbers.
- KsesTags.OutputHasOnlyAllowedTags: kses_js_entities, kses_array_lc, kses_hook and the undoing of `/e` slashes; regular expressions have no backtrack limit, `\s` is without the vertical tab, and `$` does not match before a final newline.
- KsesProtocol.RemoveBadProtocol: whitelisted protocols are compared as strings (PHP compares numeric strings as numbers), and numeric entities outside the integer range are not distinguished.
- EventBook.EventManager.SendExpectEvent: the queue of the server connection, and the cancelled copy pushed to it when a server event's thread does not start.
- EventRace.FailEventsEnds: thread cancellation, the queue of the server connection and what ProcessDoneEvent does with a finished event.
- SidAllocator.GenerateSid: the random number is a parameter; the lists of contacts and groups do not change while it runs.
- FeParts.ContactsAreRead: numbers beyond an int, where `atoi` is undefined.
- ObjectPathPart.Decode: a single underscore, on which the code reads beyond the terminating NUL.
- ObjectPath.PathRoundTripIff: protocols other than the three known ones need a name that leads back to them and holds no slash behind its first character.
- OscarTlv.OscarBuffer.ReadTlv: sharing of a block between buffers, the unpacking of a block's value, and the lookups getTLV, hasTLV and getTLVLen, which only read the map that OscarTlv.LastWins is about.
- OscarTlv.PackTlv: the overload that takes another buffer packs all of it whatever size is declared; it is the same three pieces when the size is the buffer's.
- The status conversions, code tables, sockets, pipes, mutexes, user interface, and plugin glue: they would only add easy members or input and output.
