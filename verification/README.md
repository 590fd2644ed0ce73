# A verified model of the device protocols and the image signer

This project models, in Dafny, the parts of the repository that encode, cut up, reassemble and sign data,
and proves what they do over all inputs, all fragmentations of the transport, and all runs.

* **IMG3 images** (`Img3Format`, `Img3File`, `Img3Theorems`, `Img3Ruby`, `Img3Agreement`, `Signing`).
  The C parser, signer and two-pass serialiser work on an object with eleven element slots; the Ruby
  signer works on a list. Each is proved against a specification of the container on values, and the
  specifications are compared: the two signers produce the same bytes under an exactly known condition.
* **AFC** (`AfcFrame`, `AfcDevice`, `AfcClient`, `AfcTransfer`, `AfcDirectory`, `AfcRuby`, `AfcAgreement`,
  `AfcRuns`, `AfcRequests`, `AfcThreads`, `AfcStrings`). Packets, the client's request functions against a
  device that keeps files and answers reads with any nonempty prefix, whole transfers, the second client in
  Ruby, runs of requests over sends that may come short and as the device reads them, many threads on one
  client, and reply lists.
* **Backups** (`Backup2Format`, `Backup2Stream`, `Backup2Malformed`, `Backup2`, `Backup2Wire`, `BackupTree`,
  `SendFile`, `BackupStatus`). The block stream of mobilebackup2 in both directions and at both ends, the
  move and remove messages, the older DLSendFile hunks in both directions, and what `Status.plist` is worth
  at every interruption point, also when the operations on it fail.
* **MobileSync** (`MobileSync`, `MobileSyncRuns`). The client's two fields, what its calls send, refuse and
  report, over all sequences of calls.
* **Chunked transfers** (`Usb`, `UsbRequests`, `Asr`, `PlistService`, `Transport`). USB uploads and downloads, the
  filesystem upload of a restore, length-prefixed property lists, and the exact-read loops.

`Bytes`, `Memory`, `Options` and `Chunks` hold what several modules share.

The transport is a sequence of bytes. How much each receive and each send moves is decided by an
arbitrary function of the call's number, under the only rule that a call moves something when it can.
Two further assumptions are made by name where a theorem needs them. `AfcClient.SendsWhole`: every send
takes all it is offered; without it a request of the AFC client need not reach the device as a frame, and
exactly when it does is a theorem. `AfcClient.KeepsHeads`: no receive splits forty bytes or fewer, and the
device puts at most forty bytes into the parameters of a reply; under it the AFC calls succeed, and
without it they are proved to deliver the right bytes whenever they report success.
Integers are unbounded; every 32- or 64-bit width that matters is written out. The host is
little-endian. Buffers, objects and counters that the source updates in place are arrays, classes and
fields here; loops are loops with invariants.

## What turned out differently from what one would expect

Where the code and its documentation or its evident purpose differ, the model follows the code. Each of
these is a theorem with the exact condition.

* The Ruby blob loop starts at position 20 although a blob has no container header. It still reads every
  element exactly when the last one is longer than 20 bytes (`Img3Agreement.ReadsAll`).
* Serialising an image without SHSH leaves the offset word of the header unset, so serialising again
  after parsing gives the same image if and only if there is an SHSH element or the buffer happened to hold
  the same word (`Img3Theorems.Reserialize`).
* Dispatching an AFC packet ignores what its sends report. It puts the whole frame on the wire if and only
  if no send comes short, it succeeds whenever the lengths fit, and the number of bytes it reports for a segmented
  packet tells of the last piece alone (`AfcClient.DispatchExactly`, `AfcClient.ReportedExactly`,
  `AfcClient.TruncatedFrame`).
* A receive that gives up before any of its packet arrives leaves the packet on the wire, and the next
  receive on that client then meets a foreign packet number (`AfcThreads.MismatchExactly`). The body of the
  packet it rejects stays on the wire and is read as a header next; whether that header is accepted is up to
  the body (`AfcThreads.RejectedReply`, `AfcThreads.MisreadExactly`).
* AFC header and parameters are read with one receive each. A transport that splits them makes a good
  reply fail (`AfcClient.AfcClient.ReceiveData`); the same holds of the length of a plist
  (`PlistService.ReceiveAfterSend`).
* When the stream ends within the content of a plist, the communication error is overwritten: the buffer
  is parsed all the same, unfilled rest included, and the result decides
  (`PlistService.TruncationUnnoticed`).
* A data reply that is cut in its remainder is a success with the shorter count (`AfcClient.CutReply`).
* The length check of a segmented AFC packet compares with all of the data, parameters included, so a packet
  can pass that promises more than it carries; exactly which are well formed is a theorem. No caller makes
  such a packet (`AfcClient.WellFormedExactly`, `AfcClient.OverlongAccepted`).
* A backup stream that ends right behind a file, or within the next device name, costs that file although it
  was received whole and is counted: the length that no longer comes leaves what the variable held, and the
  clean-up removes the file received last (`Backup2Stream.EndsBehindFile`, `Backup2Stream.LastFileLost`,
  `Backup2Stream.EndsWithinName`). A file cut within its data is kept short and counted
  (`Backup2Stream.EndsWithinData`). The answer is status 0 in each case. A device name of more than 4096 bytes
  costs the file before it, too, unless its length is negative as a signed number
  (`Backup2Malformed.OverlongName`).
* The status of a batch of files is 0 also when the first file that is not sent has an empty path
  (`Backup2Format.StatusOfBatch`, `Backup2Format.EmptyPathGoesUnreported`).
* Moving files renames one after another; it is a simultaneous renaming exactly when no destination is the
  source of the same or a later entry (`BackupTree.MoveFilesExactly`).
* `plist_strcmp` finds a node that is no string equal to anything, so a last message whose type is not a
  string counts as the end of a successful backup (`BackupStatus.FinishedExactly`), and one whose tag is not a
  string as another hunk (`BackupStatus.HunkExactly`).
* Writing `Status.plist` looks at no result. As long as its operations succeed, a success on disk is justified
  at every interruption point (`BackupStatus.NeverHalfWritten`). When they fail, a success of an earlier backup
  stays on disk while a new one is requested exactly if a backup begins with success on disk, the file cannot
  be removed and nothing can be written behind it, given a parser that finds no success in odd text
  (`BackupStatus.ClearedExactly`, `BackupStatus.SuccessKeptExactly`). Exactly then some interruption leads to a
  restore over half-written files (`BackupStatus.HalfRestoredExactly`, `BackupStatus.RestoresHalfWritten`).
* Ruby lists a directory from the payload of a reply alone, C from parameters and payload. The lists are the
  same under an exactly known condition (`AfcAgreement.ListingsAgree`).
* `mobilesync_start` opens the session as soon as its arguments pass, also when the device refuses
  (`MobileSync.StartOpensAnyway`).
* The payload loop of a restore counts in a signed 32-bit integer: it sends the whole file exactly when
  the file is smaller than 2 GiB, and reports success all the same (`Asr.PayloadExactly`).
* In DFU mode an upload can report an error after every byte has arrived (`Usb.Client.SendingExactly`,
  `Usb.Client.SendingWhole`).

## Model

| member | source | states |
|---|---|---|
| Img3Format.ParseElements | idevicerestore/src/img3.c:54-174 | A buffer holding known elements back to back is walked in bounds and parses to exactly those elements, filed in order. |
| Img3Format.ParsedElements | idevicerestore/src/img3.c:54-174 | Conversely whatever the parse loop accepts is such a list of elements, and the slots are those elements filed in order. |
| Img3Format.ConcatInjective | idevicerestore/src/img3.c:179-199 | Element boundaries can be recovered: equal bytes come from equal element lists. |
| Img3Format.PlaceAllTyped | idevicerestore/src/img3.c:64-166 | Filing keeps the slot-typing invariant: every slot holds an element of its own type, the second KBAG never without the first. |
| Img3Format.FiledExactly | idevicerestore/src/img3.c:54-174 | After parsing any list of known elements, slot by slot with the type numbers written out in the order in which the slots are copied: a slot holds the last element of its type, the first KBAG slot the first KBAG, the second the last of the further ones. |
| Img3Format.SlotTypes | idevicerestore/src/img3.h:37-49 | In an image that keeps the invariant the element in slot k has entry k of the list TYPE, DATA, VERS, SEPO, BORD, KBAG, KBAG, ECID, SHSH, CERT, SALT for its type number. |
| Img3Format.KnownTypes | idevicerestore/src/img3.c:64-166 | The types that the parser's switch knows, by number. |
| Img3File.Img3File.File | idevicerestore/src/img3.c:64-166 | Filing one element changes exactly the slot its type belongs to, which FiledExactly gives by number; a second KBAG goes to its own slot, a further one replaces that. |
| Img3File.Parse | idevicerestore/src/img3.c:30-177 | Parsing gives an image exactly when the magic is right and every element is known, and then the header and slots of the specification. |
| Img3File.Img3File.ReadTicket | idevicerestore/src/img3.c:278-311 | A blob yields a ticket exactly when it starts with ECID, SHSH and CERT in that order. |
| Img3File.Img3File.ReplaceSignature | idevicerestore/src/img3.c:278-317 | On success the three signature slots hold the ticket's elements and all else is unchanged; on failure nothing changes. |
| Img3File.Img3File.TotalSize | idevicerestore/src/img3.c:321-358 | The sizing pass computes header plus everything the copying pass lays out. |
| Img3File.Img3File.Fill | idevicerestore/src/img3.c:376-416 | The copying pass fills the buffer exactly to its end with the slots in order, sets the SHSH offset and leaves the other header words alone. |
| Img3File.Img3File.GetData | idevicerestore/src/img3.c:319-430 | The two passes agree, so the size-mismatch exit is never taken, and the result is the serialised image; only without SHSH is the offset word arbitrary. |
| Img3Theorems.Refile | idevicerestore/src/img3.c:54-174 | Filing the serialised elements of any typed slots again fills exactly those slots. |
| Img3Theorems.RoundTrip | idevicerestore/src/img3.c:30-177 | Parsing a serialised image gives back every slot and the header as it was written. |
| Img3Theorems.HeaderLayout | idevicerestore/src/img3.c:364-369 | The header on disk, byte by byte: signature, full size, data size, SHSH offset and image type in this order, each with its lowest byte first. |
| Img3Theorems.ElementLayout | idevicerestore/src/img3.c:179-199 | An element starts with its type and its own length, each with its lowest byte first. |
| Img3Theorems.ParsedIsTyped | idevicerestore/src/img3.c:30-177 | Whatever the parser accepts satisfies the slot-typing invariant and has the container's magic. |
| Img3Theorems.Reserialize | idevicerestore/src/img3.c:319-430 | Serialise after parse is the identity on serialised images if and only if there is an SHSH or the buffers held the same word. |
| Img3Theorems.Conservation | idevicerestore/src/img3.c:54-174 | Parsing and serialising permutes a container's elements if and only if no type is repeated, two KBAGs being allowed. |
| Img3Theorems.ConservationOfSize | idevicerestore/src/img3.c:321-425 | Then the serialised body is exactly as long as the parsed one. |
| Img3Theorems.SignedImage | idevicerestore/src/img3.c:278-430 | A signed image is a header with the new sizes, everything before the signature untouched, the ticket's three elements verbatim, then SALT. |
| Img3Theorems.ShshOffset | idevicerestore/src/img3.c:403-407 | The recorded offset, counted from the end of the header, is where the SHSH element starts. |
| Img3Theorems.TicketIsBlob | idevicerestore/src/img3.c:278-317 | The ticket accepted is the front of the blob, byte for byte. |
| Img3Theorems.TicketRead | idevicerestore/src/img3.c:278-311 | Conversely a blob that starts with whole elements of the types ECID, SHSH and CERT, in this order, is read as the ticket of the three, whatever is behind. |
| Img3Theorems.SignLastWins | idevicerestore/src/img3.c:278-317 | Signing twice leaves the second ticket; signing again with the same one changes nothing. |
| Img3Ruby.Img3File.ParseElements | img3file.rb:35-56 | On a stream of whole elements the loop takes elements until its position, started at 20, reaches the total, and the keys are their types. |
| Img3Ruby.Img3File.UpdateElements | img3file.rb:58-72 | The blob's elements replace those of the same types and go to the end; the other elements keep their order. |
| Img3Ruby.KeptLast | img3file.rb:58-72 | Of the elements rejected by type, one at the end stays exactly if its type is none of the blob's, behind what stays of the others. |
| Img3Ruby.Img3File.ToS | img3file.rb:74-97 | The string is a header with new sizes and the last SHSH's offset, then all elements in list order. |
| Img3Agreement.ReadsAll | img3file.rb:39-53 | On a headerless stream the loop reads every element if and only if the last one is longer than 20 bytes. |
| Img3Agreement.BlobRead | img3file.rb:58-60 | Of a ticket Ruby reads all three elements, or only ECID and SHSH when CERT is no longer than 20 bytes. |
| Img3Agreement.CanonicalKept | idevicerestore/src/img3.c:376-416 | A list in the order of the serialiser's list of types, only KBAG twice and then adjacent, comes back from the slots in its own order. |
| Img3Agreement.PresentCanonical | idevicerestore/src/img3.c:376-416 | Conversely what the serialiser lays out is always in that order. |
| Img3Agreement.UnsignedInOrder | idevicerestore/src/img3.c:376-416 | Given elements seen, exactly the unsigned ones among them leave the C signer, in their order and ahead of the ticket, if and only if they are canonical, without SALT, and the whole container files to the same. |
| Img3Agreement.SignersAgree | img3file.rb:58-97 | The C and the Ruby signer give the same bytes, header fields included, if and only if the unsigned elements are canonical without SALT and CERT exceeds 20 bytes. |
| Img3Agreement.SignersAgreeOn | img3file.rb:58-97 | The same when the Ruby signer has read other elements than the container holds: those it read decide, and the container's have to file to the same slots. |
| Signing.GetBlobByPath | idevicerestore/src/tss.c:240-291 | The blob is that of the first entry with the path, provided no dictionary before it lacks a usable path; otherwise there is none. |
| Signing.BlobDecided | idevicerestore/src/tss.c:240-291 | Behind entries that are no dictionaries or have other paths, a dictionary without a path and one with the path but without data give no blob, and one with the path and data gives its data; without any of these there is none. |
| Signing.GetComponent | idevicerestore/src/idevicerestore.c:602-663 | Without a TSS response the component is returned as it is; with one the result is the image signed with the blob the response has for the path, or an error exactly when the image does not parse, there is no such blob, or it is no ticket. |
| Signing.RubySign | tss_blob.rb:130-142 | Parse, update and write give the image of the Ruby specification over the elements that the size in the component's header lets the parser read. |
| Signing.PipelinesAgree | idevicerestore/src/idevicerestore.c:618-654 | For one component and one ticket, whatever size its header records, the two pipelines deliver the same file if and only if CERT exceeds 20 bytes, the unsigned elements Ruby reads are canonical without SALT, and those it does not read file to nothing new. |
| AfcFrame.PacketRoundTrip | libimobiledevice/src/afc.c:189-203 | The forty header bytes decode to the packet they encode. |
| AfcClient.AfcClient.DispatchPacket | libimobiledevice/src/afc.c:180-270 | One packet number is used; different lengths that promise more payload than there are data in all send nothing; otherwise the call succeeds, and what it puts on the wire and reports is determined for every behaviour of the sends: it is the frame if and only if none comes short. |
| AfcClient.DispatchExactly | libimobiledevice/src/afc.c:215-267 | The bytes of a dispatch, in one piece or three, are the frame if and only if every single send takes all it is offered and, where there are no parameters and therefore no payload is sent, there is none. |
| AfcClient.ReportedExactly | libimobiledevice/src/afc.c:226-264 | The count reported tells whether a packet in one piece went out whole; for a segmented packet it tells whether the payload did. |
| AfcClient.TruncatedFrame | libimobiledevice/src/afc.c:215-243 | A write whose handle is cut short on the wire is reported as sent in full and successful. |
| AfcClient.WellFormedExactly | libimobiledevice/src/afc.c:205-213 | A segmented packet that passes the length check is well formed if and only if it promises exactly the data behind its parameters. |
| AfcClient.OverlongAccepted | libimobiledevice/src/afc.c:205-213 | A packet that promises more than that passes the check. |
| AfcClient.AfcClient.ReceiveData | libimobiledevice/src/afc.c:281-419 | On any stream, complete or cut anywhere, with lengths of any size taken modulo 2^32 as the code does, the result, the bytes delivered and what is left of the stream are those of the specification, whose errors ReplyJudged and ReplyRefused give by number; a success delivers all that the header announces, or all there is. |
| AfcClient.WholeReply | libimobiledevice/src/afc.c:281-419 | A reply that is all there is judged by its meaning and taken off the stream exactly, unless header or parameters were split or the number is foreign. |
| AfcClient.ReplyJudged | libimobiledevice/src/afc.c:317-406 | A complete reply with content is a success if and only if its operation is 0x02, 0x0E or 0x13, or it is 0x01 with eight bytes that are zero; a status that is not zero is the error, any other operation is not supported; without content only 0x02 is a success. |
| AfcClient.ReplyRefused | libimobiledevice/src/afc.c:294-327 | A header that ends early or comes in pieces, and one with a foreign number or a length below forty, are errors, exactly these two. |
| AfcClient.CutReply | libimobiledevice/src/afc.c:362-418 | A reply cut in its remainder takes what is there; data are a success with the shorter count, a status is judged once its eight bytes are there. |
| AfcClient.AfcClient.ReceiveRest | libimobiledevice/src/afc.c:362-381 | The remainder of a packet is read under any fragmentation: precisely the next bytes, in order, no more, and fewer only when the stream ends. |
| AfcClient.AfcClient.FileOpen | libimobiledevice/src/afc.c:773-820 | A successful open returns the handle the device has given the file, new and with the position at its front; otherwise the handle is zero; every path releases the mutex; with heads kept whole the error is exactly whether the device opens the file. |
| AfcClient.AfcClient.FileWrite | libimobiledevice/src/afc.c:908-988 | A successful write puts all the data at the file position and reports its full length; after an error the file holds a front part of the data; every path releases the mutex; with heads kept whole the error is exactly whether the handle is open. |
| AfcClient.AfcClient.FileRead | libimobiledevice/src/afc.c:834-894 | A successful read delivers exactly the next bytes of the file, as many as asked for or left, whatever prefixes the device chooses, and touches nothing behind them; after an error only the position has advanced; every path releases the mutex. |
| AfcClient.AfcClient.FileSeek | libimobiledevice/src/afc.c:1094-1129 | From any origin and by any signed offset: the handle moves exactly where origin and offset lead if that is within the file, and not at all otherwise; a success is reported only then; with heads kept whole the error is exactly whether it is so. |
| AfcTransfer.WriteAll | libimobiledevice/src/afc.c:908-988 | Under any fragmentation of replies: if no call fails, the file holds the concatenation of the chunks and every call has reported the length of its chunk; otherwise it holds a front part; with heads kept whole no call fails. |
| AfcTransfer.ReadAll | libimobiledevice/src/afc.c:834-894 | Under any fragmentation of replies: if no call fails, the data are the next bytes of the file, as many as asked for in all or left; otherwise a front part of them. |
| AfcTransfer.WriteThenRead | libimobiledevice/src/afc.c:834-988 | From any file and position, in any chunking of writes and reads: if no call fails, what is read back is what was written, then what was behind it, as far as asked for. |
| AfcTransfer.OpenThenRead | libimobiledevice/src/afc.c:773-894 | Opening a file and reading from the handle gives, if no call fails, the first bytes of what the device holds under the name; with heads kept whole the calls succeed if and only if the device opens it. |
| AfcTransfer.SeekThenRead | libimobiledevice/src/afc.c:834-1129 | Seeking and reading gives, if no call fails, the bytes from offset, from position plus offset or from end plus offset for the origins 0, 1 and 2; with heads kept whole the calls succeed if and only if that place is in the file. |
| AfcDirectory.ReadDirectory | libimobiledevice/src/afc.c:475-510 | A list returned is what the device's listing holds: of names that are all terminated exactly those names, and none for an empty listing; every exit releases the mutex. |
| AfcThreads.Safe | libimobiledevice/src/afc.c:39-54 | Over every run in which no receive is abandoned: one thread inside, at most one request outstanding, every thread gets the reply to its own request, numbers never disagree. |
| AfcThreads.AlwaysExclusive | libimobiledevice/src/afc.c:39-54 | Over every run, abandoned receives included, the mutex is held exactly by the one thread that is inside a request function. |
| AfcThreads.MismatchExactly | libimobiledevice/src/afc.c:309-315 | Over every run of fewer than 2^64 steps, with any replies, the packet-number mismatch exit is taken if and only if a packet is received after a receive was abandoned. |
| AfcThreads.AllPackets | libimobiledevice/src/afc.c:180-346 | Over every run a packet number is used by every packet sent or refused, every receive ends in an answer, a mismatch or a misreading, and until a packet is rejected those sent are those received and those on their way. |
| AfcThreads.RejectedReply | libimobiledevice/src/afc.c:309-315 | A run that takes the exit: the next request gets the reply to the abandoned one, and the body of that reply stays in front of its own. |
| AfcThreads.NumberRead | libimobiledevice/src/afc.c:294-310 | The number the next receive compares is taken from the body left there if it is long enough, is the next reply's own if there is no body, and the length of the next reply's parameters behind an eight-byte status. |
| AfcThreads.MisreadExactly | libimobiledevice/src/afc.c:294-315 | So the receive behind a rejected reply is misled if and only if the body has the expected number where a header has its own, and fails behind a status or a reply without a body. |
| AfcStrings.CountNullspaces | libimobiledevice/src/afc.c:424-434 | The count is the number of NULs in the reply. |
| AfcStrings.MakeStringsList | libimobiledevice/src/afc.c:446-463 | The list holds the reply's terminated strings in order, and is NULL exactly for an empty reply. |
| AfcStrings.HoldsUnique | libimobiledevice/src/afc.c:446-463 | A reply determines its list. |
| AfcStrings.ListRoundTrip | libimobiledevice/src/afc.c:446-463 | NUL-free strings sent with terminators come back exactly; an unterminated rest is dropped. |
| AfcStrings.SplitsAgree | iafctools.rb:48-51 | Splitting a reply behind its first k bytes as Ruby does gives the list C makes of the whole reply if and only if both are empty, or nothing is cut off or unterminated and the last string is not empty, or the reply repeats its unterminated rest in the one way that hides the cut. |
| AfcAgreement.ListingsAgree | iafctools.rb:30-51 | On any well-formed reply the Ruby listing, made of the payload alone, is the C list of parameters and payload if and only if that holds with the length of the parameters for k. |
| AfcAgreement.NamesAgree | iafctools.rb:30-51 | Of names that are all terminated the two listings are the same if and only if the reply has no parameters and the last name is not empty. |
| AfcAgreement.RepeatingReply | iafctools.rb:30-51 | A reply with parameters on which the listings are the same all the same. |
| AfcRuby.AfcService.SendFrame | iafctools.rb:23-28 | One sequence number is used and exactly one frame string is written. |
| AfcRuby.AfcService.RecvFrame | iafctools.rb:30-46 | The two strings of the frame at the front of the stream are returned and the stream is left behind it; nothing is returned exactly where the fields or the data do not admit it. |
| AfcRuby.FrameStringIsFrame | iafctools.rb:23-28 | With fields below 2^32 a Ruby frame string is the C frame with the same fields. |
| AfcRuby.RubyReadsC | iafctools.rb:30-46 | Ruby decodes a C frame to operation and parameters, and payload, consuming exactly the frame, if and only if the frame is shorter than 2^32 bytes. |
| AfcRuby.RubyReadsRuby | iafctools.rb:23-46 | A frame that Ruby writes it reads back, operation, data and what is behind, if and only if the header size given is from 32 to the whole frame. |
| AfcRuby.HeaderLayout | libimobiledevice/src/afc.h:27-39 | The header on the wire, byte by byte: the magic, then total length, length, number and operation, each in eight bytes with the lowest first. |
| AfcAgreement.SameBytes | libimobiledevice/src/afc.c:774-803 | For a request that is a single frame both clients put the same bytes on the wire and use one number. |
| AfcAgreement.StreamsAgree | iafctools.rb:69-87 | Any run of open, write and close puts the same bytes on the wire through C and Ruby, sequence numbers included, if and only if every request is a single frame. |
| AfcRuns.IssueC | libimobiledevice/src/afc.c:774-1030 | Over any sends an open, write or close request uses its packet numbers and puts on the wire what its sends take, one after another, short or not. |
| AfcRuns.RequestReaches | libimobiledevice/src/afc.c:215-267 | What a request puts on the wire is its frames, and as long as they are, if and only if none of its own sends comes short. |
| AfcRuns.RequestsOneByOne | libimobiledevice/src/afc.c:215-267 | What the sends of a run put on the wire is what those of its requests do, one request after another. |
| AfcRuns.RunReaches | libimobiledevice/src/afc.c:215-267 | The sends of a run put its stream of frames on the wire if and only if none of them comes short. |
| AfcRuns.RunC | libimobiledevice/src/afc.c:908-1030 | The C client's requests put out the stream that StreamsAgree speaks of. |
| AfcRuns.RunRuby | iafctools.rb:69-87 | So do the Ruby client's. |
| AfcRequests.RunRead | libimobiledevice/src/afc.c:773-1030 | A device that takes frames off the wire by their length fields reads exactly what the calls of a run ask, with the operations 0x0D, 0x10 and 0x14, in order and numbered without a gap. |
| AfcRequests.WriteCarriesData | libimobiledevice/src/afc.c:908-988 | The requests of a write carry its data put together, in ceil(length / 32768) pieces, each with the handle. |
| Transport.SslRead | libimobiledevice/src/idevice.c:458-498 | Under any fragmentation the buffer receives precisely the next bytes of the stream, and no more are consumed; a stream that ends before gives the error, and so does a read of no bytes. |
| Backup2.Backup.ReceiveRaw | libimobiledevice/src/mobilebackup2.c:319-344 | Precisely the next bytes are received, fewer only at the end of the stream; a zero length is refused and leaves the count as it was. |
| Backup2.Backup.SendRaw | libimobiledevice/src/mobilebackup2.c:275-299 | Short sends are repeated until all the data are on the wire, in order; an empty send is refused and leaves the count as it was. |
| Backup2.Backup.ReceiveBlock | libimobiledevice/tools/idevicebackup2.c:815-833 | A block of any length is appended to its file in pieces and consumed exactly. |
| Backup2.Backup.HandleReceiveFiles | libimobiledevice/tools/idevicebackup2.c:714-888 | On any stream, malformed or cut anywhere, the tree, the count and what is left of the stream are those of the specification, and one status 0 is sent. |
| Backup2Stream.ReceivedStream | libimobiledevice/tools/idevicebackup2.c:743-876 | On the encoding of any list of files the tree gets every file, the count is the number of files, and the stream is consumed exactly to its end. |
| Backup2Stream.EndsBehindFile | libimobiledevice/tools/idevicebackup2.c:747-876 | When the stream ends right behind a file, all files are counted, and the last is removed if and only if the byte-swapped length of its ending is above one as a signed number. |
| Backup2Stream.LastFileLost | libimobiledevice/tools/idevicebackup2.c:747-876 | So behind an ordinary ending the last file is lost. |
| Backup2Stream.EndsWithinName | libimobiledevice/tools/idevicebackup2.c:747-876 | It is also lost when the stream ends within the next device name. |
| Backup2Stream.EndsWithinData | libimobiledevice/tools/idevicebackup2.c:810-848 | A file cut within its data, or within the head of a block, is kept as far as it came and counted. |
| Backup2Malformed.NameLimit | libimobiledevice/tools/idevicebackup2.c:743-781 | A name is taken if and only if its length is from 1 to 4096; any other length ends the loop. |
| Backup2Malformed.OverlongName | libimobiledevice/tools/idevicebackup2.c:743-876 | Behind files an overlong device name is skipped but for one byte and the last file removed, unless the length is negative as a signed number, when nothing is. |
| Backup2Malformed.OtherCode | libimobiledevice/tools/idevicebackup2.c:786-867 | A file whose first code is not 0x0C is created empty and counted; behind 0x0B the message is skipped, behind any other code nothing is. |
| Backup2Format.LastWins | libimobiledevice/tools/idevicebackup2.c:806-836 | Of several files with one name the last decides, with its blocks put together. |
| Backup2Format.CStringExactly | libimobiledevice/tools/idevicebackup2.c:775-781 | A name is stored up to its first NUL, or whole without one. |
| Backup2Format.Untouched | libimobiledevice/tools/idevicebackup2.c:743-867 | Files that are not named keep their content, or their absence. |
| Backup2.Backup.HandleSendFile | libimobiledevice/tools/idevicebackup2.c:533-670 | A file goes out as name, blocks and success marker, or name and error text, which FrameRead reads back by literal codes; a failure is recorded under its path beside earlier ones; an empty path sends its length and fails unrecorded. |
| Backup2.Backup.SendBlocks | libimobiledevice/tools/idevicebackup2.c:598-641 | The block loop emits the file in blocks of 32768 bytes, the last one shorter, for every nonempty file. |
| Backup2Format.CastIsExact | libimobiledevice/tools/idevicebackup2.c:600-603 | Although the cast applies to the total alone, the remaining length is right for files of any size. |
| Backup2Format.SplitBlocks | libimobiledevice/tools/idevicebackup2.c:598-641 | The blocks put together are the file; there are ceil(size / 32768) of them, none is empty, all but the last hold 32768 bytes, for sizes 0 and exact multiples too. |
| Backup2Format.SentIsEntry | libimobiledevice/tools/idevicebackup2.c:598-641 | What the sender emits for a file is what the receiver decodes to exactly that file. |
| Backup2.Backup.HandleSendFiles | libimobiledevice/tools/idevicebackup2.c:672-712 | A batch emits the frames up to and including the first file that fails, one zero, and exactly one status response; an empty batch nothing. |
| Backup2Format.FramesOfBatch | libimobiledevice/tools/idevicebackup2.c:685-700 | The bytes of a batch are the frames of all its files when each is sent, else of those up to and including the first that is not, put together. |
| Backup2Format.StatusOfBatch | libimobiledevice/tools/idevicebackup2.c:685-711 | The status is 0 if and only if no file failed or the first that did has an empty path; otherwise the response names exactly the file that failed. |
| Backup2Wire.FrameRead | libimobiledevice/tools/idevicebackup2.c:533-660 | A reader on the device's side that goes by lengths and the codes 0x0C, 0x00 and 0x06 reads of one path the file, if and only if it is in the tree and readable, and otherwise the text of its error. |
| Backup2Wire.BatchRead | libimobiledevice/tools/idevicebackup2.c:533-712 | For every batch it reads the content of each file sent and the error text of the one that is not, and stops at the closing zero; only an empty path leaves a zero behind. |
| Backup2Wire.ResponseOfBatch | libimobiledevice/tools/idevicebackup2.c:521-531 | When a file with a name is not sent, the response is status -13 with that file alone, and -6 for ENOENT, -7 for EEXIST, the negated number for any other error. |
| Backup2Format.EmptyPathGoesUnreported | libimobiledevice/tools/idevicebackup2.c:533-560 | A batch of one empty path fails and is answered with status 0. |
| BackupTree.BackupDirectory.MoveFiles | libimobiledevice/tools/idevicebackup2.c:1475-1520 | The loop removes and renames entry by entry and stops at the first source that is gone. |
| BackupTree.BackupDirectory.RemoveFiles | libimobiledevice/tools/idevicebackup2.c:1521-1548 | Exactly the listed files disappear; the code is 0 if and only if each was there and listed once. |
| BackupTree.NextEntry | libimobiledevice/tools/idevicebackup2.c:1483-1514 | Behind entries that are done the next one, without a destination, is passed over; with one it removes what is there, and renames its source, or ends the loop with -6 when that is gone. |
| BackupTree.MoveFilesExactly | libimobiledevice/tools/idevicebackup2.c:1475-1520 | With sources present and destinations distinct, the loop reports 0 and renames simultaneously if and only if no destination is the source of the same or a later entry. |
| BackupTree.AnyOrder | libimobiledevice/tools/idevicebackup2.c:1483-1508 | When sources and destinations are disjoint this holds for every iteration order, and all orders leave the same tree. |
| BackupTree.NothingElseLost | libimobiledevice/tools/idevicebackup2.c:1497-1498 | Only the contents of overwritten destinations are lost. |
| SendFile.Restorer.SendContent | libimobiledevice/tools/idevicebackup.c:1376-1426 | The restore loop sends the hunks of the file in order, stops at the first failure with a prefix sent, and succeeds if and only if every message and the acknowledgement of the last go through. |
| SendFile.HunksOf | libimobiledevice/tools/idevicebackup.c:1376-1426 | Hunk i starts at 8192 i, the data put together are the file, and exactly the last hunk is marked last, also for an empty file. |
| SendFile.HunksArePackets | libimobiledevice/tools/idevicebackup.c:1376-1426 | The hunks are the partition of the file into packets of 8192 bytes, or one empty hunk when there is nothing to send. |
| SendFile.Receiver.ReceiveAll | libimobiledevice/tools/idevicebackup.c:992-1140 | The receive loop has the effect of its messages one after another. |
| SendFile.WholeTransfer | libimobiledevice/tools/idevicebackup.c:1043-1123 | A file in any number of pieces is stored whole and acknowledged once; only files other than manifests are counted. |
| SendFile.AllTransfers | libimobiledevice/tools/idevicebackup.c:992-1140 | Over any sequence of files, however cut, every file is rebuilt, with one acknowledgement per file and the right count. |
| SendFile.LastTransferWins | libimobiledevice/tools/idevicebackup.c:1043-1123 | The last transfer that decides a file decides what is there: data, metadata, the manifest, and that nothing under way is left; metadata outlive data that come without. |
| SendFile.UndecidedKept | libimobiledevice/tools/idevicebackup.c:1043-1123 | Files that no transfer decides keep their content or absence. |
| SendFile.SplitThenReceive | libimobiledevice/tools/idevicebackup.c:1376-1426 | A file cut by the restore splitter is rebuilt exactly by the receive loop. |
| BackupStatus.StepKeeps | libimobiledevice/tools/idevicebackup.c:332-348 | Every step whose operation succeeds, and every interruption, keeps the safety invariant, which follows the marking of failure operation by operation. |
| BackupStatus.NeverHalfWritten | libimobiledevice/tools/idevicebackup.c:947-1215 | At every interruption point of every run whose markings succeed, whatever the parser makes of odd texts: a success on disk means no hunk was written since the last finished message was processed, and a restore is only under way from such files. |
| BackupStatus.ClearedIsSafe | libimobiledevice/tools/idevicebackup.c:947-1215 | Whatever operations of the markings fail, the same holds as long as no backup is requested with success on disk. |
| BackupStatus.ClearedExactly | libimobiledevice/tools/idevicebackup.c:332-348 | That is so if and only if no four steps of the run begin a backup and mark failure such that the disk, as the steps alone tell it, claims success behind them, for any parser. |
| BackupStatus.SuccessKeptExactly | libimobiledevice/tools/idevicebackup.c:332-348 | With a parser that finds no success in odd texts such steps are exactly those that begin with success on disk, fail to remove it and fail to write. |
| BackupStatus.HalfRestoredExactly | libimobiledevice/tools/idevicebackup.c:947-1215 | Conversely the run keeps success on disk if and only if, from some point of it, a granted request, one hunk and an interruption lead to a restore over half-written files. |
| BackupStatus.RestoresHalfWritten | libimobiledevice/tools/idevicebackup.c:947-1215 | A concrete run that ends in a restore over half-written files. |
| BackupStatus.CompleteSession | libimobiledevice/tools/idevicebackup.c:1159-1215 | A session that is not cut short and in which nothing fails leaves the files of its last hunk without the deleted ones and with the manifest, success on disk, and the next restore is let through over exactly these files. |
| BackupStatus.RestoreRefused | libimobiledevice/tools/idevicebackup.c:1207-1211 | At any idle point of any run a restore is let through if and only if success is on disk, and changes nothing. |
| BackupStatus.Unfinished | libimobiledevice/tools/idevicebackup.c:947-1202 | A refused request, or a last message not taken for the end, leaves files and status as they were. |
| MobileSync.MobileSyncClient.Start | libimobiledevice/src/mobilesync.c:184-310 | The call takes the protocol step of starting a session, with the error and the fields the code leaves in each case. |
| MobileSync.MobileSyncClient.ReadyToSendChanges | libimobiledevice/src/mobilesync.c:657-722 | The direction turns exactly when the device says it is ready and the ping goes out. |
| MobileSync.MobileSyncClient.SendChanges | libimobiledevice/src/mobilesync.c:738-764 | The call takes the protocol step of sending changes: it is refused as RefusedExactly says, and otherwise sends the message and reports what the link does. |
| MobileSync.MobileSyncClient.Finish | libimobiledevice/src/mobilesync.c:323-384 | An open session is closed and the direction reset, even when the message cannot be sent or is not answered. |
| MobileSync.MobileSyncClient.Cancel | libimobiledevice/src/mobilesync.c:859-883 | Given a reason, an open session is closed and the direction reset, even when the message cannot be sent. |
| MobileSync.StepKeeps | libimobiledevice/src/mobilesync.c:184-883 | Every call keeps the invariant that ties the two fields to the log: a data class means a session with that class is open, the other direction that this session has turned. |
| MobileSync.AllRuns | libimobiledevice/src/mobilesync.c:184-883 | Over all call sequences: no data class implies device-to-computer; every changes message and every turn lies in an opened session, behind a ready message and a ping of that session; sessions never nest and turn at most once. |
| MobileSyncRuns.Accounted | libimobiledevice/src/mobilesync.c:184-883 | Over all call sequences every message sent, message received, ping, opening, closing and turn happens exactly as often as calls that are not refused cause it, with the message of each call written out. |
| MobileSyncRuns.ChangesSent | libimobiledevice/src/mobilesync.c:738-764 | The number of changes messages sent in a run is the number of calls that report success in sending changes. |
| MobileSyncRuns.RefusedExactly | libimobiledevice/src/mobilesync.c:184-883 | Told by the log alone: a start is refused exactly in a session, the other calls exactly outside one, and by direction changes and identifiers before the turn, readiness after it; a refused call does nothing. |
| MobileSyncRuns.ReportedExactly | libimobiledevice/src/mobilesync.c:184-883 | A call that is not refused succeeds if and only if its message goes out and the device answers with the message it asks for; the link is reported exactly when it fails, a cancelled session exactly when the device cancels. |
| Usb.Client.SendBuffer | idevicerestore/src/libirecovery.c:676-757 | An upload of any length below 2^31 makes the requests, and ends with the error, of the specification of packets, statuses and notification, which RequestsOfMode, SuccessfulRequests and ErrorOfSending give by number. |
| Usb.Client.RecvBuffer | idevicerestore/src/libirecovery.c:1086-1128 | A download fills the front of the buffer with the data received, in order, and leaves the rest alone. |
| Usb.Client.UploadPrefix | idevicerestore/src/libirecovery.c:703-742 | Wherever it stops, the packet loop has sent a contiguous prefix of the packets. |
| Usb.Client.UploadExactly | idevicerestore/src/libirecovery.c:703-742 | The packet loop succeeds if and only if every packet is taken whole and, in DFU mode, answered with status 5. |
| Usb.Client.SendingExactly | idevicerestore/src/libirecovery.c:676-757 | An upload reports no error if and only if the initiation, every packet and, where asked for, three status requests go right. |
| Usb.Client.SendingWhole | idevicerestore/src/libirecovery.c:744-754 | All data have been sent before the notification, so a failing notification does not mean missing data. |
| Usb.Client.SuccessfulUpload | idevicerestore/src/libirecovery.c:703-742 | A successful upload sends every packet once, in order, each followed in DFU mode by a status request answered with 5. |
| Usb.Client.UploadOfBuffer | idevicerestore/src/libirecovery.c:676-742 | The packets sent are a prefix of the buffer in 1 to 2048 bytes each; on success they are the whole buffer in exactly ceil(length / 2048) packets. |
| UsbRequests.RequestsOfMode | idevicerestore/src/libirecovery.c:691-754 | Every upload begins with 0x21/4 in DFU mode and with 0x41/0 otherwise, and goes on in DFU mode with 0x21/1, status requests 0xA1/3 and the reset alone, otherwise with bulk transfers alone. |
| UsbRequests.SuccessfulRequests | idevicerestore/src/libirecovery.c:691-754 | A successful upload makes the first request, those of its packets, and, notified in DFU mode, the zero-length packet, three status requests and the reset, nothing else. |
| UsbRequests.CarriageIs | idevicerestore/src/libirecovery.c:703-729 | Packet i is request i, or in DFU mode request 2i with its status request behind it. |
| UsbRequests.TakenExactly | idevicerestore/src/libirecovery.c:704-729 | A packet is taken if and only if all of it moves and, in DFU mode, byte 4 of a status of six bytes is 5; otherwise the error is -6, -7 exactly when the status does not come, or that of libusb. |
| UsbRequests.ErrorOfSending | idevicerestore/src/libirecovery.c:691-754 | The error of an upload is that of its first request, else that of the first packet not taken, else -7 of the notification. |
| Usb.Client.DownloadExactly | idevicerestore/src/libirecovery.c:1086-1128 | A download succeeds if and only if every request brings all it asks for, and only then is the buffer full. |
| Usb.Client.DownloadOf | idevicerestore/src/libirecovery.c:1086-1128 | A device that answers request after request with the packets of a file, as an upload would cut it, leaves the file in the buffer, for any packet size. |
| UsbRequests.DownloadAsks | idevicerestore/src/libirecovery.c:1089-1110 | A download asks request by request for the sizes of the buffer's packets, of 2048 bytes in DFU mode and 8192 otherwise; it ends with 0 or -6. |
| Chunks.SizesOf | idevicerestore/src/libirecovery.c:1093-1100 | The sizes a download asks for are those of the packets of any buffer of that length. |
| Chunks.PacketsOf | idevicerestore/src/libirecovery.c:681-688 | A buffer is cut into ceil(length / size) packets that put together are the buffer, none empty, only the last one shorter. |
| Asr.Host.HandleOobDataRequest | idevicerestore/src/asr.c:218-262 | A request within the file is answered with the slice asked for in one send, any other with nothing. |
| Asr.Host.PerformValidation | idevicerestore/src/asr.c:139-216 | The packet sizes and then the answers to the requests served go out, in order, and the result and the packets left are those of the course of validation. |
| Asr.ValidationExactly | idevicerestore/src/asr.c:175-213 | Validation succeeds if and only if a Payload command comes before anything that is neither a request nor a packet to be received again, with no six of those in a row; it serves the requests before it in order. |
| Asr.RequestsAnswered | idevicerestore/src/asr.c:239-261 | Over a transport that takes all it is offered, requests within the file are answered with exactly the slices they ask for, in order. |
| Asr.SliceServed | idevicerestore/src/asr.c:239-254 | A request for any part of the file, its end included, is within the file and its slice is that part. |
| Asr.NotServed | idevicerestore/src/asr.c:221-252 | A request without length or offset, or reaching behind the end, is not. |
| Asr.CommandsMeant | idevicerestore/src/asr.c:194-212 | Of commands only OOBData is served, only Payload ends validation well, any other fails it. |
| Asr.SixthFails | idevicerestore/src/asr.c:177-190 | Five packets in a row that are no plist are received again, a sixth fails. |
| Asr.ReplyIsSlice | idevicerestore/src/asr.c:254 | An answer is all of what was asked for if and only if that is less than 4 GiB. |
| Asr.Host.SendPayload | idevicerestore/src/asr.c:264-308 | The payload goes out in pieces of 1450 bytes, one send each, up to the first that is cut short. |
| Asr.PayloadExactly | idevicerestore/src/asr.c:277-304 | In pieces of 1450 bytes and a last one; what arrives is a prefix of the file; when no error is reported it is the whole file if and only if the file is smaller than 2 GiB. |
| Asr.TwoGigabytes | idevicerestore/src/asr.c:277-304 | Of a file of exactly 2 GiB nothing is sent and no error is reported. |
| Asr.PayloadLength | idevicerestore/src/asr.c:277-304 | Through a reliable transport the front of the file arrives whose length is the size modulo 2^32, or nothing if that is 2 GiB or more. |
| Asr.Host.SendFilesystem | idevicerestore/src/restore.c:407-428 | Undisturbed and below 2 GiB, the transcript is the packet sizes, the requested slices in order, and the whole file. |
| PlistService.Send | libimobiledevice/src/property_list_service.c:119-163 | Success means length and content are on the wire, and comes if and only if neither send is cut short; otherwise a prefix of them. |
| PlistService.Scrub | libimobiledevice/src/property_list_service.c:244-248 | NULs before the last byte become spaces, in place. |
| PlistService.ScrubbingExactly | libimobiledevice/src/property_list_service.c:244-248 | The repair is the identity if and only if there is no NUL before the last byte. |
| PlistService.ScrubbedIsClean | libimobiledevice/src/property_list_service.c:244-248 | The repair keeps the length and every other byte, puts 0x20 for each NUL before the last byte, leaves none, and is idempotent. |
| PlistService.RepairedExactly | libimobiledevice/src/property_list_service.c:241-250 | The parser gets what was received, unchanged, if and only if it is binary or has no NUL to repair. |
| PlistService.Receive | libimobiledevice/src/property_list_service.c:213-268 | Error, plist and stream position after receiving, for a header in one piece or not, a length in range or not, content under any fragmentation, and a stream that ends early. |
| PlistService.ReceivedExactly | libimobiledevice/src/property_list_service.c:213-268 | By the bytes of the stream: a communication error exactly when the big-endian length does not come in one piece, an unknown error exactly from 2^24 on, otherwise the announced bytes are decoded, as binary exactly behind bplist00, and what does not parse is a plist error. |
| PlistService.TruncationUnnoticed | libimobiledevice/src/property_list_service.c:229-260 | When the content ends early no communication error is reported, and success if and only if the parser accepts the buffer with its unfilled rest. |
| PlistService.ReceiveAfterSend | libimobiledevice/src/property_list_service.c:137-254 | Receiving what was sent gives the plist back and leaves what was behind it, if and only if the length arrives in one piece and is below 2^24. |

## Left out

- Malformed and truncated images: the IMG3 parser is modelled on data that lie within their buffers as far as the code reads them; in C anything else is undefined.
- AfcClient.AfcClient.ReceiveData: headers whose parameters are longer than the packet modulo 2^32, which the code writes beyond the buffer.
- AfcRuns.RunC: only the sending halves run, and every send takes all it is offered; for other sends AfcRuns.IssueC and AfcRuns.RunReaches say what is on the wire. The replies are the subject of AfcClient.
- AfcRuns.RunRuby: only the sending halves run, with the replies left out.
- AfcRuns.IssueC: the device's replies are taken to report success.
- AfcClient.AfcClient.FileWrite: assumes that every send takes all it is offered; what a request that was cut short on the wire makes the device do is not modelled.
- AfcClient.AfcClient.FileOpen: assumes that every send takes all it is offered; what a mode means is up to the device, and two handles of one file are two files.
- AfcClient.AfcClient.FileRead: assumes that every send takes all it is offered.
- AfcTransfer.WriteAll: assumes that every send takes all it is offered.
- AfcTransfer.ReadAll: assumes that every send takes all it is offered.
- AfcTransfer.WriteThenRead: assumes that every send takes all it is offered, and a position that a signed 64-bit offset can name.
- AfcTransfer.OpenThenRead: assumes that every send takes all it is offered.
- AfcTransfer.SeekThenRead: assumes that every send takes all it is offered.
- AfcDirectory.ReadDirectory: assumes that every send takes all it is offered.
- AfcClient.AfcClient.FileSeek: assumes that every send takes all it is offered; that the device refuses a position outside the file is an assumption about the peer.
- AfcThreads.Safe: the threads take the steps lock, dispatch, receive and unlock on one client; what the requests mean is proved for one thread at a time in AfcClient.
- AfcThreads.MismatchExactly: a receive that gives up takes nothing off the wire; one that has taken a part of a header or of the parameters leaves the stream in the middle of a packet, which the steps do not follow.
- Sends that move nothing although they could: the early exits for a send of zero bytes are in the code of the model, but with its transport they are reached only for an empty piece.
- Signing.GetComponent: extraction from the archive and the debug copy on disk.
- Backup2.Backup.HandleReceiveFiles: streams with an empty error message, whose terminator goes to an index left over from another receive, or with a length of 2^31 when the loop ends, whose decrement overflows; failures to open, write or remove a file; progress reports, and cancellation through quit_flag.
- Backup2.Backup.HandleSendFile: read errors in the middle of a file; a file is readable as a whole or not at all.
- BackupTree.BackupDirectory.MoveFiles: directories and the joining of the backup directory to each path; a path is a key of the tree. The message that copies items, directory listing and creation are not part of this model.
- SendFile.AllTransfers: file names are taken to be distinct on disk when their destinations are.
- BackupStatus.NeverHalfWritten: only the old tool's Status.plist is followed, not the snapshot state of the new one; what the parser makes of a text that is cut or written behind another is a parameter. A status file that cannot be opened for writing is written through a null pointer in C; the model has an interruption there.
- MobileSync.AllRuns: the direct use of mobilesync_send by a caller to send a changes message, which bypasses the session.
- Usb.Client.SendBuffer: progress callbacks, and the clearing of a stalled endpoint.
- Asr.Host.SendFilesystem: request offsets of 2^63 and more, which the seek refuses; a failing allocation; connecting to the service and its first message.
- PlistService.Receive: content of fewer than 8 bytes, which the comparison with the binary magic reads beyond; timeouts. The XML and binary codecs of the plist library are parameters.
- The public headers of libimobiledevice (for instance libimobiledevice/include/libimobiledevice/afc.h) are not part of this model; error codes are symbolic, with success as the only code whose value matters.
- TLS, certificates, pairing, lockdown sessions, notification_proxy, installation_proxy and the thin services: they call libraries or keep state that has no property of this depth.
- Allocation failure and the freeing of memory.
