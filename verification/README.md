# anymount: a verified model

`anymount` serves one read-only filesystem trait through several operating-system
mechanisms. This project models its platform-free core in Dafny and proves what
that core promises: the resumable directory-listing driver, the XDR / ONC RPC /
NFSv3 / MOUNT wire layer built on it, the server around them, the byte-streaming
loops, the in-memory example filesystem, and the mount lifecycle.

`dafny verify dfyconfig.toml` checks everything.

## How the pieces fit

- **Wire.** `Xdr.dfy` is a universe of XDR types and values (RFC 4506) with one
  encoder and one parser; round trip, stability under more input, prefix
  rejection and alignment are proved once for all messages. `XdrCursor.dfy` holds
  the mutable `Reader` and `Writer`; each carries the fields it has handled as
  ghost state, so a run of reads is one parse and a run of writes one encoding.
  `XdrWire.dfy` gives the bytes of each kind of value, digit by digit.
- **Listing.** `Listing.dfy` is the whole listing with its cookies, what a client
  that resumes after a cookie has yet to see, and sinks. `Paging.dfy` is the
  driver, over any implementation; with a lawful one its paging is invisible.
  `Packing.dfy` is the byte-budget sink.
- **NFS.** `NfsTypes.dfy` states the result type of every procedure,
  `NfsAnswers.dfy` what is answered as a value of that type, `NfsProto.dfy` the
  procedures over cursor and buffer, `ReplyGrammar.dfy` that every body is a
  complete value of its type, and `Replies.dfy` what a client decodes from it, field
  by field under the names of RFC 1813. `ListingClient.dfy` and `ReadClient.dfy` run a
  client against the server over the bytes.
- **RPC and server.** `Rpc.dfy` (record marking), `RpcCall.dfy` (envelopes),
  `Server.dfy` (routing and the MOUNT window), `Connection.dfy` (one connection),
  `AcceptLoop.dfy` (accept loop and workers as a step machine).
- **Mounting.** `FileHandle.dfy`, `Labels.dfy`, `MountProto.dfy`, `MountArgs.dfy`,
  `Lifecycle.dfy`.
- **Filesystems.** `ReadOnlyFs.dfy` (the trait and its contract), `MemFs.dfy` and
  `HandleBalance.dfy` (the example, and concurrent reads over it), `CfApi.dfy`
  (streaming and placeholders). `Bits.dfy` defines the bitwise operators,
  `Wrappers.dfy` the option and result types.

## Reading the model

The trait is a record of its answers during one call (`ReadOnlyFs.Fs`). Calls of
one session may each see a different record, so page splits, attributes and
failures are free to change from call to call. `Lists` is the documented contract
of `readdir`: a page is a non-empty part of what remains, in order, and empty only
past the end. Only results about which entries are listed ask for it; framing,
routing, the reply grammar and the procedures hold of every implementation.

Integers are unbounded in Dafny; `u32`, `u64`, `i64` and `byte` are subset types,
so an addition into one of them is also a proof that it does not overflow. Casts,
saturation and wrapping are written out (`Low32`, `Low64`, `SatAdd`, `SatMul`,
`SatSub`).

Where the code does less than its surroundings suggest, the model follows the
code and a lemma says exactly when the promise holds:

- a reply with status OK fits the client's limit if and only if the limit has
  room for the reply without entries (`Packing.ReplyFitsLimit`,
  `Packing.EmptyReplyOverflows`);
- a fixed-length opaque is read without its padding, which is right if and only
  if its length is a multiple of four (`XdrCursor.UnpaddedFixedRead`);
- a read timeout loses the bytes of a record already taken, so the record still
  arrives if and only if it falls between records (`Rpc.ReadsInterrupted`);
- a Cloud Files fetch completes its range if and only if the open succeeds
  (`CfApi.StreamFetch`);
- the `mount(2)` buffer reads back if and only if its longest fields fit 32-bit
  lengths, and the lengths it declares are exact if and only if all of it is
  shorter than 2^32 bytes (`MountArgs.ReadsBack`);
- the example filesystem's handles are all different if and only if at most 2^64
  are given out (`MemFs.HandlesDistinct`);
- a listing ends if and only if it settles (`Paging.Emit`, `Paging.WalkedSettles`),
  which an implementation that ignores the offset never does under a sink that
  refuses nothing (`Paging.NeverSettles`);
- a cookie overflows if and only if an entry behind the last that can have one is
  handed out (`Paging.CookiesExact`);
- a server that was told to stop waits for a peer if and only if it joins a worker
  while every live worker is writing a reply: reads time out, writes do not
  (`AcceptLoop.StallsExactly`, `AcceptLoop.CanStall`).

## Model

| member | source | states |
|---|---|---|
| `Xdr.RoundTrip` | src/backend/nfs/xdr.rs:20-135 | parsing the encoding of any value of any XDR type gives the value back and leaves exactly what followed it |
| `Xdr.ParseExtend` | src/backend/nfs/xdr.rs:20-63 | more input never changes a parse that already succeeded |
| `Xdr.PrefixRejected` | src/backend/nfs/xdr.rs:20-63 | no strict prefix of an encoded message parses as that message |
| `Xdr.ParseTyped` | src/backend/nfs/xdr.rs:20-63 | whatever parses is a well-formed value of the type, within its length limits |
| `Xdr.Aligned` | src/backend/nfs/xdr.rs:105-135 | every typed value takes whole four-byte words |
| `XdrWire.FourDigits` | src/backend/nfs/xdr.rs:105-107 | a word is its four base-256 digits, most significant first |
| `XdrWire.EightDigits` | src/backend/nfs/xdr.rs:109-111 | a double word is its eight |
| `XdrWire.LeafForm` | src/backend/nfs/xdr.rs:113-126 | the bytes of a boolean, and a length word before variable data |
| `XdrWire.PaddedForm` | src/backend/nfs/xdr.rs:117-121 | data is followed by zeros up to the next multiple of four and no further |
| `XdrWire.OptionalForm` | src/backend/nfs/nfs_proto.rs:111-118 | optional data is the word 1 and the data, or the word 0 |
| `XdrWire.LinksForm` | src/backend/nfs/nfs_proto.rs:444-456 | each list entry follows the word 1, and the word 0 ends the list |
| `XdrWire.StructForm` | src/backend/nfs/nfs_proto.rs:172-188 | fields follow one another, and a status word comes before its arm |
| `XdrWire.FieldOverLimit` | src/backend/nfs/xdr.rs:51-59 | variable data over its limit ends the reading of a structure, whatever follows |
| `XdrCursor.Reader.Take` | src/backend/nfs/xdr.rs:20-25 | takes exactly n bytes, or nothing with the cursor unmoved when fewer remain |
| `XdrCursor.Reader.ReadU32` | src/backend/nfs/xdr.rs:27-30 | reads the next field of the structure, or proves the structure does not parse |
| `XdrCursor.Reader.ReadU64` | src/backend/nfs/xdr.rs:32-35 | as ReadU32, for 64-bit words |
| `XdrCursor.Reader.ReadOpaqueFixed` | src/backend/nfs/xdr.rs:42-45 | takes exactly n bytes; an XDR fixed opaque when n is a multiple of four |
| `XdrCursor.UnpaddedFixedRead` | src/backend/nfs/xdr.rs:42-45 | reading back a fixed opaque without padding ends at its end if and only if the length is a multiple of four |
| `XdrCursor.Reader.ReadOpaqueVar` | src/backend/nfs/xdr.rs:51-59 | a length within the limit, the data and its padding, or the structure does not parse |
| `XdrCursor.Reader.SkipOpaqueAuth` | src/backend/nfs/xdr.rs:75-83 | skips a flavor and a body of at most 400 bytes, or the structure does not parse |
| `XdrCursor.Writer.WriteU32` | src/backend/nfs/xdr.rs:105-107 | the buffer is the encoding of the fields written, in order, with this one last |
| `XdrCursor.Writer.WriteU64` | src/backend/nfs/xdr.rs:109-111 | as WriteU32, for 64-bit words |
| `XdrCursor.Writer.WriteBool` | src/backend/nfs/xdr.rs:113-115 | as WriteU32, for booleans |
| `XdrCursor.Writer.WriteOpaqueFixed` | src/backend/nfs/xdr.rs:117-121 | as WriteU32, for data padded to a word |
| `XdrCursor.Writer.WriteOpaqueVar` | src/backend/nfs/xdr.rs:123-126 | as WriteU32, for a length word and padded data |
| `XdrCursor.Writer.ExtendFrom` | src/backend/nfs/xdr.rs:133-135 | appends bytes encoded elsewhere |
| `Listing.CookieIsPosition` | src/backend/readdir.rs:30-42 | with the dots, entry i of the listing has cookie i + 1 |
| `Listing.AfterMeansGreaterCookie` | src/backend/readdir.rs:33-42 | resuming after any cookie, garbage included, serves exactly the entries with a greater one |
| `Listing.FeedIsLongestPrefix` | src/backend/readdir.rs:60-68 | what a stateful sink accepts is the longest prefix it accepts from start to end |
| `Paging.EmitPages` | src/backend/readdir.rs:152-171 | over any implementation, pages are asked for one behind the other until an entry is refused, a page is empty, or one fails |
| `Paging.Emit` | src/backend/readdir.rs:110-172 | for every implementation, cookie and sink whose listing ends at all: the sink is offered exactly what the pages hand out, in order; true means an empty page was reached, an error is that of the page reached |
| `Paging.WalkedSettles` | src/backend/readdir.rs:97-99 | a listing ends only under the condition `Emit` asks for, so the condition is exact |
| `Paging.LawfulWalk` | src/backend/readdir.rs:110-172 | with the contract of readdir paging is invisible: the sink sees exactly the entries after the cookie; true means all were accepted; an error leaves accepted exactly the entries before the page that failed |
| `Paging.LawfulSettles` | src/backend/readdir.rs:97-99 | and every listing ends |
| `Paging.CookiesExact` | src/backend/readdir.rs:46-48 | no cookie overflows if and only if the last entry handed out lies within 2^64 - 3 entries |
| `Paging.LawfulCookiesExact` | src/backend/readdir.rs:46-48 | with the contract none ever does, for directories of at most 2^64 - 3 entries |
| `Paging.LastCookieWraps` | src/backend/readdir.rs:46-48 | it does for the largest resume cookie and an implementation that ignores the offset |
| `Paging.NeverSettles` | src/backend/readdir.rs:97-99 | an implementation that ignores the offset is listed for ever by a sink that refuses nothing |
| `Paging.DotsOffered` | src/backend/readdir.rs:120-150 | cookie 1 is the directory itself, cookie 2 the inode lookup gives for `..`, or the directory if that fails |
| `FileHandle.CtEq` | src/backend/nfs/handle.rs:35-44 | the XOR/OR accumulator is zero exactly for equal byte strings |
| `FileHandle.ResolveHandle` | src/backend/nfs/handle.rs:100-105 | resolves as the specification function does |
| `FileHandle.ResolveInvertsEncode` | src/backend/nfs/handle.rs:91-105 | a byte string resolves to an inode exactly when it is the handle issued for it |
| `FileHandle.HandleForm` | src/backend/nfs/handle.rs:91-96 | a handle is the 16 bytes of the secret and then the inode, most significant byte first |
| `FileHandle.Hex` | src/backend/nfs/handle.rs:128-132 | two lowercase hexadecimal digits for each byte |
| `FileHandle.HexReadsBack` | src/backend/nfs/handle.rs:128-132 | reading the digits as hexadecimal gives the bytes back |
| `FileHandle.HexForm` | src/backend/nfs/handle.rs:128-132 | each byte is written as two of the digits 0123456789abcdef, the high one first |
| `FileHandle.HexInjective` | src/backend/nfs/handle.rs:126-160 | different export values never render alike |
| `ReadOnlyFs.ToNfsStat3` | src/error.rs:100-114 | no error, however deeply explained, becomes the status clients read as success; which one each becomes is in `Replies.ErrorTravels` |
| `Replies.ErrorTravels` | src/error.rs:100-114 | the code sent for each error is that of its RFC 1813 status, and that of the error inside an explanation |
| `ReadOnlyFs.Overlay` | src/fs.rs:116-126 | what read_at stores cannot change the length of the caller's buffer |
| `NfsTypes.PostOpTyped` | src/backend/nfs/nfs_proto.rs:84-125 | attributes, present or absent, are a well-formed post_op_attr |
| `NfsProto.WriteFattr3` | src/backend/nfs/nfs_proto.rs:84-109 | writes the fattr3 fields in order, times before the epoch as zero |
| `NfsProto.WritePostOp` | src/backend/nfs/nfs_proto.rs:111-118 | writes present attributes or their absence |
| `NfsProto.WritePostOpBestEffort` | src/backend/nfs/nfs_proto.rs:120-125 | writes what getattr gives, absence if it fails |
| `NfsProto.WriteWccDataZero` | src/backend/nfs/nfs_proto.rs:130-133 | writes empty wcc_data |
| `NfsProto.Reject` | src/backend/nfs/nfs_proto.rs:135-170 | every mutating procedure and READLINK is refused with its own result shape |
| `NfsProto.Getattr` | src/backend/nfs/nfs_proto.rs:172-188 | garbage arguments, or the encoded GETATTR answer |
| `NfsProto.Lookup` | src/backend/nfs/nfs_proto.rs:190-216 | garbage arguments, or the encoded LOOKUP answer |
| `NfsProto.Access` | src/backend/nfs/nfs_proto.rs:218-247 | garbage arguments, or the encoded ACCESS answer |
| `NfsProto.ReadFile` | src/backend/nfs/nfs_proto.rs:267-322 | the encoded READ answer, with the saturating eof test equal to offset + n >= size; the calls are one open of that inode, one read_at and the release of that handle, whether read_at fails or not, and none if the open fails |
| `NfsProto.Read` | src/backend/nfs/nfs_proto.rs:257-323 | garbage arguments, or the encoded READ answer; the calls are an open of the inode the handle names, one read_at of at most 1 MiB and the release, or none; they leave any set of open files as it was |
| `NfsProto.EncodeDirent` | src/backend/nfs/nfs_proto.rs:339-366 | the bytes weighed against the budget are the link of the entry's value |
| `NfsProto.BuildDirlist` | src/backend/nfs/nfs_proto.rs:376-403 | over any implementation: packs exactly the leading entries handed out that fit; eof when they end there; an error is that of the page after entries that fit |
| `NfsProto.ReaddirArgs` | src/backend/nfs/nfs_proto.rs:405-428 | the handle, cookie and count or maxcount of the arguments, or they do not parse |
| `NfsProto.ReaddirCommon` | src/backend/nfs/nfs_proto.rs:405-463 | over any implementation: garbage arguments, or an encoded READDIR(PLUS) answer; an error only if a page it came to failed |
| `NfsProto.Fsstat` | src/backend/nfs/nfs_proto.rs:465-498 | garbage arguments, or the encoded FSSTAT answer with saturated sizes |
| `NfsProto.Fsinfo` | src/backend/nfs/nfs_proto.rs:500-524 | garbage arguments, or the encoded FSINFO answer |
| `NfsProto.Pathconf` | src/backend/nfs/nfs_proto.rs:526-545 | garbage arguments, or the encoded PATHCONF answer |
| `NfsProto.Dispatch` | src/backend/nfs/nfs_proto.rs:52-82 | for every procedure number, argument bytes and implementation: unavailable, garbage, or an answer of that procedure; whatever the call, the files open are those that were |
| `NfsAnswers.ReadData` | src/backend/nfs/nfs_proto.rs:278-288 | the data is as long as the smaller of what was reported and what was asked |
| `ReplyGrammar.BodyParses` | src/backend/nfs/nfs_proto.rs:52-545 | for every implementation: every successful body parses completely under the RFC 1813 result type of its procedure to the answer, and no shorter body does |
| `ReplyGrammar.ReaddirTyped` | src/backend/nfs/nfs_proto.rs:376-456 | a listing result is well formed whatever the name lengths, because an overlong name never fits a budget |
| `ReplyGrammar.IssuedHandlesResolve` | src/backend/nfs/nfs_proto.rs:203-209 | every handle in a LOOKUP or READDIRPLUS reply resolves to the inode it was issued for |
| `ReplyGrammar.GrantedBits` | src/backend/nfs/nfs_proto.rs:218-240 | ACCESS grants exactly the requested bits among read, lookup and execute |
| `Replies.GetattrSeen` | src/backend/nfs/nfs_proto.rs:90-188 | a client decodes type, mode, nlink, uid, gid, size, used, rdev, fsid, fileid and times as getattr gave them, or the status of its error |
| `Replies.LookupSeen` | src/backend/nfs/nfs_proto.rs:190-216 | the handle and attributes of the object, then the attributes of the directory; a failure shows its status and the directory |
| `Replies.AccessSeen` | src/backend/nfs/nfs_proto.rs:218-247 | the attributes and the granted bits, or a status |
| `Replies.ReadSeen` | src/backend/nfs/nfs_proto.rs:257-323 | the attributes, as many bytes as read_at stored and reported within min(count, 1 MiB), their count and the eof test; a failure to open or read shows its status and the attributes |
| `Replies.ReaddirSeen` | src/backend/nfs/nfs_proto.rs:405-463 | the entries handed out up to where the listing stopped: fileid, name, cookie, and whether that was the end; too small exactly when the first does not fit |
| `Replies.ReaddirplusSeen` | src/backend/nfs/nfs_proto.rs:339-463 | as READDIR, each entry with its own attributes and handle, by the last limit of the arguments |
| `Replies.FsstatSeen` | src/backend/nfs/nfs_proto.rs:465-498 | sizes in bytes, saturated, and file counts, in the places RFC 1813 gives them |
| `Replies.FsinfoSeen` | src/backend/nfs/nfs_proto.rs:500-524 | the transfer sizes, limits and properties by name |
| `Replies.PathconfSeen` | src/backend/nfs/nfs_proto.rs:526-545 | the path limits and properties by name |
| `Replies.RefusalSeen` | src/backend/nfs/nfs_proto.rs:135-170 | READLINK and SYMLINK are not supported, the others meet a read-only file system, whatever their arguments |
| `Replies.OthersSeen` | src/backend/nfs/nfs_proto.rs:52-82 | NULL answers nothing, and exactly the procedures past 21 are unavailable |
| `Replies.LongHandleGarbage` | src/backend/nfs/nfs_proto.rs:172-175 | a file handle of more than 64 bytes is garbage for every procedure that reads one |
| `Replies.LongNameGarbage` | src/backend/nfs/nfs_proto.rs:190-196 | a name of more than 1024 bytes is garbage |
| `Packing.PackFeed` | src/backend/nfs/nfs_proto.rs:383-396 | remaining budget and packed bytes always add up to the budget; the packed bytes are the accepted entries' links |
| `Packing.PackSettles` | src/backend/nfs/nfs_proto.rs:383-396 | a byte budget ends every listing, whatever the implementation hands out |
| `Packing.FitIsMaximal` | src/backend/nfs/nfs_proto.rs:376-403 | a prefix of the entries fits the budget exactly when it is no longer than what was packed |
| `Packing.TooSmallExactly` | src/backend/nfs/nfs_proto.rs:437-456 | NFS3ERR_TOOSMALL exactly when there is a next entry and it does not fit; never OK, empty and not eof |
| `Packing.LawfulListing` | src/backend/nfs/nfs_proto.rs:376-456 | with the contract of readdir the answer is that of the directory: packed from all that remains, or failed as the page after entries that fit |
| `Packing.ReplyFitsLimit` | src/backend/nfs/nfs_proto.rs:36-40 | an OK reply fits the client's limit if and only if the limit has room for the reply without entries |
| `Packing.EmptyReplyOverflows` | src/backend/nfs/nfs_proto.rs:437-456 | at the end of a listing any smaller limit is exceeded by an OK reply |
| `Packing.ProgressFrom528` | src/backend/nfs/nfs_proto.rs:339-456 | 528 bytes always make progress for names up to 255 bytes |
| `Packing.ProgressFails527` | src/backend/nfs/nfs_proto.rs:339-456 | 527 bytes do not, for a 253-byte name with attributes |
| `Packing.PostOpSize` | src/backend/nfs/nfs_proto.rs:90-118 | attributes take 88 bytes when present and 4 when not |
| `Packing.DirentSize` | src/backend/nfs/nfs_proto.rs:339-366 | the exact size of an entry by its name and what comes with it |
| `ListingClient.PageOfReply` | src/backend/nfs/nfs_proto.rs:449-456 | decoding an OK reply gives back the packed entries and the eof flag |
| `ListingClient.AnsweredIsNextPage` | src/backend/nfs/nfs_proto.rs:405-463 | one call yields the next entries, at least one if any remain, and resuming after its last cookie leaves the rest |
| `ListingClient.AnswerExists` | src/backend/nfs/nfs_proto.rs:405-463 | every call that is served faithfully has an answer |
| `ListingClient.Reassembly` | src/backend/nfs/nfs_proto.rs:339-463 | at every point the client holds a prefix, each entry once and in order; every call before eof adds an entry; eof means everything |
| `ListingClient.CompleteListing` | src/backend/nfs/nfs_proto.rs:339-463 | over the wire, with any page splits, attributes, adequate budgets and numbers of entries per reply, enough calls collect `.`, `..` with the inode lookup gives for it, and every entry once in order with cookies from 1, then eof |
| `ListingClient.SessionExists` | src/backend/nfs/nfs_proto.rs:339-463 | every plan of limits and server states that can serve what is asked next is the start of a run |
| `ListingClient.PlanFrom528` | src/backend/nfs/nfs_proto.rs:339-456 | any limits of 528 bytes or more make a plan when names have at most 255 bytes |
| `ListingClient.ListingCompletes` | src/backend/nfs/nfs_proto.rs:339-463 | any plan of enough calls can be carried out and brings the whole directory, then eof |
| `ReadClient.CountIsDataLength` | src/backend/nfs/nfs_proto.rs:280-308 | for any read_at, the count field is the data length and within min(count, RTMAX), and eof is the mathematical test |
| `ReadClient.ReadOn` | src/backend/nfs/nfs_proto.rs:257-323 | every READ before eof brings a byte; eof means the rest of the file has arrived |
| `ReadClient.CompleteRead` | src/backend/nfs/nfs_proto.rs:257-323 | sequential reads with any positive, varying counts obtain exactly the file |
| `ReadClient.AnswerExists` | src/backend/nfs/nfs_proto.rs:257-323 | every read of a file that is served honestly has an answer |
| `ReadClient.ReadCompletes` | src/backend/nfs/nfs_proto.rs:257-323 | any plan of enough reads of positive counts can be carried out and obtains exactly the file |
| `Rpc.ReadExactOrEof` | src/backend/nfs/rpc.rs:62-76 | however the stream is cut into reads: n bytes, a clean end, a short end, or a timeout |
| `Rpc.ReadMessage` | src/backend/nfs/rpc.rs:38-57 | reads one record as the specification function does |
| `Rpc.FrameForm` | src/backend/nfs/rpc.rs:79-84 | a record starts with its length, most significant byte first, and 128 added to the first byte |
| `Rpc.ReadsFrame` | src/backend/nfs/rpc.rs:38-84 | a written record is read back whole, with the stream right behind it |
| `Rpc.ReadsCut` | src/backend/nfs/rpc.rs:38-57 | a stream that ends inside a record is an error, never a short body; between records a clean end |
| `Rpc.ReadsInterrupted` | src/backend/nfs/rpc.rs:62-76 | a timeout inside or before a record is reported, and the record still arrives from what follows if and only if none of it had been taken |
| `Rpc.ReceivesItems` | src/backend/nfs/rpc.rs:38-84 | records sent with timeouts only between them arrive whole, in order, before whatever follows |
| `Rpc.ReceivesThenEnds` | src/backend/nfs/rpc.rs:38-76 | a stream that stops after any bytes of a record holds exactly the records before it, then a clean end or an error |
| `Rpc.ReceivesThenRefuses` | src/backend/nfs/rpc.rs:43-53 | a non-final or oversized record mark ends the stream with that error after the records before it |
| `Rpc.ReceivesThenBreaks` | src/backend/nfs/server.rs:133-139 | a connection that fails after any bytes of a record holds exactly the records before it, then that error |
| `Connection.WriteMessage` | src/backend/nfs/rpc.rs:79-84 | one final fragment, record mark then body, or a part of it on a write error |
| `Connection.ServeConnection` | src/backend/nfs/server.rs:126-148 | over any byte stream and any implementation, changing from message to message, with stop, reset, bad marks and write errors: `handle_message` answers each request once, in order, up to the first malformed one, and what is sent is exactly the frames of those replies |
| `Connection.ConnectionReplies` | src/backend/nfs/server.rs:126-148 | on a whole connection each reply decodes and echoes its request's xid, and a request goes unanswered only after a malformed one, a stop or a write error |
| `RpcCall.ReadCallHeader` | src/backend/nfs/rpc.rs:108-138 | the header outcome is that of the parse, with the cursor at the arguments |
| `RpcCall.HeaderRoundTrip` | src/backend/nfs/rpc.rs:108-138 | parsing an encoded header gives every field back and stops exactly at the arguments |
| `RpcCall.HeaderPrefixMalformed` | src/backend/nfs/rpc.rs:108-138 | every strict prefix of an encoded header is malformed |
| `RpcCall.CallForm` | src/backend/nfs/rpc.rs:108-138 | the words a call consists of, in order, each authenticator behind its flavor |
| `RpcCall.LongAuthMalformed` | src/backend/nfs/xdr.rs:75-83 | an authenticator of more than 400 bytes makes the call malformed |
| `RpcCall.RpcMismatchReply` | src/backend/nfs/rpc.rs:141-150 | decodes as a denial for RPC version 2 only, with the xid; its six words |
| `RpcCall.WriteReplyHeader` | src/backend/nfs/rpc.rs:154-161 | writes an accepted header with an empty AUTH_NONE verifier |
| `RpcCall.BuildReply` | src/backend/nfs/rpc.rs:184-195 | decodes as an accepted reply that carries the outcome, with the xid; its words, the accept status among them |
| `RpcCall.ProgUnavailReply` | src/backend/nfs/rpc.rs:198-202 | decodes as PROG_UNAVAIL with the xid; its words |
| `RpcCall.ProgMismatchReply` | src/backend/nfs/rpc.rs:205-210 | decodes as PROG_MISMATCH for version 3 only, with the xid; its words |
| `Server.HandleMessage` | src/backend/nfs/server.rs:150-192 | for every byte string, implementation and result of the two flag loads, the reply a client decodes is that of the route |
| `Server.TotalRouting` | src/backend/nfs/server.rs:150-192 | no reply exactly for a malformed header; otherwise a complete reply that echoes the xid |
| `Server.CallReaches` | src/backend/nfs/server.rs:150-192 | a call of program 100003 or 100005, version 3, as a client writes it reaches its procedure with exactly its arguments, and the reply carries that outcome back |
| `Server.CallRefused` | src/backend/nfs/server.rs:162-191 | every other call decodes as a mismatch for version 3 (the NFS program, or MOUNT while it is served) or as an unavailable program |
| `Server.OtherMessages` | src/backend/nfs/server.rs:150-160 | another RPC version is denied with the xid; a message that is not a call gets no reply |
| `Server.DecisionIsRoute` | src/backend/nfs/server.rs:162-176 | what the loads of a run decide is the route taken |
| `Server.OneWayWindow` | src/backend/nfs/server.rs:162-176 | in every interleaving with the clearing store: version 3 MOUNT calls are served or unavailable, never a mismatch; unavailable after the store; never served on a local-socket server |
| `Server.TwoWayFlagMismatches` | src/backend/nfs/server.rs:162-176 | were the flag set again between the loads, a version 3 call would see a mismatch |
| `AcceptLoop.ServerSafety` | src/backend/nfs/server.rs:65-148 | in every interleaving: at most 16 live workers, each worker finished or tracked, return only after stop with all finished, at most one reply per worker after stop |
| `AcceptLoop.AcceptsExactly` | src/backend/nfs/server.rs:76-100 | from every reachable top of the loop with stop clear, the runner by itself comes to accepting a connection if and only if fewer than 16 workers are live |
| `AcceptLoop.KeepsServing` | src/backend/nfs/server.rs:126-148 | a request with its reply, or a read that times out, leaves the worker where it was, ready for the next |
| `AcceptLoop.ShutdownProgress` | src/backend/nfs/server.rs:126-148 | after stop, every worker step brings the workers strictly closer to all finished |
| `AcceptLoop.StepProgress` | src/backend/nfs/server.rs:76-148 | after stop, every step of the runner or a worker, a last accept included, brings the server strictly closer to having returned |
| `AcceptLoop.ShutdownBounded` | src/backend/nfs/server.rs:76-148 | in every interleaving the runner and workers take a bounded number of steps after stop, peers that trickle included, and have returned by then |
| `AcceptLoop.StallsExactly` | src/backend/nfs/server.rs:102-148 | a stopped server comes to a halt short of returning if and only if it joins a worker while every live worker is writing to its peer |
| `AcceptLoop.StalledNeedsPeer` | src/backend/nfs/server.rs:144-146 | then only a peer that takes its reply or drops its connection ends the wait |
| `AcceptLoop.CanStall` | src/backend/nfs/server.rs:102-148 | one client that does not read its reply brings it about |
| `Labels.VolumeLabel` | src/backend/nfs/mod.rs:146-163 | computes the filtered and trimmed label |
| `Labels.LabelMeans` | src/backend/nfs/mod.rs:146-163 | the first 64 characters, a dash for each rejected one that follows neither a dash nor another, without the dashes, dots and spaces at either end; the default if nothing is left |
| `Labels.LabelIsLabel` | src/backend/nfs/mod.rs:127-163 | a label has 1 to 64 characters, no slash, no control character, no separator at either end |
| `Labels.LabelFixpoint` | src/backend/nfs/mod.rs:146-163 | the filter leaves a name alone exactly when it already is a label |
| `Labels.LabelIdempotent` | src/backend/nfs/mod.rs:146-163 | filtering twice is filtering once |
| `Labels.EncodeUtf8Valid` | src/backend/nfs/mount_proto.rs:58-61 | every string encodes to valid UTF-8 |
| `MountProto.CheckPath` | src/backend/nfs/mount_proto.rs:58-79 | computes the status of a path |
| `MountProto.MountDecision` | src/backend/nfs/mount_proto.rs:58-79 | OK exactly for the export path alone or before a slash, ACCES exactly for any other 32 hex digits in its place, NOENT otherwise |
| `MountProto.OtherExportDenied` | src/backend/nfs/mount_proto.rs:76-79 | another mount's export value is denied |
| `MountProto.MounterAccepted` | src/backend/nfs/tcp.rs:43-47 | for every file system name the mounter's path fits the limit and is accepted |
| `MountProto.Mnt` | src/backend/nfs/mount_proto.rs:52-86 | garbage arguments, or the encoded MNT answer |
| `MountProto.MountAnswerParses` | src/backend/nfs/mount_proto.rs:81-85 | a MNT answer is a complete mountres3 and its handle resolves to the root |
| `MountProto.MntSeen` | src/backend/nfs/mount_proto.rs:52-86 | a client decodes the handle of inode 1 and AUTH_SYS exactly for this export, status 13 for another one, status 2 otherwise |
| `MountProto.PathLimit` | src/backend/nfs/mount_proto.rs:52-95 | paths of more than 1024 bytes, and no others, are garbage |
| `MountProto.OthersSeen` | src/backend/nfs/mount_proto.rs:37-50 | NULL and UMNT bring nothing, EXPORT an empty list, the rest is unavailable |
| `MountProto.Umnt` | src/backend/nfs/mount_proto.rs:90-95 | accepts any path within the limit |
| `MountProto.Dispatch` | src/backend/nfs/mount_proto.rs:37-50 | routes NULL, MNT, UMNT and EXPORT; everything else is unavailable |
| `MountArgs.AttrBitmap` | src/backend/nfs/mount_args.rs:201-219 | the bitmap has exactly the bits of the ten attributes |
| `MountArgs.FlagBits` | src/backend/nfs/mount_args.rs:126-130 | the flag mask covers soft, reserved port and UMNT, and only soft is on |
| `MountArgs.Encode` | src/backend/nfs/mount_args.rs:116-191 | the buffer is the header with the bitmap and lengths, then the values |
| `MountArgs.ReadsBack` | src/backend/nfs/mount_args.rs:116-191 | reading in attribute order gives every field back and ends at the last byte if and only if handle and mount-from string fit 32-bit lengths; the declared lengths and the timeout are exact if and only if they fit 32 bits |
| `MountArgs.AttributesFound` | src/backend/nfs/mount_args.rs:116-191 | a reader that goes by the bitmap finds each of the ten attributes under its number with its value, and nothing else |
| `Lifecycle.MountIn` | src/backend/nfs/local.rs:100-174 | succeeds exactly when every step does; a failure leaves no thread, and once the server runs it unmounts, stops it and joins it, in that order |
| `Lifecycle.MountLocal` | src/backend/nfs/local.rs:89-98 | success owns one thread and one directory; failure leaves neither, the directory removed after everything else |
| `Lifecycle.MountTcp` | src/backend/nfs/tcp.rs:27-110 | MOUNT is cleared whether it succeeds or not; success owns one thread, failure stops and joins it after that |
| `Lifecycle.Mount` | src/backend/nfs/mod.rs:317-349 | which transport, exactly when, and everything that is taken down on the way, in order; requiring the local socket never yields TCP in any feature configuration; a failed mount leaves nothing |
| `Lifecycle.Unmount` | src/backend/nfs/mod.rs:273-292 | unmount, stop, join, remove the directory, in that order, even if unmounting fails |
| `Lifecycle.MountObject.Close` | src/mount.rs:265-284 | teardown runs for whichever of unmount and drop comes first, and does nothing the second time |
| `Lifecycle.Life` | src/mount.rs:265-284 | a whole life leaves the threads and directories it found, with exactly one teardown if it mounted |
| `CfApi.StreamChunks` | src/backend/cfapi.rs:720-765 | for any range and any read_at, completions cover the range exactly, successes then at most one failure, each with what the read behind it brought; the file's data in aligned chunks for an honest one |
| `CfApi.StreamFetch` | src/backend/cfapi.rs:705-718 | one open and one release; the range, empty or not, is completed if and only if the open succeeds |
| `CfApi.ListPlaceholders` | src/backend/cfapi.rs:543-566 | over any implementation whose pages end: one placeholder for each entry handed out whose getattr succeeds, in order, with its name and those attributes; with the contract, for each such entry of the directory |
| `CfApi.PlaceholdersEnd` | src/backend/cfapi.rs:543-566 | with the contract of readdir it ends |
| `CfApi.PlaceholdersNeverEnd` | src/backend/cfapi.rs:543-566 | with an implementation that ignores the offset it does not |
| `MemFs.HonoursListing` | examples/memfs.rs:120-138 | the example satisfies the readdir contract for the children of each directory |
| `MemFs.ListsChildren` | examples/memfs.rs:120-138 | listing from any offset gives the children from there on, in order, each with its inode, name and the kind of its node; other inodes give their error |
| `MemFs.ListedIsFound` | examples/memfs.rs:97-114 | what is listed is found under its name with the same inode and kind, and `..` finds the parent |
| `MemFs.Files.Open` | examples/memfs.rs:140-150 | the next handle for a file, an error and no change otherwise; no open file has it while at most 2^64 have been given out |
| `MemFs.HandlesDistinct` | examples/memfs.rs:140-150 | the handles given out are pairwise distinct if and only if there are at most 2^64 |
| `MemFs.HandlesComeAround` | examples/memfs.rs:140-150 | the next one is the first again |
| `MemFs.Files.ReadAt` | examples/memfs.rs:152-168 | short only at the end of the file the handle was opened on |
| `MemFs.Files.Release` | examples/memfs.rs:170-176 | forgets the handle; unknown handles change nothing |
| `HandleBalance.HandlesBalanced` | examples/memfs.rs:140-176 | in every interleaving no handle is reissued, the new live handles are those held by READs in flight, and each reads the file it opened |
| `HandleBalance.NothingLeaks` | src/backend/nfs/nfs_proto.rs:276-321 | after all READs are done the open files are what they were |

## Left out

- FUSE backend (`src/backend/fuse.rs`): a thin adapter whose listing logic is the driver modelled here.
- The rest of `src/backend/cfapi.rs`: foreign structures, callback registration and on-disk clean-up.
- `src/backend/nfs/transport.rs`: forwarding wrappers over sockets.
- Preflight checks other than the local-socket rule: a conjunction of option tests, one outcome in `Lifecycle.Mount`.
- `mount(2)`, `unmount(2)`, `mount_nfs`, permissions and the file system underneath: outcomes that may go either way.
- Randomness, timing of the constant-time comparison, sleeps and real time.
- Mutex poisoning in `examples/memfs.rs`; `HandleBalance` covers runs of fewer than 2^64 opens.
- `Reader::read_bool`: nothing in the server calls it.
- Relaxed atomics: the step machines interleave whole loads and stores of one flag; "after the store" means after it in that order.
- Padding bytes are skipped unread, as in the code, so only decoding after encoding is claimed, not the converse.
- READDIRPLUS `dircount` is read and ignored, as in the code.
- Paging.Emit: the sink is a function over a state passed along, not a closure over captured variables; `NfsProto.EncodeDirent` shows that the writer produces the bytes the sink weighs.
- Paging.Emit: additions to offsets and cookies wrap, as in a release build; a debug build stops where `Paging.CookiesExact` says one does.
- Lifecycle.Unmount: joining is one step; `AcceptLoop` says when it comes to an end.
- CfApi.StreamChunks: positions past the largest signed 64-bit offset wrap, as in a release build; a debug build stops there instead.
