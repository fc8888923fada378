/**
 * A client reading one file over the wire with successive READ calls, and what
 * a READ reply guarantees even when the implementation misreports its count.
 */
module ReadClient {
  import opened Wrappers
  import opened Xdr
  import opened ReadOnlyFs
  import opened FileHandle
  import opened NfsTypes
  import opened NfsAnswers
  import opened NfsProto
  import opened RpcCall
  import opened ReplyGrammar

  datatype Chunk = Chunk(count: u32, eof: bool, data: bytes)

  /** What a client makes of a READ reply body. */
  function DecodeChunk(body: bytes): Option<Chunk> {
    match Parse(READ_RES, body)
    case None => None
    case Some((v, rest)) =>
      ParseTyped(READ_RES, body);
      if rest != [] || v.code != 0 then None
      else
        var fields := v.res.fields;
        assert HaveTypes([POST_OP_ATTR, TU32, TBool, TOpaque(U32_MAX)], fields);
        assert HasType(TU32, fields[1]) && HasType(TBool, fields[2]) && HasType(TOpaque(U32_MAX), fields[3]);
        Some(Chunk(fields[1].n, fields[2].b, fields[3].data))
  }

  function Args(secret: Secret, ino: u64, offset: u64, count: u32): seq<Val> {
    [VOpaque(EncodeHandle(secret, ino)), VU64(offset), VU32(count)]
  }

  lemma ArgsParse(secret: Secret, ino: u64, offset: u64, count: u32)
    ensures
      var args := Args(secret, ino, offset, count);
      ParseAll(ArgTys(6), EncAll(args)) == Some((args, [])) && Resolve(secret, args[0].data) == Some(ino)
  {
    var args := Args(secret, ino, offset, count);
    assert HaveTypes(ArgTys(6), args);
    AllRoundTrip(ArgTys(6), args, []);
    assert EncAll(args) + [] == EncAll(args);
    ResolveInvertsEncode(secret, EncodeHandle(secret, ino), ino);
  }

  lemma FileAnswerParses(ctx: Ctx, ino: u64, offset: u64, count: u32)
    ensures
      var v := FileAnswer(ctx, ino, offset, Min(count, RTMAX));
      Parse(READ_RES, Enc(v)) == Some((v, []))
  {
    var v := FileAnswer(ctx, ino, offset, Min(count, RTMAX));
    ResolveInvertsEncode(ctx.secret, EncodeHandle(ctx.secret, ino), ino);
    ReadTyped(ctx, EncodeHandle(ctx.secret, ino), offset, count);
    RoundTrip(READ_RES, v, []);
    assert Enc(v) + [] == Enc(v);
  }

  /** A READ of inode `ino` of this mount gets the file answer for the capped count. */
  lemma ReplyIsFileAnswer(ctx: Ctx, ino: u64, offset: u64, count: u32, reply: bytes)
    requires Dispatched(6, EncAll(Args(ctx.secret, ino, offset, count)), ctx, Success(reply))
    ensures reply == Enc(FileAnswer(ctx, ino, offset, Min(count, RTMAX)))
    ensures Parse(READ_RES, reply) == Some((FileAnswer(ctx, ino, offset, Min(count, RTMAX)), []))
  {
    ArgsParse(ctx.secret, ino, offset, count);
    FileAnswerParses(ctx, ino, offset, count);
  }

  /**
   * Whatever `read_at` reports and stores, the count field of a successful
   * reply is the length of its data and within what was asked and the maximum.
   */
  lemma CountIsDataLength(ctx: Ctx, ino: u64, offset: u64, count: u32, reply: bytes)
    requires Dispatched(6, EncAll(Args(ctx.secret, ino, offset, count)), ctx, Success(reply))
    ensures
      match DecodeChunk(reply)
      case None => FileAnswer(ctx, ino, offset, Min(count, RTMAX)).code != 0
      case Some(c) =>
        && c.count == |c.data| <= Min(count, RTMAX)
        && (c.eof <==> ctx.fs.getattr(ino).Ok? && offset + c.count >= ctx.fs.getattr(ino).value.size)
  {
    ReplyIsFileAnswer(ctx, ino, offset, count, reply);
  }

  // ---------------------------------------------------------------- sequential reading

  function BytesAt(file: bytes, offset: nat, len: nat): bytes {
    if offset >= |file| then [] else file[offset..offset + Min(len, |file| - offset)]
  }

  /** The implementation serves `file` as inode `ino`: a read is short only at the end, and the size is right. */
  ghost predicate ServesFile(ctx: Ctx, ino: u64, file: bytes) {
    && ctx.fs.getattr(ino).Ok? && ctx.fs.getattr(ino).value.size == |file|
    && ctx.fs.open(ino).Ok?
    && forall offset: u64, len: nat ::
         var r := ctx.fs.readAt(ctx.fs.open(ino).value, offset, len);
         r.Ok? && r.value.reported == |BytesAt(file, offset, len)| && BytesAt(file, offset, len) <= r.value.stored
  }

  datatype Call = Call(ctx: Ctx, count: u32, reply: bytes)

  /** The server answered this call while it served the file honestly. */
  ghost predicate Answered(secret: Secret, ino: u64, file: bytes, c: Call, offset: u64) {
    && c.ctx.secret == secret && ServesFile(c.ctx, ino, file) && c.count > 0
    && Dispatched(6, EncAll(Args(secret, ino, offset, c.count)), c.ctx, Success(c.reply))
  }

  /** Where a client reads next, if it does. */
  function Advance(reply: bytes, offset: u64): Option<u64> {
    var chunk := DecodeChunk(reply);
    if chunk.None? || chunk.value.eof || offset + chunk.value.count > U64_MAX then None
    else Some(offset + chunk.value.count)
  }

  /**
   * A run of a client that until eof reads on from `offset` by what each reply
   * returned. `served` says which replies the server may give where; what the
   * client does after eof is its own affair.
   */
  ghost predicate Session(served: (Call, u64) -> bool, calls: seq<Call>, offset: u64) {
    calls != [] ==>
      && served(calls[0], offset)
      && var next := Advance(calls[0].reply, offset);
      next.Some? ==> Session(served, calls[1..], next.value)
  }

  function Collect(calls: seq<Call>): (bytes, bool) {
    if calls == [] then ([], false)
    else
      match DecodeChunk(calls[0].reply)
      case None => ([], false)
      case Some(chunk) =>
        if chunk.eof then (chunk.data, true)
        else
          var (data, eof) := Collect(calls[1..]);
          (chunk.data + data, eof)
  }

  lemma DataRead(ctx: Ctx, ino: u64, file: bytes, offset: u64, want: nat)
    requires ServesFile(ctx, ino, file) && offset <= |file| <= U64_MAX
    ensures
      var r := ctx.fs.readAt(ctx.fs.open(ino).value, offset, want);
      r.Ok? && ReadData(r.value, want) == file[offset..offset + Min(want, |file| - offset)]
  {
    var r := ctx.fs.readAt(ctx.fs.open(ino).value, offset, want);
    assert r.Ok? && r.value.reported == |BytesAt(file, offset, want)| && BytesAt(file, offset, want) <= r.value.stored;
  }

  lemma ChunkRead(ctx: Ctx, ino: u64, file: bytes, offset: u64, want: u32, body: bytes)
    requires ServesFile(ctx, ino, file) && offset <= |file| <= U64_MAX
    requires Parse(READ_RES, body) == Some((FileAnswer(ctx, ino, offset, want), []))
    ensures
      var n := Min(want, |file| - offset);
      DecodeChunk(body) == Some(Chunk(n, offset + n == |file|, file[offset..offset + n]))
  {
    DataRead(ctx, ino, file, offset, want);
  }

  /** The reply to a read at `offset` is the next part of the file, with eof exactly at its end. */
  predicate IsNextPart(file: bytes, c: Call, offset: u64) {
    offset <= |file| <= U64_MAX ==>
      var n := Min(Min(c.count, RTMAX), |file| - offset);
      c.count > 0 && DecodeChunk(c.reply) == Some(Chunk(n, offset + n == |file|, file[offset..offset + n]))
  }

  lemma FileAnswerIsNextPart(ino: u64, file: bytes, c: Call, offset: u64)
    requires ServesFile(c.ctx, ino, file) && c.count > 0
    requires Parse(READ_RES, c.reply) == Some((FileAnswer(c.ctx, ino, offset, Min(c.count, RTMAX)), []))
    ensures IsNextPart(file, c, offset)
  {
    if offset <= |file| <= U64_MAX {
      ChunkRead(c.ctx, ino, file, offset, Min(c.count, RTMAX), c.reply);
    }
  }

  lemma AnsweredIsNextPart(secret: Secret, ino: u64, file: bytes, c: Call, offset: u64)
    requires Answered(secret, ino, file, c, offset)
    ensures IsNextPart(file, c, offset)
  {
    ReplyIsFileAnswer(c.ctx, ino, offset, c.count, c.reply);
    FileAnswerIsNextPart(ino, file, c, offset);
  }

  lemma FileAnswerIsAnswer(ctx: Ctx, ino: u64, offset: u64, count: u32)
    ensures HaveTypes(ArgTys(6), Args(ctx.secret, ino, offset, count))
    ensures IsAnswer(6, Args(ctx.secret, ino, offset, count), ctx, FileAnswer(ctx, ino, offset, Min(count, RTMAX)))
  {
    ResolveInvertsEncode(ctx.secret, EncodeHandle(ctx.secret, ino), ino);
  }

  lemma FileAnswerGiven(ctx: Ctx, ino: u64, offset: u64, count: u32)
    ensures Dispatched(6, EncAll(Args(ctx.secret, ino, offset, count)), ctx,
                       Success(Enc(FileAnswer(ctx, ino, offset, Min(count, RTMAX)))))
  {
    var args := Args(ctx.secret, ino, offset, count);
    ArgsParse(ctx.secret, ino, offset, count);
    FileAnswerIsAnswer(ctx, ino, offset, count);
    AnswerMayBeGiven(6, EncAll(args), args, ctx, FileAnswer(ctx, ino, offset, Min(count, RTMAX)));
  }

  /** The server has an answer to every read of a file it serves honestly. */
  lemma AnswerExists(secret: Secret, ino: u64, file: bytes, c: Call, offset: u64) returns (reply: bytes)
    requires c.ctx.secret == secret && ServesFile(c.ctx, ino, file) && c.count > 0
    ensures Answered(secret, ino, file, c.(reply := reply), offset)
  {
    var v := FileAnswer(c.ctx, ino, offset, Min(c.count, RTMAX));
    reply := Enc(v);
    FileAnswerGiven(c.ctx, ino, offset, c.count);
  }

  /** Every call before eof brings at least one byte, and eof means the whole rest of the file has arrived. */
  lemma {:induction false} ReadOn(served: (Call, u64) -> bool, file: bytes, calls: seq<Call>, offset: u64)
    requires forall c, o :: served(c, o) ==> IsNextPart(file, c, o)
    requires offset <= |file| <= U64_MAX
    requires Session(served, calls, offset)
    ensures
      var (data, eof) := Collect(calls);
      && data <= file[offset..]
      && (eof ==> data == file[offset..])
      && (!eof ==> |data| >= |calls| && (calls != [] ==> |data| < |file| - offset))
    decreases |calls|
  {
    if calls != [] {
      assert IsNextPart(file, calls[0], offset);
      var next := offset + DecodeChunk(calls[0].reply).value.count;
      assert file[offset..] == file[offset..next] + file[next..];
      if next < |file| {
        ReadOn(served, file, calls[1..], next);
      }
    }
  }

  /** The replies of servers that serve `file` honestly as inode `ino`. */
  ghost function ServedBy(secret: Secret, ino: u64, file: bytes): (Call, u64) -> bool {
    (c: Call, o: u64) => Answered(secret, ino, file, c, o)
  }

  lemma ServedPartsFollow(secret: Secret, ino: u64, file: bytes)
    ensures forall c, o :: ServedBy(secret, ino, file)(c, o) ==> IsNextPart(file, c, o)
  {
    forall c, o | ServedBy(secret, ino, file)(c, o)
      ensures IsNextPart(file, c, o)
    {
      AnsweredIsNextPart(secret, ino, file, c, o);
    }
  }

  /**
   * Reading from the start with any positive, varying counts, against servers
   * that serve the file honestly, obtains exactly the file.
   */
  lemma CompleteRead(secret: Secret, ino: u64, file: bytes, calls: seq<Call>)
    requires |file| <= U64_MAX
    requires Session(ServedBy(secret, ino, file), calls, 0)
    requires |calls| >= |file| && calls != []
    ensures Collect(calls) == (file, true)
  {
    ServedPartsFollow(secret, ino, file);
    ReadOn(ServedBy(secret, ino, file), file, calls, 0);
    assert file[0..] == file;
  }

  // ---------------------------------------------------------------- runs exist

  /** Reads the client plans, of any positive counts, from servers that serve the file honestly. */
  ghost predicate Plan(secret: Secret, ino: u64, file: bytes, calls: seq<Call>) {
    forall i | 0 <= i < |calls| ::
      calls[i].ctx.secret == secret && ServesFile(calls[i].ctx, ino, file) && calls[i].count > 0
  }

  /** `calls` are those of the plan, with their replies filled in. */
  ghost predicate Carried(plan: seq<Call>, calls: seq<Call>) {
    |calls| == |plan| && forall i | 0 <= i < |plan| :: calls[i] == plan[i].(reply := calls[i].reply)
  }

  /** Every plan can be carried out from any offset. */
  lemma {:induction false} SessionExists(secret: Secret, ino: u64, file: bytes, plan: seq<Call>, offset: u64)
    returns (calls: seq<Call>)
    requires Plan(secret, ino, file, plan)
    ensures Carried(plan, calls) && Session(ServedBy(secret, ino, file), calls, offset)
    decreases |plan|
  {
    if plan == [] {
      return [];
    }
    var reply := AnswerExists(secret, ino, file, plan[0], offset);
    var next := Advance(reply, offset);
    var rest := SessionExists(secret, ino, file, plan[1..], if next.Some? then next.value else offset);
    calls := [plan[0].(reply := reply)] + rest;
    assert calls[1..] == rest;
    forall i | 0 <= i < |plan|
      ensures calls[i] == plan[i].(reply := calls[i].reply)
    {
      if i > 0 {
        assert calls[i] == rest[i - 1] && plan[1..][i - 1] == plan[i];
      }
    }
  }

  /** So reading always completes: any plan of enough reads can be carried out, and obtains exactly the file. */
  lemma ReadCompletes(secret: Secret, ino: u64, file: bytes, plan: seq<Call>) returns (calls: seq<Call>)
    requires |file| <= U64_MAX
    requires Plan(secret, ino, file, plan) && |plan| >= |file| && plan != []
    ensures Carried(plan, calls) && Session(ServedBy(secret, ino, file), calls, 0)
    ensures Collect(calls) == (file, true)
  {
    calls := SessionExists(secret, ino, file, plan, 0);
    CompleteRead(secret, ino, file, calls);
  }
}
