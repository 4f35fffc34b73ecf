/** The content script's side of the chunked PDF transfer (content.js,
    inside extractTextFromPDF): after the background worker's `init` reply a
    buffer of `totalSize` bytes is allocated, chunk i is requested for every
    i < totalChunks and written at i * chunkSize, and the download is
    rejected when the init reply failed or has no request id, a chunk reply
    failed, a chunk has the wrong length, the byte count is off, or the bytes
    do not start with "%PDF-". The runtime messages are replaced by the
    replies themselves; a reply past the end of `replies` is one that never
    came. */
module PdfTransfer {
  import opened JsStrings
  import opened PdfArtifactCache

  /** The init reply: `chunkSize` is `None` when it is not a finite number. */
  datatype InitResponse = InitResponse(success: bool, requestId: string, totalChunks: nat,
                                       totalSize: nat, chunkSize: Option<int>)

  /** A chunk reply: `data` is `None` when it is neither an ArrayBuffer nor an array. */
  datatype ChunkResponse = ChunkResponse(success: bool, data: Option<seq<byte>>)

  datatype Failure =
    | InitFailed
    | MissingRequestId
    | ChunkFailed(index: nat)
    | BadChunkLength(index: nat, got: nat, expected: int)
    | Incomplete(received: nat, totalSize: nat)
    | NotPdf

  datatype Outcome = Assembled(bytes: seq<byte>) | Failed(why: Failure)

  /** `Number.isFinite(chunkSize) && chunkSize > 0 ? chunkSize : 4 MiB`. */
  function EffectiveChunkSize(c: Option<int>): (r: nat)
    ensures r > 0
    ensures c.Some? && c.value > 0 ==> r == c.value
    ensures !(c.Some? && c.value > 0) ==> r == ChunkSize
  {
    if c.Some? && c.value > 0 then c.value else ChunkSize
  }

  /** The bytes of a chunk reply; anything but bytes counts as none. */
  function DataOf(reply: ChunkResponse): seq<byte> {
    if reply.data.Some? then reply.data.value else []
  }

  function DataSeq(replies: seq<ChunkResponse>): (ds: seq<seq<byte>>)
    ensures |ds| == |replies| && forall j :: 0 <= j < |replies| ==> ds[j] == DataOf(replies[j])
  {
    seq(|replies|, j requires 0 <= j < |replies| => DataOf(replies[j]))
  }

  /** Chunk j arrived, succeeded and has exactly the length its range needs. */
  predicate ChunkAccepted(init: InitResponse, replies: seq<ChunkResponse>, j: nat) {
    var cs := EffectiveChunkSize(init.chunkSize);
    && j < |replies|
    && replies[j].success
    && |DataOf(replies[j])| == Min(cs, init.totalSize - j * cs)
  }

  /** The `%PDF-` file header. */
  predicate IsPdfHeader(b: seq<byte>) {
    |b| >= 5 && b[..5] == [37, 80, 68, 70, 45]
  }

  /** The conditions under which the download is accepted, as a reference. */
  predicate Accepted(init: InitResponse, replies: seq<ChunkResponse>) {
    && init.success
    && init.requestId != ""
    && init.totalChunks <= |replies|
    && (forall j :: 0 <= j < init.totalChunks ==> ChunkAccepted(init, replies, j))
    && |Concat(DataSeq(replies[..init.totalChunks]))| == init.totalSize
    && IsPdfHeader(Concat(DataSeq(replies[..init.totalChunks])))
  }

  /** `completeData.set(chunkBytes, start)`. */
  method CopyInto(buf: array<byte>, start: nat, bytes: seq<byte>)
    requires start + |bytes| <= buf.Length
    modifies buf
    ensures buf[..] == old(buf[..])[..start] + bytes + old(buf[..])[start + |bytes|..]
  {
    var k := 0;
    while k < |bytes|
      invariant 0 <= k <= |bytes|
      invariant buf[..] == old(buf[..])[..start] + bytes[..k] + old(buf[..])[start + k..]
    {
      buf[start + k] := bytes[k];
      k := k + 1;
    }
  }

  /** The first chunk that is not accepted, if the failure is a chunk's. */
  predicate FirstRejected(init: InitResponse, replies: seq<ChunkResponse>, why: Failure) {
    (why.ChunkFailed? || why.BadChunkLength?) ==>
      && why.index < init.totalChunks
      && !ChunkAccepted(init, replies, why.index)
      && forall j :: 0 <= j < why.index ==> ChunkAccepted(init, replies, j)
  }

  /** The chunk loop: every chunk is requested in order and written into a
      fresh buffer of `totalSize` bytes, and the loop stops at the first
      chunk that fails or has the wrong length. */
  method ReceiveChunks(init: InitResponse, replies: seq<ChunkResponse>)
      returns (buf: array<byte>, received: nat, failed: Option<Failure>)
    ensures fresh(buf) && buf.Length == init.totalSize
    ensures failed.Some? ==>
      && (failed.value.ChunkFailed? || failed.value.BadChunkLength?)
      && FirstRejected(init, replies, failed.value)
    ensures failed.None? ==>
      && init.totalChunks <= |replies|
      && (forall j :: 0 <= j < init.totalChunks ==> ChunkAccepted(init, replies, j))
      && received <= buf.Length
      && buf[..received] == Concat(DataSeq(replies[..init.totalChunks]))
  {
    var n, total := init.totalChunks, init.totalSize;
    var cs := EffectiveChunkSize(init.chunkSize);
    buf := new byte[total];
    received := 0;
    var i: nat := 0;
    while i < n
      invariant i <= n && i <= |replies|
      invariant forall j :: 0 <= j < i ==> ChunkAccepted(init, replies, j)
      invariant received == Min(i * cs, total)
      invariant buf[..received] == Concat(DataSeq(replies[..i]))
    {
      if i >= |replies| || !replies[i].success {
        return buf, received, Some(ChunkFailed(i));
      }
      var bytes := DataOf(replies[i]);
      var start := i * cs;
      var expected := Min(cs, total - start);
      if |bytes| != expected {
        return buf, received, Some(BadChunkLength(i, |bytes|, expected));
      }
      AcceptStep(init, replies, i, received);
      ghost var before := buf[..received];
      CopyInto(buf, start, bytes);
      assert buf[..received + |bytes|] == before + bytes;
      ConcatSnoc(replies, i);
      received := received + |bytes|;
      i := i + 1;
    }
    failed := None;
  }

  /** The reassembly, from the init reply on. */
  method Reassemble(init: InitResponse, replies: seq<ChunkResponse>) returns (r: Outcome)
    ensures r.Assembled? <==> Accepted(init, replies)
    ensures r.Assembled? ==> r.bytes == Concat(DataSeq(replies[..init.totalChunks]))
    ensures r == Failed(InitFailed) <==> !init.success
    ensures r == Failed(MissingRequestId) <==> init.success && init.requestId == ""
    ensures r.Failed? ==> FirstRejected(init, replies, r.why)
  {
    if !init.success {
      return Failed(InitFailed);
    }
    if init.requestId == "" {
      return Failed(MissingRequestId);
    }
    var buf, received, failed := ReceiveChunks(init, replies);
    if failed.Some? {
      RejectedAt(init, replies, failed.value.index);
      return Failed(failed.value);
    }
    var total := init.totalSize;
    if received != total {
      return Failed(Incomplete(received, total));
    }
    assert buf[..] == buf[..received];
    if !(total >= 5 && buf[..5] == [37, 80, 68, 70, 45]) {
      return Failed(NotPdf);
    }
    r := Assembled(buf[..]);
  }

  /** A chunk of the right length starts where the bytes so far end, and
      the byte count stays at the lesser of the chunks' span and totalSize. */
  lemma AcceptStep(init: InitResponse, replies: seq<ChunkResponse>, i: nat, received: nat)
    requires i < |replies| && replies[i].success
    requires var cs := EffectiveChunkSize(init.chunkSize);
      && received == Min(i * cs, init.totalSize)
      && |DataOf(replies[i])| == Min(cs, init.totalSize - i * cs)
    ensures ChunkAccepted(init, replies, i)
    ensures var cs := EffectiveChunkSize(init.chunkSize);
      && received == i * cs
      && received + |DataOf(replies[i])| == Min((i + 1) * cs, init.totalSize)
      && received + |DataOf(replies[i])| <= init.totalSize
  {
    var cs := EffectiveChunkSize(init.chunkSize);
    assert (i + 1) * cs == i * cs + cs;
  }

  /** A chunk that is not accepted rejects the whole download. */
  lemma RejectedAt(init: InitResponse, replies: seq<ChunkResponse>, i: nat)
    requires i < init.totalChunks && !ChunkAccepted(init, replies, i)
    ensures !Accepted(init, replies)
  {
  }

  /** One more reply appends its bytes to the assembled prefix. */
  lemma ConcatSnoc(replies: seq<ChunkResponse>, i: nat)
    requires i < |replies|
    ensures Concat(DataSeq(replies[..i + 1])) == Concat(DataSeq(replies[..i])) + DataOf(replies[i])
  {
    var ds := DataSeq(replies[..i + 1]);
    assert ds[..i] == DataSeq(replies[..i]);
  }

  /** The chunk replies the background worker serves for a cached PDF. */
  function Served(b: seq<byte>): (replies: seq<ChunkResponse>)
    ensures |replies| == TotalChunks(|b|)
  {
    var cs := Chunks(b);
    seq(|cs|, j requires 0 <= j < |cs| => ChunkResponse(true, Some(cs[j])))
  }

  /** End to end: the init reply and the chunks served for a cached PDF are
      accepted, and they reassemble to exactly the cached bytes. */
  lemma ServedIsAccepted(b: seq<byte>, id: string)
    requires id != "" && IsPdfHeader(b)
    ensures var init := InitResponse(true, id, TotalChunks(|b|), |b|, Some(ChunkSize));
      Accepted(init, Served(b)) && Concat(DataSeq(Served(b))) == b
  {
    var init := InitResponse(true, id, TotalChunks(|b|), |b|, Some(ChunkSize));
    var replies := Served(b);
    assert DataSeq(replies) == Chunks(b);
    ChunksReassemble(b);
    assert replies[..init.totalChunks] == replies;
    forall j | 0 <= j < init.totalChunks ensures ChunkAccepted(init, replies, j) {
      assert DataOf(replies[j]) == Chunks(b)[j];
    }
  }
}
