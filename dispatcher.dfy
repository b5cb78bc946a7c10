/**
 * One step of the request function sbd_request: take the request in hand, fail it if it
 * is not a file-system request, otherwise transfer its current chunk and end that chunk
 * with success.
 */
module Dispatcher {
  import opened Bytes
  import opened Cipher
  import opened Keys
  import opened RamDisk

  /** Linux errno value a non-file-system request is ended with. */
  const EIO: int := 5

  /** `cmd_type == REQ_TYPE_FS`, or anything else. */
  datatype RequestKind = Fs | Other

  /** rq_data_dir(req). */
  datatype Direction = Read | Write

  /** The parts of a `struct request` the driver looks at. */
  datatype Request = Request(kind: RequestKind, pos: nat, curSectors: nat, dir: Direction, buffer: array<Byte>)

  /** How the request was ended: all of it (__blk_end_request_all) or its current chunk (__blk_end_request_cur). */
  datatype Completion = EndAll(status: int) | EndCur(status: int)

  /** What the loop does after a step: go round with the same request, or fetch the next one. */
  datatype Next = SameRequest | FetchNext

  /**
   * The request is over after this step: it was ended as a whole, or its last chunk was
   * ended (`pending` is what __blk_end_request_cur reports: sectors of it remain).
   */
  predicate Finished(c: Completion, pending: bool) {
    c.EndAll? || !pending
  }

  /** The loop as written: after `__blk_end_request_all` it does `continue` without fetching. */
  function NextAsWritten(c: Completion, pending: bool): (n: Next)
    ensures n == SameRequest <==> c.EndAll? || pending
  {
    match c
    case EndAll(_) => SameRequest
    case EndCur(_) => if pending then SameRequest else FetchNext
  }

  /** As written, a request ended with -EIO is taken up again by the next iteration. */
  lemma FailedRequestIsRevisited(pending: bool)
    ensures Finished(EndAll(-EIO), pending)
    ensures NextAsWritten(EndAll(-EIO), pending) == SameRequest
  {
  }

  /** The evident intent: fetch the next request once this one is over. */
  function NextAfter(c: Completion, pending: bool): (n: Next)
    ensures n == SameRequest <==> !Finished(c, pending)
  {
    match c
    case EndAll(_) => FetchNext
    case EndCur(_) => if pending then SameRequest else FetchNext
  }

  /** The two agree except where the source re-processes a request it has already ended. */
  lemma NextAfterDiffersOnlyOnFailure(c: Completion, pending: bool)
    ensures NextAfter(c, pending) != NextAsWritten(c, pending) <==> c.EndAll?
  {
  }

  /**
   * One iteration of the sbd_request loop on `req`: a request that is not a file-system
   * request is ended with -EIO and never reaches the transfer engine; a file-system
   * request has its current chunk transferred and that chunk ended with status 0, even
   * when the transfer was skipped as out of range. `pending` stands for the result of
   * __blk_end_request_cur. The continuation is the loop's as written: after a failure it
   * goes round with the request it has just ended, and only on the file-system path does
   * it agree with the intended `NextAfter`.
   */
  method Dispatch(dev: Device, keys: KeyStore, cipher: BlockCipher, req: Request, pending: bool)
    returns (c: Completion, next: Next)
    requires dev.Valid() && keys.Valid() && dev.data != keys.cryptoKey
    requires req.kind == Fs ==> req.buffer != dev.data && req.buffer != keys.cryptoKey
    requires req.kind == Fs ==> req.curSectors * dev.logicalBlockSize <= req.buffer.Length
    requires req.kind == Fs ==> req.pos * dev.logicalBlockSize + req.curSectors * dev.logicalBlockSize < U64_LIMIT
    modifies dev.data, req.buffer
    ensures req.kind != Fs ==>
      c == EndAll(-EIO) && dev.data[..] == old(dev.data[..]) && req.buffer[..] == old(req.buffer[..])
    ensures req.kind == Fs ==>
      c == EndCur(0) &&
      Transferred(cipher, keys.CipherKey(), req.pos * dev.logicalBlockSize, req.curSectors * dev.logicalBlockSize,
                  req.dir == Write, old(dev.data[..]), old(req.buffer[..]), dev.data[..], req.buffer[..])
    ensures next == NextAsWritten(c, pending)
    ensures req.kind != Fs ==> Finished(c, pending) && next == SameRequest
    ensures req.kind == Fs ==> next == NextAfter(c, pending) && (next == SameRequest <==> pending)
  {
    if req.kind != Fs {
      c := EndAll(-EIO);
    } else {
      dev.Transfer(keys, cipher, req.pos, req.curSectors, req.buffer, req.dir == Write);
      c := EndCur(0);
    }
    next := NextAsWritten(c, pending);
  }
}
