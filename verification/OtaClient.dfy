/**
  The Python OTA client, run against the node's dispatcher: split, number, send, exit.
 */
module OtaClient {

  import opened Bytes
  import opened Crc32
  import opened OtaSession
  import opened Wrappers
  import Uds

  const BLOCK_SIZE: nat := 512

  // ---------------------------------------------------------------------------------
  // The requests
  // ---------------------------------------------------------------------------------

  const ENTER_EXTENDED_SESSION: bytes := [Uds.SID_SESSION_CONTROL, 0x03]

  function DownloadRequest(size: nat): bytes {
    [SID_REQUEST_DOWNLOAD, 0x00, 0x44, 0x00, 0x00, 0x00, 0x00] + U32(size)
  }

  function TransferRequest(blockSeq: byte, block: bytes): bytes {
    [SID_TRANSFER_DATA, blockSeq] + block
  }

  function ExitRequest(crc: bv32): bytes {
    [SID_REQUEST_TRANSFER_EXIT,
     ((crc >> 24) & 0xFF) as byte, ((crc >> 16) & 0xFF) as byte, ((crc >> 8) & 0xFF) as byte, (crc & 0xFF) as byte]
  }

  lemma ExitRequestCarries(crc: bv32)
    ensures CarriedCrc(ExitRequest(crc)) == crc
  {
  }

  lemma DownloadRequestCarries(size: nat)
    ensures U32At(DownloadRequest(size), 7) == Wrap32(size)
  {
    var req := DownloadRequest(size);
    assert req[7] == U32(size)[0] && req[8] == U32(size)[1] && req[9] == U32(size)[2] && req[10] == U32(size)[3];
    U32RoundTrip(size);
  }

  /** `_check_positive`: anything else makes the client give up. */
  predicate CheckPositive(resp: bytes, sid: byte) {
    resp != [] && resp[0] != SID_NEGATIVE_RESPONSE && resp[0] == sid + POSITIVE_OFFSET
  }

  // ---------------------------------------------------------------------------------
  // Splitting
  // ---------------------------------------------------------------------------------

  function SplitBlocks(data: bytes, blockSize: nat): seq<bytes>
    requires blockSize > 0
    decreases |data|
  {
    if data == [] then []
    else if |data| <= blockSize then [data]
    else [data[..blockSize]] + SplitBlocks(data[blockSize..], blockSize)
  }

  /** The blocks are non-empty, none is too large, and together they are the data. */
  lemma {:induction false} SplitIsExact(data: bytes, blockSize: nat)
    requires blockSize > 0
    ensures Flatten(SplitBlocks(data, blockSize)) == data
    ensures forall b | b in SplitBlocks(data, blockSize) :: 1 <= |b| <= blockSize
    decreases |data|
  {
    if data == [] {
    } else if |data| <= blockSize {
      assert SplitBlocks(data, blockSize) == [data];
      assert [data][1..] == [];
      assert data + [] == data;
    } else {
      var rest := data[blockSize..];
      SplitIsExact(rest, blockSize);
      var blocks := SplitBlocks(rest, blockSize);
      assert ([data[..blockSize]] + blocks)[1..] == blocks;
      assert data == data[..blockSize] + rest;
    }
  }

  // ---------------------------------------------------------------------------------
  // The transfer
  // ---------------------------------------------------------------------------------

  /** Whether the announced size of an image of `size` bytes passes 0x34. */
  predicate SizeAccepted(size: nat) {
    1 <= Wrap32(size) <= MAX_FIRMWARE_SIZE
  }

  /**
    When exactly the limit does what it says: for every size that four bytes can announce,
    and beyond that for the sizes whose lower four bytes are no accepted size either.
   */
  lemma SizeLimit(size: nat)
    ensures (SizeAccepted(size) <==> 1 <= size <= MAX_FIRMWARE_SIZE)
        <==> (size < 0x1_0000_0000 || !(1 <= size % 0x1_0000_0000 <= MAX_FIRMWARE_SIZE))
    ensures SizeAccepted(0x1_0000_0000 + 1) && 0x1_0000_0000 + 1 > MAX_FIRMWARE_SIZE
  {
  }

  /** What the file system answers to the `k`-th request; it answers well behind the list. */
  function IoAt(ios: seq<Io>, k: nat): Io {
    if k < |ios| then ios[k] else ALL_OK
  }

  lemma FreshSession(s: Session, size: nat, io: Io)
    ensures var (s', resp) := Download(s, DownloadRequest(size), io);
            && (CheckPositive(resp, SID_REQUEST_DOWNLOAD) <==> s.state != Active && SizeAccepted(size) && io.openOk)
            && (CheckPositive(resp, SID_REQUEST_DOWNLOAD) ==>
                s'.state == Active && Consistent(s', History(Wrap32(size), [], s.validated)))
            && (!CheckPositive(resp, SID_REQUEST_DOWNLOAD) ==> s' == s)
  {
    DownloadRequestCarries(size);
    assert Flatten([]) == [] && Fold(INITIAL, []) == INITIAL && CounterAfter(1, 0) == 1;
    assert Wrap32(0) == 0;
    hide Flatten, Fold, CounterAfter, Wrap32, U32, U32At;
  }

  /** The next block is accepted exactly if it is written whole; otherwise the session is over. */
  lemma NextBlock(s: Session, h: History, block: bytes, io: Io)
    requires Consistent(s, h) && s.state == Active && 1 <= |block| <= BLOCK_SIZE
    ensures var req := TransferRequest(CounterAfter(1, |h.blocks|), block);
            var (s', resp) := Transfer(s, req, io);
            && (CheckPositive(resp, SID_TRANSFER_DATA) <==> Written(io.write, |block|) == |block|)
            && (if CheckPositive(resp, SID_TRANSFER_DATA) then
                  s'.state == Active && Consistent(s', h.(blocks := h.blocks + [block]))
                else s'.state == Failed && s'.validated == s.validated)
  {
    var req := TransferRequest(CounterAfter(1, |h.blocks|), block);
    assert req[2..] == block;
    TransferKeepsConsistent(s, h, req, io);
    BlockAcceptedIff(s, h, req, io);
    hide Consistent, CounterAfter, Fold, Wrap32;
  }

  /** With all blocks staged, the transfer completes exactly if the rename works. */
  lemma LastRequest(s: Session, h: History, image: bytes, io: Io)
    requires Consistent(s, h) && s.state == Active
    requires Flatten(h.blocks) == image && h.announced == Wrap32(|image|)
    ensures var (s', resp) := Exit(s, ExitRequest(Checksum(image)), io);
            && (CheckPositive(resp, SID_REQUEST_TRANSFER_EXIT) <==> io.renameOk)
            && (if io.renameOk then s'.state == Complete && s'.validated == Some(image)
                else s'.state == Failed && s'.validated == s.validated)
  {
    ExitRequestCarries(Checksum(image));
    ExitPromotesIff(s, h, ExitRequest(Checksum(image)), io);
    hide Consistent, Checksum, CarriedCrc, Xor, Flatten;
  }

  // How the dispatcher answers each of the client's requests.

  lemma ExtendedSessionAnswer(n: Uds.Node, ecuId: bytes, io: Io)
    requires |n.lamps.faults| < 256
    ensures Uds.Respond(n, ecuId, Step(ENTER_EXTENDED_SESSION, io))
         == (n, [0x50, 0x03, 0x00, 0x19, 0x01, 0xF4])
  {
    assert 0x03 as byte & 0x7F == 0x03;
  }

  lemma DownloadAnswer(n: Uds.Node, ecuId: bytes, size: nat, io: Io)
    requires |n.lamps.faults| < 256
    ensures var (s, resp) := Download(n.ota, DownloadRequest(size), io);
            Uds.Respond(n, ecuId, Step(DownloadRequest(size), io)) == (n.(ota := s), resp)
  {
    hide Download, U32;
  }

  lemma TransferAnswer(n: Uds.Node, ecuId: bytes, blockSeq: byte, block: bytes, io: Io)
    requires |n.lamps.faults| < 256
    ensures var (s, resp) := Transfer(n.ota, TransferRequest(blockSeq, block), io);
            Uds.Respond(n, ecuId, Step(TransferRequest(blockSeq, block), io)) == (n.(ota := s), resp)
  {
    hide Transfer;
  }

  lemma ExitAnswer(n: Uds.Node, ecuId: bytes, crc: bv32, io: Io)
    requires |n.lamps.faults| < 256
    ensures var (s, resp) := Exit(n.ota, ExitRequest(crc), io);
            Uds.Respond(n, ecuId, Step(ExitRequest(crc), io)) == (n.(ota := s), resp)
  {
    FirstByteOfExit(crc);
    hide Exit, ExitRequest;
  }

  lemma FirstByteOfExit(crc: bv32)
    ensures ExitRequest(crc) != [] && ExitRequest(crc)[0] == SID_REQUEST_TRANSFER_EXIT
  {
  }

  /** The first `n` blocks are written whole; request 0 opens the diagnostic session, request 1 the download. */
  ghost predicate BlocksWritten(ios: seq<Io>, blocks: seq<bytes>, n: nat)
    requires n <= |blocks|
  {
    forall i | 0 <= i < n :: Written(IoAt(ios, 2 + i).write, |blocks[i]|) == |blocks[i]|
  }

  /** The file system answers that a transfer needs, and no others. */
  ghost predicate IoSucceeds(ios: seq<Io>, blocks: seq<bytes>) {
    IoAt(ios, 1).openOk && BlocksWritten(ios, blocks, |blocks|) && IoAt(ios, 2 + |blocks|).renameOk
  }

  /**
    End to end, whatever the file system answers: the client reports success exactly when
    no session was open, the size, as four bytes announce it, is within the limit, and the
    open, the writes and the rename succeed.  Then the validated image is the firmware, and
    otherwise it is the one from before; a transfer that was not accepted changes nothing,
    and one that was accepted and failed leaves no session open.
   */
  method TransferFirmware(uds: Uds.UdsRequestHandler, firmware: bytes, ios: seq<Io>) returns (ok: bool)
    requires uds.Valid()
    modifies uds.functionManager.Repr, uds.otaSessionManager, uds.otaSessionManager.disk
    ensures uds.Valid()
    ensures var accepted := old(uds.View().ota.state) != Active && SizeAccepted(|firmware|) && IoAt(ios, 1).openOk;
            && (ok <==> accepted && IoSucceeds(ios, SplitBlocks(firmware, BLOCK_SIZE)))
            && (!accepted ==> uds.View() == old(uds.View()))
            && (accepted && !ok ==> uds.View().ota.state == Failed)
    ensures ok ==> uds.View().ota.state == Complete && uds.View().ota.validated == Some(firmware)
    ensures !ok ==> uds.View().ota.validated == old(uds.View().ota.validated)
    ensures uds.View().lamps == old(uds.View().lamps)
  {
    hide Uds.Respond, Download, Exit, Consistent, SizeAccepted, Fold, U32, ExitRequest, DownloadRequest, Wrap32,
      U32At, SplitBlocks, Flatten, IoAt, BlocksWritten;
    ghost var start := uds.View();
    var crc := Checksum(firmware);
    var blocks := SplitBlocks(firmware, BLOCK_SIZE);
    SplitIsExact(firmware, BLOCK_SIZE);

    ExtendedSessionAnswer(start, uds.ecuId, IoAt(ios, 0));
    var resp := uds.HandleRequest(ENTER_EXTENDED_SESSION, IoAt(ios, 0));
    if !CheckPositive(resp, Uds.SID_SESSION_CONTROL) {
      assert false;
    }

    FreshSession(start.ota, |firmware|, IoAt(ios, 1));
    DownloadAnswer(start, uds.ecuId, |firmware|, IoAt(ios, 1));
    resp := uds.HandleRequest(DownloadRequest(|firmware|), IoAt(ios, 1));
    if !CheckPositive(resp, SID_REQUEST_DOWNLOAD) {
      return false;
    }

    ok := SendBlocks(uds, blocks, ios, History(Wrap32(|firmware|), [], start.ota.validated));
    if !ok {
      return;
    }

    ghost var h := History(Wrap32(|firmware|), blocks, start.ota.validated);
    var last := IoAt(ios, 2 + |blocks|);
    ValidatedIsPromoted(uds.View().ota, h);
    LastRequest(uds.View().ota, h, firmware, last);
    ExitAnswer(uds.View(), uds.ecuId, crc, last);
    resp := uds.HandleRequest(ExitRequest(crc), last);
    ok := CheckPositive(resp, SID_REQUEST_TRANSFER_EXIT);
  }

  lemma ValidatedIsPromoted(s: Session, h: History)
    requires Consistent(s, h)
    ensures s.validated == h.promoted
  {
  }

  /**
    The block loop: every block is accepted, however often the counter wraps, up to the
    first one that is not written whole.
   */
  method SendBlocks(uds: Uds.UdsRequestHandler, blocks: seq<bytes>, ios: seq<Io>, ghost h: History) returns (ok: bool)
    requires uds.Valid() && uds.View().ota.state == Active
    requires Consistent(uds.View().ota, h) && h.blocks == []
    requires forall b | b in blocks :: 1 <= |b| <= BLOCK_SIZE
    modifies uds.functionManager.Repr, uds.otaSessionManager, uds.otaSessionManager.disk
    ensures uds.Valid() && uds.View().lamps == old(uds.View().lamps)
    ensures ok <==> BlocksWritten(ios, blocks, |blocks|)
    ensures if ok then uds.View().ota.state == Active && Consistent(uds.View().ota, h.(blocks := blocks))
            else uds.View().ota.state == Failed && uds.View().ota.validated == h.promoted
  {
    CounterSteps(0);
    NoneSent(h, blocks);
    NothingWritten(ios, blocks);
    hide *;
    var blockSeq: byte := 1;
    for i := 0 to |blocks|
      invariant uds.Valid() && uds.View().lamps == old(uds.View().lamps)
      invariant uds.View().ota.state == Active
      invariant Consistent(uds.View().ota, Sent(h, blocks, i))
      invariant blockSeq == CounterAfter(1, i)
      invariant BlocksWritten(ios, blocks, i)
    {
      NextSent(h, blocks, i);
      CounterSteps(i);
      ok := SendBlock(uds, blockSeq, blocks[i], IoAt(ios, 2 + i), Sent(h, blocks, i));
      WrittenUpTo(ios, blocks, i);
      if !ok {
        return;
      }
      blockSeq := Succ(blockSeq);
    }
    return true;
  }

  /** The history once the first `n` blocks were accepted. */
  ghost function Sent(h: History, blocks: seq<bytes>, n: nat): History
    requires n <= |blocks|
  {
    h.(blocks := blocks[..n])
  }

  lemma NoneSent(h: History, blocks: seq<bytes>)
    requires h.blocks == []
    ensures Sent(h, blocks, 0) == h && Sent(h, blocks, |blocks|) == h.(blocks := blocks)
  {
    assert blocks[..|blocks|] == blocks;
  }

  lemma NextSent(h: History, blocks: seq<bytes>, i: nat)
    requires i < |blocks|
    ensures |Sent(h, blocks, i).blocks| == i && Sent(h, blocks, i).promoted == h.promoted
    ensures Sent(h, blocks, i + 1) == Sent(h, blocks, i).(blocks := Sent(h, blocks, i).blocks + [blocks[i]])
  {
    assert blocks[..i + 1] == blocks[..i] + [blocks[i]];
  }

  lemma WrittenUpTo(ios: seq<Io>, blocks: seq<bytes>, i: nat)
    requires i < |blocks|
    ensures BlocksWritten(ios, blocks, i + 1) <==>
              BlocksWritten(ios, blocks, i) && Written(IoAt(ios, 2 + i).write, |blocks[i]|) == |blocks[i]|
    ensures BlocksWritten(ios, blocks, |blocks|) ==> BlocksWritten(ios, blocks, i + 1)
  {
    hide Written, IoAt;
  }

  lemma NothingWritten(ios: seq<Io>, blocks: seq<bytes>)
    ensures BlocksWritten(ios, blocks, 0)
  {
  }

  lemma CounterSteps(n: nat)
    ensures CounterAfter(1, 0) == 1 && CounterAfter(1, n + 1) == Succ(CounterAfter(1, n))
  {
  }

  /** One turn of that loop. */
  method SendBlock(uds: Uds.UdsRequestHandler, blockSeq: byte, block: bytes, io: Io,
      ghost h: History) returns (ok: bool)
    requires uds.Valid() && uds.View().ota.state == Active && Consistent(uds.View().ota, h)
    requires blockSeq == CounterAfter(1, |h.blocks|) && 1 <= |block| <= BLOCK_SIZE
    modifies uds.functionManager.Repr, uds.otaSessionManager, uds.otaSessionManager.disk
    ensures uds.Valid() && uds.View().lamps == old(uds.View().lamps)
    ensures ok <==> Written(io.write, |block|) == |block|
    ensures if ok then uds.View().ota.state == Active && Consistent(uds.View().ota, h.(blocks := h.blocks + [block]))
            else uds.View().ota.state == Failed && uds.View().ota.validated == h.promoted
  {
    hide Uds.Respond, Transfer, Consistent, CounterAfter, Written;
    ValidatedIsPromoted(uds.View().ota, h);
    NextBlock(uds.View().ota, h, block, io);
    TransferAnswer(uds.View(), uds.ecuId, blockSeq, block, io);
    var resp := uds.HandleRequest(TransferRequest(blockSeq, block), io);
    ok := CheckPositive(resp, SID_TRANSFER_DATA);
  }

  /** The requests of a transfer, byte for byte. */
  lemma RequestBytes(size: nat, blockSeq: byte, block: bytes)
    ensures ENTER_EXTENDED_SESSION == [0x10, 0x03]
    ensures DownloadRequest(size) == [0x34, 0x00, 0x44, 0x00, 0x00, 0x00, 0x00] + U32(size)
    ensures TransferRequest(blockSeq, block) == [0x36, blockSeq] + block
    ensures |SplitBlocks(block, BLOCK_SIZE)| == (|block| + 511) / 512
  {
    BlockCount(block);
    hide U32, SplitBlocks;
  }

  lemma {:induction false} BlockCount(data: bytes)
    ensures |SplitBlocks(data, 512)| == (|data| + 511) / 512
    decreases |data|
  {
    if data == [] {
    } else if |data| > 512 {
      BlockCount(data[512..]);
    }
  }

  /** When exactly the client goes on: on the positive answer to the service it asked for. */
  lemma PositiveIff(resp: bytes, sid: byte)
    requires sid in {0x10, 0x34, 0x36, 0x37}
    ensures CheckPositive(resp, sid) <==>
              resp != [] && resp[0] == (if sid == 0x10 then 0x50 else if sid == 0x34 then 0x74
                                        else if sid == 0x36 then 0x76 else 0x77)
  {
  }
}
