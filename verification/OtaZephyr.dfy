/**
  The same OTA session on the Zephyr node, over a flash slot and the boot loader's upgrade
  flag, and how it tracks the Linux session.
 */
module OtaZephyr {

  import opened Bytes
  import opened Crc32
  import opened OtaSession
  import opened OtaClient
  import opened Wrappers

  /** The stream buffer: bytes are programmed when it is full, and at the final flush. */
  const STREAM_BUFFER_SIZE: nat := 1024

  /**
    The return codes of the flash and boot loader calls that one request may make, and how
    many bytes its write has programmed if it fails.
   */
  datatype FlashIo = FlashIo(
    openRc: int, initRc: int, writeRc: int, programmed: nat, flushRc: int, upgradeRc: int)

  /**
    The secondary slot and the stream into it.  Opening the stream empties the buffer, moves
    the write position to the start and leaves the contents of the slot alone; the first
    bytes programmed from there replace them.
   */
  datatype Stream = Stream(held: bytes, position: nat, slot: Option<bytes>)
  {
    /** What was programmed since the stream was opened. */
    function InFlash(): bytes {
      if position == 0 || slot.None? then [] else slot.value
    }

    /** What was written since then. */
    function Staged(): bytes {
      InFlash() + held
    }

    function Opened(): Stream {
      this.(held := [], position := 0)
    }

    /** The bytes that a write hands to the flash. */
    function Due(data: bytes, flush: bool): bytes {
      var all := held + data;
      if flush then all else if |all| < STREAM_BUFFER_SIZE then [] else all[..STREAM_BUFFER_SIZE]
    }

    function Extended(put: bytes): Stream {
      if put == [] then this else this.(position := position + |put|, slot := Some(InFlash() + put))
    }

    /** `stream_flash_buffered_write`; a block never fills the buffer twice. */
    function Written(data: bytes, flush: bool, rc: int, programmed: nat): Stream {
      var due := Due(data, flush);
      Extended(Put(due, rc, programmed)).(held := if rc == 0 then (held + data)[|due|..] else held)
    }
  }

  /** The part of `due` that a write with result `rc` leaves in the flash. */
  function Put(due: bytes, rc: int, programmed: nat): bytes {
    if rc == 0 || |due| <= programmed then due else due[..programmed]
  }

  class Flash {
    var areaOpen: bool
    var stream: Stream
    var upgradePending: bool

    constructor (slot: Option<bytes>)
      ensures !areaOpen && stream == Stream([], 0, slot) && !upgradePending
    {
      areaOpen, stream, upgradePending := false, Stream([], 0, slot), false;
    }

    method Open(rc: int) returns (r: int)
      modifies this`areaOpen
      ensures r == rc && areaOpen == (rc == 0)
    {
      areaOpen := rc == 0;
      return rc;
    }

    method Close()
      modifies this`areaOpen
      ensures !areaOpen
    {
      areaOpen := false;
    }

    method InitStream(rc: int) returns (r: int)
      modifies this`stream
      ensures r == rc && stream == if rc == 0 then old(stream).Opened() else old(stream)
    {
      if rc == 0 {
        stream := stream.Opened();
      }
      return rc;
    }

    method BufferedWrite(data: bytes, flush: bool, rc: int, programmed: nat) returns (r: int)
      modifies this`stream
      ensures r == rc && stream == old(stream).Written(data, flush, rc, programmed)
    {
      var all := stream.held + data;
      var due := if flush then |all| else if |all| < STREAM_BUFFER_SIZE then 0 else STREAM_BUFFER_SIZE;
      var put := if rc == 0 || due <= programmed then due else programmed;
      assert all[..put] == Put(stream.Due(data, flush), rc, programmed);
      if put > 0 {
        var before := if stream.position == 0 || stream.slot.None? then [] else stream.slot.value;
        stream := stream.(position := stream.position + put, slot := Some(before + all[..put]));
      }
      if rc == 0 {
        stream := stream.(held := all[due..]);
      }
      return rc;
    }

    method RequestUpgrade(rc: int) returns (r: int)
      modifies this`upgradePending
      ensures r == rc && upgradePending == (rc == 0 || old(upgradePending))
    {
      upgradePending := upgradePending || rc == 0;
      return rc;
    }
  }

  // ---------------------------------------------------------------------------------
  // The session as a value
  // ---------------------------------------------------------------------------------

  datatype FlashSession = FlashSession(
    state: OtaState, expectedSize: nat, receivedSize: nat, nextBlockSeq: byte, runningCrc: bv32,
    areaOpen: bool, stream: Stream, upgradePending: bool, rebootScheduled: bool)

  function FlashReset(z: FlashSession): FlashSession {
    z.(expectedSize := 0, receivedSize := 0, nextBlockSeq := 1, runningCrc := INITIAL)
  }

  function FlashDownload(z: FlashSession, req: bytes, io: FlashIo): (FlashSession, bytes) {
    if z.state == Active then
      (z, Negative(SID_REQUEST_DOWNLOAD, NRC_UPLOAD_DOWNLOAD_NOT_ACCEPTED))
    else if |req| < 11 || req[2] != 0x44 then
      (z, Negative(SID_REQUEST_DOWNLOAD, NRC_REQUEST_OUT_OF_RANGE))
    else
      var size := U32At(req, 7);
      if size == 0 || size > MAX_FIRMWARE_SIZE then
        (z, Negative(SID_REQUEST_DOWNLOAD, NRC_REQUEST_OUT_OF_RANGE))
      else if io.openRc != 0 || io.initRc != 0 then
        (z.(areaOpen := false), Negative(SID_REQUEST_DOWNLOAD, NRC_UPLOAD_DOWNLOAD_NOT_ACCEPTED))
      else
        (FlashSession(Active, size, 0, 1, INITIAL, true, z.stream.Opened(), z.upgradePending, z.rebootScheduled),
         [SID_REQUEST_DOWNLOAD + POSITIVE_OFFSET, 0x20, Hi(MAX_BLOCK_LENGTH), Lo(MAX_BLOCK_LENGTH)])
  }

  function FlashTransfer(z: FlashSession, req: bytes, io: FlashIo): (FlashSession, bytes) {
    if z.state != Active then
      (z, Negative(SID_TRANSFER_DATA, NRC_CONDITIONS_NOT_CORRECT))
    else if |req| < 3 || |req| - 2 > MAX_DATA_BYTES_PER_BLOCK then
      (z, Negative(SID_TRANSFER_DATA, NRC_REQUEST_OUT_OF_RANGE))
    else if req[1] != z.nextBlockSeq then
      (z, Negative(SID_TRANSFER_DATA, NRC_WRONG_BLOCK_SEQUENCE_COUNTER))
    else
      var data := req[2..];
      var stream := z.stream.Written(data, false, io.writeRc, io.programmed);
      if io.writeRc != 0 then
        (z.(state := Failed, areaOpen := false, stream := stream),
         Negative(SID_TRANSFER_DATA, NRC_GENERAL_PROGRAMMING_FAILURE))
      else
        (z.(receivedSize := Wrap32(z.receivedSize + |data|), nextBlockSeq := Succ(req[1]),
            runningCrc := Fold(z.runningCrc, data), stream := stream),
         [SID_TRANSFER_DATA + POSITIVE_OFFSET, req[1]])
  }

  function FlashFailed(z: FlashSession, nrc: byte): (FlashSession, bytes) {
    (FlashReset(z.(state := Failed, areaOpen := false)), Negative(SID_REQUEST_TRANSFER_EXIT, nrc))
  }

  function FlashExit(z: FlashSession, req: bytes, io: FlashIo): (FlashSession, bytes) {
    if z.state != Active then (z, Negative(SID_REQUEST_TRANSFER_EXIT, NRC_CONDITIONS_NOT_CORRECT))
    else if z.receivedSize != z.expectedSize then FlashFailed(z, NRC_CONDITIONS_NOT_CORRECT)
    else if |req| != 5 then FlashFailed(z, NRC_INCORRECT_LENGTH)
    else if Xor(z.runningCrc, 0xFFFF_FFFF) != CarriedCrc(req) then FlashFailed(z, NRC_GENERAL_PROGRAMMING_FAILURE)
    else
      var flushed := z.(stream := z.stream.Written([], true, io.flushRc, io.programmed));
      if io.flushRc != 0 || io.upgradeRc != 0 then FlashFailed(flushed, NRC_GENERAL_PROGRAMMING_FAILURE)
      else
        (FlashReset(flushed.(state := Complete, areaOpen := false, upgradePending := true, rebootScheduled := true)),
         [SID_REQUEST_TRANSFER_EXIT + POSITIVE_OFFSET])
  }

  // ---------------------------------------------------------------------------------
  // The class
  // ---------------------------------------------------------------------------------

  class FlashOtaSessionManager {
    const flash: Flash
    var state: OtaState
    var expectedSize: nat
    var receivedSize: nat
    var nextBlockSeq: byte
    var runningCrc: bv32
    /** Whether the delayed reboot was put on the work queue. */
    var rebootScheduled: bool

    ghost function View(): FlashSession
      reads this, flash
    {
      FlashSession(state, expectedSize, receivedSize, nextBlockSeq, runningCrc,
                   flash.areaOpen, flash.stream, flash.upgradePending, rebootScheduled)
    }

    constructor (flash: Flash)
      ensures this.flash == flash
      ensures View() == FlashSession(Idle, 0, 0, 1, INITIAL, flash.areaOpen, flash.stream, flash.upgradePending, false)
    {
      this.flash := flash;
      state, expectedSize, receivedSize, nextBlockSeq, runningCrc := Idle, 0, 0, 1, INITIAL;
      rebootScheduled := false;
    }

    method CloseStaging()
      modifies flash`areaOpen
      ensures !flash.areaOpen
    {
      if flash.areaOpen {
        flash.Close();
      }
    }

    method ResetFields()
      modifies this`expectedSize, this`receivedSize, this`nextBlockSeq, this`runningCrc
      ensures View() == FlashReset(old(View()))
    {
      expectedSize, receivedSize := 0, 0;
      nextBlockSeq, runningCrc := 1, INITIAL;
    }

    method HandleRequestDownload(req: bytes, io: FlashIo) returns (resp: bytes)
      modifies this, flash
      ensures (View(), resp) == FlashDownload(old(View()), req, io)
    {
      if state == Active {
        return Negative(SID_REQUEST_DOWNLOAD, NRC_UPLOAD_DOWNLOAD_NOT_ACCEPTED);
      }
      if |req| < 11 || req[2] != 0x44 {
        return Negative(SID_REQUEST_DOWNLOAD, NRC_REQUEST_OUT_OF_RANGE);
      }
      var size := U32At(req, 7);
      if size == 0 || size > MAX_FIRMWARE_SIZE {
        return Negative(SID_REQUEST_DOWNLOAD, NRC_REQUEST_OUT_OF_RANGE);
      }
      var rc := flash.Open(io.openRc);
      if rc != 0 {
        return Negative(SID_REQUEST_DOWNLOAD, NRC_UPLOAD_DOWNLOAD_NOT_ACCEPTED);
      }
      rc := flash.InitStream(io.initRc);
      if rc != 0 {
        flash.Close();
        return Negative(SID_REQUEST_DOWNLOAD, NRC_UPLOAD_DOWNLOAD_NOT_ACCEPTED);
      }
      expectedSize, receivedSize := size, 0;
      nextBlockSeq, runningCrc := 1, INITIAL;
      state := Active;
      resp := [SID_REQUEST_DOWNLOAD + POSITIVE_OFFSET, 0x20, Hi(MAX_BLOCK_LENGTH), Lo(MAX_BLOCK_LENGTH)];
    }

    method HandleTransferData(req: bytes, io: FlashIo) returns (resp: bytes)
      modifies this, flash
      ensures (View(), resp) == FlashTransfer(old(View()), req, io)
    {
      hide Fold, Succ, Wrap32, Stream.Written;
      if state != Active {
        return Negative(SID_TRANSFER_DATA, NRC_CONDITIONS_NOT_CORRECT);
      }
      if |req| < 3 {
        return Negative(SID_TRANSFER_DATA, NRC_REQUEST_OUT_OF_RANGE);
      }
      var dataLen := |req| - 2;
      if dataLen > MAX_DATA_BYTES_PER_BLOCK {
        return Negative(SID_TRANSFER_DATA, NRC_REQUEST_OUT_OF_RANGE);
      }
      var blockSeq := req[1];
      if blockSeq != nextBlockSeq {
        return Negative(SID_TRANSFER_DATA, NRC_WRONG_BLOCK_SEQUENCE_COUNTER);
      }
      var rc := flash.BufferedWrite(req[2..], false, io.writeRc, io.programmed);
      if rc != 0 {
        state := Failed;
        CloseStaging();
        return Negative(SID_TRANSFER_DATA, NRC_GENERAL_PROGRAMMING_FAILURE);
      }
      runningCrc := Crc32Update(runningCrc, req[2..]);
      receivedSize := Wrap32(receivedSize + dataLen);
      nextBlockSeq := Succ(blockSeq);
      resp := [SID_TRANSFER_DATA + POSITIVE_OFFSET, blockSeq];
    }

    /** The common tail of the refusals of 0x37. */
    method Fail(nrc: byte) returns (resp: bytes)
      modifies this, flash`areaOpen
      ensures (View(), resp) == FlashFailed(old(View()), nrc)
    {
      state := Failed;
      CloseStaging();
      ResetFields();
      resp := Negative(SID_REQUEST_TRANSFER_EXIT, nrc);
    }

    method HandleRequestTransferExit(req: bytes, io: FlashIo) returns (resp: bytes)
      modifies this, flash
      ensures (View(), resp) == FlashExit(old(View()), req, io)
    {
      hide Xor, CarriedCrc, Stream.Written;
      if state != Active {
        return Negative(SID_REQUEST_TRANSFER_EXIT, NRC_CONDITIONS_NOT_CORRECT);
      }
      if receivedSize != expectedSize {
        resp := Fail(NRC_CONDITIONS_NOT_CORRECT);
        return;
      }
      if |req| != 5 {
        resp := Fail(NRC_INCORRECT_LENGTH);
        return;
      }
      if Xor(runningCrc, 0xFFFF_FFFF) != CarriedCrc(req) {
        resp := Fail(NRC_GENERAL_PROGRAMMING_FAILURE);
        return;
      }
      var rc := flash.BufferedWrite([], true, io.flushRc, io.programmed);
      if rc != 0 {
        resp := Fail(NRC_GENERAL_PROGRAMMING_FAILURE);
        return;
      }
      CloseStaging();
      rc := flash.RequestUpgrade(io.upgradeRc);
      if rc != 0 {
        resp := Fail(NRC_GENERAL_PROGRAMMING_FAILURE);
        return;
      }
      state := Complete;
      ResetFields();
      rebootScheduled := true;
      resp := [SID_REQUEST_TRANSFER_EXIT + POSITIVE_OFFSET];
    }
  }

  // ---------------------------------------------------------------------------------
  // Lockstep with the Linux session
  // ---------------------------------------------------------------------------------

  datatype FlashStep = FlashStep(req: bytes, io: FlashIo)

  function FlashServe(z: FlashSession, step: FlashStep): (FlashSession, bytes) {
    if step.req == [] then (z, [])
    else if step.req[0] == SID_REQUEST_DOWNLOAD then FlashDownload(z, step.req, step.io)
    else if step.req[0] == SID_TRANSFER_DATA then FlashTransfer(z, step.req, step.io)
    else if step.req[0] == SID_REQUEST_TRANSFER_EXIT then FlashExit(z, step.req, step.io)
    else (z, [])
  }

  /** The file system answers that have the same effect. */
  function FileIo(io: FlashIo): Io {
    Io(io.openRc == 0 && io.initRc == 0, if io.writeRc == 0 then Whole else Error, true,
       io.flushRc == 0 && io.upgradeRc == 0)
  }

  function FileStep(step: FlashStep): Step {
    Step(step.req, FileIo(step.io))
  }

  /** The same session fields; and while it is active, the same staged bytes. */
  ghost predicate Corresponds(z: FlashSession, s: Session) {
    && z.state == s.state && z.expectedSize == s.expectedSize && z.receivedSize == s.receivedSize
    && z.nextBlockSeq == s.nextBlockSeq && z.runningCrc == s.runningCrc
    && (z.state == Active <==> z.areaOpen)
    && (s.state == Active ==> s.staging == Some(z.stream.Staged()))
  }

  lemma OpenedIsEmpty(s: Stream)
    ensures s.Opened().Staged() == s.Opened().InFlash() == []
  {
  }

  lemma DownloadLockstep(z: FlashSession, s: Session, req: bytes, io: FlashIo)
    requires Corresponds(z, s)
    ensures var (z', a) := FlashDownload(z, req, io);
            var (s', b) := Download(s, req, FileIo(io));
            a == b && Corresponds(z', s') && s'.validated == s.validated
  {
    OpenedIsEmpty(z.stream);
    hide U32At, Hi, Lo, Stream.Opened, Stream.Staged;
  }

  /** A write that succeeds stages its data, and a flush leaves all of it in the flash. */
  lemma WriteStages(s: Stream, data: bytes, flush: bool, programmed: nat)
    ensures var s' := s.Written(data, flush, 0, programmed);
            && s'.Staged() == s.Staged() + data
            && (flush ==> s'.held == [] && s'.InFlash() == s.Staged() + data)
  {
    var all := s.held + data;
    var due := s.Due(data, flush);
    assert due + all[|due|..] == all;
    assert s.Written(data, flush, 0, programmed).InFlash() == s.InFlash() + due;
    assert s.InFlash() + due + all[|due|..] == s.InFlash() + (due + all[|due|..]);
    assert s.InFlash() + all == s.Staged() + data;
  }

  lemma TransferLockstep(z: FlashSession, s: Session, req: bytes, io: FlashIo)
    requires Corresponds(z, s)
    ensures var (z', a) := FlashTransfer(z, req, io);
            var (s', b) := Transfer(s, req, FileIo(io));
            a == b && Corresponds(z', s') && s'.validated == s.validated
  {
    hide Fold, Succ, Wrap32, Stream.Written, Stream.Staged;
    if |req| >= 3 {
      assert req[2..][..|req| - 2] == req[2..];
      WriteStages(z.stream, req[2..], false, io.programmed);
    }
  }

  lemma ExitLockstep(z: FlashSession, s: Session, req: bytes, io: FlashIo)
    requires Corresponds(z, s)
    ensures var (z', a) := FlashExit(z, req, io);
            var (s', b) := Exit(s, req, FileIo(io));
            && a == b && Corresponds(z', s')
            && (if Positive(a, SID_REQUEST_TRANSFER_EXIT) then
                  && z'.upgradePending && z'.rebootScheduled && z'.stream.held == []
                  && s'.validated == Some(z'.stream.InFlash())
                else
                  && z'.upgradePending == z.upgradePending && z'.rebootScheduled == z.rebootScheduled
                  && s'.validated == s.validated)
  {
    hide Xor, CarriedCrc, Stream.Written, Stream.Staged;
    WriteStages(z.stream, [], true, io.programmed);
    assert z.stream.Staged() + [] == z.stream.Staged();
  }

  function FlashRun(z: FlashSession, steps: seq<FlashStep>): (FlashSession, seq<bytes>)
    decreases |steps|
  {
    if steps == [] then (z, [])
    else
      var (z', resp) := FlashServe(z, steps[0]);
      var (z'', resps) := FlashRun(z', steps[1..]);
      (z'', [resp] + resps)
  }

  function FileRun(s: Session, steps: seq<FlashStep>): (Session, seq<bytes>)
    decreases |steps|
  {
    if steps == [] then (s, [])
    else
      var (s', resp) := Serve(s, FileStep(steps[0]));
      var (s'', resps) := FileRun(s', steps[1..]);
      (s'', [resp] + resps)
  }

  lemma ServeLockstep(z: FlashSession, s: Session, step: FlashStep)
    requires Corresponds(z, s)
    ensures FlashServe(z, step).1 == Serve(s, FileStep(step)).1
    ensures Corresponds(FlashServe(z, step).0, Serve(s, FileStep(step)).0)
  {
    hide Corresponds, Download, Transfer, Exit, FlashDownload, FlashTransfer, FlashExit;
    if step.req != [] {
      if step.req[0] == SID_REQUEST_DOWNLOAD {
        DownloadLockstep(z, s, step.req, step.io);
      } else if step.req[0] == SID_TRANSFER_DATA {
        TransferLockstep(z, s, step.req, step.io);
      } else if step.req[0] == SID_REQUEST_TRANSFER_EXIT {
        ExitLockstep(z, s, step.req, step.io);
      }
    }
  }

  /** Both nodes give the same answers to every run of requests, failures included. */
  lemma {:induction false} SessionsInLockstep(z: FlashSession, s: Session, steps: seq<FlashStep>)
    requires Corresponds(z, s)
    ensures FlashRun(z, steps).1 == FileRun(s, steps).1
    ensures Corresponds(FlashRun(z, steps).0, FileRun(s, steps).0)
    decreases |steps|
  {
    hide Corresponds, FlashServe, Serve;
    if steps == [] {
    } else {
      ServeLockstep(z, s, steps[0]);
      SessionsInLockstep(FlashServe(z, steps[0]).0, Serve(s, FileStep(steps[0])).0, steps[1..]);
    }
  }

  /**
    What a positive 0x37 hands to the boot loader: exactly the accepted blocks in order,
    if the history of the requests is known.
   */
  lemma FlashExitPromotes(z: FlashSession, s: Session, h: History, req: bytes, io: FlashIo)
    requires Corresponds(z, s) && Consistent(s, h)
    requires Positive(FlashExit(z, req, io).1, SID_REQUEST_TRANSFER_EXIT)
    ensures var z' := FlashExit(z, req, io).0;
            z'.upgradePending && z'.rebootScheduled && z'.stream.InFlash() == Flatten(h.blocks)
  {
    ExitLockstep(z, s, req, io);
    ExitPromotesIff(s, h, req, FileIo(io));
    hide Consistent, FlashExit, Exit, CarriedCrc;
  }

  /** When exactly a block is accepted; it is then staged, in the flash or in the buffer. */
  lemma {:induction false} FlashBlockAcceptedIff(z: FlashSession, req: bytes, io: FlashIo)
    ensures var (z', resp) := FlashTransfer(z, req, io);
            && (Positive(resp, SID_TRANSFER_DATA) <==>
                  && z.state == Active && 3 <= |req| <= 2 + MAX_DATA_BYTES_PER_BLOCK
                  && req[1] == z.nextBlockSeq && io.writeRc == 0)
            && (Positive(resp, SID_TRANSFER_DATA) ==> z'.stream.Staged() == z.stream.Staged() + req[2..])
  {
    hide Fold, Succ, Wrap32, Stream.Written, Stream.Staged;
    if |req| >= 3 {
      WriteStages(z.stream, req[2..], false, io.programmed);
    }
  }

  // ---------------------------------------------------------------------------------
  // The pending image
  // ---------------------------------------------------------------------------------

  /** The guard under which a block fills the stream buffer and is programmed, at least in part. */
  predicate BlockPrograms(z: FlashSession, step: FlashStep) {
    && z.state == Active
    && 3 <= |step.req| <= 2 + MAX_DATA_BYTES_PER_BLOCK
    && step.req[0] == SID_TRANSFER_DATA && step.req[1] == z.nextBlockSeq
    && |z.stream.held| + |step.req| - 2 >= STREAM_BUFFER_SIZE
    && (step.io.writeRc == 0 || step.io.programmed > 0)
  }

  /** The guard under which 0x37 reaches the flush and programs something. */
  predicate ExitPrograms(z: FlashSession, step: FlashStep) {
    && z.state == Active && z.receivedSize == z.expectedSize
    && |step.req| == 5 && step.req[0] == SID_REQUEST_TRANSFER_EXIT
    && Xor(z.runningCrc, 0xFFFF_FFFF) == CarriedCrc(step.req)
    && z.stream.held != []
    && (step.io.flushRc == 0 || step.io.programmed > 0)
  }

  predicate Programs(z: FlashSession, step: FlashStep) {
    BlockPrograms(z, step) || ExitPrograms(z, step)
  }

  /** What is programmed: of a full buffer, or at the flush of what it holds. */
  function Programmed(z: FlashSession, step: FlashStep): bytes
    requires Programs(z, step)
  {
    if step.req[0] == SID_TRANSFER_DATA then
      Put((z.stream.held + step.req[2..])[..STREAM_BUFFER_SIZE], step.io.writeRc, step.io.programmed)
    else
      Put(z.stream.held, step.io.flushRc, step.io.programmed)
  }

  /** The slot with what is programmed appended to what was since the stream was opened. */
  function SlotWith(z: FlashSession, step: FlashStep): Option<bytes> {
    if Programs(z, step) then Some(z.stream.InFlash() + Programmed(z, step)) else z.stream.slot
  }

  lemma WrittenSlot(s: Stream, data: bytes, flush: bool, rc: int, programmed: nat)
    ensures var put := Put(s.Due(data, flush), rc, programmed);
            s.Written(data, flush, rc, programmed).slot == if put == [] then s.slot else Some(s.InFlash() + put)
  {
  }

  lemma {:induction false} BlockSlotAfter(z: FlashSession, step: FlashStep)
    requires step.req != [] && step.req[0] == SID_TRANSFER_DATA
    ensures FlashTransfer(z, step.req, step.io).0.stream.slot == SlotWith(z, step)
  {
    hide Fold, Succ, Wrap32, Xor, CarriedCrc, Stream.Written, Stream.InFlash;
    if |step.req| >= 3 {
      WrittenSlot(z.stream, step.req[2..], false, step.io.writeRc, step.io.programmed);
      BlockIsDue(z, step);
      hide Stream.Due, Put, Programmed, BlockPrograms;
    }
  }

  /** A block programs something exactly under its guard, if the session takes it. */
  lemma {:induction false} BlockIsDue(z: FlashSession, step: FlashStep)
    requires |step.req| >= 3 && step.req[0] == SID_TRANSFER_DATA
    ensures var put := Put(z.stream.Due(step.req[2..], false), step.io.writeRc, step.io.programmed);
            && (BlockPrograms(z, step) <==>
                  && z.state == Active && |step.req| <= 2 + MAX_DATA_BYTES_PER_BLOCK
                  && step.req[1] == z.nextBlockSeq && put != [])
            && (BlockPrograms(z, step) ==> Programmed(z, step) == put)
  {
  }

  lemma {:induction false} ExitSlotAfter(z: FlashSession, step: FlashStep)
    requires step.req != [] && step.req[0] == SID_REQUEST_TRANSFER_EXIT
    ensures FlashExit(z, step.req, step.io).0.stream.slot == SlotWith(z, step)
  {
    assert z.stream.held + [] == z.stream.held;
    hide Xor, CarriedCrc;
  }

  lemma {:induction false} PendingFlagStays(z: FlashSession, step: FlashStep)
    ensures z.upgradePending ==> FlashServe(z, step).0.upgradePending
  {
    hide Fold, Succ, Wrap32, Xor, CarriedCrc, U32At, Hi, Lo, Stream.Written, Stream.Opened;
  }

  /**
    The slot after every request, whether or not an upgrade is pending: what is programmed
    is appended to what was programmed since the stream was opened, and takes the place of
    the old contents if it is the first.
   */
  lemma {:induction false} SlotAfter(z: FlashSession, step: FlashStep)
    ensures var z' := FlashServe(z, step).0;
            (z.upgradePending ==> z'.upgradePending) && z'.stream.slot == SlotWith(z, step)
  {
    PendingFlagStays(z, step);
    if step.req != [] && step.req[0] == SID_TRANSFER_DATA {
      BlockSlotAfter(z, step);
      hide FlashTransfer, SlotWith;
    } else if step.req != [] && step.req[0] == SID_REQUEST_TRANSFER_EXIT {
      ExitSlotAfter(z, step);
      hide FlashExit, SlotWith;
    } else {
      hide U32At, Hi, Lo, Xor, CarriedCrc;
    }
  }

  /** Something is programmed that does not happen to be the contents of the slot already. */
  predicate Overwrites(z: FlashSession, step: FlashStep) {
    && Programs(z, step)
    && !(z.stream.InFlash() == [] && z.stream.slot == Some(Programmed(z, step)))
  }

  /** When exactly a request changes the slot. */
  lemma {:induction false} SlotChangesIff(z: FlashSession, step: FlashStep)
    ensures FlashServe(z, step).0.stream.slot != z.stream.slot <==> Overwrites(z, step)
  {
    SlotAfter(z, step);
    hide FlashServe;
    if Programs(z, step) {
      var put := Programmed(z, step);
      assert put != [];
      hide Programmed, Programs;
      if z.stream.InFlash() == [] {
        assert [] + put == put;
      } else {
        assert |z.stream.slot.value + put| > |z.stream.slot.value|;
      }
    }
  }

  predicate RequestsDownload(step: FlashStep) {
    step.req != [] && step.req[0] == SID_REQUEST_DOWNLOAD
  }

  /** Only an accepted 0x34 makes a session active, and it needs no session to be active. */
  lemma {:induction false} ActiveOnlyByDownload(z: FlashSession, step: FlashStep)
    requires z.state != Active
    ensures FlashServe(z, step).0.state == Active <==>
              && RequestsDownload(step) && |step.req| >= 11 && step.req[2] == 0x44
              && 1 <= U32At(step.req, 7) <= MAX_FIRMWARE_SIZE
              && step.io.openRc == 0 && step.io.initRc == 0
  {
    hide Fold, Succ, Wrap32, Xor, CarriedCrc, U32At, Hi, Lo;
  }

  /** A pending image stays in the slot for as long as no new download is requested. */
  lemma {:induction false} PendingImageStays(z: FlashSession, steps: seq<FlashStep>)
    requires z.upgradePending && z.state != Active
    requires forall step | step in steps :: !RequestsDownload(step)
    ensures var z' := FlashRun(z, steps).0;
            z'.upgradePending && z'.stream.slot == z.stream.slot && z'.state != Active
    decreases |steps|
  {
    hide FlashServe, Overwrites, RequestsDownload;
    if steps == [] {
    } else {
      assert steps[0] in steps && forall step | step in steps[1..] :: step in steps;
      SlotAfter(z, steps[0]);
      SlotChangesIff(z, steps[0]);
      NotActiveKeeps(z, steps[0]);
      ActiveOnlyByDownload(z, steps[0]);
      PendingImageStays(FlashServe(z, steps[0]).0, steps[1..]);
    }
  }

  lemma NotActiveKeeps(z: FlashSession, step: FlashStep)
    requires z.state != Active
    ensures !Overwrites(z, step)
  {
  }

  /** The session as step `i` of a run finds it. */
  function FlashBefore(z: FlashSession, steps: seq<FlashStep>, i: nat): FlashSession
    requires i <= |steps|
  {
    FlashRun(z, steps[..i]).0
  }

  lemma {:induction false} FlashRunLast(z: FlashSession, steps: seq<FlashStep>)
    requires steps != []
    ensures FlashRun(z, steps).0 == FlashServe(FlashRun(z, steps[..|steps| - 1]).0, steps[|steps| - 1]).0
    decreases |steps|
  {
    hide FlashServe;
    var n := |steps| - 1;
    if n == 0 {
      assert steps[..0] == [] && steps[1..] == [];
    } else {
      assert steps[..n][1..] == steps[1..][..n - 1];
      FlashRunLast(FlashServe(z, steps[0]).0, steps[1..]);
    }
  }

  predicate Untouched(z: FlashSession, steps: seq<FlashStep>, i: nat)
    requires i < |steps|
  {
    FlashBefore(z, steps, i + 1).stream.slot == FlashBefore(z, steps, i).stream.slot
  }

  /**
    When exactly the slot is never touched over a run: no step fills the buffer, or flushes
    it, with other contents.
   */
  lemma {:induction false} SlotUntouchedIff(z: FlashSession, steps: seq<FlashStep>)
    ensures (forall i | 0 <= i < |steps| :: Untouched(z, steps, i))
        <==> (forall i | 0 <= i < |steps| :: !Overwrites(FlashBefore(z, steps, i), steps[i]))
  {
    hide FlashServe, Overwrites, FlashRun;
    forall i | 0 <= i < |steps|
      ensures Untouched(z, steps, i) <==> !Overwrites(FlashBefore(z, steps, i), steps[i])
    {
      FlashRunLast(z, steps[..i + 1]);
      assert steps[..i + 1][..i] == steps[..i];
      SlotChangesIff(FlashBefore(z, steps, i), steps[i]);
    }
    hide Untouched, FlashBefore;
  }

  // ---------------------------------------------------------------------------------
  // The buffer
  // ---------------------------------------------------------------------------------

  /** While a session is active, the flash holds whole buffers, and the rest is held back. */
  predicate Aligned(z: FlashSession) {
    z.state == Active ==>
      && |z.stream.held| < STREAM_BUFFER_SIZE
      && z.stream.position % STREAM_BUFFER_SIZE == 0
      && |z.stream.InFlash()| == z.stream.position
  }

  lemma WriteAligns(s: Stream, data: bytes, programmed: nat)
    requires |data| <= MAX_DATA_BYTES_PER_BLOCK && |s.held| < STREAM_BUFFER_SIZE
    requires s.position % STREAM_BUFFER_SIZE == 0 && |s.InFlash()| == s.position
    ensures var s' := s.Written(data, false, 0, programmed);
            && |s'.held| < STREAM_BUFFER_SIZE
            && s'.position % STREAM_BUFFER_SIZE == 0 && |s'.InFlash()| == s'.position
  {
  }

  lemma {:induction false} ServeKeepsAligned(z: FlashSession, step: FlashStep)
    requires Aligned(z)
    ensures Aligned(FlashServe(z, step).0)
  {
    hide Fold, Succ, Wrap32, Xor, CarriedCrc, U32At, Hi, Lo, Stream.Written, Stream.InFlash;
    if |step.req| >= 3 && z.state == Active && |step.req| - 2 <= MAX_DATA_BYTES_PER_BLOCK {
      WriteAligns(z.stream, step.req[2..], step.io.programmed);
    }
    assert z.stream.Opened().InFlash() == [] by {
      OpenedIsEmpty(z.stream);
    }
  }

  /**
    What a session has in the flash at any time: of the accepted blocks, as many whole
    buffers as they fill, and the buffer is never full between two requests.
   */
  lemma {:induction false} FlashHoldsWholeBuffers(z: FlashSession, steps: seq<FlashStep>)
    requires Aligned(z)
    ensures var z' := FlashRun(z, steps).0;
            && Aligned(z')
            && (z'.state == Active ==>
                  z'.stream.position == |z'.stream.Staged()| / STREAM_BUFFER_SIZE * STREAM_BUFFER_SIZE)
    decreases |steps|
  {
    hide FlashServe;
    if steps == [] {
    } else {
      ServeKeepsAligned(z, steps[0]);
      FlashHoldsWholeBuffers(FlashServe(z, steps[0]).0, steps[1..]);
    }
  }

  const FLASH_OK := FlashIo(0, 0, 0, 0, 0, 0)

  /** The session after a new download, over whatever image is pending. */
  function Started(z: FlashSession, size: nat): FlashSession {
    FlashSession(Active, size, 0, 1, INITIAL, true, z.stream.Opened(), z.upgradePending, z.rebootScheduled)
  }

  lemma NewDownload(z: FlashSession, size: nat)
    requires z.state != Active && 1 <= size <= MAX_FIRMWARE_SIZE
    ensures FlashServe(z, FlashStep(DownloadRequest(size), FLASH_OK)).0 == Started(z, size)
  {
    DownloadRequestCarries(size);
    assert |DownloadRequest(size)| >= 11 && DownloadRequest(size)[2] == 0x44;
    hide U32At, U32;
  }

  /** The session after a block that it takes. */
  function Taken(z: FlashSession, data: bytes): FlashSession {
    z.(receivedSize := Wrap32(z.receivedSize + |data|), nextBlockSeq := Succ(z.nextBlockSeq),
       runningCrc := Fold(z.runningCrc, data), stream := z.stream.Written(data, false, 0, 0))
  }

  lemma FlashBlock(z: FlashSession, req: bytes)
    requires z.state == Active && 3 <= |req| <= 2 + MAX_DATA_BYTES_PER_BLOCK && req[1] == z.nextBlockSeq
    ensures FlashTransfer(z, req, FLASH_OK).0 == Taken(z, req[2..])
  {
    hide Fold, Succ, Wrap32, Stream.Written;
  }

  lemma NextFlashBlock(z: FlashSession, data: bytes)
    requires z.state == Active && 1 <= |data| <= MAX_DATA_BYTES_PER_BLOCK
    ensures FlashServe(z, FlashStep(TransferRequest(z.nextBlockSeq, data), FLASH_OK)).0 == Taken(z, data)
  {
    var req := TransferRequest(z.nextBlockSeq, data);
    assert req[2..] == data;
    FlashBlock(z, req);
    hide Taken, FlashTransfer;
  }

  /**
    And no longer: between the positive 0x37 and the reboot, a new download and two full
    blocks replace the image while the upgrade flag stays set.  The first block alone does
    not, because it stays in the buffer.
   */
  lemma PendingImageOverwritten(z: FlashSession, size: nat, a: bytes, b: bytes)
    requires z.state == Complete && z.upgradePending && 1 <= size <= MAX_FIRMWARE_SIZE
    requires |a| == |b| == MAX_DATA_BYTES_PER_BLOCK
    ensures var z1 := FlashServe(z, FlashStep(DownloadRequest(size), FLASH_OK)).0;
            var z2 := FlashServe(z1, FlashStep(TransferRequest(1, a), FLASH_OK)).0;
            var z3 := FlashServe(z2, FlashStep(TransferRequest(2, b), FLASH_OK)).0;
            && z1.stream.slot == z2.stream.slot == z.stream.slot
            && z3.upgradePending && z3.stream.slot == Some(a + b)
  {
    NewDownload(z, size);
    NextFlashBlock(Started(z, size), a);
    NextFlashBlock(Taken(Started(z, size), a), b);
    TwoFullBlocks(z.stream, a, b);
    assert Succ(1) == 2;
    hide FlashServe, Fold, Succ, Wrap32, DownloadRequest, TransferRequest, Stream.Written, Stream.Opened;
  }

  lemma TwoFullBlocks(s: Stream, a: bytes, b: bytes)
    requires |a| == |b| == MAX_DATA_BYTES_PER_BLOCK
    ensures s.Opened().slot == s.slot
    ensures var s1 := s.Opened().Written(a, false, 0, 0);
            s1 == Stream(a, 0, s.slot) && s1.Written(b, false, 0, 0) == Stream([], STREAM_BUFFER_SIZE, Some(a + b))
  {
    assert [] + a == a && a[0..] == a;
    assert (a + b)[..STREAM_BUFFER_SIZE] == a + b && [] + (a + b) == a + b;
  }

  /**
    Nor does a failure protect it: a download of one block whose upgrade request fails has
    flushed the block over the pending image by then.
   */
  lemma PendingImageFlushedOver(z: FlashSession, data: bytes, upgradeRc: int)
    requires z.state == Complete && z.upgradePending
    requires 1 <= |data| <= MAX_DATA_BYTES_PER_BLOCK && upgradeRc != 0
    ensures var z1 := FlashServe(z, FlashStep(DownloadRequest(|data|), FLASH_OK)).0;
            var z2 := FlashServe(z1, FlashStep(TransferRequest(1, data), FLASH_OK)).0;
            var failing := FlashStep(ExitRequest(Checksum(data)), FLASH_OK.(upgradeRc := upgradeRc));
            var (z3, resp) := FlashServe(z2, failing);
            && z2.stream.slot == z.stream.slot
            && !Positive(resp, SID_REQUEST_TRANSFER_EXIT)
            && z3.upgradePending && z3.stream.slot == Some(data)
  {
    hide FlashServe, Xor, CarriedCrc, Stream.Written, Stream.Opened, Fold, Succ, Wrap32, DownloadRequest,
      TransferRequest, ExitRequest, Positive, Checksum;
    NewDownload(z, |data|);
    NextFlashBlock(Started(z, |data|), data);
    OneBlockIsFlushed(z.stream, data);
    OnlyBlock(z, data);
    UnmarkedExit(Taken(Started(z, |data|), data), Checksum(data), upgradeRc);
  }

  lemma OnlyBlock(z: FlashSession, data: bytes)
    requires |data| <= MAX_DATA_BYTES_PER_BLOCK
    ensures var z' := Taken(Started(z, |data|), data);
            z'.receivedSize == |data| && Xor(z'.runningCrc, 0xFFFF_FFFF) == Checksum(data)
  {
    hide Fold, Xor, Succ;
  }

  /** A 0x37 that is flushed but whose upgrade request fails. */
  lemma UnmarkedExit(z: FlashSession, crc: bv32, upgradeRc: int)
    requires z.state == Active && z.receivedSize == z.expectedSize && upgradeRc != 0
    requires Xor(z.runningCrc, 0xFFFF_FFFF) == crc
    ensures var (z', resp) := FlashServe(z, FlashStep(ExitRequest(crc), FLASH_OK.(upgradeRc := upgradeRc)));
            && z'.stream == z.stream.Written([], true, 0, 0) && z'.upgradePending == z.upgradePending
            && !Positive(resp, SID_REQUEST_TRANSFER_EXIT)
  {
    ExitRequestCarries(crc);
    var req := ExitRequest(crc);
    assert |req| == 5 && req[0] == SID_REQUEST_TRANSFER_EXIT;
    hide Xor, CarriedCrc, Stream.Written, ExitRequest;
  }

  lemma OneBlockIsFlushed(s: Stream, data: bytes)
    requires 1 <= |data| <= MAX_DATA_BYTES_PER_BLOCK
    ensures var s1 := s.Opened().Written(data, false, 0, 0);
            s1 == Stream(data, 0, s.slot) && s1.Written([], true, 0, 0) == Stream([], |data|, Some(data))
  {
    assert [] + data == data && data + [] == data && data[0..] == data && data[|data|..] == [];
  }

  /** A write that fails has programmed the first bytes of what was due, and no others. */
  lemma FailingWritePrograms(s: Stream, data: bytes, flush: bool, rc: int, programmed: nat)
    requires rc != 0
    ensures var due := s.Due(data, flush);
            var s' := s.Written(data, flush, rc, programmed);
            var n := if programmed < |due| then programmed else |due|;
            && s'.held == s.held
            && (n == 0 ==> s'.slot == s.slot && s'.position == s.position)
            && (n > 0 ==> s'.slot == Some(s.InFlash() + due[..n]) && s'.position == s.position + n)
  {
    var due := s.Due(data, flush);
    assert due[..|due|] == due;
  }
}
