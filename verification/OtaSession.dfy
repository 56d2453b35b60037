/**
  The OTA download session of the Linux node: services 0x34, 0x36 and 0x37 of section 14
  of ISO 14229-1, with the staging and validated files they write.

  `OtaSessionManager` is the class itself.  Its three handlers are proved against the
  functions `Download`, `Transfer` and `Exit`, and the promises of the session are lemmas
  about every run of those functions, whatever the requests and whatever the file system
  answers.
 */
module OtaSession {

  import opened Bytes
  import opened Crc32
  import opened Wrappers

  const MAX_DATA_BYTES_PER_BLOCK: nat := 512
  const MAX_BLOCK_LENGTH: bv16 := 514
  const MAX_FIRMWARE_SIZE: nat := 10 * 1024 * 1024

  const SID_REQUEST_DOWNLOAD: byte := 0x34
  const SID_TRANSFER_DATA: byte := 0x36
  const SID_REQUEST_TRANSFER_EXIT: byte := 0x37
  const SID_NEGATIVE_RESPONSE: byte := 0x7F
  const POSITIVE_OFFSET: byte := 0x40

  const NRC_INCORRECT_LENGTH: byte := 0x13
  const NRC_CONDITIONS_NOT_CORRECT: byte := 0x22
  const NRC_REQUEST_OUT_OF_RANGE: byte := 0x31
  const NRC_UPLOAD_DOWNLOAD_NOT_ACCEPTED: byte := 0x70
  const NRC_GENERAL_PROGRAMMING_FAILURE: byte := 0x72
  const NRC_WRONG_BLOCK_SEQUENCE_COUNTER: byte := 0x73

  function Negative(sid: byte, nrc: byte): bytes {
    [SID_NEGATIVE_RESPONSE, sid, nrc]
  }

  /** Whether `resp` is the positive answer to service `sid`. */
  predicate Positive(resp: bytes, sid: byte) {
    resp != [] && resp[0] == sid + POSITIVE_OFFSET
  }

  // ---------------------------------------------------------------------------------
  // What the file system answers
  // ---------------------------------------------------------------------------------

  datatype WriteOutcome = Whole | Short(count: nat) | Error

  /** The outcomes of the system calls that one request may make. */
  datatype Io = Io(openOk: bool, write: WriteOutcome, unlinkOk: bool, renameOk: bool)

  const ALL_OK := Io(true, Whole, true, true)

  /** The return value of a write of `len` bytes. */
  function Written(w: WriteOutcome, len: nat): int {
    match w
    case Whole => len
    case Short(count) => if count < len then count else len
    case Error => -1
  }

  /** The two files, by their paths. */
  class Disk {
    var staging: Option<bytes>
    var validated: Option<bytes>

    constructor (validated: Option<bytes>)
      ensures staging == None && this.validated == validated
    {
      staging := None;
      this.validated := validated;
    }

    method OpenTruncated(ok: bool)
      modifies this`staging
      ensures staging == if ok then Some([]) else old(staging)
    {
      if ok {
        staging := Some([]);
      }
    }

    method Append(data: bytes, outcome: WriteOutcome) returns (written: int)
      requires staging.Some?
      modifies this`staging
      ensures written == Written(outcome, |data|)
      ensures staging == Grown(old(staging), data, written)
    {
      written := Written(outcome, |data|);
      if written >= 0 {
        staging := Some(staging.value + data[..written]);
      }
    }

    method Unlink(ok: bool)
      modifies this`staging
      ensures staging == if ok then None else old(staging)
    {
      if ok {
        staging := None;
      }
    }

    method Rename(ok: bool) returns (failed: bool)
      modifies this
      ensures failed == !(ok && old(staging).Some?)
      ensures failed ==> staging == old(staging) && validated == old(validated)
      ensures !failed ==> staging == None && validated == old(staging)
    {
      failed := !(ok && staging.Some?);
      if !failed {
        validated := staging;
        staging := None;
      }
    }
  }

  // ---------------------------------------------------------------------------------
  // The session as a value
  // ---------------------------------------------------------------------------------

  datatype OtaState = Idle | Active | Complete | Failed

  datatype Session = Session(
    state: OtaState,
    expectedSize: nat,
    receivedSize: nat,
    nextBlockSeq: byte,
    runningCrc: bv32,
    stagingOpen: bool,
    staging: Option<bytes>,
    validated: Option<bytes>)

  function Initial(validated: Option<bytes>): Session {
    Session(Idle, 0, 0, 1, INITIAL, false, None, validated)
  }

  function Download(s: Session, req: bytes, io: Io): (Session, bytes) {
    if s.state == Active then
      (s, Negative(SID_REQUEST_DOWNLOAD, NRC_UPLOAD_DOWNLOAD_NOT_ACCEPTED))
    else if |req| < 11 || req[2] != 0x44 then
      (s, Negative(SID_REQUEST_DOWNLOAD, NRC_REQUEST_OUT_OF_RANGE))
    else
      var size := U32At(req, 7);
      if size == 0 || size > MAX_FIRMWARE_SIZE then
        (s, Negative(SID_REQUEST_DOWNLOAD, NRC_REQUEST_OUT_OF_RANGE))
      else if !io.openOk then
        (s, Negative(SID_REQUEST_DOWNLOAD, NRC_UPLOAD_DOWNLOAD_NOT_ACCEPTED))
      else
        (Session(Active, size, 0, 1, INITIAL, true, Some([]), s.validated),
         [SID_REQUEST_DOWNLOAD + POSITIVE_OFFSET, 0x20, Hi(MAX_BLOCK_LENGTH), Lo(MAX_BLOCK_LENGTH)])
  }

  /** Drops the session after a failure; the staging file goes if the unlink succeeds. */
  function Abandon(s: Session, io: Io): Session {
    s.(state := Failed, stagingOpen := false, staging := if io.unlinkOk then None else s.staging)
  }

  function Reset(s: Session): Session {
    s.(expectedSize := 0, receivedSize := 0, nextBlockSeq := 1, runningCrc := INITIAL)
  }

  function Transfer(s: Session, req: bytes, io: Io): (Session, bytes) {
    if s.state != Active then
      (s, Negative(SID_TRANSFER_DATA, NRC_CONDITIONS_NOT_CORRECT))
    else if |req| < 3 || |req| - 2 > MAX_DATA_BYTES_PER_BLOCK then
      (s, Negative(SID_TRANSFER_DATA, NRC_REQUEST_OUT_OF_RANGE))
    else if req[1] != s.nextBlockSeq then
      (s, Negative(SID_TRANSFER_DATA, NRC_WRONG_BLOCK_SEQUENCE_COUNTER))
    else
      var data := req[2..];
      var written := Written(io.write, |data|);
      if written != |data| then
        (Abandon(s, io).(staging := if io.unlinkOk then None else Grown(s.staging, data, written)),
         Negative(SID_TRANSFER_DATA, NRC_GENERAL_PROGRAMMING_FAILURE))
      else
        (s.(receivedSize := Wrap32(s.receivedSize + |data|),
            nextBlockSeq := Succ(req[1]),
            runningCrc := Fold(s.runningCrc, data),
            staging := Grown(s.staging, data, written)),
         [SID_TRANSFER_DATA + POSITIVE_OFFSET, req[1]])
  }

  function Grown(file: Option<bytes>, data: bytes, written: int): Option<bytes>
    requires written <= |data|
  {
    if file.None? || written < 0 then file else Some(file.value + data[..written])
  }

  /** The checksum that a 0x37 request carries. */
  function CarriedCrc(req: bytes): bv32
    requires |req| == 5
  {
    ((req[1] as bv32) << 24) | ((req[2] as bv32) << 16) | ((req[3] as bv32) << 8) | (req[4] as bv32)
  }

  function Exit(s: Session, req: bytes, io: Io): (Session, bytes) {
    if s.state != Active then
      (s, Negative(SID_REQUEST_TRANSFER_EXIT, NRC_CONDITIONS_NOT_CORRECT))
    else if s.receivedSize != s.expectedSize then
      (Reset(Abandon(s, io)), Negative(SID_REQUEST_TRANSFER_EXIT, NRC_CONDITIONS_NOT_CORRECT))
    else if |req| != 5 then
      (Reset(Abandon(s, io)), Negative(SID_REQUEST_TRANSFER_EXIT, NRC_INCORRECT_LENGTH))
    else if Xor(s.runningCrc, 0xFFFF_FFFF) != CarriedCrc(req) then
      (Reset(Abandon(s, io)), Negative(SID_REQUEST_TRANSFER_EXIT, NRC_GENERAL_PROGRAMMING_FAILURE))
    else if !(io.renameOk && s.staging.Some?) then
      (Reset(s.(state := Failed, stagingOpen := false)),
       Negative(SID_REQUEST_TRANSFER_EXIT, NRC_GENERAL_PROGRAMMING_FAILURE))
    else
      (Reset(s.(state := Complete, stagingOpen := false, staging := None, validated := s.staging)),
       [SID_REQUEST_TRANSFER_EXIT + POSITIVE_OFFSET])
  }

  // ---------------------------------------------------------------------------------
  // The class
  // ---------------------------------------------------------------------------------

  class OtaSessionManager {
    const disk: Disk
    var state: OtaState
    var expectedSize: nat
    var receivedSize: nat
    var nextBlockSeq: byte
    var runningCrc: bv32
    var stagingFd: int

    ghost function View(): Session
      reads this, disk
    {
      Session(state, expectedSize, receivedSize, nextBlockSeq, runningCrc, stagingFd >= 0,
              disk.staging, disk.validated)
    }

    /** An open descriptor always has its file. */
    ghost predicate Valid()
      reads this, disk
    {
      state == Active ==> stagingFd >= 0 && disk.staging.Some?
    }

    constructor (disk: Disk)
      requires disk.staging == None
      ensures this.disk == disk && Valid()
      ensures View() == Initial(disk.validated)
    {
      this.disk := disk;
      state, expectedSize, receivedSize := Idle, 0, 0;
      nextBlockSeq, runningCrc, stagingFd := 1, INITIAL, -1;
    }

    method CloseStaging()
      modifies this`stagingFd
      ensures stagingFd < 0
    {
      if stagingFd >= 0 {
        stagingFd := -1;
      }
    }

    method ResetFields()
      modifies this`expectedSize, this`receivedSize, this`nextBlockSeq, this`runningCrc
      ensures View() == Reset(old(View()))
    {
      expectedSize, receivedSize := 0, 0;
      nextBlockSeq, runningCrc := 1, INITIAL;
    }

    /** The common tail of the failures that remove the staging file. */
    method Fail(io: Io)
      modifies this`state, this`stagingFd, disk`staging
      ensures View() == Abandon(old(View()), io)
    {
      state := Failed;
      CloseStaging();
      disk.Unlink(io.unlinkOk);
    }

    method HandleRequestDownload(req: bytes, io: Io) returns (resp: bytes)
      requires Valid()
      modifies this, disk`staging
      ensures Valid()
      ensures (View(), resp) == Download(old(View()), req, io)
    {
      if state == Active {
        return Negative(SID_REQUEST_DOWNLOAD, NRC_UPLOAD_DOWNLOAD_NOT_ACCEPTED);
      }
      if |req| < 11 || req[2] != 0x44 {
        return Negative(SID_REQUEST_DOWNLOAD, NRC_REQUEST_OUT_OF_RANGE);
      }
      var size := U32At(req, 7);
      if size == 0 || size > MAX_FIRMWARE_SIZE {
        return Negative(SID_REQUEST_DOWNLOAD, NRC_REQUEST_OUT_OF_RANGE);
      }
      disk.OpenTruncated(io.openOk);
      if !io.openOk {
        return Negative(SID_REQUEST_DOWNLOAD, NRC_UPLOAD_DOWNLOAD_NOT_ACCEPTED);
      }
      stagingFd := 3;
      expectedSize, receivedSize := size, 0;
      nextBlockSeq, runningCrc := 1, INITIAL;
      state := Active;
      resp := [SID_REQUEST_DOWNLOAD + POSITIVE_OFFSET, 0x20, Hi(MAX_BLOCK_LENGTH), Lo(MAX_BLOCK_LENGTH)];
    }

    method HandleTransferData(req: bytes, io: Io) returns (resp: bytes)
      requires Valid()
      modifies this, disk`staging
      ensures Valid()
      ensures (View(), resp) == Transfer(old(View()), req, io)
    {
      hide Fold, Succ, Wrap32;
      if state != Active {
        return Negative(SID_TRANSFER_DATA, NRC_CONDITIONS_NOT_CORRECT);
      }
      if |req| < 3 {
        return Negative(SID_TRANSFER_DATA, NRC_REQUEST_OUT_OF_RANGE);
      }
      var dataLen := |req| - 2;
      if dataLen > MAX_DATA_BYTES_PER_BLOCK {
        return Negative(SID_TRANSFER_DATA, NRC_REQUEST_OUT_OF_RANGE);
      }
      var blockSeq := req[1];
      if blockSeq != nextBlockSeq {
        return Negative(SID_TRANSFER_DATA, NRC_WRONG_BLOCK_SEQUENCE_COUNTER);
      }
      var data := req[2..];
      var written := disk.Append(data, io.write);
      if written < 0 || written != dataLen {
        Fail(io);
        return Negative(SID_TRANSFER_DATA, NRC_GENERAL_PROGRAMMING_FAILURE);
      }
      runningCrc := Crc32Update(runningCrc, data);
      receivedSize := Wrap32(receivedSize + dataLen);
      nextBlockSeq := Succ(blockSeq);
      resp := [SID_TRANSFER_DATA + POSITIVE_OFFSET, blockSeq];
    }

    method HandleRequestTransferExit(req: bytes, io: Io) returns (resp: bytes)
      requires Valid()
      modifies this, disk
      ensures Valid()
      ensures (View(), resp) == Exit(old(View()), req, io)
    {
      if state != Active {
        return Negative(SID_REQUEST_TRANSFER_EXIT, NRC_CONDITIONS_NOT_CORRECT);
      }
      if receivedSize != expectedSize {
        Fail(io);
        ResetFields();
        return Negative(SID_REQUEST_TRANSFER_EXIT, NRC_CONDITIONS_NOT_CORRECT);
      }
      if |req| != 5 {
        Fail(io);
        ResetFields();
        return Negative(SID_REQUEST_TRANSFER_EXIT, NRC_INCORRECT_LENGTH);
      }
      var actualCrc := Xor(runningCrc, 0xFFFF_FFFF);
      if actualCrc != CarriedCrc(req) {
        Fail(io);
        ResetFields();
        return Negative(SID_REQUEST_TRANSFER_EXIT, NRC_GENERAL_PROGRAMMING_FAILURE);
      }
      CloseStaging();
      var failed := disk.Rename(io.renameOk);
      if failed {
        state := Failed;
        ResetFields();
        return Negative(SID_REQUEST_TRANSFER_EXIT, NRC_GENERAL_PROGRAMMING_FAILURE);
      }
      state := Complete;
      ResetFields();
      resp := [SID_REQUEST_TRANSFER_EXIT + POSITIVE_OFFSET];
    }
  }

  // ---------------------------------------------------------------------------------
  // Runs, and what an observer of the wire knows about them
  // ---------------------------------------------------------------------------------

  /** One request and the answers of the file system while it is served. */
  datatype Step = Step(req: bytes, io: Io)

  /** The session's share in the dispatch by service identifier. */
  function Serve(s: Session, step: Step): (Session, bytes) {
    if step.req == [] then (s, [])
    else if step.req[0] == SID_REQUEST_DOWNLOAD then Download(s, step.req, step.io)
    else if step.req[0] == SID_TRANSFER_DATA then Transfer(s, step.req, step.io)
    else if step.req[0] == SID_REQUEST_TRANSFER_EXIT then Exit(s, step.req, step.io)
    else (s, [])
  }

  /**
    What requests and responses alone tell: the size last announced, the blocks accepted
    since then, and the image promoted last.
   */
  datatype History = History(announced: nat, blocks: seq<bytes>, promoted: Option<bytes>)

  function Observe(h: History, req: bytes, resp: bytes): History {
    if |req| >= 11 && req[0] == SID_REQUEST_DOWNLOAD && Positive(resp, SID_REQUEST_DOWNLOAD) then
      h.(announced := U32At(req, 7), blocks := [])
    else if |req| >= 2 && req[0] == SID_TRANSFER_DATA && Positive(resp, SID_TRANSFER_DATA) then
      h.(blocks := h.blocks + [req[2..]])
    else if req != [] && req[0] == SID_REQUEST_TRANSFER_EXIT && Positive(resp, SID_REQUEST_TRANSFER_EXIT) then
      h.(promoted := Some(Flatten(h.blocks)))
    else h
  }

  /** The session and the history after `steps`, both starting from `s` and `h`. */
  function Run(s: Session, h: History, steps: seq<Step>): (Session, History)
    decreases |steps|
  {
    if steps == [] then (s, h)
    else
      var (s', resp) := Serve(s, steps[0]);
      Run(s', Observe(h, steps[0].req, resp), steps[1..])
  }

  /** The session holds exactly what the history says it should. */
  ghost predicate Consistent(s: Session, h: History) {
    && (s.state == Active <==> s.stagingOpen)
    && s.validated == h.promoted
    && (s.state == Active ==>
      && s.staging == Some(Flatten(h.blocks))
      && s.nextBlockSeq == CounterAfter(1, |h.blocks|)
      && s.receivedSize == Wrap32(|Flatten(h.blocks)|)
      && s.runningCrc == Fold(INITIAL, Flatten(h.blocks))
      && s.expectedSize == h.announced
      && 1 <= s.expectedSize <= MAX_FIRMWARE_SIZE)
  }

  lemma DownloadKeepsConsistent(s: Session, h: History, req: bytes, io: Io)
    requires Consistent(s, h) && req != [] && req[0] == SID_REQUEST_DOWNLOAD
    ensures var (s', resp) := Download(s, req, io); Consistent(s', Observe(h, req, resp))
  {
    assert Flatten([]) == [];
    assert Fold(INITIAL, []) == INITIAL;
    hide Flatten, Fold;
  }

  lemma ExitKeepsConsistent(s: Session, h: History, req: bytes, io: Io)
    requires Consistent(s, h) && req != [] && req[0] == SID_REQUEST_TRANSFER_EXIT
    ensures var (s', resp) := Exit(s, req, io); Consistent(s', Observe(h, req, resp))
  {
    hide Flatten, Fold, Xor, CarriedCrc, CounterAfter, Wrap32;
  }

  lemma TransferKeepsConsistent(s: Session, h: History, req: bytes, io: Io)
    requires Consistent(s, h) && req != [] && req[0] == SID_TRANSFER_DATA
    ensures var (s', resp) := Transfer(s, req, io); Consistent(s', Observe(h, req, resp))
  {
    hide Fold, Flatten, Succ, Wrap32;
    var (s', resp) := Transfer(s, req, io);
    if Positive(resp, SID_TRANSFER_DATA) {
      var data := req[2..];
      var staged := Flatten(h.blocks);
      FlattenAppend(h.blocks, data);
      FoldConcat(INITIAL, staged, data);
      Wrap32Add(|staged|, |data|);
      assert data[..|data|] == data;
    }
  }

  lemma ServeKeepsConsistent(s: Session, h: History, step: Step)
    requires Consistent(s, h)
    ensures var (s', resp) := Serve(s, step); Consistent(s', Observe(h, step.req, resp))
  {
    hide Consistent, Download, Transfer, Exit;
    if step.req != [] {
      if step.req[0] == SID_REQUEST_DOWNLOAD {
        DownloadKeepsConsistent(s, h, step.req, step.io);
      } else if step.req[0] == SID_TRANSFER_DATA {
        TransferKeepsConsistent(s, h, step.req, step.io);
      } else if step.req[0] == SID_REQUEST_TRANSFER_EXIT {
        ExitKeepsConsistent(s, h, step.req, step.io);
      }
    }
  }

  /**
    Promotion safety: after any requests in any order, and whatever the file system
    answered, the session is active exactly when staging is open, the staged bytes are the
    accepted blocks in order, and the validated image is the one promoted last.
   */
  lemma {:induction false} PromotionSafety(s: Session, h: History, steps: seq<Step>)
    requires Consistent(s, h)
    ensures var (s', h') := Run(s, h, steps); Consistent(s', h')
    decreases |steps|
  {
    hide Consistent, Serve, Observe;
    if steps == [] {
    } else {
      var (s', resp) := Serve(s, steps[0]);
      ServeKeepsConsistent(s, h, steps[0]);
      PromotionSafety(s', Observe(h, steps[0].req, resp), steps[1..]);
    }
  }

  lemma PromotionSafetyFromPowerUp(validated: Option<bytes>, steps: seq<Step>)
    ensures var (s', h') := Run(Initial(validated), History(0, [], validated), steps); Consistent(s', h')
  {
    PromotionSafety(Initial(validated), History(0, [], validated), steps);
  }

  /**
    When exactly 0x37 is answered positively, in terms of what was sent: the byte count is
    compared modulo 2^32 only.
   */
  lemma ExitPromotesIff(s: Session, h: History, req: bytes, io: Io)
    requires Consistent(s, h)
    ensures var (s', resp) := Exit(s, req, io);
            && (Positive(resp, SID_REQUEST_TRANSFER_EXIT) <==>
                && s.state == Active
                && Wrap32(|Flatten(h.blocks)|) == h.announced
                && |req| == 5
                && CarriedCrc(req) == Checksum(Flatten(h.blocks))
                && io.renameOk)
            && (Positive(resp, SID_REQUEST_TRANSFER_EXIT) ==> s'.validated == Some(Flatten(h.blocks)))
            && (!Positive(resp, SID_REQUEST_TRANSFER_EXIT) ==> s'.validated == s.validated)
  {
    hide Fold, Xor, CarriedCrc, Flatten, CounterAfter, Wrap32;
  }

  /** When exactly 0x34 opens a session; a refused one changes nothing. */
  lemma DownloadAcceptedIff(s: Session, req: bytes, io: Io)
    ensures var (s', resp) := Download(s, req, io);
            && (Positive(resp, SID_REQUEST_DOWNLOAD) <==>
                && s.state != Active
                && |req| >= 11 && req[2] == 0x44
                && 1 <= U32At(req, 7) <= MAX_FIRMWARE_SIZE
                && io.openOk)
            && (Positive(resp, SID_REQUEST_DOWNLOAD) ==> Consistent(s', History(U32At(req, 7), [], s.validated)))
            && (!Positive(resp, SID_REQUEST_DOWNLOAD) ==> s' == s)
  {
    assert Flatten([]) == [] && Fold(INITIAL, []) == INITIAL && CounterAfter(1, 0) == 1 && Wrap32(0) == 0;
    hide Flatten, Fold, CounterAfter, Wrap32, U32At;
  }

  /**
    A 0x36 request is accepted exactly in order, in size, and if it is written whole.  A
    refused one changes nothing, unless only the write was missing: that one ends the
    session and leaves the validated image alone.
   */
  lemma {:induction false} BlockAcceptedIff(s: Session, h: History, req: bytes, io: Io)
    requires Consistent(s, h)
    ensures var (s', resp) := Transfer(s, req, io);
            var due := s.state == Active && 3 <= |req| <= 2 + MAX_DATA_BYTES_PER_BLOCK
                       && req[1] == CounterAfter(1, |h.blocks|);
            && (Positive(resp, SID_TRANSFER_DATA) <==> due && Written(io.write, |req| - 2) == |req| - 2)
            && (!due ==> s' == s && resp[0] == SID_NEGATIVE_RESPONSE)
            && (due && !Positive(resp, SID_TRANSFER_DATA) ==>
                  && s'.state == Failed && !s'.stagingOpen && s'.validated == s.validated
                  && resp == Negative(SID_TRANSFER_DATA, NRC_GENERAL_PROGRAMMING_FAILURE))
  {
    hide Fold, Flatten, CounterAfter, Wrap32;
  }

  /** Sending an accepted block a second time is refused and changes nothing. */
  lemma RepeatedBlockChangesNothing(s: Session, req: bytes, io: Io, again: Io)
    requires Positive(Transfer(s, req, io).1, SID_TRANSFER_DATA)
    ensures var s' := Transfer(s, req, io).0;
            Transfer(s', req, again) == (s', Negative(SID_TRANSFER_DATA, NRC_WRONG_BLOCK_SEQUENCE_COUNTER))
  {
    hide Fold, Succ, Wrap32;
  }

  /** An image that was damaged inside some 32 consecutive bits is refused, and not promoted. */
  lemma DamagedImageRefused(s: Session, h: History, sent: bytes, req: bytes, io: Io, from: nat, to: nat)
    requires Consistent(s, h) && s.state == Active
    requires |req| == 5 && CarriedCrc(req) == Checksum(sent)
    requires sent != Flatten(h.blocks)
    requires DifferOnlyWithin(sent, Flatten(h.blocks), from, to) && to - from <= 32
    ensures var (s', resp) := Exit(s, req, io);
            resp[0] == SID_NEGATIVE_RESPONSE && s'.state == Failed && s'.validated == s.validated
  {
    hide Checksum, CarriedCrc, DifferOnlyWithin, Flatten;
    BurstDetected(sent, Flatten(h.blocks), from, to);
    ExitPromotesIff(s, h, req, io);
  }

  // ---------------------------------------------------------------------------------
  // The answers, byte for byte, and what is left behind
  // ---------------------------------------------------------------------------------

  /** 0x34: the refusals in the order of their checks, and the acceptance with the block length 514. */
  lemma DownloadBytes(s: Session, req: bytes, io: Io)
    ensures var (s', resp) := Download(s, req, io);
            if s.state == Active then s' == s && resp == [0x7F, 0x34, 0x70]
            else if |req| < 11 || req[2] != 0x44 || U32At(req, 7) == 0 || U32At(req, 7) > 10485760 then
              s' == s && resp == [0x7F, 0x34, 0x31]
            else if !io.openOk then s' == s && resp == [0x7F, 0x34, 0x70]
            else
              && resp == [0x74, 0x20, 0x02, 0x02]
              && s' == Session(Active, U32At(req, 7), 0, 1, 0xFFFF_FFFF, true, Some([]), s.validated)
  {
    hide U32At;
  }

  /**
    0x36: the refusals in the order of their checks, and the acceptance.  A block that is not
    written whole ends the session, and leaves no staging file if the unlink works.
   */
  lemma TransferBytes(s: Session, req: bytes, io: Io)
    requires s.state == Active ==> s.staging.Some?
    ensures var (s', resp) := Transfer(s, req, io);
            if s.state != Active then s' == s && resp == [0x7F, 0x36, 0x22]
            else if |req| < 3 || |req| > 514 then s' == s && resp == [0x7F, 0x36, 0x31]
            else if req[1] != s.nextBlockSeq then s' == s && resp == [0x7F, 0x36, 0x73]
            else if Written(io.write, |req| - 2) != |req| - 2 then
              && resp == [0x7F, 0x36, 0x72]
              && s'.state == Failed && !s'.stagingOpen && s'.validated == s.validated
              && (io.unlinkOk ==> s'.staging == None)
              && (!io.unlinkOk ==> s'.staging == Some(s.staging.value + WrittenPart(io.write, req[2..])))
            else
              && resp == [0x76, req[1]]
              && s'.state == Active && s'.staging == Some(s.staging.value + req[2..]) && s'.validated == s.validated
  {
    hide Fold, Succ, Wrap32;
    if |req| >= 3 && s.state == Active {
      assert req[2..][..|req| - 2] == req[2..];
      assert s.staging.value + [] == s.staging.value;
    }
  }

  /**
    0x37: the refusals in the order of their checks, and the promotion.  In every case the
    session is over and its counters are back at their start; a refusal before the rename
    leaves no staging file if the unlink works, and only a failed rename leaves it.
   */
  lemma ExitBytes(s: Session, req: bytes, io: Io)
    requires s.state == Active ==> s.staging.Some?
    ensures var (s', resp) := Exit(s, req, io);
            if s.state != Active then s' == s && resp == [0x7F, 0x37, 0x22]
            else
              && !s'.stagingOpen
              && s'.expectedSize == 0 && s'.receivedSize == 0 && s'.nextBlockSeq == 1 && s'.runningCrc == 0xFFFF_FFFF
              && (if s.receivedSize != s.expectedSize then
                    resp == [0x7F, 0x37, 0x22] && s'.state == Failed && Discarded(s, s', io)
                  else if |req| != 5 then
                    resp == [0x7F, 0x37, 0x13] && s'.state == Failed && Discarded(s, s', io)
                  else if CarriedCrc(req) != Xor(s.runningCrc, 0xFFFF_FFFF) then
                    resp == [0x7F, 0x37, 0x72] && s'.state == Failed && Discarded(s, s', io)
                  else if !io.renameOk then
                    && resp == [0x7F, 0x37, 0x72] && s'.state == Failed
                    && s'.staging == s.staging && s'.validated == s.validated
                  else
                    && resp == [0x77] && s'.state == Complete
                    && s'.staging == None && s'.validated == s.staging)
  {
    hide CarriedCrc, Xor;
  }

  /** What a write that falls short leaves in the file. */
  function WrittenPart(w: WriteOutcome, data: bytes): bytes {
    match w
    case Error => []
    case Short(count) => if count < |data| then data[..count] else data
    case Whole => data
  }

  /** The staging file is gone if it could be unlinked; the validated image stays. */
  predicate Discarded(s: Session, s': Session, io: Io) {
    s'.staging == (if io.unlinkOk then None else s.staging) && s'.validated == s.validated
  }

  /** Which byte of a 0x37 request weighs most in the checksum it carries. */
  lemma CarriedBytes(req: bytes)
    requires |req| == 5
    ensures CarriedCrc(req) >> 24 == req[1] as bv32 && (CarriedCrc(req) >> 16) & 0xFF == req[2] as bv32
    ensures (CarriedCrc(req) >> 8) & 0xFF == req[3] as bv32 && CarriedCrc(req) & 0xFF == req[4] as bv32
  {
  }

  /** What a write returns: all, fewer, or an error. */
  lemma WriteReturns(len: nat, count: nat)
    ensures Written(Whole, len) == len && Written(Error, len) < 0
    ensures Written(Short(count), len) == if count < len then count else len
  {
  }
}
