/**
  The transfer as a program: one object with the variables the two threads share and their own, methods that update
  it, and the sender's loops. The reader runs at any moment between two accesses of the sender. Every method is
  proved against the step of the protocol it makes, so what is proved of all runs holds of this program.
 */
module OtaSession {
  import opened Bytes
  import opened OtaWire
  import opened OtaProgress
  import opened OtaProtocol
  import opened OtaInvariant
  import opened OtaJustified
  import opened OtaTermination

  const RESPONSE_SIZE := 6
  const READ_SIZE := 512

  /** The sum is kept in sixteen bits. */
  lemma SixteenBits(n: nat)
    ensures (n % 65536) % 256 == n % 256 && (n % 65536) / 256 == (n / 256) % 256
  {
    SumField(n);
    var lo, hi := n % 256, (n / 256) % 256;
    assert n % 65536 == lo + 256 * hi && 0 <= lo < 256;
  }

  lemma SumOfPrefix(rec: seq<byte>, i: nat)
    requires i < |rec|
    ensures ByteSum(rec[..i + 1]) == ByteSum(rec[..i]) + rec[i]
  {
    assert rec[..i + 1][..i] == rec[..i];
  }

  /** Whether a record can be loaded. */
  method HasRecord(img: seq<byte>, idx: nat) returns (found: bool)
    ensures found <==> RecordAt(img, idx).Some?
    ensures found <==> idx + 3 <= |img| && var len := Le16(img[idx + 1], img[idx + 2]); len <= 1021 && idx + len <= |img|
  {
    if idx + 3 > |img| {
      return false;
    }
    var len := Le16(img[idx + 1], img[idx + 2]);
    found := len <= BUFFER_SIZE - 3 && idx + len <= |img|;
  }

  /** Copies the record at the index behind the report type and sums its bytes. */
  method CopyRecord(img: seq<byte>, idx: nat, len: nat, buf: array<byte>) returns (crc: nat)
    requires len <= BUFFER_SIZE - 3 && idx + len <= |img|
    requires buf.Length == BUFFER_SIZE && buf[..] == Zeros(BUFFER_SIZE)
    modifies buf
    ensures buf[..] == Copied(img[idx..idx + len])
    ensures crc == ByteSum(img[idx..idx + len]) % 65536
  {
    hide Copied;
    ghost var rec := img[idx..idx + len];
    assert forall j :: 0 <= j < BUFFER_SIZE ==> buf[j] == buf[..][j] == 0;
    crc := 0;
    buf[0] := REPORT_TYPE;
    for i := 0 to len
      invariant buf[0] == REPORT_TYPE
      invariant forall j :: 0 < j <= i ==> buf[j] == rec[j - 1]
      invariant forall j :: i < j < BUFFER_SIZE ==> buf[j] == 0
      invariant crc == ByteSum(rec[..i]) % 65536
    {
      assert img[idx + i] == rec[i];
      buf[i + 1] := img[idx + i];
      crc := (crc + buf[i + 1]) % 65536;
      SumOfPrefix(rec, i);
    }
    assert rec[..len] == rec;
    CopiedIs(rec, buf[..]);
  }

  lemma RecordIs(img: seq<byte>, idx: nat)
    requires RecordAt(img, idx).Some?
    ensures idx + 3 <= |img| && var len := Le16(img[idx + 1], img[idx + 2]);
            len <= BUFFER_SIZE - 3 && idx + len <= |img| && RecordAt(img, idx).value == img[idx..idx + len]
  {}

  lemma CopiedIs(rec: seq<byte>, buf: seq<byte>)
    requires |rec| <= BUFFER_SIZE - 3 && |buf| == BUFFER_SIZE && buf[0] == REPORT_TYPE
    requires forall j :: 0 < j <= |rec| ==> buf[j] == rec[j - 1]
    requires forall j :: |rec| < j < BUFFER_SIZE ==> buf[j] == 0
    ensures buf == Copied(rec)
  {
    hide ByteSum;
  }

  lemma FilledIs(rec: seq<byte>, buf: seq<byte>, crc: nat)
    requires |rec| <= BUFFER_SIZE - 3 && |buf| == BUFFER_SIZE && crc == ByteSum(rec) % 65536
    requires buf == Copied(rec)[|rec| + 1 := crc % 256][|rec| + 2 := crc / 256]
    ensures buf == Filled(rec)
  {
    SixteenBits(ByteSum(rec));
    hide ByteSum;
  }

  /** Puts the sum behind the record. */
  method SealRecord(ghost rec: seq<byte>, len: nat, crc: nat, buf: array<byte>)
    requires |rec| == len <= BUFFER_SIZE - 3 && buf.Length == BUFFER_SIZE && buf[..] == Copied(rec)
    requires crc == ByteSum(rec) % 65536
    modifies buf
    ensures buf[..] == Filled(rec)
  {
    hide Filled, Copied, ByteSum;
    buf[len + 1] := crc % 256;
    buf[len + 2] := crc / 256;
    FilledIs(rec, buf[..], crc);
  }

  lemma FillMisses(img: seq<byte>, s: State)
    requires s.pc == Fill && RecordAt(img, s.idx).None?
    ensures FillStep(img, s) == s.(pc := Overrun)
  {}

  lemma FillIs(img: seq<byte>, s: State)
    requires s.pc == Fill
    ensures SenderStep(img, s, true, false) == FillStep(img, s)
  {
    hide FillStep;
  }

  lemma FillLoads(img: seq<byte>, s: State, rec: seq<byte>)
    requires s.pc == Fill && RecordAt(img, s.idx) == Some(rec)
    ensures img != [] && |rec| <= BUFFER_SIZE - 3
    ensures FillStep(img, s) == Noted(img, s.(len := |rec|, cmdBuf := Copied(rec))).(pc := Arm, cmdBuf := Filled(rec), sends := s.sends + [0])
  {
    hide Noted, Copied, Filled;
  }

  datatype Progress = GoOn | Retry | Finished | GaveUp

  class Session {
    /** Whether the reader may be held up between checking a response and storing the verdict. */
    const split: bool

    /** The image, and the records it is made of. */
    const img: seq<byte>
    ghost const recs: seq<seq<byte>>

    // Shared by the threads.
    var otaStage: Stage
    var currentDataSeq: nat
    var flagRead: bool
    var num1: nat
    var num2: int

    // The sender's own.
    const cmdBuf: array<byte>
    var currentCmdIdx: nat
    var currentCmdLen: nat
    var sendCount: nat
    var waitCount: nat
    var remainDataLen: int

    // The reader's own.
    const rspCmd: array<byte>
    var reader: Reader

    // The sender's place and the history.
    ghost var at: Pc
    ghost var frames: seq<seq<byte>>
    ghost var sends: seq<nat>
    ghost var heard: seq<seq<byte>>
    ghost var delivered: set<seq<byte>>
    ghost const start: State
    ghost var past: seq<Label>

    constructor (split: bool, img: seq<byte>, ghost recs: seq<seq<byte>>, stage: Stage, dataSeq: nat)
      requires WellFormedImage(img, recs)
      ensures OnTrack() && at == Open && past == [] && this.split == split && this.img == img && this.recs == recs
      ensures fresh(cmdBuf) && fresh(rspCmd)
    {
      this.split, this.img, this.recs := split, img, recs;
      otaStage, currentDataSeq := stage, dataSeq;
      flagRead, num1, num2 := true, 0, 0;
      cmdBuf := new byte[BUFFER_SIZE](_ => 0);
      currentCmdIdx, currentCmdLen, sendCount, waitCount, remainDataLen := 0, 0, 0, 0, 0;
      rspCmd := new byte[RESPONSE_SIZE](_ => 0);
      reader := NotStarted;
      at, frames, sends, heard, delivered, past := Open, [], [], [], {}, [];
      start := State(Open, 0, 0, 0, 0, 0, Zeros(BUFFER_SIZE), 0, 0, stage, dataSeq, true, NotStarted, [], [], [], {});
      new;
      ImageNotEmpty(img, recs);
      assert cmdBuf[..] == Zeros(BUFFER_SIZE);
    }

    ghost function View(): State
      reads this, cmdBuf
    {
      State(at, currentCmdIdx, currentCmdLen, sendCount, waitCount, remainDataLen, cmdBuf[..], num1, num2,
            otaStage, currentDataSeq, flagRead, reader, frames, sends, heard, delivered)
    }

    ghost predicate Valid()
      reads this, cmdBuf
    {
      && cmdBuf.Length == BUFFER_SIZE && rspCmd.Length == RESPONSE_SIZE && cmdBuf != rspCmd
      && (at.LoadStage? || at.Fill? ==> cmdBuf[..] == Zeros(BUFFER_SIZE))
      && img != []
    }

    /** The object is where the protocol is after the steps taken so far. */
    ghost predicate OnTrack()
      reads this, cmdBuf
    {
      Valid() && WellFormedImage(img, recs) && Initial(start) && View() == Exec(split, img, start, past)
    }

    /** The object is one step `l` of the sender ahead of the steps noted. */
    ghost predicate Took(l: Label)
      reads this, cmdBuf
    {
      && Valid() && WellFormedImage(img, recs) && Initial(start) && l.Sender?
      && View() == Step(split, img, Exec(split, img, start, past), l) && !Done(Exec(split, img, start, past).pc)
    }

    // -------------------------------------------------------------------------------------------
    // The reader.

    /** The first bytes of a response, from a read buffer that was cleared before. */
    method CopyResponse(response: seq<byte>)
      requires rspCmd.Length == RESPONSE_SIZE
      modifies rspCmd
      ensures forall i :: 0 <= i < RESPONSE_SIZE ==> rspCmd[i] == ResponseByte(response, i)
    {
      var buf := new byte[READ_SIZE](_ => 0);
      var n := if |response| < READ_SIZE then |response| else READ_SIZE;
      for i := 0 to n
        invariant forall j :: 0 <= j < READ_SIZE ==> buf[j] == if j < i then response[j] else 0
      {
        buf[i] := response[i];
      }
      for index := 0 to RESPONSE_SIZE
        modifies rspCmd
        invariant forall i :: 0 <= i < index ==> rspCmd[i] == ResponseByte(response, i)
      {
        assert buf[index + 1] == ResponseByte(response, index);
        rspCmd[index] := buf[index + 1];
      }
    }

    /** Checks a response: what it calls for, if it is recognised. */
    method CheckResponse(response: seq<byte>) returns (verdict: Option<Stage>)
      requires Valid()
      modifies rspCmd
      ensures verdict == Classify(response, currentDataSeq)
    {
      verdict := None;
      CopyResponse(response);
      if rspCmd[0] as int == RESPONSE_RID {
        var status := rspCmd[5] as int;
        if rspCmd[2] as int == START_CMD {
          if status == SUCCESS {
            verdict := Some(NextCmd);
          } else if status == NO_NEED_UPDATE {
            verdict := Some(Complete);
          } else {
            verdict := Some(ErrRetry);
          }
        } else if rspCmd[2] as int == DATA_CMD {
          var rspSeq := Le16(rspCmd[3], rspCmd[4]);
          if rspSeq == currentDataSeq {
            if status == SUCCESS {
              verdict := Some(NextCmd);
            } else if status == NO_NEED_UPDATE {
              verdict := Some(Complete);
            } else {
              verdict := Some(ErrRetry);
            }
          } else {
            verdict := Some(ErrRetry);
          }
        } else if rspCmd[2] as int == FINISH_CMD {
          if status == SUCCESS {
            verdict := Some(Complete);
          } else if status == NO_NEED_UPDATE {
            verdict := Some(Complete);
          } else {
            verdict := Some(ErrRetry);
          }
        }
      }
    }

    /** Stores the verdict on a response; one that was not recognised leaves the mailbox alone. */
    method StoreVerdict(response: seq<byte>, verdict: Option<Stage>)
      requires Valid()
      modifies `otaStage, `reader, `heard
      ensures View() == Store(old(View()), response, verdict)
    {
      if verdict.Some? {
        otaStage := verdict.value;
      }
      heard := heard + [response];
      reader := LoopTest;
    }

    /** One step of the reader. */
    method ReaderTurn(input: Option<seq<byte>>)
      requires Valid()
      modifies rspCmd, `otaStage, `flagRead, `reader, `heard
      ensures Valid() && View() == ReaderStep(split, old(View()), input)
    {
      hide Classify;
      match reader
      case NotStarted =>
      case LoopTest => reader := if flagRead then Reading else Stopped;
      case Reading => reader := if input.Some? then Holding(input.value) else ReadFailed;
      case Holding(response) =>
        var verdict := CheckResponse(response);
        if split {
          reader := Verdict(response, verdict);
        } else {
          StoreVerdict(response, verdict);
        }
      case Verdict(response, verdict) =>
        StoreVerdict(response, verdict);
      case ReadFailed =>
        flagRead := false;
        reader := Stopped;
      case Stopped =>
    }

    // -------------------------------------------------------------------------------------------
    // The sender, one access to the shared variables at a time.

    method OpenImage(ok: bool)
      requires OnTrack() && at == Open
      modifies `at, `remainDataLen
      ensures View() == SenderStep(img, old(View()), ok, false)
      ensures Took(Sender(ok, false)) && at == if ok then Spawn else FailExit
    {
      hide Zeros, Exec, WellFormedImage, Initial, FillStep, WriteStep;
      if ok {
        remainDataLen := |img|;
        at := Spawn;
      } else {
        at := FailExit;
      }
    }

    method CreateReader(ok: bool)
      requires OnTrack() && at == Spawn
      modifies `at, `reader
      ensures View() == SenderStep(img, old(View()), ok, false)
      ensures Took(Sender(ok, false)) && at == LoadSeq
    {
      hide Zeros, Exec, WellFormedImage, Initial, FillStep, WriteStep;
      reader := if ok then LoopTest else NotStarted;
      at := LoadSeq;
    }

    method BeginRecord()
      requires OnTrack() && at == LoadSeq
      modifies `at, `sendCount, `currentDataSeq, cmdBuf
      ensures View() == SenderStep(img, old(View()), true, false)
      ensures Took(Sender(true, false)) && at == LoadStage
    {
      hide Exec, WellFormedImage, Initial, FillStep, WriteStep;
      sendCount := 0;
      currentDataSeq := 0;
      for i := 0 to BUFFER_SIZE
        modifies cmdBuf
        invariant forall j :: 0 <= j < i ==> cmdBuf[j] == 0
      {
        cmdBuf[i] := 0;
      }
      at := LoadStage;
      assert cmdBuf[..] == Zeros(BUFFER_SIZE);
    }

    method NextIndex()
      requires OnTrack() && at == LoadStage
      modifies `at, `otaStage, `currentCmdIdx
      ensures View() == SenderStep(img, old(View()), true, false)
      ensures Took(Sender(true, false)) && at == Fill
      ensures otaStage == NewCmd && currentCmdIdx == old(currentCmdIdx) + old(currentCmdLen)
    {
      hide Zeros, Exec, WellFormedImage, Initial, FillStep, WriteStep;
      otaStage := NewCmd;
      currentCmdIdx := currentCmdIdx + currentCmdLen;
      at := Fill;
    }

    /** Notes what the record copied to the command buffer is, if it is DATA. */
    method NoteData()
      requires cmdBuf.Length == BUFFER_SIZE && img != []
      modifies `currentDataSeq, `remainDataLen, `num1, `num2
      ensures View() == Noted(img, old(View()))
    {
      hide Quotient;
      ghost var buf := cmdBuf[..];
      assert cmdBuf[5] == buf[5] && cmdBuf[6] == buf[6] && cmdBuf[7] == buf[7];
      if cmdBuf[5] as int == DATA_CMD {
        currentDataSeq := Le16(cmdBuf[6], cmdBuf[7]);
        remainDataLen := remainDataLen - currentCmdLen;
        if Quotient(Wrap32(num1 * 649 * 100), |img|) >= num2 && num2 <= 99 {
          num2 := num2 + 1;
        }
        num1 := num1 + 1;
      }
    }

    /** Notes that a record was loaded. */
    ghost method NoteLoaded()
      modifies `sends, `at
      ensures sends == old(sends) + [0] && at == Arm
    {
      sends := sends + [0];
      at := Arm;
    }

    /** Builds the command buffer for a record the image holds. */
    method BuildCommand(ghost rec: seq<byte>)
      requires Valid() && at == Fill && currentCmdIdx + 3 <= |img| && RecordAt(img, currentCmdIdx) == Some(rec)
      modifies `at, `currentCmdLen, `currentDataSeq, `remainDataLen, `num1, `num2, `sends, cmdBuf
      ensures View() == FillStep(img, old(View())) && at == Arm
    {
      hide Zeros, FillStep, RecordAt, Filled, Copied, Noted, ByteSum;
      ghost var s := View();
      FillLoads(img, s, rec);
      RecordIs(img, currentCmdIdx);
      currentCmdLen := Le16(img[currentCmdIdx + 1], img[currentCmdIdx + 2]);
      var crc := CopyRecord(img, currentCmdIdx, currentCmdLen, cmdBuf);
      assert View() == s.(len := |rec|, cmdBuf := Copied(rec));
      NoteData();
      SealRecord(rec, currentCmdLen, crc, cmdBuf);
      NoteLoaded();
    }

    /** Loads the record at the index, unless it lies outside the image or is too long for the buffer. */
    method LoadRecord() returns (loaded: bool)
      requires OnTrack() && at == Fill
      modifies `at, `currentCmdLen, `currentDataSeq, `remainDataLen, `num1, `num2, `sends, cmdBuf
      ensures View() == FillStep(img, old(View()))
      ensures Took(Sender(true, false)) && at == if loaded then Arm else Overrun
      ensures var i := currentCmdIdx;
              loaded <==> i + 3 <= |img| && var len := Le16(img[i + 1], img[i + 2]); len <= 1021 && i + len <= |img|
    {
      hide Zeros, Exec, WellFormedImage, Initial, SenderStep, FillStep, RecordAt;
      FillIs(img, View());
      loaded := HasRecord(img, currentCmdIdx);
      if loaded {
        BuildCommand(RecordAt(img, currentCmdIdx).value);
      } else {
        FillMisses(img, View());
        at := Overrun;
      }
    }

    /** Marks the mailbox as waiting, so that what was heard before no longer counts, and counts the send. */
    method CountSend()
      modifies `otaStage, `heard, `sendCount, `waitCount
      ensures otaStage == Retrying && heard == [] && sendCount == old(sendCount) + 1 && waitCount == 0
    {
      otaStage := Retrying;
      heard := [];
      sendCount := sendCount + 1;
      waitCount := 0;
    }

    method ArmMailbox() returns (again: bool)
      requires OnTrack() && at == Arm
      modifies `at, `otaStage, `sendCount, `waitCount, `heard
      ensures View() == SenderStep(img, old(View()), true, false)
      ensures Took(Sender(true, false)) && at == if again then Write else FailExit
    {
      hide Zeros, Exec, WellFormedImage, Initial, FillStep, WriteStep;
      CountSend();
      again := sendCount <= MAX_SENDS;
      at := if again then Write else FailExit;
    }

    /** Notes a frame handed to the channel. */
    ghost method NoteFrame(frame: seq<byte>, delivery: bool)
      modifies `frames, `sends, `delivered
      ensures frames == old(frames) + [frame] && sends == SentOnce(old(sends))
      ensures delivered == if delivery then old(delivered) + {frame} else old(delivered)
    {
      frames := frames + [frame];
      sends := SentOnce(sends);
      delivered := if delivery then delivered + {frame} else delivered;
    }

    /** Hands the frame to the channel, which may fail, and which may lose it. */
    method HidWrite(ok: bool, got: bool)
      requires OnTrack() && at == Write
      modifies `at, `frames, `sends, `delivered
      ensures View() == SenderStep(img, old(View()), ok, got)
      ensures Took(Sender(ok, got)) && at == if ok then Tick else FailExit
    {
      hide Zeros, Exec, WellFormedImage, Initial, FillStep, FrameIn, SentOnce;
      NoteFrame(FrameIn(cmdBuf[..], currentCmdLen), ok && got);
      at := if ok then Tick else FailExit;
    }

    method CountPoll() returns (inTime: bool)
      requires OnTrack() && at == Tick
      modifies `at, `waitCount
      ensures View() == SenderStep(img, old(View()), true, false)
      ensures Took(Sender(true, false)) && at == if inTime then CheckNext else Arm
      ensures waitCount == old(waitCount) + 1 <= 750 && (inTime <==> waitCount < 750)
    {
      hide Zeros, Exec, WellFormedImage, Initial, FillStep, WriteStep, Inv;
      RunKeeps(split, img, recs, start, past);
      InvBounded(img, recs, View());
      waitCount := waitCount + 1;
      inTime := waitCount < OTA_WAIT_TIME;
      at := if inTime then CheckNext else Arm;
    }

    /** One of the three looks a poll takes at the mailbox. */
    method LooksLike(stage: Stage) returns (yes: bool)
      requires OnTrack()
      requires (at == CheckNext && stage == NextCmd) || (at == CheckErr && stage == ErrRetry) || (at == CheckComplete && stage == Complete)
      modifies `at
      ensures View() == SenderStep(img, old(View()), true, false)
      ensures yes <==> old(otaStage) == stage
      ensures Took(Sender(true, false)) && at == match stage case NextCmd => (if yes then LoadSeq else CheckErr) case ErrRetry => (if yes then Arm else CheckComplete) case _ => if yes then SuccessExit else Tick
    {
      hide Zeros, Exec, WellFormedImage, Initial, FillStep, WriteStep;
      yes := otaStage == stage;
      at := match at
        case CheckNext => if yes then LoadSeq else CheckErr
        case CheckErr => if yes then Arm else CheckComplete
        case CheckComplete => if yes then SuccessExit else Tick
        case _ => at;
    }

    method StopReader()
      requires OnTrack() && (at == FailExit || at == SuccessExit)
      modifies `at, `flagRead
      ensures View() == SenderStep(img, old(View()), true, false)
      ensures Took(Sender(true, false)) && at == if old(at) == FailExit then Failed else Succeeded
    {
      hide Zeros, Exec, WellFormedImage, Initial, FillStep, WriteStep;
      flagRead := false;
      at := if at == FailExit then Failed else Succeeded;
    }

    // -------------------------------------------------------------------------------------------
    // The sender's loops.

    /** The sender steps the protocol still allows. */
    ghost function Fuel(labels: seq<Label>): int {
      Rank(|recs|, Exec(split, img, start, labels))
    }

    /** Since the first `from` steps, at step `k`, the sender's look `pc` at the mailbox found `v`. */
    ghost predicate Saw(from: nat, k: nat, pc: Pc, v: Stage)
      reads this
    {
      && from <= k < |past| && past[k].Sender?
      && Exec(split, img, start, past[..k]).pc == pc && Exec(split, img, start, past[..k]).stage == v
    }

    ghost predicate Found(from: nat, pc: Pc, v: Stage)
      reads this
    {
      exists k: nat :: Saw(from, k, pc, v)
    }

    /** The reader takes a turn, and the turn is noted. */
    method NotedTurn(input: Option<seq<byte>>)
      requires OnTrack()
      modifies rspCmd, `otaStage, `flagRead, `reader, `heard, `past
      ensures OnTrack() && Fuel(past) == old(Fuel(past))
      ensures old(past) <= past && SenderSteps(past) == SenderSteps(old(past))
    {
      hide ReaderStep, Exec, WellFormedImage, Initial, Rank;
      TurnCounts(split, img, recs, start, past, Label.Reader(input));
      ReaderTurn(input);
      past := past + [Label.Reader(input)];
    }

    /** Between two accesses of the sender the reader takes any number of turns, reading whatever it reads. */
    method ReaderRuns()
      requires OnTrack()
      modifies rspCmd, `otaStage, `flagRead, `reader, `heard, `past
      ensures OnTrack() && Fuel(past) == old(Fuel(past))
      ensures old(past) <= past && SenderSteps(past) == SenderSteps(old(past))
    {
      hide OnTrack, Fuel, SenderSteps;
      var turns: int := *;
      while turns > 0
        invariant OnTrack() && Fuel(past) == old(Fuel(past))
        invariant old(past) <= past && SenderSteps(past) == SenderSteps(old(past))
      {
        turns := turns - 1;
        var input: Option<seq<byte>> := *;
        NotedTurn(input);
      }
    }

    /** The sender has taken a step; now the reader may run. */
    method Yield(ghost l: Label)
      requires Took(l)
      modifies rspCmd, `otaStage, `flagRead, `reader, `heard, `past
      ensures OnTrack() && 0 <= Fuel(past) < old(Fuel(past))
      ensures old(past) + [l] <= past && SenderSteps(past) == SenderSteps(old(past)) + 1
    {
      hide Step, WellFormedImage, Initial, Rank;
      RunKeeps(split, img, recs, start, past);
      StepRank(split, img, recs, Exec(split, img, start, past), l);
      ExecMore(split, img, start, past, l);
      assert (past + [l])[..|past|] == past;
      past := past + [l];
      ReaderRuns();
      RunKeeps(split, img, recs, start, past);
      InvBounded(img, recs, View());
    }

    /** Polls the mailbox until it calls for something or the time is up. It goes on, retries or is done on what a look has
        found before the 750th poll, or else retries with that poll, and takes four steps for every poll before the last. */
    method AwaitAnswer() returns (answer: Progress)
      requires OnTrack() && at == Tick
      modifies rspCmd, `otaStage, `flagRead, `reader, `heard, `past, `at, `waitCount
      ensures OnTrack() && Fuel(past) <= old(Fuel(past)) && old(past) <= past
      ensures !answer.GaveUp? && at == match answer case GoOn => LoadSeq case Retry => Arm case _ => SuccessExit
      ensures old(waitCount) < waitCount <= 750
      ensures match answer
        case GoOn => waitCount < 750 && Found(old(|past|), CheckNext, NextCmd)
        case Retry => waitCount < 750 ==> Found(old(|past|), CheckErr, ErrRetry)
        case _ => waitCount < 750 && Found(old(|past|), CheckComplete, Complete)
      ensures SenderSteps(past) == SenderSteps(old(past)) + 4 * (waitCount - old(waitCount) - 1)
        + match answer case GoOn => 2 case Retry => (if waitCount == 750 then 1 else 3) case _ => 4
    {
      hide OnTrack, Took, Fuel, View, SenderStep, FillStep, SenderSteps, Found;
      while true
        invariant OnTrack() && at == Tick && Fuel(past) <= old(Fuel(past)) && old(past) <= past
        invariant old(waitCount) <= waitCount && SenderSteps(past) == SenderSteps(old(past)) + 4 * (waitCount - old(waitCount))
        decreases Fuel(past)
      {
        var inTime := CountPoll();
        Yield(Sender(true, false));
        if !inTime {
          return Retry;
        }
        var next := Look(NextCmd, old(|past|));
        if next {
          return GoOn;
        }
        var err := Look(ErrRetry, old(|past|));
        if err {
          return Retry;
        }
        var complete := Look(Complete, old(|past|));
        if complete {
          return Finished;
        }
      }
    }

    /** One look, after which the reader may run. */
    method Look(stage: Stage, ghost from: nat) returns (yes: bool)
      requires OnTrack() && from <= |past|
      requires (at == CheckNext && stage == NextCmd) || (at == CheckErr && stage == ErrRetry) || (at == CheckComplete && stage == Complete)
      modifies rspCmd, `otaStage, `flagRead, `reader, `heard, `past, `at
      ensures OnTrack() && 0 <= Fuel(past) < old(Fuel(past)) && old(past) <= past
      ensures SenderSteps(past) == SenderSteps(old(past)) + 1
      ensures at == match stage case NextCmd => (if yes then LoadSeq else CheckErr) case ErrRetry => (if yes then Arm else CheckComplete) case _ => if yes then SuccessExit else Tick
      ensures yes ==> Found(from, old(at), stage)
    {
      hide Took, Fuel, SenderStep, FillStep, SenderSteps, Exec, WellFormedImage, Initial;
      ghost var k, pc := |past|, at;
      ghost var before := past;
      assert View() == Exec(split, img, start, past);
      yes := LooksLike(stage);
      Yield(Sender(true, false));
      assert past[..k] == before && past[k] == Sender(true, false);
      assert yes ==> Saw(from, k, pc, stage);
    }

    /** Sends the record in the command buffer until it is answered, at most three times. */
    method SendRecord() returns (answer: Progress)
      requires OnTrack() && at == Arm
      modifies rspCmd, `otaStage, `flagRead, `reader, `heard, `past, `at, `waitCount, `sendCount, `frames, `sends, `delivered
      ensures OnTrack() && Fuel(past) <= old(Fuel(past))
      ensures !answer.Retry? && at == match answer case GoOn => LoadSeq case Finished => SuccessExit case _ => FailExit
    {
      hide OnTrack, Took, Fuel, View, SenderStep, FillStep;
      while true
        invariant OnTrack() && at == Arm && Fuel(past) <= old(Fuel(past))
        decreases Fuel(past)
      {
        var again := ArmMailbox();
        Yield(Sender(true, false));
        if !again {
          return GaveUp;
        }
        var ok: bool, got: bool := *, *;
        HidWrite(ok, got);
        Yield(Sender(ok, got));
        if !ok {
          return GaveUp;
        }
        answer := AwaitAnswer();
        if answer != Retry {
          return;
        }
      }
    }

    /** Loads and sends one record after the other; `inside` tells whether that stayed within the image. */
    method SendRecords() returns (inside: bool)
      requires OnTrack() && at == LoadSeq
      modifies this, cmdBuf, rspCmd
      ensures OnTrack() && if inside then at == FailExit || at == SuccessExit else at == Overrun
    {
      hide OnTrack, Took, Fuel, View, SenderStep, FillStep;
      while true
        invariant OnTrack() && at == LoadSeq
        decreases Fuel(past)
      {
        BeginRecord();
        Yield(Sender(true, false));
        NextIndex();
        Yield(Sender(true, false));
        var loaded := LoadRecord();
        Yield(Sender(true, false));
        if !loaded {
          return false;
        }
        var answer := SendRecord();
        if answer != GoOn {
          return true;
        }
      }
    }

    /** The transfer. However the reader interleaves, whatever it reads, whether or not the writes succeed: it ends,
        it has taken only steps of the protocol, and what it handed to the channel are the image's records in
        order, each one to three times. Every record left and success itself have their response, unless, with check and
        store apart, a stale verdict was held; and the run stays inside the image exactly when no look takes it off
        FINISH. */
    method OtaUpdate()
      requires OnTrack() && at == Open
      modifies this, cmdBuf, rspCmd
      ensures OnTrack() && Done(at)
      ensures |sends| <= |recs| && frames == Replay(recs, sends) && forall i :: 0 <= i < |sends| ==> 1 <= sends[i] <= 3
      ensures at == Succeeded ==>
        (exists k: nat :: EndsJustified(split, img, recs, start, past, k, sends)) || (split && StaleHeld(img, start, past, |sends|, Complete))
      ensures forall i :: 0 <= i < Passed(View()) ==> JustlyLeft(split, img, recs, start, past, i)
      ensures at == Failed || at == Succeeded <==> !exists k: nat :: LeavesFinish(split, img, recs, start, past, k)
    {
      hide Took, Fuel, SenderStep, FillStep, Exec, Rank, WellFormedImage, Initial;
      var ok: bool := *;
      OpenImage(ok);
      Yield(Sender(ok, false));
      var inside := true;
      if ok {
        var created: bool := *;
        CreateReader(created);
        Yield(Sender(created, false));
        inside := SendRecords();
      }
      if inside {
        StopReader();
        Yield(Sender(true, false));
      }
      RunKeeps(split, img, recs, start, past);
      DoneSends(img, recs, View());
      Meaning(split, img, recs, start, past, View());
      AllJustlyLeft(split, img, recs, start, past);
    }
  }

  /** A turn of the reader is one more step, and uses none of the sender's. */
  lemma TurnCounts(split: bool, img: seq<byte>, recs: seq<seq<byte>>, s0: State, labels: seq<Label>, l: Label)
    requires WellFormedImage(img, recs) && Initial(s0) && l.Reader?
    ensures var s := Exec(split, img, s0, labels);
            var t := Exec(split, img, s0, labels + [l]);
            t == Step(split, img, s, l) && Rank(|recs|, t) == Rank(|recs|, s)
  {
    hide Exec, Step, Inv, Rank;
    RunKeeps(split, img, recs, s0, labels);
    StepRank(split, img, recs, Exec(split, img, s0, labels), l);
    ExecMore(split, img, s0, labels, l);
  }

  /** What the theorems about runs say of a run that is over. */
  lemma Meaning(split: bool, img: seq<byte>, recs: seq<seq<byte>>, s0: State, labels: seq<Label>, s: State)
    requires WellFormedImage(img, recs) && Initial(s0) && s == Exec(split, img, s0, labels) && Done(s.pc)
    ensures s.pc == Succeeded ==>
      (exists k: nat :: EndsJustified(split, img, recs, s0, labels, k, s.sends)) || (split && StaleHeld(img, s0, labels, |s.sends|, Complete))
    ensures s.pc == Failed || s.pc == Succeeded <==> !exists k: nat :: LeavesFinish(split, img, recs, s0, labels, k)
  {
    hide Exec, Inv, EndsJustified, LeavesFinish, StaleHeld;
    DoneIff(split, img, recs, s0, labels);
    if s.pc == Succeeded {
      SuccessProvenance(split, img, recs, s0, labels);
    }
  }

  /** Record `i` was left on an advancing response, or on a stale advance held when the mailbox was first armed for it. */
  ghost predicate JustlyLeft(split: bool, img: seq<byte>, recs: seq<seq<byte>>, s0: State, labels: seq<Label>, i: nat) {
    (exists k: nat :: LeavesJustified(split, img, recs, s0, labels, k, i)) || (split && StaleHeld(img, s0, labels, i + 1, NextCmd))
  }

  lemma AllJustlyLeft(split: bool, img: seq<byte>, recs: seq<seq<byte>>, s0: State, labels: seq<Label>)
    requires WellFormedImage(img, recs) && Initial(s0)
    ensures forall i :: 0 <= i < Passed(Exec(split, img, s0, labels)) ==> JustlyLeft(split, img, recs, s0, labels, i)
  {
    hide Exec, Passed, LeavesJustified, StaleHeld;
    forall i | 0 <= i < Passed(Exec(split, img, s0, labels)) ensures JustlyLeft(split, img, recs, s0, labels, i) {
      JustifiedAdvance(split, img, recs, s0, labels, i);
    }
  }

  lemma DoneSends(img: seq<byte>, recs: seq<seq<byte>>, s: State)
    requires Inv(img, recs, s) && Done(s.pc)
    ensures |s.sends| <= |recs| && s.frames == Replay(recs, s.sends) && forall i :: 0 <= i < |s.sends| ==> 1 <= s.sends[i] <= MAX_SENDS
  {
    hide OnRecord, Books, Replay, WellFormedImage;
  }
}
