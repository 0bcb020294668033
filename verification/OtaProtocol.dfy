/**
  The firmware transfer as a state machine of two threads. The sender walks the image and polls a one-place
  mailbox; the reader classifies responses into it. One step is one access to what the threads share.
 */
module OtaProtocol {
  import opened Bytes
  import opened OtaWire
  import opened OtaProgress

  /** Where the sender is. The three `Check`s are the three reads of the mailbox in one poll. `Overrun` is
      reached when the next record would lie outside the image or outgrow the command buffer. */
  datatype Pc = Open | Spawn | LoadSeq | LoadStage | Fill | Arm | Write | Tick | CheckNext | CheckErr | CheckComplete
              | FailExit | Failed | SuccessExit | Succeeded | Overrun

  /** Where the reader is. In the split model a verdict is held between checking a response and storing it. */
  datatype Reader = NotStarted | LoopTest | Reading | Holding(response: seq<byte>)
                  | Verdict(response: seq<byte>, verdict: Option<Stage>) | ReadFailed | Stopped

  /** The threads' variables, then what is remembered of the run: the frames handed to the channel, how many
      of them for each record loaded so far, the responses stored since the sender last armed the mailbox, and
      the frames the device got. */
  datatype State = State(
    pc: Pc, idx: nat, len: nat, sendCount: nat, waitCount: nat, remain: int, cmdBuf: seq<byte>, num1: nat, num2: int,
    stage: Stage, seqNo: nat, flagRead: bool,
    reader: Reader,
    frames: seq<seq<byte>>, sends: seq<nat>, heard: seq<seq<byte>>, delivered: set<seq<byte>>)

  /** A step of the sender, with the outcome of the foreign call it makes, if any, and whether a frame written
      reaches the device; or a step of the reader, with what a read returns (`None` is an error). */
  datatype Label = Sender(ok: bool, got: bool) | Reader(input: Option<seq<byte>>)

  /** At the start the statics of an earlier run may hold anything. */
  predicate Initial(s: State) {
    && s.pc == Open && s.idx == 0 && s.len == 0 && s.sendCount == 0 && s.waitCount == 0 && s.remain == 0
    && s.num1 == 0 && s.num2 == 0 && s.flagRead && s.reader == NotStarted
    && s.frames == [] && s.sends == [] && s.heard == [] && s.delivered == {}
  }

  // ---------------------------------------------------------------------------------------------
  // The sender.

  /** The record at `idx`, if its length field, the record itself and the buffer allow it. */
  function RecordAt(img: seq<byte>, idx: nat): Option<seq<byte>> {
    if idx + 3 <= |img| && Le16(img[idx + 1], img[idx + 2]) <= BUFFER_SIZE - 3 && idx + Le16(img[idx + 1], img[idx + 2]) <= |img|
    then Some(img[idx..idx + Le16(img[idx + 1], img[idx + 2])])
    else None
  }

  /** The command buffer after the copy loop, before the sum is put behind the record. */
  function Copied(rec: seq<byte>): (buf: seq<byte>)
    requires |rec| <= BUFFER_SIZE - 3
    ensures |buf| == BUFFER_SIZE
  {
    [REPORT_TYPE] + rec + Zeros(BUFFER_SIZE - 1 - |rec|)
  }

  /** What the sender notes of the record in the command buffer, if it is DATA. */
  function Noted(img: seq<byte>, s: State): State
    requires img != [] && |s.cmdBuf| == BUFFER_SIZE
  {
    if s.cmdBuf[5] == DATA_CMD
    then s.(seqNo := Le16(s.cmdBuf[6], s.cmdBuf[7]), remain := s.remain - s.len,
            num2 := NextPercent(s.num1, s.num2, |img|), num1 := s.num1 + 1)
    else s
  }

  /** Loading the record at `idx`: nothing the reader sees changes but the sequence number. */
  function FillStep(img: seq<byte>, s: State): (t: State)
    requires s.pc == Fill
    ensures t.pc == Arm || t == s.(pc := Overrun)
    ensures t.pc == Arm ==> t.sends == s.sends + [0]
    ensures t.idx == s.idx && t.sendCount == s.sendCount && t.waitCount == s.waitCount && t.frames == s.frames
    ensures t.stage == s.stage && t.flagRead == s.flagRead && t.reader == s.reader && t.heard == s.heard && t.delivered == s.delivered
  {
    match RecordAt(img, s.idx)
    case None => s.(pc := Overrun)
    case Some(rec) =>
      Noted(img, s.(len := |rec|, cmdBuf := Copied(rec))).(pc := Arm, cmdBuf := Filled(rec), sends := s.sends + [0])
  }

  /** The bytes handed to the channel: the report type and the record, without the sum. */
  function FrameIn(buf: seq<byte>, len: nat): seq<byte> {
    buf[..if len + 1 <= |buf| then len + 1 else |buf|]
  }

  function SentOnce(sends: seq<nat>): (more: seq<nat>)
    ensures |more| == |sends|
  {
    if sends == [] then [] else sends[|sends| - 1 := sends[|sends| - 1] + 1]
  }

  /** Handing the command buffer's frame to the channel: one more frame, sent once more for the record loaded last. */
  function WriteStep(s: State, ok: bool, got: bool): (t: State)
    ensures t.pc == if ok then Tick else FailExit
    ensures |t.frames| == |s.frames| + 1 && |t.sends| == |s.sends|
    ensures t.idx == s.idx && t.len == s.len && t.sendCount == s.sendCount && t.waitCount == s.waitCount && t.seqNo == s.seqNo
    ensures t.stage == s.stage && t.flagRead == s.flagRead && t.reader == s.reader && t.heard == s.heard
  {
    var frame := FrameIn(s.cmdBuf, s.len);
    s.(pc := if ok then Tick else FailExit, frames := s.frames + [frame], sends := SentOnce(s.sends),
       delivered := if ok && got then s.delivered + {frame} else s.delivered)
  }

  function SenderStep(img: seq<byte>, s: State, ok: bool, got: bool): State {
    match s.pc
    case Open => if ok then s.(pc := Spawn, remain := |img|) else s.(pc := FailExit)
    case Spawn => s.(pc := LoadSeq, reader := if ok then LoopTest else NotStarted)
    case LoadSeq => s.(pc := LoadStage, sendCount := 0, seqNo := 0, cmdBuf := Zeros(BUFFER_SIZE))
    case LoadStage => s.(pc := Fill, stage := NewCmd, idx := s.idx + s.len)
    case Fill => FillStep(img, s)
    case Arm =>
      s.(pc := if s.sendCount + 1 > MAX_SENDS then FailExit else Write,
         stage := Retrying, heard := [], sendCount := s.sendCount + 1, waitCount := 0)
    case Write => WriteStep(s, ok, got)
    case Tick => s.(pc := if s.waitCount + 1 < OTA_WAIT_TIME then CheckNext else Arm, waitCount := s.waitCount + 1)
    case CheckNext => s.(pc := if s.stage == NextCmd then LoadSeq else CheckErr)
    case CheckErr => s.(pc := if s.stage == ErrRetry then Arm else CheckComplete)
    case CheckComplete => s.(pc := if s.stage == Complete then SuccessExit else Tick)
    case FailExit => s.(pc := Failed, flagRead := false)
    case SuccessExit => s.(pc := Succeeded, flagRead := false)
    case Failed => s
    case Succeeded => s
    case Overrun => s
  }

  // ---------------------------------------------------------------------------------------------
  // The reader.

  /** A verdict reaches the mailbox, unless the response was not recognised. */
  function Store(s: State, response: seq<byte>, verdict: Option<Stage>): State {
    s.(reader := LoopTest, heard := s.heard + [response], stage := if verdict.Some? then verdict.value else s.stage)
  }

  function ReaderStep(split: bool, s: State, input: Option<seq<byte>>): State {
    match s.reader
    case NotStarted => s
    case LoopTest => s.(reader := if s.flagRead then Reading else Stopped)
    case Reading => s.(reader := if input.Some? then Holding(input.value) else ReadFailed)
    case Holding(response) =>
      if split then s.(reader := Verdict(response, Classify(response, s.seqNo)))
      else Store(s, response, Classify(response, s.seqNo))
    case Verdict(response, verdict) => Store(s, response, verdict)
    case ReadFailed => s.(reader := Stopped, flagRead := false)
    case Stopped => s
  }

  // ---------------------------------------------------------------------------------------------
  // Runs.

  function Step(split: bool, img: seq<byte>, s: State, l: Label): State {
    match l
    case Sender(ok, got) => SenderStep(img, s, ok, got)
    case Reader(input) => ReaderStep(split, s, input)
  }

  /** The state after a schedule: any interleaving of the two threads, with any outcome of every call. */
  function Exec(split: bool, img: seq<byte>, s: State, labels: seq<Label>): State {
    if labels == [] then s else Step(split, img, Exec(split, img, s, labels[..|labels| - 1]), labels[|labels| - 1])
  }

  predicate Polling(pc: Pc) {
    pc.Tick? || pc.CheckNext? || pc.CheckErr? || pc.CheckComplete?
  }

  /** A send is outstanding: the mailbox is armed for it. */
  predicate Outstanding(pc: Pc) {
    pc.Write? || Polling(pc)
  }

  /** The sender stands on a record it has loaded and not left. */
  predicate Armed(pc: Pc) {
    pc.Arm? || Outstanding(pc)
  }

  predicate Done(pc: Pc) {
    pc.Failed? || pc.Succeeded? || pc.Overrun?
  }

  /** The mailbox as a function of what was heard since it was armed: the last recognised response counts. */
  function Mailbox(heard: seq<seq<byte>>, seqNo: nat): Stage {
    if heard == [] then Retrying
    else match Classify(heard[|heard| - 1], seqNo)
         case Some(stage) => stage
         case None => Mailbox(heard[..|heard| - 1], seqNo)
  }

  /** The last recognised response, if any. */
  function LastRecognised(heard: seq<seq<byte>>): Option<seq<byte>> {
    if heard == [] then None
    else if Recognised(heard[|heard| - 1]) then Some(heard[|heard| - 1])
    else LastRecognised(heard[..|heard| - 1])
  }

  lemma {:induction false} MailboxMeans(heard: seq<seq<byte>>, seqNo: nat)
    ensures var last := LastRecognised(heard);
            && (last.None? <==> Mailbox(heard, seqNo) == Retrying)
            && (last.Some? ==> last.value in heard && Recognised(last.value) && Classify(last.value, seqNo) == Some(Mailbox(heard, seqNo)))
            && (Mailbox(heard, seqNo) == NextCmd <==> last.Some? && Advances(last.value, seqNo))
            && (Mailbox(heard, seqNo) == Complete <==> last.Some? && Completes(last.value, seqNo))
  {
    if heard != [] {
      ClassifyMeans(heard[|heard| - 1], seqNo);
      if Classify(heard[|heard| - 1], seqNo).None? {
        MailboxMeans(heard[..|heard| - 1], seqNo);
      }
    }
  }
}
