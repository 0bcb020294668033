/**
  What every step of either thread keeps, whatever the schedule, the outcome of the foreign calls and the
  responses: the frames written so far are the records in order, each at least once and at most three times.
 */
module OtaInvariant {
  import opened Bytes
  import opened OtaWire
  import opened OtaProgress
  import opened OtaProtocol

  function Repeat(frame: seq<byte>, n: nat): (frames: seq<seq<byte>>)
    ensures |frames| == n
  {
    if n == 0 then [] else Repeat(frame, n - 1) + [frame]
  }

  /** The frames of the first records, `sends[i]` times that of record `i`. */
  function Replay(recs: seq<seq<byte>>, sends: seq<nat>): seq<seq<byte>>
    requires |sends| <= |recs|
    decreases |sends|
  {
    if sends == [] then []
    else Replay(recs, sends[..|sends| - 1]) + Repeat(Frame(recs[|sends| - 1]), sends[|sends| - 1])
  }

  lemma ReplayLoad(recs: seq<seq<byte>>, sends: seq<nat>)
    requires |sends| < |recs|
    ensures Replay(recs, sends + [0]) == Replay(recs, sends)
  {
    assert (sends + [0])[..|sends|] == sends;
  }

  lemma ReplaySend(recs: seq<seq<byte>>, sends: seq<nat>, more: seq<nat>)
    requires 0 < |sends| <= |recs|
    requires more == sends[|sends| - 1 := sends[|sends| - 1] + 1]
    ensures Replay(recs, more) == Replay(recs, sends) + [Frame(recs[|sends| - 1])]
  {
    assert more[..|sends| - 1] == sends[..|sends| - 1];
  }

  /** The bytes of the DATA records among the first `k`. */
  function DataBytes(recs: seq<seq<byte>>, k: nat): nat
    requires k <= |recs| && forall i :: 0 <= i < |recs| ==> WellFormedRecord(recs[i])
  {
    if k == 0 then 0 else DataBytes(recs, k - 1) + if IsData(recs[k - 1]) then |recs[k - 1]| else 0
  }

  function DataCount(recs: seq<seq<byte>>, k: nat): nat
    requires k <= |recs| && forall i :: 0 <= i < |recs| ==> WellFormedRecord(recs[i])
  {
    if k == 0 then 0 else DataCount(recs, k - 1) + if IsData(recs[k - 1]) then 1 else 0
  }

  lemma {:induction false} DataBytesBound(recs: seq<seq<byte>>, k: nat)
    requires k <= |recs| && forall i :: 0 <= i < |recs| ==> WellFormedRecord(recs[i])
    ensures DataBytes(recs, k) <= Offset(recs, k)
  {
    if k > 0 {
      DataBytesBound(recs, k - 1);
      NextOffset(recs, k - 1);
    }
  }

  /** The sender's view of the image is the list of records. */
  lemma RecordAtOffset(img: seq<byte>, recs: seq<seq<byte>>, k: nat)
    requires WellFormedImage(img, recs) && k <= |recs|
    ensures RecordAt(img, Offset(recs, k)) == if k < |recs| then Some(recs[k]) else None
  {
    if k < |recs| {
      RecordInImage(recs, k);
      var a, rec := Offset(recs, k), recs[k];
      assert WellFormedRecord(rec);
      assert img[a..a + |rec|][1] == rec[1] && img[a..a + |rec|][2] == rec[2];
    } else {
      WholeOffset(recs);
    }
  }

  /** Sixteen bits of a sum are put behind the record, low byte first. */
  lemma SumField(n: nat)
    ensures n % 256 + 256 * ((n / 256) % 256) == n % 65536
  {
    var q := n / 256;
    assert n == 256 * q + n % 256 && q == 256 * (q / 256) + q % 256;
    assert n == 65536 * (q / 256) + (256 * (q % 256) + n % 256);
  }

  // ---------------------------------------------------------------------------------------------
  // The invariant.

  predicate Sent(sends: seq<nat>, k: int) {
    forall i :: 0 <= i < |sends| && i < k ==> 1 <= sends[i] <= MAX_SENDS
  }

  /** The sender stands on the record it loaded last. */
  predicate OnRecord(recs: seq<seq<byte>>, s: State)
    requires forall i :: 0 <= i < |recs| ==> WellFormedRecord(recs[i])
  {
    && 0 < |s.sends| <= |recs|
    && s.idx == Offset(recs, |s.sends| - 1)
    && var rec := recs[|s.sends| - 1];
       assert WellFormedRecord(rec);
       s.len == |rec| && s.cmdBuf == Filled(rec) && s.seqNo == SeqOf(rec)
  }

  predicate Waiting(recs: seq<seq<byte>>, s: State)
    requires forall i :: 0 <= i < |recs| ==> WellFormedRecord(recs[i])
  {
    OnRecord(recs, s) && 1 <= s.sends[|s.sends| - 1] == s.sendCount <= MAX_SENDS && s.waitCount < OTA_WAIT_TIME
  }

  predicate Settled(recs: seq<seq<byte>>, s: State)
    requires forall i :: 0 <= i < |recs| ==> WellFormedRecord(recs[i])
  {
    OnRecord(recs, s) && Sent(s.sends, |s.sends|)
  }

  /** Record by record, as far as the sender has come. */
  predicate Place(recs: seq<seq<byte>>, s: State)
    requires |s.sends| <= |recs| && forall i :: 0 <= i < |recs| ==> WellFormedRecord(recs[i])
  {
    match s.pc
    case Open => s.sends == [] && s.idx + s.len == 0
    case Spawn => s.sends == [] && s.idx + s.len == 0
    case LoadSeq => Sent(s.sends, |s.sends|) && s.idx + s.len == Offset(recs, |s.sends|)
    case LoadStage =>
      && Sent(s.sends, |s.sends|) && s.idx + s.len == Offset(recs, |s.sends|)
      && s.seqNo == 0 && s.sendCount == 0
    case Fill =>
      && Sent(s.sends, |s.sends|) && s.idx == Offset(recs, |s.sends|)
      && s.seqNo == 0 && s.sendCount == 0
    case Arm => OnRecord(recs, s) && s.sends[|s.sends| - 1] == s.sendCount <= MAX_SENDS
    case Write => OnRecord(recs, s) && s.sends[|s.sends| - 1] + 1 == s.sendCount <= MAX_SENDS && s.waitCount == 0
    case Tick => Waiting(recs, s)
    case CheckNext => Waiting(recs, s)
    case CheckErr => Waiting(recs, s)
    case CheckComplete => Waiting(recs, s)
    case FailExit => Sent(s.sends, |s.sends|)
    case Failed => Sent(s.sends, |s.sends|)
    case SuccessExit => Settled(recs, s)
    case Succeeded => Settled(recs, s)
    case Overrun => |s.sends| == |recs| && Sent(s.sends, |s.sends|)
  }

  /** The image has been read. */
  predicate Opened(s: State) {
    s.pc != Open && (s.sends == [] ==> (!s.pc.FailExit? && !s.pc.Failed?))
  }

  /** The counters, as functions of how many records have been loaded. */
  predicate Books(img: seq<byte>, recs: seq<seq<byte>>, s: State)
    requires |s.sends| <= |recs| && img != [] && forall i :: 0 <= i < |recs| ==> WellFormedRecord(recs[i])
  {
    && (Opened(s) ==> s.remain == |img| - DataBytes(recs, |s.sends|))
    && s.num1 == DataCount(recs, |s.sends|)
    && s.num2 == Percent(s.num1, |img|)
  }

  predicate Inv(img: seq<byte>, recs: seq<seq<byte>>, s: State) {
    && WellFormedImage(img, recs) && img != []
    && |s.sends| <= |recs| && s.frames == Replay(recs, s.sends) && Sent(s.sends, |s.sends| - 1)
    && Place(recs, s) && Books(img, recs, s)
  }

  lemma ImageNotEmpty(img: seq<byte>, recs: seq<seq<byte>>)
    requires WellFormedImage(img, recs)
    ensures img != []
  {
    RecordInImage(recs, 0);
    assert WellFormedRecord(recs[0]);
  }

  lemma InitialInv(img: seq<byte>, recs: seq<seq<byte>>, s: State)
    requires WellFormedImage(img, recs) && Initial(s)
    ensures Inv(img, recs, s)
  {
    ImageNotEmpty(img, recs);
  }

  lemma FillPlace(img: seq<byte>, recs: seq<seq<byte>>, s: State)
    requires Inv(img, recs, s) && s.pc == Fill && |s.sends| < |recs|
    ensures FillStep(img, s).sends == s.sends + [0] && FillStep(img, s).frames == s.frames
    ensures Place(recs, FillStep(img, s)) && FillStep(img, s).pc == Arm
  {
    var rec := recs[|s.sends|];
    RecordAtOffset(img, recs, |s.sends|);
    assert WellFormedRecord(rec);
    assert Copied(rec)[5] == rec[4] && Copied(rec)[6] == rec[5] && Copied(rec)[7] == rec[6];
  }

  lemma FillBooks(img: seq<byte>, recs: seq<seq<byte>>, s: State)
    requires Inv(img, recs, s) && s.pc == Fill && |s.sends| < |recs|
    requires FillStep(img, s).sends == s.sends + [0]
    ensures Books(img, recs, FillStep(img, s))
  {
    var rec := recs[|s.sends|];
    RecordAtOffset(img, recs, |s.sends|);
    assert WellFormedRecord(rec);
    assert Copied(rec)[5] == rec[4];
    PercentFollows(s.num1, |img|);
  }

  lemma FillSent(img: seq<byte>, recs: seq<seq<byte>>, s: State)
    requires Inv(img, recs, s) && s.pc == Fill
    ensures Sent(s.sends + [0], |s.sends|)
  {
    hide WellFormedImage, Books, Replay;
  }

  /** Behind the last record there is nothing to load. */
  lemma FillEnds(img: seq<byte>, recs: seq<seq<byte>>, s: State)
    requires Inv(img, recs, s) && s.pc == Fill && |s.sends| == |recs|
    ensures FillStep(img, s) == s.(pc := Overrun) && Inv(img, recs, FillStep(img, s))
  {
    hide WellFormedImage, Replay;
    RecordAtOffset(img, recs, |recs|);
  }

  lemma FillKeeps(img: seq<byte>, recs: seq<seq<byte>>, s: State)
    requires Inv(img, recs, s) && s.pc == Fill
    ensures Inv(img, recs, FillStep(img, s))
    ensures |s.sends| < |recs| ==> FillStep(img, s).pc == Arm && FillStep(img, s).sends == s.sends + [0]
    ensures |s.sends| == |recs| ==> FillStep(img, s) == s.(pc := Overrun)
  {
    hide FillStep, Place, Books, Replay, Sent, WellFormedImage;
    if |s.sends| < |recs| {
      FillPlace(img, recs, s);
      FillBooks(img, recs, s);
      FillSent(img, recs, s);
      ReplayLoad(recs, s.sends);
    } else {
      FillEnds(img, recs, s);
    }
  }

  lemma QuietBooks(img: seq<byte>, recs: seq<seq<byte>>, s: State, ok: bool, got: bool)
    requires Inv(img, recs, s) && !s.pc.Fill? && !s.pc.Write?
    ensures var t := SenderStep(img, s, ok, got);
            && t.sends == s.sends && t.frames == s.frames && t.num1 == s.num1 && t.num2 == s.num2
            && (Opened(t) ==> if Opened(s) then t.remain == s.remain else s.sends == [] && t.remain == |img|)
  {
    hide FillStep, WriteStep, Books, Replay, OnRecord, WellFormedImage;
  }

  /** A step that neither loads nor sends has only its place to account for. */
  lemma QuietKeeps(img: seq<byte>, recs: seq<seq<byte>>, s: State, t: State)
    requires Inv(img, recs, s) && t.sends == s.sends && t.frames == s.frames && t.num1 == s.num1 && t.num2 == s.num2
    requires Opened(t) ==> if Opened(s) then t.remain == s.remain else s.sends == [] && t.remain == |img|
    requires Place(recs, t)
    ensures Inv(img, recs, t)
  {}

  lemma WriteKeeps(img: seq<byte>, recs: seq<seq<byte>>, s: State, ok: bool, got: bool)
    requires Inv(img, recs, s) && s.pc == Write
    ensures Inv(img, recs, WriteStep(s, ok, got))
    ensures WriteStep(s, ok, got).frames == s.frames + [Frame(recs[|s.sends| - 1])]
  {
    var rec := recs[|s.sends| - 1];
    assert WellFormedRecord(rec);
    assert Filled(rec)[..|rec| + 1] == Frame(rec);
    ReplaySend(recs, s.sends, WriteStep(s, ok, got).sends);
  }

  lemma NextPlace(img: seq<byte>, recs: seq<seq<byte>>, s: State, ok: bool, got: bool)
    requires Inv(img, recs, s) && s.pc.CheckNext?
    ensures Place(recs, SenderStep(img, s, ok, got))
  {
    hide FillStep, WriteStep, Books, Replay, Filled, SeqOf;
    PollLeads(recs, s);
  }

  lemma LoadPlace(img: seq<byte>, recs: seq<seq<byte>>, s: State, ok: bool, got: bool)
    requires Inv(img, recs, s) && (s.pc.Open? || s.pc.Spawn? || s.pc.LoadSeq? || s.pc.LoadStage?)
    ensures Place(recs, SenderStep(img, s, ok, got))
  {
    hide FillStep, WriteStep, Books, Replay, Filled, SeqOf;
  }

  lemma ArmPlace(img: seq<byte>, recs: seq<seq<byte>>, s: State, ok: bool, got: bool)
    requires Inv(img, recs, s) && s.pc.Arm?
    ensures Place(recs, SenderStep(img, s, ok, got))
  {
    hide FillStep, WriteStep, Books, Replay, Filled, SeqOf;
  }

  lemma TickPlace(img: seq<byte>, recs: seq<seq<byte>>, s: State, ok: bool, got: bool)
    requires Inv(img, recs, s) && s.pc.Tick?
    ensures Place(recs, SenderStep(img, s, ok, got))
  {
    hide FillStep, WriteStep, Books, Replay, Filled, SeqOf;
  }

  lemma CheckErrPlace(img: seq<byte>, recs: seq<seq<byte>>, s: State, ok: bool, got: bool)
    requires Inv(img, recs, s) && s.pc.CheckErr?
    ensures Place(recs, SenderStep(img, s, ok, got))
  {
    hide FillStep, WriteStep, Books, Replay, Filled, SeqOf;
    PollLeads(recs, s);
  }

  lemma CheckCompletePlace(img: seq<byte>, recs: seq<seq<byte>>, s: State, ok: bool, got: bool)
    requires Inv(img, recs, s) && s.pc.CheckComplete?
    ensures Place(recs, SenderStep(img, s, ok, got))
  {
    hide FillStep, WriteStep, Books, Replay, Filled, SeqOf;
    PollLeads(recs, s);
  }

  /** From a poll the sender may go on polling, retry, load the next record, or stop. */
  lemma PollLeads(recs: seq<seq<byte>>, s: State)
    requires |s.sends| <= |recs| && forall i :: 0 <= i < |recs| ==> WellFormedRecord(recs[i])
    requires Waiting(recs, s) && Sent(s.sends, |s.sends| - 1)
    ensures Place(recs, s.(pc := LoadSeq)) && Place(recs, s.(pc := Arm)) && Place(recs, s.(pc := SuccessExit))
  {
    hide Filled, SeqOf;
    NextOffset(recs, |s.sends| - 1);
  }

  lemma ExitPlace(img: seq<byte>, recs: seq<seq<byte>>, s: State, ok: bool, got: bool)
    requires Inv(img, recs, s) && (s.pc.FailExit? || s.pc.Failed? || s.pc.SuccessExit? || s.pc.Succeeded? || s.pc.Overrun?)
    ensures Place(recs, SenderStep(img, s, ok, got))
  {
    hide FillStep, WriteStep, Books, Replay, Filled, SeqOf;
  }

  lemma QuietPlace(img: seq<byte>, recs: seq<seq<byte>>, s: State, ok: bool, got: bool)
    requires Inv(img, recs, s) && !s.pc.Fill? && !s.pc.Write?
    ensures Place(recs, SenderStep(img, s, ok, got))
  {
    if s.pc.CheckNext? {
      NextPlace(img, recs, s, ok, got);
    } else if s.pc.Arm? {
      ArmPlace(img, recs, s, ok, got);
    } else if s.pc.Tick? {
      TickPlace(img, recs, s, ok, got);
    } else if s.pc.CheckErr? {
      CheckErrPlace(img, recs, s, ok, got);
    } else if s.pc.CheckComplete? {
      CheckCompletePlace(img, recs, s, ok, got);
    } else if s.pc.Open? || s.pc.Spawn? || s.pc.LoadSeq? || s.pc.LoadStage? {
      LoadPlace(img, recs, s, ok, got);
    } else {
      ExitPlace(img, recs, s, ok, got);
    }
  }

  lemma SenderKeeps(img: seq<byte>, recs: seq<seq<byte>>, s: State, ok: bool, got: bool)
    requires Inv(img, recs, s)
    ensures Inv(img, recs, SenderStep(img, s, ok, got))
  {
    hide FillStep, WriteStep, Place, Books, Replay, Sent, WellFormedImage;
    if s.pc.Fill? {
      FillKeeps(img, recs, s);
    } else if s.pc.Write? {
      WriteKeeps(img, recs, s, ok, got);
    } else {
      QuietPlace(img, recs, s, ok, got);
      QuietBooks(img, recs, s, ok, got);
      QuietKeeps(img, recs, s, SenderStep(img, s, ok, got));
    }
  }

  /** What the reader touches: the mailbox, its own place, the flag, and the history of responses. */
  predicate ReaderFrame(s: State, t: State) {
    && t.pc == s.pc && t.idx == s.idx && t.len == s.len && t.sendCount == s.sendCount && t.waitCount == s.waitCount
    && t.remain == s.remain && t.cmdBuf == s.cmdBuf && t.num1 == s.num1 && t.num2 == s.num2 && t.seqNo == s.seqNo
    && t.frames == s.frames && t.sends == s.sends && t.delivered == s.delivered
  }

  lemma ReaderTouches(split: bool, s: State, input: Option<seq<byte>>)
    ensures ReaderFrame(s, ReaderStep(split, s, input))
  {}

  lemma FrameKeeps(img: seq<byte>, recs: seq<seq<byte>>, s: State, t: State)
    requires Inv(img, recs, s) && ReaderFrame(s, t)
    ensures Inv(img, recs, t)
  {}

  lemma ReaderKeeps(split: bool, img: seq<byte>, recs: seq<seq<byte>>, s: State, input: Option<seq<byte>>)
    requires Inv(img, recs, s)
    ensures Inv(img, recs, ReaderStep(split, s, input))
  {
    ReaderTouches(split, s, input);
    FrameKeeps(img, recs, s, ReaderStep(split, s, input));
  }

  lemma StepKeeps(split: bool, img: seq<byte>, recs: seq<seq<byte>>, s: State, l: Label)
    requires Inv(img, recs, s)
    ensures Inv(img, recs, Step(split, img, s, l))
  {
    match l
    case Sender(ok, got) => SenderKeeps(img, recs, s, ok, got);
    case Reader(input) => ReaderKeeps(split, img, recs, s, input);
  }

  /** The invariant holds after every schedule. */
  lemma {:induction false} RunKeeps(split: bool, img: seq<byte>, recs: seq<seq<byte>>, s: State, labels: seq<Label>)
    requires WellFormedImage(img, recs) && Initial(s)
    ensures Inv(img, recs, Exec(split, img, s, labels))
  {
    if labels == [] {
      InitialInv(img, recs, s);
    } else {
      RunKeeps(split, img, recs, s, labels[..|labels| - 1]);
      StepKeeps(split, img, recs, Exec(split, img, s, labels[..|labels| - 1]), labels[|labels| - 1]);
    }
  }

  // ---------------------------------------------------------------------------------------------
  // What it means.

  /** The frames without their report types, end to end. */
  function Payload(frames: seq<seq<byte>>): seq<byte> {
    if frames == [] then []
    else Payload(frames[..|frames| - 1]) + (var last := frames[|frames| - 1]; if last == [] then [] else last[1..])
  }

  function Frames(recs: seq<seq<byte>>): (frames: seq<seq<byte>>)
    ensures |frames| == |recs|
    ensures forall i :: 0 <= i < |recs| ==> frames[i] == Frame(recs[i])
  {
    seq(|recs|, i requires 0 <= i < |recs| => Frame(recs[i]))
  }

  lemma {:induction false} PayloadOfFrames(recs: seq<seq<byte>>)
    ensures Payload(Frames(recs)) == Flatten(recs)
  {
    if recs != [] {
      var n := |recs| - 1;
      PayloadOfFrames(recs[..n]);
      assert Frames(recs)[..n] == Frames(recs[..n]);
      assert Frame(recs[n])[1..] == recs[n];
    }
  }

  /** How many records have been sent at least once. */
  function Begun(sends: seq<nat>): nat {
    if sends != [] && sends[|sends| - 1] == 0 then |sends| - 1 else |sends|
  }

  lemma {:induction false} ReplayEnds(recs: seq<seq<byte>>, sends: seq<nat>)
    requires 0 < |sends| <= |recs| && sends[|sends| - 1] > 0
    ensures var all := Replay(recs, sends); all != [] && all[|all| - 1] == Frame(recs[|sends| - 1])
  {}

  lemma FramesGrow(recs: seq<seq<byte>>, n: nat)
    requires n < |recs|
    ensures Frames(recs[..n + 1]) == Frames(recs[..n]) + [Frame(recs[n])]
  {}

  lemma FrameInjective(a: seq<byte>, b: seq<byte>)
    requires a != b
    ensures Frame(a) != Frame(b)
  {
    assert Frame(a)[1..] == a && Frame(b)[1..] == b;
  }

  lemma ReplayBegun(recs: seq<seq<byte>>, sends: seq<nat>)
    requires |sends| <= |recs|
    ensures Replay(recs, sends) == Replay(recs, sends[..Begun(sends)])
  {
    assert sends[..|sends|] == sends;
  }

  /** Transfer integrity. In every run, the frames handed to the channel are the records of the image in order,
      each sent between one and three times, every time the same bytes; only the record loaded last may be
      unsent. */
  lemma TransferIntegrity(split: bool, img: seq<byte>, recs: seq<seq<byte>>, s0: State, labels: seq<Label>)
    requires WellFormedImage(img, recs) && Initial(s0)
    ensures var s := Exec(split, img, s0, labels);
            && |s.sends| <= |recs|
            && s.frames == Replay(recs, s.sends)
            && (forall i :: 0 <= i < Begun(s.sends) ==> 1 <= s.sends[i] <= 3)
            && (forall f :: f in s.frames ==> f != [] && f[0] == 0x52 && f[1..] in recs)
  {
    RunKeeps(split, img, recs, s0, labels);
    var s := Exec(split, img, s0, labels);
    LastSends(img, recs, s);
    ReplayFrames(recs, s.sends);
  }

  lemma {:induction false} RepeatFrames(rec: seq<byte>, n: nat)
    ensures forall f :: f in Repeat(Frame(rec), n) ==> f != [] && f[0] == 0x52 && f[1..] == rec
  {
    if n > 0 {
      RepeatFrames(rec, n - 1);
    }
  }

  lemma {:induction false} ReplayFrames(recs: seq<seq<byte>>, sends: seq<nat>)
    requires |sends| <= |recs|
    ensures forall f :: f in Replay(recs, sends) ==> f != [] && f[0] == 0x52 && f[1..] in recs
    decreases |sends|
  {
    if sends != [] {
      var n := |sends| - 1;
      ReplayFrames(recs, sends[..n]);
      RepeatFrames(recs[n], sends[n]);
    }
  }

  lemma LastSends(img: seq<byte>, recs: seq<seq<byte>>, s: State)
    requires Inv(img, recs, s)
    ensures forall i :: 0 <= i < |s.sends| ==> s.sends[i] <= MAX_SENDS
    ensures Sent(s.sends, Begun(s.sends))
  {
    match s.pc
    case Arm =>
    case _ =>
  }

  function Total(sends: seq<nat>): nat {
    if sends == [] then 0 else Total(sends[..|sends| - 1]) + sends[|sends| - 1]
  }

  /** The first frame of each record that was sent, by the counts. */
  function Firsts(frames: seq<seq<byte>>, sends: seq<nat>): seq<seq<byte>>
    requires |frames| == Total(sends)
    decreases |sends|
  {
    if sends == [] then []
    else
      var n := sends[|sends| - 1];
      Firsts(frames[..|frames| - n], sends[..|sends| - 1]) + if n == 0 then [] else [frames[|frames| - n]]
  }

  lemma {:induction false} RepeatFirst(frame: seq<byte>, n: nat)
    requires n > 0
    ensures Repeat(frame, n)[0] == frame
  {
    if n > 1 {
      RepeatFirst(frame, n - 1);
    }
  }

  lemma {:induction false} FirstsOfReplay(recs: seq<seq<byte>>, sends: seq<nat>)
    requires |sends| <= |recs| && Sent(sends, |sends|)
    ensures |Replay(recs, sends)| == Total(sends) && Firsts(Replay(recs, sends), sends) == Frames(recs[..|sends|])
    decreases |sends|
  {
    if sends != [] {
      var n := |sends| - 1;
      FirstsOfReplay(recs, sends[..n]);
      var before, last := Replay(recs, sends[..n]), Repeat(Frame(recs[n]), sends[n]);
      RepeatFirst(Frame(recs[n]), sends[n]);
      assert (before + last)[..|before|] == before && (before + last)[|before|] == last[0];
      FramesGrow(recs, n);
    }
  }

  lemma FirstsOfBegun(recs: seq<seq<byte>>, sends: seq<nat>)
    requires |sends| <= |recs| && Sent(sends, Begun(sends))
    ensures |Replay(recs, sends)| == Total(sends) && Firsts(Replay(recs, sends), sends) == Frames(recs[..Begun(sends)])
  {
    var k := Begun(sends);
    FirstsOfReplay(recs, sends[..k]);
    if k < |sends| {
      var frames := Replay(recs, sends);
      assert frames[..|frames|] == frames && frames == Replay(recs, sends[..k]);
    } else {
      assert sends[..k] == sends;
    }
  }

  /** One frame for each record sent, without the report types, is the image up to the end of a record: in every run, for
      every well-formed image. */
  lemma ReceivedPrefix(split: bool, img: seq<byte>, recs: seq<seq<byte>>, s0: State, labels: seq<Label>)
    requires WellFormedImage(img, recs) && Initial(s0)
    ensures var s := Exec(split, img, s0, labels);
            var k := Begun(s.sends);
            && |s.frames| == Total(s.sends) && k <= |recs| && Offset(recs, k) <= |img|
            && Payload(Firsts(s.frames, s.sends)) == img[..Offset(recs, k)]
  {
    TransferIntegrity(split, img, recs, s0, labels);
    var s := Exec(split, img, s0, labels);
    FirstsOfBegun(recs, s.sends);
    PayloadOfFrames(recs[..Begun(s.sends)]);
    PrefixOfImage(recs, Begun(s.sends));
  }

  /** The books at every send: the index is the sum of the earlier lengths, the remainder is what the DATA
      records loaded so far leave and is not negative, the sequence number is that of the record, the two bytes
      behind the record are its byte sum modulo 65536, and they are not part of the frame. */
  lemma SendAccounting(split: bool, img: seq<byte>, recs: seq<seq<byte>>, s0: State, labels: seq<Label>)
    requires WellFormedImage(img, recs) && Initial(s0)
    requires Exec(split, img, s0, labels).pc == Write
    ensures var s := Exec(split, img, s0, labels);
            && 0 < |s.sends| <= |recs|
            && var k := |s.sends| - 1;
               && s.idx == |Flatten(recs[..k])| && s.len == |recs[k]|
               && s.remain == |img| - DataBytes(recs, k + 1) && s.remain >= 0
               && 7 <= |recs[k]| && s.seqNo == (if recs[k][4] == 2 then recs[k][5] as int + 256 * recs[k][6] as int else 0)
               && |s.cmdBuf| >= s.len + 3
               && Le16(s.cmdBuf[s.len + 1], s.cmdBuf[s.len + 2]) == ByteSum(recs[k]) % 65536
               && forall ok, got :: Step(split, img, s, Sender(ok, got)).frames == s.frames + [Frame(recs[k])]
  {
    hide Exec, Inv, DataBytes, ByteSum, WriteStep, SenderStep;
    RunKeeps(split, img, recs, s0, labels);
    var s := Exec(split, img, s0, labels);
    SendBooks(img, recs, s);
    SendSum(recs, s);
    var k := |s.sends| - 1;
    forall ok, got ensures Step(split, img, s, Sender(ok, got)).frames == s.frames + [Frame(recs[k])] {
      WriteKeeps(img, recs, s, ok, got);
      WriteIs(img, s, ok, got);
    }
  }

  lemma WriteIs(img: seq<byte>, s: State, ok: bool, got: bool)
    requires s.pc == Write
    ensures SenderStep(img, s, ok, got) == WriteStep(s, ok, got)
  {
    hide WriteStep;
  }

  lemma SendBooks(img: seq<byte>, recs: seq<seq<byte>>, s: State)
    requires Inv(img, recs, s) && s.pc == Write
    ensures 0 < |s.sends| <= |recs|
    ensures var k := |s.sends| - 1;
            && s.idx == |Flatten(recs[..k])| && s.len == |recs[k]| && WellFormedRecord(recs[k])
            && s.remain == |img| - DataBytes(recs, k + 1) && s.remain >= 0
            && s.seqNo == (if recs[k][4] == 2 then recs[k][5] as int + 256 * recs[k][6] as int else 0)
            && s.cmdBuf == Filled(recs[k])
  {
    var k := |s.sends| - 1;
    hide Filled, Replay, Percent;
    DataBytesBound(recs, k + 1);
    PrefixOfImage(recs, k + 1);
  }

  lemma SendSum(recs: seq<seq<byte>>, s: State)
    requires 0 < |s.sends| <= |recs| && WellFormedRecord(recs[|s.sends| - 1])
    requires s.len == |recs[|s.sends| - 1]| && s.cmdBuf == Filled(recs[|s.sends| - 1])
    ensures |s.cmdBuf| >= s.len + 3
    ensures Le16(s.cmdBuf[s.len + 1], s.cmdBuf[s.len + 2]) == ByteSum(recs[|s.sends| - 1]) % 65536
  {
    SumField(ByteSum(recs[|s.sends| - 1]));
    hide ByteSum;
  }

  /** The reported percentage, at every point of every run, is the closed form of the number of DATA records
      loaded. */
  lemma ProgressReported(split: bool, img: seq<byte>, recs: seq<seq<byte>>, s0: State, labels: seq<Label>)
    requires WellFormedImage(img, recs) && Initial(s0)
    ensures var s := Exec(split, img, s0, labels);
            && |s.sends| <= |recs| && img != []
            && s.num2 == Percent(DataCount(recs, |s.sends|), |img|) && 0 <= s.num2 <= 100
  {
    RunKeeps(split, img, recs, s0, labels);
    var s := Exec(split, img, s0, labels);
    PercentSteady(s.num1, |img|);
  }
}
