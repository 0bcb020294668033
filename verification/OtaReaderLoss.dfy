/**
  What is left of a run once the reader is gone: everything but the outcome of the writes is decided by what the
  mailbox holds at that moment and by whether a look at it comes before the deadline.
 */
module OtaReaderLoss {
  import opened Bytes
  import opened OtaWire
  import opened OtaProtocol
  import opened OtaInvariant
  import opened OtaTermination

  /** The reader has stopped, or its thread was never created. */
  predicate ReaderGone(s: State) {
    (s.reader.Stopped? || s.reader.NotStarted?) && !s.pc.Open? && !s.pc.Spawn?
  }

  /** What the sender will find in the mailbox. The last poll before the deadline does not look at it, so what is
      pending then is lost. */
  function Found(s: State): Stage {
    match s.pc
    case Write => s.stage
    case Tick => if s.waitCount + 1 < OTA_WAIT_TIME then s.stage else Retrying
    case CheckNext => s.stage
    case CheckErr => if s.stage == NextCmd && s.waitCount + 1 >= OTA_WAIT_TIME then Retrying else s.stage
    case CheckComplete => if s.stage == NextCmd && s.waitCount + 1 >= OTA_WAIT_TIME then Retrying else s.stage
    case _ => Retrying
  }

  predicate Loading(pc: Pc) {
    pc.LoadSeq? || pc.LoadStage? || pc.Fill?
  }

  /** One more record will be left behind. */
  predicate GoesOn(s: State) {
    Outstanding(s.pc) && Found(s) == NextCmd
  }

  /** How many records will still be loaded. */
  function LoadsLeft(count: nat, s: State): nat {
    if (Loading(s.pc) || GoesOn(s)) && |s.sends| < count then 1 else 0
  }

  /** How many frames will still be handed to the channel, if every write succeeds. */
  function WritesLeft(count: nat, s: State): int {
    var loaded := if |s.sends| < count then MAX_SENDS else 0;
    var rest := if GoesOn(s) then loaded else if Found(s) == Complete then 0 else MAX_SENDS - s.sendCount;
    if Loading(s.pc) then loaded
    else if s.pc.Arm? then MAX_SENDS - s.sendCount
    else if s.pc.Write? then 1 + rest
    else if Polling(s.pc) then rest
    else 0
  }

  /** Where the run will end, if every write succeeds. */
  function Outcome(count: nat, s: State): Pc {
    if s.pc.Overrun? || ((Loading(s.pc) || GoesOn(s)) && |s.sends| == count) then Overrun
    else if s.pc.SuccessExit? || s.pc.Succeeded? || (Outstanding(s.pc) && Found(s) == Complete) then Succeeded
    else Failed
  }

  predicate AllWritten(labels: seq<Label>) {
    forall l :: l in labels && l.Sender? ==> l.ok
  }

  /** From `s` to `t` nothing of the forecast changes. */
  predicate SameForecast(count: nat, s: State, t: State) {
    && |t.frames| + WritesLeft(count, t) == |s.frames| + WritesLeft(count, s)
    && |t.sends| + LoadsLeft(count, t) == |s.sends| + LoadsLeft(count, s)
    && Outcome(count, t) == Outcome(count, s)
  }

  lemma PollAlone(img: seq<byte>, count: nat, s: State, ok: bool, got: bool)
    requires Bounded(count, s) && ReaderGone(s) && Polling(s.pc)
    ensures var t := SenderStep(img, s, ok, got); ReaderGone(t) && SameForecast(count, s, t)
  {
    hide FillStep, WriteStep;
    match s.pc
    case Tick =>
    case CheckNext =>
    case CheckErr =>
    case CheckComplete =>
  }

  /** One step of the sender alone changes nothing of the forecast, unless it is a write that fails. */
  lemma SenderAlone(img: seq<byte>, count: nat, s: State, ok: bool, got: bool)
    requires Bounded(count, s) && ReaderGone(s) && !Polling(s.pc)
    requires s.pc.Fill? ==> (FillStep(img, s).pc.Arm? <==> |s.sends| < count)
    ensures var t := SenderStep(img, s, ok, got); ReaderGone(t) && (ok || !s.pc.Write? ==> SameForecast(count, s, t))
  {
    hide FillStep, WriteStep;
  }

  /** A write that fails ends the run. */
  lemma WriteFails(img: seq<byte>, count: nat, s: State, got: bool)
    requires Bounded(count, s) && s.pc.Write?
    ensures var t := SenderStep(img, s, false, got);
            && |t.frames| + WritesLeft(count, t) <= |s.frames| + WritesLeft(count, s)
            && |t.sends| + LoadsLeft(count, t) <= |s.sends| + LoadsLeft(count, s)
            && Outcome(count, t) == Failed
  {
    hide WriteStep;
  }

  /** From `s` to `t` the forecast has not grown, and not changed at all if every write succeeded. */
  predicate Forecast(count: nat, s: State, t: State, allWritten: bool) {
    && |t.frames| + WritesLeft(count, t) <= |s.frames| + WritesLeft(count, s)
    && |t.sends| + LoadsLeft(count, t) <= |s.sends| + LoadsLeft(count, s)
    && (Outcome(count, t) == Outcome(count, s) || Outcome(count, t) == Failed)
    && (allWritten ==> SameForecast(count, s, t))
  }

  lemma StepAlone(split: bool, img: seq<byte>, recs: seq<seq<byte>>, s: State, l: Label)
    requires Inv(img, recs, s) && ReaderGone(s)
    ensures var t := Step(split, img, s, l);
            ReaderGone(t) && Forecast(|recs|, s, t, l.Sender? ==> l.ok)
  {
    hide Inv, SenderStep, WritesLeft, LoadsLeft, Outcome;
    InvBounded(img, recs, s);
    match l
    case Reader(input) => assert ReaderStep(split, s, input) == s;
    case Sender(ok, got) =>
      if s.pc.Fill? {
        FillKeeps(img, recs, s);
      }
      if Polling(s.pc) {
        PollAlone(img, |recs|, s, ok, got);
      } else {
        SenderAlone(img, |recs|, s, ok, got);
      }
      if s.pc.Write? && !ok {
        WriteFails(img, |recs|, s, got);
      }
  }

  lemma {:induction false} RunAlone(split: bool, img: seq<byte>, recs: seq<seq<byte>>, s: State, labels: seq<Label>)
    requires Inv(img, recs, s) && ReaderGone(s)
    ensures var t := Exec(split, img, s, labels);
            Inv(img, recs, t) && ReaderGone(t) && Forecast(|recs|, s, t, AllWritten(labels))
  {
    hide Inv, Step, WritesLeft, LoadsLeft, Outcome, ReaderGone;
    if labels != [] {
      var n := |labels| - 1;
      RunAlone(split, img, recs, s, labels[..n]);
      StepKeeps(split, img, recs, Exec(split, img, s, labels[..n]), labels[n]);
      StepAlone(split, img, recs, Exec(split, img, s, labels[..n]), labels[n]);
    }
  }

  lemma NothingLeft(count: nat, s: State)
    requires Bounded(count, s) && Done(s.pc)
    ensures WritesLeft(count, s) == 0 && LoadsLeft(count, s) == 0 && Outcome(count, s) == s.pc
  {}

  lemma WritesLeftBound(count: nat, s: State)
    requires Bounded(count, s)
    ensures 0 <= WritesLeft(count, s) <= MAX_SENDS + 1 && LoadsLeft(count, s) <= 1
    ensures WritesLeft(count, s) == MAX_SENDS + 1 <==> s.pc.Write? && s.stage == NextCmd && |s.sends| < count
  {}

  /** Bounded failure after reader loss. From any reachable state without a reader, the sender loads at most one
      more record and writes at most three more frames, or four if it stands before a write with an advance
      pending; it ends in failure unless the mailbox decides otherwise; and when every write succeeds the numbers and
      the end are exactly those forecast. */
  lemma ReaderLoss(split: bool, img: seq<byte>, recs: seq<seq<byte>>, s: State, labels: seq<Label>)
    requires Inv(img, recs, s) && ReaderGone(s)
    requires SenderSteps(labels) >= Rank(|recs|, s)
    ensures var t := Exec(split, img, s, labels);
            && Done(t.pc) && (t.pc == Failed || t.pc == Outcome(|recs|, s))
            && |t.frames| <= |s.frames| + WritesLeft(|recs|, s) && |t.sends| <= |s.sends| + LoadsLeft(|recs|, s)
            && (AllWritten(labels) ==>
                  && t.pc == Outcome(|recs|, s)
                  && |t.frames| == |s.frames| + WritesLeft(|recs|, s) && |t.sends| == |s.sends| + LoadsLeft(|recs|, s))
    ensures 0 <= WritesLeft(|recs|, s) <= 4 && LoadsLeft(|recs|, s) <= 1
    ensures WritesLeft(|recs|, s) == 4 <==> s.pc.Write? && s.stage == NextCmd && |s.sends| < |recs|
  {
    hide Inv, Exec, WritesLeft, LoadsLeft, Outcome, ReaderGone;
    RankEnds(split, img, recs, s, labels);
    RunAlone(split, img, recs, s, labels);
    var t := Exec(split, img, s, labels);
    InvBounded(img, recs, s);
    InvBounded(img, recs, t);
    NothingLeft(|recs|, t);
    WritesLeftBound(|recs|, s);
  }

  /** In particular the run fails when the mailbox holds neither success nor, on FINISH, an advance; and a stage
      that is pending at the last poll before the deadline is not seen. */
  lemma LossFails(split: bool, img: seq<byte>, recs: seq<seq<byte>>, s: State, labels: seq<Label>)
    requires Inv(img, recs, s) && ReaderGone(s) && SenderSteps(labels) >= Rank(|recs|, s)
    requires s.pc.Arm? || Outstanding(s.pc)
    requires (s.stage != Complete && (s.stage != NextCmd || |s.sends| < |recs|)) || (s.pc.Tick? && s.waitCount == 749)
    ensures Exec(split, img, s, labels).pc == Failed
  {
    hide Exec;
    ReaderLoss(split, img, recs, s, labels);
  }

  // ---------------------------------------------------------------------------------------------
  // Runs in which the image could not be opened, or the reader not be created.

  lemma {:induction false} ExecJoins(split: bool, img: seq<byte>, s: State, a: seq<Label>, b: seq<Label>)
    ensures Exec(split, img, s, a + b) == Exec(split, img, Exec(split, img, s, a), b)
    decreases |b|
  {
    hide Step;
    if b == [] {
      assert a + b == a;
    } else {
      var n := |b| - 1;
      ExecJoins(split, img, s, a, b[..n]);
      assert (a + b)[..|a| + n] == a + b[..n];
    }
  }

  lemma DeafStep(split: bool, img: seq<byte>, s: State, l: Label)
    requires s.reader.NotStarted? && s.heard == [] && !s.pc.Open? && !s.pc.Spawn?
    ensures var t := Step(split, img, s, l); t.reader.NotStarted? && t.heard == [] && !t.pc.Open? && !t.pc.Spawn?
  {
    hide FillStep, WriteStep;
  }

  lemma {:induction false} StaysDeaf(split: bool, img: seq<byte>, s: State, labels: seq<Label>)
    requires s.reader.NotStarted? && s.heard == [] && !s.pc.Open? && !s.pc.Spawn?
    ensures var t := Exec(split, img, s, labels); t.reader.NotStarted? && t.heard == [] && !t.pc.Open? && !t.pc.Spawn?
  {
    hide Step;
    if labels != [] {
      StaysDeaf(split, img, s, labels[..|labels| - 1]);
      DeafStep(split, img, Exec(split, img, s, labels[..|labels| - 1]), labels[|labels| - 1]);
    }
  }

  /** Before the reader is created there is none, and nothing has been heard or sent. */
  predicate Unstarted(s: State) {
    s.pc.Open? || s.pc.Spawn? ==> s.reader.NotStarted? && s.heard == [] && s.frames == [] && s.sends == []
  }

  lemma UnstartedStep(split: bool, img: seq<byte>, s: State, l: Label)
    requires Unstarted(s)
    ensures Unstarted(Step(split, img, s, l))
  {
    hide FillStep, WriteStep, Classify;
  }

  lemma {:induction false} StaysUnstarted(split: bool, img: seq<byte>, s0: State, labels: seq<Label>)
    requires Initial(s0)
    ensures Unstarted(Exec(split, img, s0, labels))
  {
    hide Step, Unstarted;
    if labels == [] {
      assert Unstarted(s0) by { InitialUnstarted(s0); }
    } else {
      StaysUnstarted(split, img, s0, labels[..|labels| - 1]);
      UnstartedStep(split, img, Exec(split, img, s0, labels[..|labels| - 1]), labels[|labels| - 1]);
    }
  }

  lemma InitialUnstarted(s: State)
    requires Initial(s)
    ensures Unstarted(s)
  {}

  /** After the first `k` steps the sender is at `pc`, and the call it makes next fails. */
  predicate CallFails(split: bool, img: seq<byte>, s0: State, labels: seq<Label>, k: nat, pc: Pc) {
    k < |labels| && Exec(split, img, s0, labels[..k]).pc == pc && labels[k].Sender? && !labels[k].ok
  }

  /** When the reader's thread cannot be created, the transfer goes on without one. Nothing is ever heard, at most three frames
      are written, all of them that of the first record, exactly three if every write succeeds, and the run fails. */
  lemma NeverCreated(split: bool, img: seq<byte>, recs: seq<seq<byte>>, s0: State, labels: seq<Label>, k: nat)
    requires WellFormedImage(img, recs) && Initial(s0) && CallFails(split, img, s0, labels, k, Spawn)
    ensures recs != []
    ensures var t := Exec(split, img, s0, labels);
            && t.heard == [] && t.reader.NotStarted?
            && |t.frames| <= 3 && (forall f :: f in t.frames ==> f == [0x52] + recs[0])
            && (SenderSteps(labels) >= 8997 * |recs| + 7 ==> t.pc == Failed && (AllWritten(labels) ==> |t.frames| == 3))
  {
    hide Exec, Inv, WritesLeft, LoadsLeft, Outcome, WellFormedImage, Initial;
    var before, more := labels[..k + 1], labels[k + 1..];
    assert labels == before + more;
    SpawnFails(split, img, recs, s0, labels, k);
    var s := Exec(split, img, s0, before);
    ExecJoins(split, img, s0, before, more);
    StaysDeaf(split, img, s, more);
    RunAlone(split, img, recs, s, more);
    var t := Exec(split, img, s, more);
    AtMostThree(|recs|, s);
    InvBounded(img, recs, t);
    WritesLeftBound(|recs|, t);
    FramesOfFirst(img, recs, t);
    if SenderSteps(labels) >= 8997 * |recs| + 7 {
      Terminates(split, img, recs, s0, labels);
      NothingLeft(|recs|, t);
      assert AllWritten(labels) ==> AllWritten(more);
    }
  }

  lemma SpawnFails(split: bool, img: seq<byte>, recs: seq<seq<byte>>, s0: State, labels: seq<Label>, k: nat)
    requires WellFormedImage(img, recs) && Initial(s0) && CallFails(split, img, s0, labels, k, Spawn)
    ensures var s := Exec(split, img, s0, labels[..k + 1]);
            && Inv(img, recs, s) && recs != []
            && s.pc.LoadSeq? && s.reader.NotStarted? && s.heard == [] && s.frames == [] && s.sends == []
  {
    hide Inv, WellFormedImage, Initial;
    RunKeeps(split, img, recs, s0, labels[..k + 1]);
    StaysUnstarted(split, img, s0, labels[..k]);
    assert labels[..k + 1][..k] == labels[..k];
    assert recs != [] by {
      HasRecords(img, recs);
    }
  }

  lemma HasRecords(img: seq<byte>, recs: seq<seq<byte>>)
    requires WellFormedImage(img, recs)
    ensures recs != []
  {}

  lemma AtMostThree(count: nat, s: State)
    requires s.pc.LoadSeq? && s.sends == [] && count > 0
    ensures WritesLeft(count, s) == 3 && LoadsLeft(count, s) == 1 && Outcome(count, s) == Failed
  {}

  lemma {:induction false} RepeatIs(frame: seq<byte>, n: nat)
    ensures forall f :: f in Repeat(frame, n) ==> f == frame
  {
    if n > 0 {
      RepeatIs(frame, n - 1);
    }
  }

  lemma FramesOfFirst(img: seq<byte>, recs: seq<seq<byte>>, s: State)
    requires Inv(img, recs, s) && |s.sends| <= 1 && recs != []
    ensures forall f :: f in s.frames ==> f == [0x52] + recs[0]
  {
    if s.sends != [] {
      assert s.sends[..0] == [];
      assert Replay(recs, []) == [];
      RepeatIs(Frame(recs[0]), s.sends[0]);
    }
  }

  /** When the image cannot be opened, nothing is written or heard, and the run fails with the sender's second step. */
  lemma NeverOpened(split: bool, img: seq<byte>, s0: State, labels: seq<Label>, k: nat)
    requires Initial(s0) && CallFails(split, img, s0, labels, k, Open)
    ensures var t := Exec(split, img, s0, labels);
            && t.heard == [] && t.frames == [] && t.reader.NotStarted?
            && (t.pc == FailExit || t.pc == Failed) && (SenderSteps(labels[k..]) >= 2 ==> t.pc == Failed)
  {
    hide Exec, Initial;
    assert labels == labels[..k] + labels[k..];
    ExecJoins(split, img, s0, labels[..k], labels[k..]);
    StaysUnstarted(split, img, s0, labels[..k]);
    FailsAtOnce(split, img, Exec(split, img, s0, labels[..k]), labels[k..]);
  }

  lemma {:induction false} FailsAtOnce(split: bool, img: seq<byte>, s: State, labels: seq<Label>)
    requires s.pc.Open? && s.reader.NotStarted? && s.heard == [] && s.frames == []
    requires labels != [] && labels[0].Sender? && !labels[0].ok
    ensures var t := Exec(split, img, s, labels);
            && t.heard == [] && t.frames == [] && t.reader.NotStarted?
            && (if SenderSteps(labels) == 1 then t.pc == FailExit else t.pc == Failed) && SenderSteps(labels) >= 1
  {
    hide FillStep, WriteStep;
    var n := |labels| - 1;
    if n == 0 {
      assert labels[..0] == [];
      assert SenderSteps([]) == 0;
    } else {
      FailsAtOnce(split, img, s, labels[..n]);
    }
  }
}
