/** Every run of the sender ends, after a number of its own steps that only the number of records bounds. */
module OtaTermination {
  import opened Bytes
  import opened OtaWire
  import opened OtaProtocol
  import opened OtaInvariant
  import opened OtaJustified

  /** Sender steps in a send that is not answered: arming, the write, four for each poll but the last, and that one. */
  const SEND_STEPS := 4 * (OTA_WAIT_TIME - 1) + 3

  /** At most so many until the next record: three to load it, two sends that are not answered, and one that is, at the last
      look before the deadline. */
  const RECORD_STEPS := MAX_SENDS * SEND_STEPS

  /** The sender steps left, at most, when `s` has left its record. */
  function LaterRank(count: nat, s: State): int {
    (count - |s.sends|) * RECORD_STEPS + 5
  }

  /** When it is about to arm the mailbox: the last send is best left unanswered only if no other record follows. */
  function ArmRank(count: nat, s: State): int {
    if s.sendCount >= MAX_SENDS then 2
    else (MAX_SENDS - s.sendCount) * SEND_STEPS - 3 + LaterRank(count, s)
  }

  /** When it is about to poll. */
  function PollRank(count: nat, s: State): int {
    if s.sendCount < MAX_SENDS then 4 * (OTA_WAIT_TIME - 1 - s.waitCount) + 1 + ArmRank(count, s)
    else if s.waitCount < OTA_WAIT_TIME - 1 then 4 * (OTA_WAIT_TIME - 2 - s.waitCount) + 2 + LaterRank(count, s)
    else 3
  }

  /** The sender steps left, at most: those of the longest way the run can still go. */
  function Rank(count: nat, s: State): int {
    match s.pc
    case Open => LaterRank(count, s) + 2
    case Spawn => LaterRank(count, s) + 1
    case LoadSeq => LaterRank(count, s)
    case LoadStage => LaterRank(count, s) - 1
    case Fill => LaterRank(count, s) - 2
    case Arm => ArmRank(count, s)
    case Write => PollRank(count, s) + 1
    case Tick => PollRank(count, s)
    case CheckNext => if PollRank(count, s) == 3 then LaterRank(count, s) + 1 else PollRank(count, s) + 3
    case CheckErr => PollRank(count, s) + 2
    case CheckComplete => PollRank(count, s) + 1
    case FailExit => 1
    case SuccessExit => 1
    case Failed => 0
    case Succeeded => 0
    case Overrun => 0
  }

  function SenderSteps(labels: seq<Label>): nat {
    if labels == [] then 0
    else SenderSteps(labels[..|labels| - 1]) + if labels[|labels| - 1].Sender? then 1 else 0
  }

  /** What the rank needs to know of the invariant. */
  predicate Bounded(count: nat, s: State) {
    && |s.sends| <= count && (s.pc.Arm? || Outstanding(s.pc) ==> 0 < |s.sends| && s.sendCount <= MAX_SENDS)
    && (Outstanding(s.pc) ==> s.waitCount < OTA_WAIT_TIME && s.sendCount >= 1)
    && (s.pc.Write? ==> s.waitCount == 0)
    && (s.pc.Open? || s.pc.Spawn? ==> s.sends == [])
    && (s.pc.Fill? ==> s.sendCount == 0)
  }

  lemma InvBounded(img: seq<byte>, recs: seq<seq<byte>>, s: State)
    requires Inv(img, recs, s)
    ensures Bounded(|recs|, s) && Rank(|recs|, s) >= 0
  {
    InvBounds(img, recs, s);
    BoundedRank(|recs|, s);
  }

  lemma InvBounds(img: seq<byte>, recs: seq<seq<byte>>, s: State)
    requires Inv(img, recs, s)
    ensures Bounded(|recs|, s)
  {
    hide WellFormedImage, Replay, Books, Filled, SeqOf;
  }

  lemma BoundedRank(count: nat, s: State)
    requires Bounded(count, s)
    ensures Rank(count, s) >= 0
  {}

  lemma PollFalls(img: seq<byte>, count: nat, s: State, ok: bool, got: bool)
    requires Bounded(count, s) && Polling(s.pc)
    ensures Rank(count, SenderStep(img, s, ok, got)) < Rank(count, s)
  {
    hide FillStep, WriteStep;
    match s.pc
    case Tick =>
    case CheckNext =>
    case CheckErr =>
    case CheckComplete =>
  }

  lemma ArmFalls(img: seq<byte>, count: nat, s: State, ok: bool, got: bool)
    requires Bounded(count, s) && (s.pc.Arm? || s.pc.Write? || s.pc.Fill?)
    requires s.pc.Fill? && FillStep(img, s).pc.Arm? ==> |s.sends| < count
    ensures Rank(count, SenderStep(img, s, ok, got)) < Rank(count, s)
  {
    hide FillStep, WriteStep;
    match s.pc
    case Arm =>
    case Write =>
    case Fill =>
  }

  lemma RankFalls(img: seq<byte>, count: nat, s: State, ok: bool, got: bool)
    requires Bounded(count, s) && !Done(s.pc)
    requires s.pc.Fill? && FillStep(img, s).pc.Arm? ==> |s.sends| < count
    ensures Rank(count, SenderStep(img, s, ok, got)) < Rank(count, s)
  {
    hide FillStep, WriteStep;
    if Polling(s.pc) {
      PollFalls(img, count, s, ok, got);
    } else if s.pc.Arm? || s.pc.Write? || s.pc.Fill? {
      ArmFalls(img, count, s, ok, got);
    } else {
      hide PollRank, ArmRank;
    }
  }

  lemma FrameRank(count: nat, s: State, t: State)
    requires ReaderFrame(s, t)
    ensures Rank(count, t) == Rank(count, s)
  {}

  /** Each step of the sender uses up rank; the reader's use none. */
  lemma StepRank(split: bool, img: seq<byte>, recs: seq<seq<byte>>, s: State, l: Label)
    requires Inv(img, recs, s)
    ensures var t := Step(split, img, s, l);
            && (l.Sender? && !Done(s.pc) ==> Rank(|recs|, t) < Rank(|recs|, s))
            && (l.Reader? ==> Rank(|recs|, t) == Rank(|recs|, s))
            && (Done(s.pc) ==> t.pc == s.pc)
  {
    hide SenderStep, ReaderStep, Inv, Rank;
    match l
    case Reader(input) =>
      ReaderTouches(split, s, input);
      FrameRank(|recs|, s, ReaderStep(split, s, input));
    case Sender(ok, got) =>
      InvBounded(img, recs, s);
      if s.pc.Fill? {
        FillKeeps(img, recs, s);
      }
      if Done(s.pc) {
        DoneStays(img, s, ok, got);
      } else {
        RankFalls(img, |recs|, s, ok, got);
      }
  }

  lemma DoneStays(img: seq<byte>, s: State, ok: bool, got: bool)
    requires Done(s.pc)
    ensures SenderStep(img, s, ok, got) == s
  {}

  lemma {:induction false} RunRank(split: bool, img: seq<byte>, recs: seq<seq<byte>>, s: State, labels: seq<Label>)
    requires Inv(img, recs, s)
    ensures var t := Exec(split, img, s, labels);
            Inv(img, recs, t) && (Done(t.pc) || SenderSteps(labels) + Rank(|recs|, t) <= Rank(|recs|, s))
  {
    hide Inv, Step, Rank;
    if labels != [] {
      var n := |labels| - 1;
      RunRank(split, img, recs, s, labels[..n]);
      StepKeeps(split, img, recs, Exec(split, img, s, labels[..n]), labels[n]);
      StepRank(split, img, recs, Exec(split, img, s, labels[..n]), labels[n]);
    }
  }

  /** A run is over when the sender has taken as many steps as its rank. */
  lemma RankEnds(split: bool, img: seq<byte>, recs: seq<seq<byte>>, s: State, labels: seq<Label>)
    requires Inv(img, recs, s) && SenderSteps(labels) >= Rank(|recs|, s)
    ensures Done(Exec(split, img, s, labels).pc)
  {
    hide Exec, Inv;
    RunRank(split, img, recs, s, labels);
    var t := Exec(split, img, s, labels);
    InvBounded(img, recs, t);
    if !Done(t.pc) {
      RankPositive(|recs|, t);
    }
  }

  lemma RankPositive(count: nat, s: State)
    requires Bounded(count, s) && !Done(s.pc)
    ensures Rank(count, s) > 0
  {}

  /** Every run ends: whatever the schedule and the responses, the sender is done once it has taken 8997 steps for
      each record and seven more. Some runs take that many (`OtaLongest.LongestRun`). */
  lemma Terminates(split: bool, img: seq<byte>, recs: seq<seq<byte>>, s0: State, labels: seq<Label>)
    requires WellFormedImage(img, recs) && Initial(s0)
    requires SenderSteps(labels) >= 8997 * |recs| + 7
    ensures Done(Exec(split, img, s0, labels).pc)
  {
    InitialInv(img, recs, s0);
    RankEnds(split, img, recs, s0, labels);
  }

  // ---------------------------------------------------------------------------------------------
  // Running past the end of the image.

  /** While FINISH is outstanding nothing heard advances. */
  predicate FinishHolds(recs: seq<seq<byte>>, s: State) {
    Outstanding(s.pc) && |s.sends| == |recs| ==> forall r :: r in s.heard ==> !Advances(r, s.seqNo)
  }

  /** Step `k` takes the sender off FINISH. */
  predicate LeavesFinish(split: bool, img: seq<byte>, recs: seq<seq<byte>>, s0: State, labels: seq<Label>, k: nat) {
    recs != [] && Leaves(split, img, s0, labels, k, |recs| - 1)
  }

  lemma {:induction false} PassedGrows(split: bool, img: seq<byte>, recs: seq<seq<byte>>, s0: State, labels: seq<Label>, k: nat)
    requires WellFormedImage(img, recs) && Initial(s0) && k <= |labels|
    ensures Passed(Exec(split, img, s0, labels[..k])) <= Passed(Exec(split, img, s0, labels))
  {
    hide Step, Inv, Passed;
    if k == |labels| {
      assert labels[..k] == labels;
    } else {
      var n := |labels| - 1;
      PassedGrows(split, img, recs, s0, labels[..n], k);
      assert labels[..n][..k] == labels[..k];
      RunKeeps(split, img, recs, s0, labels[..n]);
      PassedMoves(split, img, recs, Exec(split, img, s0, labels[..n]), labels[n]);
    }
  }

  lemma PassedWhenDone(img: seq<byte>, recs: seq<seq<byte>>, s: State)
    requires Inv(img, recs, s) && Done(s.pc)
    ensures s.pc.Overrun? <==> Passed(s) == |recs|
  {
    hide Replay, Books, OnRecord;
  }

  lemma DoneIff(split: bool, img: seq<byte>, recs: seq<seq<byte>>, s0: State, labels: seq<Label>)
    requires WellFormedImage(img, recs) && Initial(s0) && Done(Exec(split, img, s0, labels).pc)
    ensures var pc := Exec(split, img, s0, labels).pc;
            pc.Failed? || pc.Succeeded? <==> !exists k: nat :: LeavesFinish(split, img, recs, s0, labels, k)
  {
    hide Exec, Inv, Passed, Step;
    var t := Exec(split, img, s0, labels);
    RunKeeps(split, img, recs, s0, labels);
    PassedWhenDone(img, recs, t);
    if t.pc.Overrun? {
      var k := FindLeave(split, img, recs, s0, labels, |recs| - 1);
      assert LeavesFinish(split, img, recs, s0, labels, k);
    }
    if k: nat :| LeavesFinish(split, img, recs, s0, labels, k) {
      LeavingCounts(split, img, recs, s0, labels, k);
      PassedGrows(split, img, recs, s0, labels, k + 1);
      PassedAtMost(img, recs, t);
    }
  }

  /** How a run ends, in either reader model. The sender fails or succeeds exactly when no look at the mailbox takes it off
      FINISH; otherwise it goes on to load a record from beyond the image. */
  lemma EndsIff(split: bool, img: seq<byte>, recs: seq<seq<byte>>, s0: State, labels: seq<Label>)
    requires WellFormedImage(img, recs) && Initial(s0)
    requires SenderSteps(labels) >= 8997 * |recs| + 7
    ensures var pc := Exec(split, img, s0, labels).pc;
            pc.Failed? || pc.Succeeded? <==> !exists k: nat :: LeavesFinish(split, img, recs, s0, labels, k)
  {
    Terminates(split, img, recs, s0, labels);
    DoneIff(split, img, recs, s0, labels);
  }

  lemma PassedAtMost(img: seq<byte>, recs: seq<seq<byte>>, s: State)
    requires Inv(img, recs, s)
    ensures Passed(s) <= |recs|
  {}

  lemma LeavingCounts(split: bool, img: seq<byte>, recs: seq<seq<byte>>, s0: State, labels: seq<Label>, k: nat)
    requires WellFormedImage(img, recs) && Initial(s0)
    requires LeavesFinish(split, img, recs, s0, labels, k)
    ensures Passed(Exec(split, img, s0, labels[..k + 1])) == |recs|
  {
    hide Inv, Step;
    var t := Exec(split, img, s0, labels[..k]);
    RunKeeps(split, img, recs, s0, labels[..k]);
    PassedMoves(split, img, recs, t, labels[k]);
    assert labels[..k + 1][..k] == labels[..k];
  }

  /** When no response heard while FINISH is outstanding advances and, with check and store apart, nothing stale is held,
      every long enough run fails or succeeds. */
  lemma Termination(split: bool, img: seq<byte>, recs: seq<seq<byte>>, s0: State, labels: seq<Label>)
    requires WellFormedImage(img, recs) && Initial(s0)
    requires forall k :: 0 <= k <= |labels| ==> FinishHolds(recs, Exec(split, img, s0, labels[..k]))
    requires split ==> forall k :: 0 <= k <= |labels| ==> NothingStale(Exec(split, img, s0, labels[..k]))
    requires SenderSteps(labels) >= 8997 * |recs| + 7
    ensures var pc := Exec(split, img, s0, labels).pc; pc.Failed? || pc.Succeeded?
  {
    hide Exec, NothingStale;
    EndsIff(split, img, recs, s0, labels);
    forall k: nat ensures !LeavesFinish(split, img, recs, s0, labels, k) {
      FinishKept(split, img, recs, s0, labels, k);
    }
  }

  lemma FinishKept(split: bool, img: seq<byte>, recs: seq<seq<byte>>, s0: State, labels: seq<Label>, k: nat)
    requires WellFormedImage(img, recs) && Initial(s0)
    requires forall k :: 0 <= k <= |labels| ==> FinishHolds(recs, Exec(split, img, s0, labels[..k]))
    requires split ==> forall k :: 0 <= k <= |labels| ==> NothingStale(Exec(split, img, s0, labels[..k]))
    ensures !LeavesFinish(split, img, recs, s0, labels, k)
  {
    hide Exec, NothingStale, StaleArmed;
    assert k <= |labels| ==> FinishHolds(recs, Exec(split, img, s0, labels[..k]));
    if LeavesFinish(split, img, recs, s0, labels, k) {
      var j := LeftRightly(split, img, recs, s0, labels, k, |recs| - 1);
      if split {
        NothingHeld(img, s0, labels, |recs|, NextCmd);
      }
    }
  }

  // ---------------------------------------------------------------------------------------------
  // The reader ends too.

  predicate Over(s: State) {
    s.pc.Failed? || s.pc.Succeeded?
  }

  lemma ReaderLowers(split: bool, s: State, input: Option<seq<byte>>)
    ensures ReaderStep(split, s, input).pc == s.pc && (ReaderStep(split, s, input).flagRead ==> s.flagRead)
  {
    hide Classify;
  }

  lemma SenderLowers(img: seq<byte>, s: State, ok: bool, got: bool)
    requires Over(s) ==> !s.flagRead
    ensures Over(SenderStep(img, s, ok, got)) ==> !SenderStep(img, s, ok, got).flagRead
  {
    hide FillStep, WriteStep;
  }

  lemma {:induction false} OverShuts(split: bool, img: seq<byte>, s0: State, labels: seq<Label>)
    requires Initial(s0)
    ensures var s := Exec(split, img, s0, labels); Over(s) ==> !s.flagRead
  {
    hide SenderStep, ReaderStep;
    if labels != [] {
      var n := |labels| - 1;
      OverShuts(split, img, s0, labels[..n]);
      match labels[n]
      case Sender(ok, got) => SenderLowers(img, Exec(split, img, s0, labels[..n]), ok, got);
      case Reader(input) => ReaderLowers(split, Exec(split, img, s0, labels[..n]), input);
    }
  }

  /** The reader's steps left once the flag is down. */
  function ReaderRank(reader: Reader): nat {
    match reader
    case NotStarted => 0
    case Stopped => 0
    case LoopTest => 1
    case ReadFailed => 1
    case Verdict(_, _) => 2
    case Holding(_) => 3
    case Reading => 4
  }

  function ReaderSteps(labels: seq<Label>): nat {
    if labels == [] then 0
    else ReaderSteps(labels[..|labels| - 1]) + if labels[|labels| - 1].Reader? then 1 else 0
  }

  lemma ShutStep(split: bool, img: seq<byte>, s: State, l: Label)
    requires Over(s) && !s.flagRead
    ensures var t := Step(split, img, s, l);
            && Over(t) && !t.flagRead
            && (l.Sender? ==> t == s)
            && (l.Reader? && ReaderRank(s.reader) > 0 ==> ReaderRank(t.reader) < ReaderRank(s.reader))
            && (l.Reader? && ReaderRank(s.reader) == 0 ==> t == s)
            && |t.heard| + (if ReaderRank(t.reader) >= 2 then 1 else 0) <= |s.heard| + (if ReaderRank(s.reader) >= 2 then 1 else 0)
  {
    hide FillStep, WriteStep, Classify;
  }

  lemma {:induction false} ShutRun(split: bool, img: seq<byte>, s: State, labels: seq<Label>)
    requires Over(s) && !s.flagRead
    ensures var t := Exec(split, img, s, labels);
            && Over(t) && !t.flagRead
            && ReaderRank(t.reader) <= (if ReaderSteps(labels) <= ReaderRank(s.reader) then ReaderRank(s.reader) - ReaderSteps(labels) else 0)
            && |t.heard| + (if ReaderRank(t.reader) >= 2 then 1 else 0) <= |s.heard| + (if ReaderRank(s.reader) >= 2 then 1 else 0)
  {
    hide Step;
    if labels != [] {
      var n := |labels| - 1;
      ShutRun(split, img, s, labels[..n]);
      ShutStep(split, img, Exec(split, img, s, labels[..n]), labels[n]);
    }
  }

  /** Shutdown. Once the sender has failed or succeeded, the reader stops after at most four steps of its own and takes
      at most one more response to the mailbox. */
  lemma ReaderStops(split: bool, img: seq<byte>, s0: State, labels: seq<Label>, more: seq<Label>)
    requires Initial(s0) && Over(Exec(split, img, s0, labels))
    ensures var s := Exec(split, img, s0, labels);
            var t := Exec(split, img, s, more);
            && t.pc == s.pc && |t.heard| <= |s.heard| + 1
            && (ReaderSteps(more) >= 4 ==> t.reader.Stopped? || t.reader.NotStarted?)
  {
    hide Exec;
    OverShuts(split, img, s0, labels);
    ShutRun(split, img, Exec(split, img, s0, labels), more);
    OverStays(split, img, Exec(split, img, s0, labels), more);
  }

  lemma {:induction false} OverStays(split: bool, img: seq<byte>, s: State, labels: seq<Label>)
    requires Over(s)
    ensures Exec(split, img, s, labels).pc == s.pc
  {
    hide Step;
    if labels != [] {
      OverStays(split, img, s, labels[..|labels| - 1]);
      OverStep(split, img, Exec(split, img, s, labels[..|labels| - 1]), labels[|labels| - 1]);
    }
  }

  lemma OverStep(split: bool, img: seq<byte>, s: State, l: Label)
    requires Over(s)
    ensures Step(split, img, s, l).pc == s.pc
  {
    hide ReaderStep;
    if l.Reader? {
      ReaderTouches(split, s, l.input);
    }
  }
}
