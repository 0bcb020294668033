/**
  Runs built step by step: an honest device that answers each frame, and a sender that gets through. They show that
  what is assumed of runs elsewhere can be met, for every well-formed image.
 */
module OtaRuns {
  import opened Bytes
  import opened OtaWire
  import opened OtaProtocol
  import opened OtaInvariant
  import opened OtaJustified
  import opened OtaTermination

  /** The device's answer to a record, as read: one byte that is skipped, report id, size, command, sequence number,
      status. */
  function Answer(rec: seq<byte>, status: byte): (r: seq<byte>)
    requires |rec| >= 7
    ensures Rid(r) == RESPONSE_RID && Status(r) == status
    ensures Command(r) == if IsData(rec) then DATA_CMD else if IsFinish(rec) then FINISH_CMD else START_CMD
    ensures IsData(rec) ==> Sequence(r) == SeqOf(rec)
  {
    [0, 2, 0, if IsData(rec) then 2 else if IsFinish(rec) then 3 else 1, rec[5], rec[6], status]
  }

  /** What the reader makes of it while the record is current. */
  lemma AnswerVerdict(rec: seq<byte>, status: byte)
    requires |rec| >= 7
    ensures Classify(Answer(rec, status), SeqOf(rec))
            == Some(if status == SUCCESS then (if IsFinish(rec) then Complete else NextCmd)
                    else if status == NO_NEED_UPDATE then Complete else ErrRetry)
  {}

  /** What a run is a run of: the reader model, the image and where it starts; and how many records are loaded when one of
      the premises made elsewhere about runs may fail: that about START and FINISH, that about completing early, that about
      stale verdicts. `NEVER` is no number of records. */
  datatype Course = Course(split: bool, img: seq<byte>, recs: seq<seq<byte>>, start: State, startGap: int, endGap: int, heldGap: int)
  {
    ghost predicate Valid() { WellFormedImage(img, recs) && Initial(start) }

    function After(labels: seq<Label>): State { Exec(split, img, start, labels) }

    function Next(s: State, l: Label): State { Step(split, img, s, l) }
  }

  const NEVER := -1

  /** The premises hold, but for the gaps of the course. */
  ghost predicate Fair(c: Course, s: State) {
    && Honest(s)
    && (|s.sends| != c.startGap ==> NoStaleStart(c.recs, s) && FinishHolds(c.recs, s))
    && (|s.sends| != c.endGap ==> NoEarlyEnd(c.recs, s))
    && (|s.sends| != c.heldGap ==> NothingStale(s))
  }

  ghost predicate Throughout(c: Course, labels: seq<Label>) {
    forall k :: 0 <= k <= |labels| ==> Fair(c, c.After(labels[..k]))
  }

  /** Some schedule leads to `t`, and the premises hold all the way. */
  ghost predicate Reaches(c: Course, t: State) {
    exists labels :: c.After(labels) == t && Throughout(c, labels)
  }

  lemma Goes(c: Course, s: State, l: Label)
    requires Reaches(c, s) && Fair(c, c.Next(s, l))
    ensures Reaches(c, c.Next(s, l))
  {
    hide Step, Exec, Fair;
    var labels :| c.After(labels) == s && Throughout(c, labels);
    var more := labels + [l];
    ExecMore(c.split, c.img, c.start, labels, l);
    forall k | 0 <= k <= |more| ensures Fair(c, c.After(more[..k])) {
      if k <= |labels| {
        assert more[..k] == labels[..k];
      } else {
        assert more[..k] == more;
      }
    }
    assert c.After(more) == c.Next(s, l) && Throughout(c, more);
  }

  lemma ReachesInv(c: Course, s: State)
    requires c.Valid() && Reaches(c, s)
    ensures Inv(c.img, c.recs, s) && Fair(c, s)
  {
    hide Exec, Fair, Inv;
    var labels :| c.After(labels) == s && Throughout(c, labels);
    RunKeeps(c.split, c.img, c.recs, c.start, labels);
    assert labels[..|labels|] == labels;
  }

  // ---------------------------------------------------------------------------------------------
  // When the premises carry over.

  lemma FairIdle(c: Course, s: State)
    requires Honest(s) && !Outstanding(s.pc) && (s.pc.Arm? && |s.sends| != c.heldGap ==> !s.reader.Verdict?)
    ensures Fair(c, s)
  {}

  lemma FairUnheard(c: Course, s: State)
    requires s.heard == [] && !s.pc.Arm?
    ensures Fair(c, s)
  {}

  lemma HonestStays(s: State, t: State)
    requires Honest(s) && t.heard == s.heard && s.delivered <= t.delivered
    ensures Honest(t)
  {}

  lemma FairStays(c: Course, s: State, t: State)
    requires Fair(c, s) && t.heard == s.heard && t.delivered == s.delivered && |t.sends| == |s.sends|
    requires t.seqNo == s.seqNo && (Outstanding(t.pc) ==> Outstanding(s.pc)) && (t.pc.Arm? ==> t.sendCount > 0)
    ensures Fair(c, t)
  {
    hide Advances, Completes, Answers, WellFormedRecord, Stale;
  }

  /** An honest answer to the current record keeps the premises: DATA success only for a frame that got there, START success
      only for a record that is not DATA, nothing that advances for FINISH, nothing that completes for any other. */
  lemma FairAnswer(c: Course, s: State, t: State, rec: seq<byte>, status: byte)
    requires Fair(c, s) && 0 < |s.sends| <= |c.recs| && rec == c.recs[|s.sends| - 1] && WellFormedRecord(rec)
    requires Frame(rec) in s.delivered && (IsFinish(rec) <==> |s.sends| == |c.recs|) && status != NO_NEED_UPDATE
    requires t.heard == s.heard + [Answer(rec, status)] && t.delivered == s.delivered && t.sends == s.sends
    requires t.seqNo == s.seqNo && t.pc == s.pc && Outstanding(t.pc)
    ensures Fair(c, t)
  {
    var r := Answer(rec, status);
    hide Answer, WellFormedRecord, Stale;
    if IsData(rec) {
      var f := Frame(rec);
      assert f[5] == rec[4] && f[6] == rec[5] && f[7] == rec[6];
      assert Answers(f, r);
    }
    assert !IsFinish(rec) || !Advances(r, t.seqNo);
    assert IsFinish(rec) || !Completes(r, t.seqNo);
  }

  // ---------------------------------------------------------------------------------------------
  // The sender's moves.

  /** The sender opens the image and starts the reader. */
  lemma Starts(c: Course) returns (t: State)
    requires c.Valid()
    ensures Reaches(c, t) && t.pc.LoadSeq? && t.reader.LoopTest? && t.flagRead
    ensures t.sends == [] && t.frames == [] && t.delivered == {} && t.heard == []
  {
    hide Fair, Reaches, FillStep, WriteStep;
    t := c.start;
    FairUnheard(c, t);
    assert Reaches(c, t) by {
      Begins(c);
    }
    FairUnheard(c, c.Next(t, Sender(true, false)));
    Goes(c, t, Sender(true, false));
    t := c.Next(t, Sender(true, false));
    FairUnheard(c, c.Next(t, Sender(true, false)));
    Goes(c, t, Sender(true, false));
    t := c.Next(t, Sender(true, false));
  }

  lemma Begins(c: Course)
    requires Fair(c, c.start)
    ensures Reaches(c, c.start)
  {
    hide Fair;
    var labels: seq<Label> := [];
    assert c.After(labels) == c.start;
    forall k | 0 <= k <= |labels| ensures Fair(c, c.After(labels[..k])) {
      assert labels[..k] == labels;
    }
    assert Throughout(c, labels);
  }

  /** A step of the sender that is no send keeps the premises. */
  lemma Idles(c: Course, s: State) returns (t: State)
    requires c.Valid() && Reaches(c, s) && !Outstanding(c.Next(s, Sender(true, false)).pc)
    requires c.Next(s, Sender(true, false)).pc.Arm? && |c.Next(s, Sender(true, false)).sends| != c.heldGap ==> !s.reader.Verdict?
    requires c.Next(s, Sender(true, false)).reader == s.reader
    requires c.Next(s, Sender(true, false)).heard == s.heard && c.Next(s, Sender(true, false)).delivered == s.delivered
    ensures t == c.Next(s, Sender(true, false)) && Reaches(c, t)
  {
    hide Reaches, Step, Honest, NoStaleStart, FinishHolds, NoEarlyEnd, NothingStale, Inv;
    t := c.Next(s, Sender(true, false));
    ReachesInv(c, s);
    HonestStays(s, t);
    FairIdle(c, t);
    Goes(c, s, Sender(true, false));
  }

  /** The sender loads the next record. */
  lemma Loads(c: Course, s: State) returns (t: State)
    requires c.Valid() && Reaches(c, s) && s.pc.LoadSeq? && |s.sends| < |c.recs|
    requires |s.sends| + 1 != c.heldGap ==> !s.reader.Verdict?
    ensures Reaches(c, t) && t.pc.Arm? && t.sends == s.sends + [0] && t.sendCount == 0
    ensures t.frames == s.frames && t.delivered == s.delivered && t.reader == s.reader && t.flagRead == s.flagRead
  {
    hide Reaches, FillStep, WriteStep, Inv;
    var a := Idles(c, s);
    var b := Idles(c, a);
    assert b.pc.Fill? && b.sends == s.sends && b.frames == s.frames && b.delivered == s.delivered;
    assert b.reader == s.reader && b.flagRead == s.flagRead && b.sendCount == 0;
    ReachesInv(c, b);
    FillKeeps(c.img, c.recs, b);
    t := Idles(c, b);
  }

  /** The sender arms the mailbox for another send. */
  lemma Arms(c: Course, s: State) returns (t: State)
    requires c.Valid() && Reaches(c, s) && s.pc.Arm? && s.sendCount < MAX_SENDS
    ensures Reaches(c, t)
    ensures t == s.(pc := Write, stage := Retrying, heard := [], sendCount := s.sendCount + 1, waitCount := 0)
  {
    hide Reaches, FillStep, WriteStep, Fair;
    t := c.Next(s, Sender(true, false));
    FairUnheard(c, t);
    Goes(c, s, Sender(true, false));
  }

  /** The sender writes the record's frame; `got` tells whether the device gets it. */
  lemma Writes(c: Course, s: State, got: bool) returns (t: State)
    requires c.Valid() && Reaches(c, s) && s.pc.Write? && s.heard == []
    ensures 0 < |s.sends| <= |c.recs| && Reaches(c, t)
    ensures var frame := Frame(c.recs[|s.sends| - 1]);
            t == s.(pc := Tick, frames := s.frames + [frame], sends := SentOnce(s.sends),
                    delivered := if got then s.delivered + {frame} else s.delivered)
  {
    hide Reaches, FillStep, Inv, Fair, SentOnce;
    ReachesInv(c, s);
    WriteKeeps(c.img, c.recs, s, true, got);
    OnTheRecord(c.img, c.recs, s);
    t := c.Next(s, Sender(true, got));
    assert t.frames == s.frames + [FrameIn(s.cmdBuf, s.len)];
    assert t.frames[|s.frames|] == FrameIn(s.cmdBuf, s.len);
    FairUnheard(c, t);
    Goes(c, s, Sender(true, got));
  }

  /** Where the sender stands during a send. */
  lemma OnTheRecord(img: seq<byte>, recs: seq<seq<byte>>, s: State)
    requires Inv(img, recs, s) && Outstanding(s.pc)
    ensures 0 < |s.sends| <= |recs| && WellFormedRecord(recs[|s.sends| - 1]) && s.seqNo == SeqOf(recs[|s.sends| - 1])
    ensures s.waitCount < OTA_WAIT_TIME && (IsFinish(recs[|s.sends| - 1]) <==> |s.sends| == |recs|)
  {
    hide Books, Replay, Filled, SeqOf;
  }

  /** A poll in time that finds an advance. */
  lemma MovesOn(c: Course, s: State) returns (t: State)
    requires c.Valid() && Reaches(c, s) && s.pc.Tick? && s.waitCount + 1 < OTA_WAIT_TIME && s.stage == NextCmd
    ensures Reaches(c, t) && t == s.(pc := LoadSeq, waitCount := s.waitCount + 1)
  {
    hide Reaches, FillStep, WriteStep;
    t := PollsTo(c, s);
    t := Idles(c, t);
  }

  lemma PollsTo(c: Course, s: State) returns (t: State)
    requires c.Valid() && Reaches(c, s) && s.pc.Tick? && s.waitCount + 1 < OTA_WAIT_TIME
    ensures Reaches(c, t) && t == s.(pc := CheckNext, waitCount := s.waitCount + 1)
  {
    hide Reaches, FillStep, WriteStep, Inv, Fair;
    ReachesInv(c, s);
    t := c.Next(s, Sender(true, false));
    FairStays(c, s, t);
    Goes(c, s, Sender(true, false));
  }

  /** A poll in time that finds an error. */
  lemma Retries(c: Course, s: State) returns (t: State)
    requires c.Valid() && Reaches(c, s) && s.pc.Tick? && s.waitCount + 1 < OTA_WAIT_TIME && s.stage == ErrRetry
    ensures Reaches(c, t) && t == s.(pc := Arm, waitCount := s.waitCount + 1)
  {
    hide Reaches, FillStep, WriteStep, Inv, Fair;
    t := PollsTo(c, s);
    ReachesInv(c, t);
    FairStays(c, t, c.Next(t, Sender(true, false)));
    Goes(c, t, Sender(true, false));
    t := c.Next(t, Sender(true, false));
    ReachesInv(c, t);
    InvBounded(c.img, c.recs, t);
    FairStays(c, t, c.Next(t, Sender(true, false)));
    Goes(c, t, Sender(true, false));
    t := c.Next(t, Sender(true, false));
  }

  /** A poll in time that finds the transfer complete, and the end. */
  lemma Succeeds(c: Course, s: State) returns (t: State)
    requires c.Valid() && Reaches(c, s) && s.pc.Tick? && s.waitCount + 1 < OTA_WAIT_TIME && s.stage == Complete
    ensures Reaches(c, t) && t == s.(pc := Succeeded, waitCount := s.waitCount + 1, flagRead := false)
  {
    hide Reaches, FillStep, WriteStep, Inv, Fair;
    t := PollsTo(c, s);
    ReachesInv(c, t);
    FairStays(c, t, c.Next(t, Sender(true, false)));
    Goes(c, t, Sender(true, false));
    t := c.Next(t, Sender(true, false));
    ReachesInv(c, t);
    FairStays(c, t, c.Next(t, Sender(true, false)));
    Goes(c, t, Sender(true, false));
    t := c.Next(t, Sender(true, false));
    t := Idles(c, t);
    t := Idles(c, t);
  }

  // ---------------------------------------------------------------------------------------------
  // The reader's moves.

  /** A reader step that takes nothing to the mailbox keeps the premises. */
  lemma Reads(c: Course, s: State, input: Option<seq<byte>>) returns (t: State)
    requires c.Valid() && Reaches(c, s) && !s.pc.Arm? && c.Next(s, Label.Reader(input)).heard == s.heard
    ensures t == c.Next(s, Label.Reader(input)) && Reaches(c, t)
  {
    hide Reaches, ReaderStep, Inv, Fair;
    t := c.Next(s, Label.Reader(input));
    ReaderTouches(c.split, s, input);
    ReachesInv(c, s);
    FairStays(c, s, t);
    Goes(c, s, Label.Reader(input));
  }

  /** The reader reads a response and checks it; the verdict is not in the mailbox yet. */
  lemma Holds(c: Course, s: State, r: seq<byte>) returns (t: State)
    requires c.Valid() && Reaches(c, s) && s.reader.LoopTest? && s.flagRead && !s.pc.Arm?
    ensures Reaches(c, t)
    ensures t == s.(reader := if c.split then Verdict(r, Classify(r, s.seqNo)) else Holding(r))
  {
    hide Reaches, SenderStep, Classify;
    t := Reads(c, s, None);
    t := Reads(c, t, Some(r));
    if c.split {
      t := Reads(c, t, None);
    }
  }

  /** The verdict reaches the mailbox. */
  lemma Stores(c: Course, s: State, r: seq<byte>, verdict: Option<Stage>) returns (t: State)
    requires c.Valid() && Reaches(c, s)
    requires s.reader == if c.split then Verdict(r, verdict) else Holding(r)
    requires !c.split ==> verdict == Classify(r, s.seqNo)
    requires Fair(c, Store(s, r, verdict))
    ensures Reaches(c, t) && t == Store(s, r, verdict)
  {
    hide Reaches, SenderStep, Classify, Fair;
    t := c.Next(s, Label.Reader(None));
    Goes(c, s, Label.Reader(None));
  }

  /** The device got the frame of the current record and answers it; the reader hears the answer. */
  lemma Hears(c: Course, s: State, status: byte) returns (t: State)
    requires c.Valid() && Reaches(c, s) && Outstanding(s.pc) && s.reader.LoopTest? && s.flagRead
    requires 0 < |s.sends| <= |c.recs| ==> Frame(c.recs[|s.sends| - 1]) in s.delivered
    requires status != NO_NEED_UPDATE
    ensures 0 < |s.sends| <= |c.recs| && WellFormedRecord(c.recs[|s.sends| - 1])
    ensures var rec := c.recs[|s.sends| - 1];
            && Reaches(c, t) && Classify(Answer(rec, status), SeqOf(rec)).Some?
            && t == s.(heard := s.heard + [Answer(rec, status)], stage := Classify(Answer(rec, status), SeqOf(rec)).value)
  {
    hide Reaches, Inv, Classify, Fair, Answer, SeqOf;
    ReachesInv(c, s);
    OnTheRecord(c.img, c.recs, s);
    var rec := c.recs[|s.sends| - 1];
    var r := Answer(rec, status);
    AnswerVerdict(rec, status);
    t := Holds(c, s, r);
    var u := Store(t, r, Classify(r, s.seqNo));
    FairAnswer(c, s, u, rec, status);
    t := Stores(c, t, r, Classify(r, s.seqNo));
  }

  /** A read fails, and the reader stops. */
  lemma LosesReader(c: Course, s: State) returns (t: State)
    requires c.Valid() && Reaches(c, s) && s.reader.LoopTest? && s.flagRead && !s.pc.Arm?
    ensures Reaches(c, t) && t == s.(reader := Stopped, flagRead := false)
  {
    hide Reaches, SenderStep, Classify;
    t := Reads(c, s, None);
    t := Reads(c, t, None);
    t := Reads(c, t, None);
  }

  // ---------------------------------------------------------------------------------------------
  // Getting through.

  /** The frames of the first `n` records. */
  function Got(recs: seq<seq<byte>>, n: nat): set<seq<byte>>
    requires n <= |recs|
  {
    if n == 0 then {} else Got(recs, n - 1) + {Frame(recs[n - 1])}
  }

  lemma {:induction false} GotMembers(recs: seq<seq<byte>>, n: nat, rec: seq<byte>)
    requires n <= |recs|
    ensures Frame(rec) in Got(recs, n) <==> rec in recs[..n]
  {
    if n > 0 {
      GotMembers(recs, n - 1, rec);
      assert recs[..n] == recs[..n - 1] + [recs[n - 1]];
      if rec != recs[n - 1] {
        FrameInjective(rec, recs[n - 1]);
      }
    }
  }

  /** The sender is about to load record `n`; each record before was sent once, and the device got them all. */
  predicate At(c: Course, n: nat, s: State) {
    && s.pc.LoadSeq? && s.reader.LoopTest? && s.flagRead
    && n == |s.sends| <= |c.recs| && s.frames == Frames(c.recs[..n]) && s.delivered == Got(c.recs, n)
  }

  /** The sender loads record `n` and writes it for the first time. */
  lemma Sends(c: Course, n: nat, s: State, got: bool) returns (t: State)
    requires c.Valid() && Reaches(c, s) && At(c, n, s) && n < |c.recs|
    ensures Reaches(c, t) && t.pc.Tick? && t.waitCount == 0 && t.sendCount == 1 && t.heard == []
    ensures |t.sends| == n + 1 && t.frames == Frames(c.recs[..n + 1]) && t.reader.LoopTest? && t.flagRead
    ensures t.delivered == Got(c.recs, if got then n + 1 else n)
  {
    hide Reaches, Frames, SenderStep;
    t := Loads(c, s);
    t := Arms(c, t);
    t := Writes(c, t, got);
    FramesGrow(c.recs, n);
  }

  /** Record `n` is sent, received, answered and left. */
  lemma Passes(c: Course, n: nat, s: State) returns (t: State)
    requires c.Valid() && Reaches(c, s) && At(c, n, s) && n < |c.recs| - 1
    ensures Reaches(c, t) && At(c, n + 1, t)
  {
    hide Reaches, SenderStep, Frames, Answer, Classify;
    RecordFits(c.img, c.recs, n);
    t := Sends(c, n, s, true);
    t := Hears(c, t, 0);
    AnswerVerdict(c.recs[n], 0);
    assert IsFinish(c.recs[n]) <==> n == |c.recs| - 1;
    t := MovesOn(c, t);
  }

  lemma {:induction false} GetsTo(c: Course, n: nat) returns (t: State)
    requires c.Valid() && n < |c.recs|
    ensures Reaches(c, t) && At(c, n, t)
  {
    hide Reaches;
    if n == 0 {
      t := Starts(c);
      assert c.recs[..0] == [] && Frames([]) == [];
    } else {
      t := GetsTo(c, n - 1);
      t := Passes(c, n - 1, t);
    }
  }

  /** Every well-formed image can be transferred: some run, with an honest device and none of what the theorems exclude, ends
      in success with each record sent once and received. */
  lemma TransferPossible(split: bool, img: seq<byte>, recs: seq<seq<byte>>, s0: State)
    requires WellFormedImage(img, recs) && Initial(s0)
    ensures exists labels ::
      && (forall k :: 0 <= k <= |labels| ==>
            var s := Exec(split, img, s0, labels[..k]);
            Honest(s) && NoStaleStart(recs, s) && FinishHolds(recs, s) && NoEarlyEnd(recs, s) && NothingStale(s))
      && var s := Exec(split, img, s0, labels);
         s.pc.Succeeded? && Passed(s) == |recs| - 1 && s.frames == Frames(recs) && s.delivered == Got(recs, |recs|)
  {
    hide Reaches, Exec, Inv, Honest, NoStaleStart, FinishHolds, NoEarlyEnd, NothingStale, Answer, Classify, WellFormedImage, Initial, Frames;
    var c := Course(split, img, recs, s0, NEVER, NEVER, NEVER);
    var n := |recs| - 1;
    LastIsFinish(img, recs);
    var t := GetsTo(c, n);
    t := Sends(c, n, t, true);
    t := Hears(c, t, 0);
    AnswerVerdict(recs[n], 0);
    t := Succeeds(c, t);
    assert recs[..n + 1] == recs;
    var labels := Schedule(c, t);
    assert Exec(split, img, s0, labels) == t;
    forall k | 0 <= k <= |labels|
      ensures var s := Exec(split, img, s0, labels[..k]); Honest(s) && NoStaleStart(recs, s) && FinishHolds(recs, s) && NoEarlyEnd(recs, s) && NothingStale(s)
    {
      assert Fair(c, Exec(split, img, s0, labels[..k]));
    }
  }

  lemma LastIsFinish(img: seq<byte>, recs: seq<seq<byte>>)
    requires WellFormedImage(img, recs)
    ensures recs != [] && WellFormedRecord(recs[|recs| - 1]) && IsFinish(recs[|recs| - 1])
  {
    assert WellFormedRecord(recs[|recs| - 1]);
  }

  lemma Schedule(c: Course, t: State) returns (labels: seq<Label>)
    requires Reaches(c, t)
    ensures Exec(c.split, c.img, c.start, labels) == t
    ensures forall k :: 0 <= k <= |labels| ==> Fair(c, Exec(c.split, c.img, c.start, labels[..k]))
  {
    hide Fair, Exec;
    labels :| c.After(labels) == t && Throughout(c, labels);
    forall k | 0 <= k <= |labels| ensures Fair(c, Exec(c.split, c.img, c.start, labels[..k])) {
      assert c.After(labels[..k]) == Exec(c.split, c.img, c.start, labels[..k]);
    }
  }
}
