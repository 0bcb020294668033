/**
  Why the sender goes on, and why it stops in success. When the reader checks and stores in one step: only because of the
  response heard last since it armed the mailbox. With check and store apart: that, or a verdict about an earlier record
  that the reader held when the sender first armed the mailbox for this one.
 */
module OtaJustified {
  import opened Bytes
  import opened OtaWire
  import opened OtaProtocol
  import opened OtaInvariant

  // ---------------------------------------------------------------------------------------------
  // The mailbox.

  /** A verdict the reader holds is the one it would reach now. */
  predicate Agrees(s: State) {
    s.reader.Verdict? ==> s.reader.verdict == Classify(s.reader.response, s.seqNo)
  }

  /** While a send is outstanding the mailbox holds the verdict on the last recognised response since. */
  predicate MailboxTells(s: State) {
    (Armed(s.pc) ==> Agrees(s)) && (Outstanding(s.pc) ==> s.stage == Mailbox(s.heard, s.seqNo))
  }

  lemma StoreTells(s: State, response: seq<byte>)
    requires MailboxTells(s)
    ensures Outstanding(s.pc) ==>
      var t := Store(s, response, Classify(response, s.seqNo)); t.stage == Mailbox(t.heard, t.seqNo)
  {
    assert (s.heard + [response])[..|s.heard|] == s.heard;
  }

  /** Every step keeps the mailbox telling, but for the one that loads a record: there the verdict must agree. */
  lemma StepTells(split: bool, img: seq<byte>, s: State, l: Label)
    requires MailboxTells(s)
    requires !Armed(s.pc) && Armed(Step(split, img, s, l).pc) ==> Agrees(Step(split, img, s, l))
    ensures MailboxTells(Step(split, img, s, l))
  {
    match l
    case Sender(ok, got) => SenderTells(img, s, ok, got);
    case Reader(input) =>
      hide Classify, Mailbox;
      if s.reader.Holding? || s.reader.Verdict? {
        StoreTells(s, s.reader.response);
      }
  }

  lemma EmptyMailbox(seqNo: nat)
    ensures Mailbox([], seqNo) == Retrying
  {}

  lemma SenderTells(img: seq<byte>, s: State, ok: bool, got: bool)
    requires MailboxTells(s)
    requires !Armed(s.pc) && Armed(SenderStep(img, s, ok, got).pc) ==> Agrees(SenderStep(img, s, ok, got))
    ensures MailboxTells(SenderStep(img, s, ok, got))
  {
    EmptyMailbox(s.seqNo);
    hide FillStep, WriteStep, Mailbox, Classify;
  }

  lemma NeverVerdict(img: seq<byte>, s: State, l: Label)
    requires !s.reader.Verdict?
    ensures !Step(false, img, s, l).reader.Verdict?
  {
    hide FillStep, WriteStep, Classify;
  }

  /** With check and store in one step the mailbox always tells. */
  lemma {:induction false} RunTells(img: seq<byte>, s0: State, labels: seq<Label>)
    requires Initial(s0)
    ensures MailboxTells(Exec(false, img, s0, labels)) && !Exec(false, img, s0, labels).reader.Verdict?
  {
    hide Step, Mailbox;
    if labels != [] {
      var s := Exec(false, img, s0, labels[..|labels| - 1]);
      RunTells(img, s0, labels[..|labels| - 1]);
      NeverVerdict(img, s, labels[|labels| - 1]);
      StepTells(false, img, s, labels[|labels| - 1]);
    }
  }

  /** With check and store apart it tells in every run in which, whenever the mailbox is first armed for a record, the
      verdict the reader holds, if any, agrees. */
  lemma {:induction false} SplitTells(img: seq<byte>, recs: seq<seq<byte>>, s0: State, labels: seq<Label>)
    requires WellFormedImage(img, recs) && Initial(s0)
    requires forall k :: 0 <= k <= |labels| ==> ArmedAgreed(Exec(true, img, s0, labels[..k]))
    ensures MailboxTells(Exec(true, img, s0, labels))
  {
    hide Step, Mailbox, Inv, Classify;
    if labels != [] {
      var n := |labels| - 1;
      var s := Exec(true, img, s0, labels[..n]);
      forall k | 0 <= k <= n ensures ArmedAgreed(Exec(true, img, s0, labels[..n][..k])) {
        assert labels[..n][..k] == labels[..k];
      }
      SplitTells(img, recs, s0, labels[..n]);
      assert labels[..n + 1] == labels;
      if !Armed(s.pc) {
        RunKeeps(true, img, recs, s0, labels[..n]);
        FillArms(true, img, recs, s, labels[n]);
      }
      StepTells(true, img, s, labels[n]);
    }
  }

  /** When the mailbox is first armed for a record, the verdict the reader holds, if any, agrees. */
  predicate ArmedAgreed(s: State) {
    s.pc.Arm? && s.sendCount == 0 ==> Agrees(s)
  }

  /** The sender's look at the mailbox sends it on exactly when the last recognised response advances. */
  lemma AdvanceIff(img: seq<byte>, recs: seq<seq<byte>>, s: State, ok: bool, got: bool)
    requires Inv(img, recs, s) && MailboxTells(s) && s.pc.CheckNext?
    ensures var last := LastRecognised(s.heard);
            && (SenderStep(img, s, ok, got).pc == LoadSeq <==> last.Some? && Advances(last.value, s.seqNo))
            && (s.stage == NextCmd <==> last.Some? && Advances(last.value, s.seqNo))
            && (last.Some? ==> last.value in s.heard)
            && s.seqNo == SeqOf(recs[|s.sends| - 1])
  {
    hide Advances;
    MailboxMeans(s.heard, s.seqNo);
  }

  /** A whole poll. Undisturbed, the sender retries at the deadline without looking; before it, it polls on while no
      response is recognised, and otherwise the last recognised response decides: one that advances sends it on, one
      that completes ends the run, any other makes it send the record again. */
  lemma PollDecides(img: seq<byte>, s: State, ok: bool, got: bool)
    requires MailboxTells(s) && s.pc.Tick?
    ensures var a := SenderStep(img, s, ok, got);
            var b := SenderStep(img, a, ok, got);
            var c := SenderStep(img, b, ok, got);
            var d := SenderStep(img, c, ok, got);
            var last := LastRecognised(s.heard);
            if s.waitCount >= 749 then a == s.(pc := Arm, waitCount := s.waitCount + 1)
            else if last.None? then d == s.(waitCount := s.waitCount + 1)
            else if Advances(last.value, s.seqNo) then b == s.(pc := LoadSeq, waitCount := s.waitCount + 1)
            else if Completes(last.value, s.seqNo) then d == s.(pc := SuccessExit, waitCount := s.waitCount + 1)
            else c == s.(pc := Arm, waitCount := s.waitCount + 1)
  {
    hide FillStep, WriteStep, Advances, Completes, Classify, LastRecognised;
    MailboxMeans(s.heard, s.seqNo);
    MailboxValues(s.heard, s.seqNo);
  }

  lemma {:induction false} MailboxValues(heard: seq<seq<byte>>, seqNo: nat)
    ensures var m := Mailbox(heard, seqNo); m == Retrying || m == NextCmd || m == Complete || m == ErrRetry
  {
    if heard != [] {
      MailboxValues(heard[..|heard| - 1], seqNo);
    }
  }

  // ---------------------------------------------------------------------------------------------
  // Verdicts that are not about this record.

  predicate IsVerdict(v: Stage) {
    v.NextCmd? || v.ErrRetry? || v.Complete?
  }

  /** The reader holds verdict `v` on a response that does not call for it while this record is current. */
  predicate Stale(s: State, v: Stage) {
    s.reader.Verdict? && s.reader.verdict == Some(v) && Classify(s.reader.response, s.seqNo) != Some(v)
  }

  /** The last recognised response since the mailbox was armed calls for `v`. */
  predicate Shows(s: State, v: Stage) {
    var last := LastRecognised(s.heard);
    last.Some? && last.value in s.heard && Classify(last.value, s.seqNo) == Some(v)
  }

  /** If the mailbox says `v`, then rightly so, and nothing is about to change that. */
  predicate Fresh(s: State, v: Stage) {
    !Stale(s, v) && (Outstanding(s.pc) && s.stage == v ==> Shows(s, v))
  }

  /** The reader's verdicts are on recognised responses. */
  predicate ReaderSound(s: State) {
    s.reader.Verdict? ==> (s.reader.verdict.Some? <==> Recognised(s.reader.response))
  }

  lemma SenderSound(img: seq<byte>, s: State, ok: bool, got: bool)
    ensures SenderStep(img, s, ok, got).reader == s.reader || !SenderStep(img, s, ok, got).reader.Verdict?
  {
    hide FillStep, WriteStep;
  }

  lemma StepSound(split: bool, img: seq<byte>, s: State, l: Label)
    requires ReaderSound(s)
    ensures ReaderSound(Step(split, img, s, l))
  {
    match l
    case Sender(ok, got) =>
      SenderSound(img, s, ok, got);
      hide SenderStep, Recognised;
    case Reader(input) =>
      if s.reader.Holding? {
        ClassifyMeans(s.reader.response, s.seqNo);
      }
      hide Classify, Recognised;
  }

  lemma {:induction false} RunSound(split: bool, img: seq<byte>, s0: State, labels: seq<Label>)
    requires Initial(s0)
    ensures ReaderSound(Exec(split, img, s0, labels))
  {
    hide Step, Recognised;
    if labels != [] {
      RunSound(split, img, s0, labels[..|labels| - 1]);
      StepSound(split, img, Exec(split, img, s0, labels[..|labels| - 1]), labels[|labels| - 1]);
    }
  }

  lemma StoreFresh(s: State, response: seq<byte>, verdict: Option<Stage>, v: Stage)
    requires Fresh(s, v) && IsVerdict(v) && (verdict.Some? <==> Recognised(response))
    requires verdict == Some(v) ==> Classify(response, s.seqNo) == Some(v)
    ensures Fresh(Store(s, response, verdict), v)
  {
    hide Classify, Recognised;
    assert (s.heard + [response])[..|s.heard|] == s.heard;
  }

  lemma SenderWaits(img: seq<byte>, s: State, ok: bool, got: bool)
    requires Armed(s.pc) && Armed(SenderStep(img, s, ok, got).pc)
    ensures var t := SenderStep(img, s, ok, got);
            && t.reader == s.reader && t.seqNo == s.seqNo && (s.pc.Arm? ==> t.heard == [] && t.stage == Retrying)
            && (!s.pc.Arm? ==> t.heard == s.heard && t.stage == s.stage)
  {
    hide FillStep, WriteStep;
  }

  lemma SenderFresh(img: seq<byte>, s: State, ok: bool, got: bool, v: Stage)
    requires Fresh(s, v) && IsVerdict(v) && Armed(s.pc) && Armed(SenderStep(img, s, ok, got).pc)
    ensures Fresh(SenderStep(img, s, ok, got), v)
  {
    SenderWaits(img, s, ok, got);
    hide SenderStep, Classify, LastRecognised;
  }

  /** A step that stays on the record keeps its mailbox fresh. */
  lemma StepFresh(split: bool, img: seq<byte>, s: State, l: Label, v: Stage)
    requires Fresh(s, v) && IsVerdict(v) && ReaderSound(s) && Armed(s.pc) && Armed(Step(split, img, s, l).pc)
    ensures Fresh(Step(split, img, s, l), v)
  {
    match l
    case Sender(ok, got) => SenderFresh(img, s, ok, got, v);
    case Reader(input) =>
      if s.reader.Holding? {
        ClassifyMeans(s.reader.response, s.seqNo);
      }
      hide Classify, Recognised, LastRecognised;
      if s.reader.Holding? && !split {
        StoreFresh(s, s.reader.response, Classify(s.reader.response, s.seqNo), v);
      } else if s.reader.Verdict? {
        StoreFresh(s, s.reader.response, s.reader.verdict, v);
      }
  }

  lemma FillArms(split: bool, img: seq<byte>, recs: seq<seq<byte>>, s: State, l: Label)
    requires Inv(img, recs, s) && !Armed(s.pc)
    ensures var t := Step(split, img, s, l);
            Armed(t.pc) ==> s.pc.Fill? && t.pc.Arm? && t.sendCount == 0
  {
    hide FillStep, WriteStep, Books, Replay, OnRecord, ReaderStep, WellFormedImage;
    if l.Reader? {
      ReaderTouches(split, s, l.input);
    }
  }

  lemma StaysOnRecord(split: bool, img: seq<byte>, s: State, l: Label)
    requires Armed(s.pc) && Armed(Step(split, img, s, l).pc)
    ensures |Step(split, img, s, l).sends| == |s.sends|
  {
    hide FillStep, WriteStep, ReaderStep;
    if l.Reader? {
      ReaderTouches(split, s, l.input);
    }
  }

  /** After the first `j` steps the mailbox is first armed for the `count`th record, and the reader holds a stale `v`. */
  predicate StaleArmed(img: seq<byte>, s0: State, labels: seq<Label>, j: nat, count: nat, v: Stage) {
    && j <= |labels|
    && var t := Exec(true, img, s0, labels[..j]);
       t.pc.Arm? && t.sendCount == 0 && |t.sends| == count && Stale(t, v)
  }

  /** At some moment of the run the mailbox is first armed for the `count`th record, and the reader holds a stale `v`. */
  ghost predicate StaleHeld(img: seq<byte>, s0: State, labels: seq<Label>, count: nat, v: Stage) {
    exists j: nat :: StaleArmed(img, s0, labels, j, count, v)
  }

  /** While the sender stands on a record, the mailbox says `v` only rightly, or else a stale `v` was held when the mailbox
      was first armed for that record. */
  lemma {:induction false} FreshOrStale(split: bool, img: seq<byte>, recs: seq<seq<byte>>, s0: State, labels: seq<Label>, v: Stage) returns (j: nat)
    requires WellFormedImage(img, recs) && Initial(s0) && IsVerdict(v)
    ensures var t := Exec(split, img, s0, labels);
            Armed(t.pc) ==> Fresh(t, v) || (split && StaleArmed(img, s0, labels, j, |t.sends|, v))
  {
    hide Step, Inv, Fresh, Stale, WellFormedImage;
    j := 0;
    var t := Exec(split, img, s0, labels);
    if labels != [] && Armed(t.pc) {
      var n := |labels| - 1;
      var s := Exec(split, img, s0, labels[..n]);
      RunKeeps(split, img, recs, s0, labels[..n]);
      RunKeeps(split, img, recs, s0, labels);
      if Armed(s.pc) {
        j := FreshOrStale(split, img, recs, s0, labels[..n], v);
        StaysOnRecord(split, img, s, labels[n]);
        if Fresh(s, v) {
          RunSound(split, img, s0, labels[..n]);
          StepFresh(split, img, s, labels[n], v);
        } else {
          assert labels[..n][..j] == labels[..j];
        }
      } else {
        FillArms(split, img, recs, s, labels[n]);
        ArmedFresh(t, v);
        ArmLoaded(img, recs, t);
        if !split {
          RunTells(img, s0, labels);
          NotStale(t, v);
        }
        j := |labels|;
        assert labels[..j] == labels;
      }
    }
  }

  lemma ArmedFresh(s: State, v: Stage)
    requires s.pc.Arm?
    ensures Fresh(s, v) <==> !Stale(s, v)
  {}

  lemma NotStale(s: State, v: Stage)
    requires !s.reader.Verdict?
    ensures !Stale(s, v)
  {}

  lemma ArmLoaded(img: seq<byte>, recs: seq<seq<byte>>, s: State)
    requires Inv(img, recs, s) && Armed(s.pc)
    ensures 0 < |s.sends| <= |recs| && WellFormedRecord(recs[|s.sends| - 1]) && s.seqNo == SeqOf(recs[|s.sends| - 1])
  {
    hide Books, Replay, Filled, SeqOf;
  }

  // ---------------------------------------------------------------------------------------------
  // Going on to the next record.

  /** How many records the sender has left behind. */
  function Passed(s: State): nat {
    if s.pc.LoadSeq? || s.pc.LoadStage? || s.pc.Fill? || s.pc.Overrun? || s.sends == [] then |s.sends| else |s.sends| - 1
  }

  lemma SenderMoves(img: seq<byte>, recs: seq<seq<byte>>, s: State, ok: bool, got: bool)
    requires Inv(img, recs, s)
    ensures var advance := s.pc.CheckNext? && s.stage == NextCmd;
            && Passed(SenderStep(img, s, ok, got)) == Passed(s) + (if advance then 1 else 0)
            && (advance ==> Passed(s) == |s.sends| - 1)
  {
    hide FillStep, WriteStep;
    hide RecordAt, Replay, WellFormedImage, Books;
  }

  lemma PassedMoves(split: bool, img: seq<byte>, recs: seq<seq<byte>>, s: State, l: Label)
    requires Inv(img, recs, s)
    ensures var advance := l.Sender? && s.pc.CheckNext? && s.stage == NextCmd;
            && Passed(Step(split, img, s, l)) == Passed(s) + (if advance then 1 else 0)
            && (advance ==> Passed(s) == |s.sends| - 1)
  {
    hide SenderStep, ReaderStep;
    match l
    case Sender(ok, got) => SenderMoves(img, recs, s, ok, got);
    case Reader(input) => ReaderTouches(split, s, input);
  }

  /** Step `k` takes the sender off record `i`. */
  predicate Leaves(split: bool, img: seq<byte>, s0: State, labels: seq<Label>, k: nat, i: nat) {
    && k < |labels| && labels[k].Sender?
    && var t := Exec(split, img, s0, labels[..k]);
       t.pc.CheckNext? && t.stage == NextCmd && |t.sends| == i + 1
  }

  /** Step `k` takes the sender off record `i`, and the last recognised response since it armed the mailbox lets
      it. */
  predicate LeavesJustified(split: bool, img: seq<byte>, recs: seq<seq<byte>>, s0: State, labels: seq<Label>, k: nat, i: nat) {
    && Leaves(split, img, s0, labels, k, i) && i < |recs| && WellFormedRecord(recs[i])
    && var t := Exec(split, img, s0, labels[..k]);
       var last := LastRecognised(t.heard);
       t.seqNo == SeqOf(recs[i]) && last.Some? && last.value in t.heard && Advances(last.value, SeqOf(recs[i]))
  }

  lemma {:induction false} FindLeave(split: bool, img: seq<byte>, recs: seq<seq<byte>>, s0: State, labels: seq<Label>, i: nat) returns (k: nat)
    requires WellFormedImage(img, recs) && Initial(s0)
    requires i < Passed(Exec(split, img, s0, labels))
    ensures Leaves(split, img, s0, labels, k, i)
  {
    hide Step, Inv, WellFormedImage;
    var n := |labels| - 1;
    var s := Exec(split, img, s0, labels[..n]);
    RunKeeps(split, img, recs, s0, labels[..n]);
    PassedMoves(split, img, recs, s, labels[n]);
    if i < Passed(s) {
      k := FindLeave(split, img, recs, s0, labels[..n], i);
      assert labels[..n][..k] == labels[..k];
    } else {
      k := n;
    }
  }

  /** A record is left rightly, or else a stale advance was held when the mailbox was first armed for it. */
  lemma LeftRightly(split: bool, img: seq<byte>, recs: seq<seq<byte>>, s0: State, labels: seq<Label>, k: nat, i: nat) returns (j: nat)
    requires WellFormedImage(img, recs) && Initial(s0) && Leaves(split, img, s0, labels, k, i)
    ensures LeavesJustified(split, img, recs, s0, labels, k, i) || (split && StaleArmed(img, s0, labels, j, i + 1, NextCmd))
  {
    hide Exec, Inv, Stale, Classify, Advances, WellFormedImage, LastRecognised;
    var t := Exec(split, img, s0, labels[..k]);
    RunKeeps(split, img, recs, s0, labels[..k]);
    ArmLoaded(img, recs, t);
    j := FreshOrStale(split, img, recs, s0, labels[..k], NextCmd);
    if Fresh(t, NextCmd) {
      ClassifyMeans(LastRecognised(t.heard).value, t.seqNo);
    } else {
      assert labels[..k][..j] == labels[..j];
    }
  }

  lemma RecordFits(img: seq<byte>, recs: seq<seq<byte>>, i: nat)
    requires WellFormedImage(img, recs) && i < |recs|
    ensures WellFormedRecord(recs[i])
  {}

  /** Justified advance. In every interleaving, for every record the sender has left there was a moment at which it stood on
      that record and the last recognised response since it armed the mailbox was a success for START, or for DATA with the
      sequence number of that very record; or else, with check and store apart, the reader held a stale advance when the
      mailbox was first armed for it. */
  lemma JustifiedAdvance(split: bool, img: seq<byte>, recs: seq<seq<byte>>, s0: State, labels: seq<Label>, i: nat)
    requires WellFormedImage(img, recs) && Initial(s0)
    requires i < Passed(Exec(split, img, s0, labels))
    ensures (exists k: nat :: LeavesJustified(split, img, recs, s0, labels, k, i))
            || (split && StaleHeld(img, s0, labels, i + 1, NextCmd))
  {
    var k := FindLeave(split, img, recs, s0, labels, i);
    var j := LeftRightly(split, img, recs, s0, labels, k, i);
  }

  // ---------------------------------------------------------------------------------------------
  // Stopping in success.

  /** Step `k` takes the sender into success, on the record it ends on. */
  predicate Ends(split: bool, img: seq<byte>, s0: State, labels: seq<Label>, k: nat, sends: seq<nat>) {
    && k < |labels| && labels[k].Sender?
    && var t := Exec(split, img, s0, labels[..k]);
       t.pc.CheckComplete? && t.stage == Complete && t.sends == sends
  }

  /** Step `k` takes the sender into success; it stands on the record it ends on, and the last recognised response since
      it armed the mailbox completes the transfer. */
  predicate EndsJustified(split: bool, img: seq<byte>, recs: seq<seq<byte>>, s0: State, labels: seq<Label>, k: nat, sends: seq<nat>) {
    && Ends(split, img, s0, labels, k, sends) && 0 < |sends| <= |recs| && WellFormedRecord(recs[|sends| - 1])
    && var t := Exec(split, img, s0, labels[..k]);
       var last := LastRecognised(t.heard);
       && t.seqNo == SeqOf(recs[|sends| - 1]) && last.Some? && last.value in t.heard
       && Completes(last.value, SeqOf(recs[|sends| - 1]))
  }

  predicate InSuccess(s: State) {
    s.pc.SuccessExit? || s.pc.Succeeded?
  }

  lemma {:induction false} FindEnd(split: bool, img: seq<byte>, s0: State, labels: seq<Label>) returns (k: nat)
    requires Initial(s0) && InSuccess(Exec(split, img, s0, labels))
    ensures Ends(split, img, s0, labels, k, Exec(split, img, s0, labels).sends)
  {
    hide Step;
    var n := |labels| - 1;
    var s := Exec(split, img, s0, labels[..n]);
    if InSuccess(s) {
      SuccessStays(split, img, s, labels[n]);
      k := FindEnd(split, img, s0, labels[..n]);
      assert labels[..n][..k] == labels[..k];
    } else {
      SuccessEntered(split, img, s, labels[n]);
      k := n;
    }
  }

  lemma EndedRightly(split: bool, img: seq<byte>, recs: seq<seq<byte>>, s0: State, labels: seq<Label>, k: nat, sends: seq<nat>) returns (j: nat)
    requires WellFormedImage(img, recs) && Initial(s0) && Ends(split, img, s0, labels, k, sends)
    ensures EndsJustified(split, img, recs, s0, labels, k, sends)
            || (split && StaleArmed(img, s0, labels, j, |sends|, Complete))
  {
    hide Exec, Inv, Stale, Classify, Completes, WellFormedImage, LastRecognised;
    var t := Exec(split, img, s0, labels[..k]);
    RunKeeps(split, img, recs, s0, labels[..k]);
    ArmLoaded(img, recs, t);
    j := FreshOrStale(split, img, recs, s0, labels[..k], Complete);
    if Fresh(t, Complete) {
      ClassifyMeans(LastRecognised(t.heard).value, t.seqNo);
    } else {
      assert labels[..k][..j] == labels[..j];
    }
  }

  /** Success provenance. The sender stops in success only after a FINISH success, or a "no need to update" for
      START, for FINISH or for DATA with the sequence number of the record it stands on, was the last recognised
      response since it armed the mailbox; or else, with check and store apart, the reader held a stale completion when the
      mailbox was first armed for that record. */
  lemma SuccessProvenance(split: bool, img: seq<byte>, recs: seq<seq<byte>>, s0: State, labels: seq<Label>)
    requires WellFormedImage(img, recs) && Initial(s0) && InSuccess(Exec(split, img, s0, labels))
    ensures var sends := Exec(split, img, s0, labels).sends;
            (exists k: nat :: EndsJustified(split, img, recs, s0, labels, k, sends))
            || (split && StaleHeld(img, s0, labels, |sends|, Complete))
  {
    var k := FindEnd(split, img, s0, labels);
    var j := EndedRightly(split, img, recs, s0, labels, k, Exec(split, img, s0, labels).sends);
  }

  lemma SuccessStays(split: bool, img: seq<byte>, s: State, l: Label)
    requires InSuccess(s)
    ensures InSuccess(Step(split, img, s, l)) && Step(split, img, s, l).sends == s.sends
  {
    hide FillStep, WriteStep, ReaderStep;
    if l.Reader? {
      ReaderTouches(split, s, l.input);
    }
  }

  lemma SuccessEntered(split: bool, img: seq<byte>, s: State, l: Label)
    requires !InSuccess(s)
    ensures InSuccess(Step(split, img, s, l)) ==>
              l.Sender? && s.pc.CheckComplete? && s.stage == Complete && Step(split, img, s, l).sends == s.sends
  {
    hide FillStep, WriteStep, ReaderStep;
    if l.Reader? {
      ReaderTouches(split, s, l.input);
    }
  }

  // ---------------------------------------------------------------------------------------------
  // Delivery.

  predicate DeliveredKnown(recs: seq<seq<byte>>, s: State) {
    |s.sends| <= |recs| && forall f :: f in s.delivered ==> exists j :: 0 <= j < |s.sends| && f == Frame(recs[j])
  }

  lemma StepDelivers(split: bool, img: seq<byte>, recs: seq<seq<byte>>, s: State, l: Label)
    requires Inv(img, recs, s) && DeliveredKnown(recs, s)
    ensures DeliveredKnown(recs, Step(split, img, s, l)) && s.delivered <= Step(split, img, s, l).delivered
  {
    hide ReaderStep, Inv;
    match l
    case Reader(input) => ReaderTouches(split, s, input);
    case Sender(ok, got) =>
      SenderKeeps(img, recs, s, ok, got);
      if s.pc.Write? {
        WriteDelivers(img, recs, s, ok, got);
      } else {
        OthersDeliver(img, s, ok, got);
        InvCounts(img, recs, SenderStep(img, s, ok, got));
      }
  }

  lemma InvCounts(img: seq<byte>, recs: seq<seq<byte>>, s: State)
    requires Inv(img, recs, s)
    ensures |s.sends| <= |recs|
  {}

  lemma OthersDeliver(img: seq<byte>, s: State, ok: bool, got: bool)
    requires !s.pc.Write?
    ensures var t := SenderStep(img, s, ok, got); t.delivered == s.delivered && |s.sends| <= |t.sends|
  {
    hide FillStep, WriteStep;
  }

  lemma WriteDelivers(img: seq<byte>, recs: seq<seq<byte>>, s: State, ok: bool, got: bool)
    requires Inv(img, recs, s) && s.pc.Write? && DeliveredKnown(recs, s)
    ensures DeliveredKnown(recs, WriteStep(s, ok, got)) && s.delivered <= WriteStep(s, ok, got).delivered
  {
    var t := WriteStep(s, ok, got);
    var rec := recs[|s.sends| - 1];
    assert WellFormedRecord(rec);
    assert Filled(rec)[..|rec| + 1] == Frame(rec);
    assert |t.sends| == |s.sends| && t.delivered <= s.delivered + {Frame(rec)};
  }

  lemma {:induction false} RunDelivers(split: bool, img: seq<byte>, recs: seq<seq<byte>>, s0: State, labels: seq<Label>, k: nat)
    requires WellFormedImage(img, recs) && Initial(s0) && k <= |labels|
    ensures DeliveredKnown(recs, Exec(split, img, s0, labels))
    ensures Exec(split, img, s0, labels[..k]).delivered <= Exec(split, img, s0, labels).delivered
  {
    if labels != [] {
      var n := |labels| - 1;
      RunDelivers(split, img, recs, s0, labels[..n], if k <= n then k else n);
      RunKeeps(split, img, recs, s0, labels[..n]);
      StepDelivers(split, img, recs, Exec(split, img, s0, labels[..n]), labels[n]);
      if k <= n {
        assert labels[..n][..k] == labels[..k];
      } else {
        assert labels[..k] == labels;
      }
    } else {
      assert labels[..k] == [];
    }
  }

  /** A DATA success answers a DATA frame with its sequence number. */
  predicate Answers(frame: seq<byte>, response: seq<byte>) {
    |frame| >= 8 && frame[5] == DATA_CMD && Le16(frame[6], frame[7]) == Sequence(response)
  }

  /** The device reports a DATA record received only if one with that sequence number got there. */
  predicate Honest(s: State) {
    forall r :: r in s.heard && Rid(r) == RESPONSE_RID && Command(r) == DATA_CMD && Status(r) == SUCCESS ==>
      exists f :: f in s.delivered && Answers(f, r)
  }

  /** No success for START is heard while a DATA record is outstanding. */
  predicate NoStaleStart(recs: seq<seq<byte>>, s: State) {
    Outstanding(s.pc) && 0 < |s.sends| <= |recs| && WellFormedRecord(recs[|s.sends| - 1]) && IsData(recs[|s.sends| - 1]) ==>
      forall r :: r in s.heard && Rid(r) == RESPONSE_RID && Status(r) == SUCCESS ==> Command(r) != START_CMD
  }

  predicate DistinctSequences(recs: seq<seq<byte>>) {
    forall i, j ::
      (&& 0 <= i < |recs| && 0 <= j < |recs| && WellFormedRecord(recs[i]) && WellFormedRecord(recs[j])
       && IsData(recs[i]) && IsData(recs[j]) && SeqOf(recs[i]) == SeqOf(recs[j]))
      ==> i == j
  }

  lemma AnsweredFrame(recs: seq<seq<byte>>, s: State, i: nat, f: seq<byte>, r: seq<byte>)
    requires DeliveredKnown(recs, s) && i < |recs| && forall i :: 0 <= i < |recs| ==> WellFormedRecord(recs[i])
    requires DistinctSequences(recs) && IsData(recs[i])
    requires f in s.delivered && Answers(f, r) && Sequence(r) == SeqOf(recs[i])
    ensures f == Frame(recs[i])
  {
    var j :| 0 <= j < |s.sends| && f == Frame(recs[j]);
    assert WellFormedRecord(recs[j]);
    assert f[5] == recs[j][4] && f[6] == recs[j][5] && f[7] == recs[j][6];
    assert IsData(recs[j]) && SeqOf(recs[j]) == SeqOf(recs[i]);
  }

  /** Step `k` takes the sender off record `i` on a success for START. */
  predicate LeavesOnStart(split: bool, img: seq<byte>, recs: seq<seq<byte>>, s0: State, labels: seq<Label>, k: nat, i: nat) {
    LeavesJustified(split, img, recs, s0, labels, k, i)
    && Command(LastRecognised(Exec(split, img, s0, labels[..k]).heard).value) == START_CMD
  }

  /** With an honest device and distinct sequence numbers, a DATA record the sender has left was received by the device,
      or it was left on a success for START, or, with check and store apart, a stale advance was held when the mailbox was
      first armed for it. */
  lemma DeliveredOrStale(split: bool, img: seq<byte>, recs: seq<seq<byte>>, s0: State, labels: seq<Label>, i: nat)
    requires WellFormedImage(img, recs) && Initial(s0) && DistinctSequences(recs)
    requires forall k :: 0 <= k <= |labels| ==> Honest(Exec(split, img, s0, labels[..k]))
    requires i < Passed(Exec(split, img, s0, labels)) && i < |recs| && IsData(recs[i])
    ensures Frame(recs[i]) in Exec(split, img, s0, labels).delivered
            || (exists k: nat :: LeavesOnStart(split, img, recs, s0, labels, k, i))
            || (split && StaleHeld(img, s0, labels, i + 1, NextCmd))
  {
    hide Exec, Stale;
    var k := FindLeave(split, img, recs, s0, labels, i);
    var j := LeftRightly(split, img, recs, s0, labels, k, i);
    if LeavesJustified(split, img, recs, s0, labels, k, i) {
      var t := Exec(split, img, s0, labels[..k]);
      var r := LastRecognised(t.heard).value;
      if Command(r) == START_CMD {
        assert LeavesOnStart(split, img, recs, s0, labels, k, i);
      } else {
        assert Honest(t);
        var f :| f in t.delivered && Answers(f, r);
        RunDelivers(split, img, recs, s0, labels[..k], k);
        AnsweredFrame(recs, t, i, f, r);
        RunDelivers(split, img, recs, s0, labels, k);
      }
    }
  }

  /** When the mailbox is first armed for a record, the reader holds no stale advance and no stale completion. */
  predicate NothingStale(s: State) {
    s.pc.Arm? && s.sendCount == 0 ==> !Stale(s, NextCmd) && !Stale(s, Complete)
  }

  lemma NothingHeld(img: seq<byte>, s0: State, labels: seq<Label>, count: nat, v: Stage)
    requires v == NextCmd || v == Complete
    requires forall k :: 0 <= k <= |labels| ==> NothingStale(Exec(true, img, s0, labels[..k]))
    ensures !StaleHeld(img, s0, labels, count, v)
  {
    hide Exec, Stale;
    forall j: nat ensures !StaleArmed(img, s0, labels, j, count, v) {
      if j <= |labels| {
        assert NothingStale(Exec(true, img, s0, labels[..j]));
      }
    }
  }

  /** Delivery. If the device is honest, DATA sequence numbers are distinct, no success for START arrives while DATA is
      outstanding and, with check and store apart, nothing stale is held, every DATA record the sender has left was received
      by the device. */
  lemma Delivery(split: bool, img: seq<byte>, recs: seq<seq<byte>>, s0: State, labels: seq<Label>, i: nat)
    requires WellFormedImage(img, recs) && Initial(s0) && DistinctSequences(recs)
    requires forall k :: 0 <= k <= |labels| ==> Honest(Exec(split, img, s0, labels[..k]))
    requires forall k :: 0 <= k <= |labels| ==> NoStaleStart(recs, Exec(split, img, s0, labels[..k]))
    requires split ==> forall k :: 0 <= k <= |labels| ==> NothingStale(Exec(split, img, s0, labels[..k]))
    requires i < Passed(Exec(split, img, s0, labels)) && i < |recs| && IsData(recs[i])
    ensures Frame(recs[i]) in Exec(split, img, s0, labels).delivered
  {
    hide Exec, StaleArmed, NothingStale;
    DeliveredOrStale(split, img, recs, s0, labels, i);
    if split {
      NothingHeld(img, s0, labels, i + 1, NextCmd);
    }
    forall k: nat ensures !LeavesOnStart(split, img, recs, s0, labels, k, i) {
      NotOnStart(split, img, recs, s0, labels, k, i);
    }
  }

  lemma NotOnStart(split: bool, img: seq<byte>, recs: seq<seq<byte>>, s0: State, labels: seq<Label>, k: nat, i: nat)
    requires i < |recs| && WellFormedRecord(recs[i]) && IsData(recs[i])
    requires forall k :: 0 <= k <= |labels| ==> NoStaleStart(recs, Exec(split, img, s0, labels[..k]))
    ensures !LeavesOnStart(split, img, recs, s0, labels, k, i)
  {
    hide Exec;
    if k < |labels| {
      assert NoStaleStart(recs, Exec(split, img, s0, labels[..k]));
    }
  }

  // ---------------------------------------------------------------------------------------------
  // Arrival.

  /** Before FINISH is outstanding nothing heard completes the transfer. */
  predicate NoEarlyEnd(recs: seq<seq<byte>>, s: State) {
    Outstanding(s.pc) && |s.sends| < |recs| ==> forall r :: r in s.heard ==> !Completes(r, s.seqNo)
  }

  /** Success means arrival. Under the premises of delivery, and if nothing completes before FINISH is outstanding, a
      transfer that ends in success has sent every record, and the device received every DATA record. */
  lemma Arrival(split: bool, img: seq<byte>, recs: seq<seq<byte>>, s0: State, labels: seq<Label>)
    requires WellFormedImage(img, recs) && Initial(s0) && DistinctSequences(recs)
    requires forall k :: 0 <= k <= |labels| ==> Honest(Exec(split, img, s0, labels[..k]))
    requires forall k :: 0 <= k <= |labels| ==> NoStaleStart(recs, Exec(split, img, s0, labels[..k]))
    requires forall k :: 0 <= k <= |labels| ==> NoEarlyEnd(recs, Exec(split, img, s0, labels[..k]))
    requires split ==> forall k :: 0 <= k <= |labels| ==> NothingStale(Exec(split, img, s0, labels[..k]))
    requires Exec(split, img, s0, labels).pc.Succeeded?
    ensures var s := Exec(split, img, s0, labels);
            && |s.sends| == |recs| && (forall i :: 0 <= i < |recs| ==> s.sends[i] >= 1)
            && forall i :: 0 <= i < |recs| && WellFormedRecord(recs[i]) && IsData(recs[i]) ==> Frame(recs[i]) in s.delivered
  {
    hide Exec, Stale, Inv;
    var s := Exec(split, img, s0, labels);
    RunKeeps(split, img, recs, s0, labels);
    SucceededSends(img, recs, s);
    EndsOnFinish(split, img, recs, s0, labels);
    forall i | 0 <= i < |recs| && WellFormedRecord(recs[i]) && IsData(recs[i]) ensures Frame(recs[i]) in s.delivered {
      NotTheLast(img, recs, i);
      Delivery(split, img, recs, s0, labels, i);
    }
  }

  lemma NotTheLast(img: seq<byte>, recs: seq<seq<byte>>, i: nat)
    requires WellFormedImage(img, recs) && i < |recs| && WellFormedRecord(recs[i]) && IsData(recs[i])
    ensures i < |recs| - 1
  {
    assert IsFinish(recs[i]) <==> i == |recs| - 1;
  }

  lemma SucceededSends(img: seq<byte>, recs: seq<seq<byte>>, s: State)
    requires Inv(img, recs, s) && s.pc.Succeeded?
    ensures 0 < |s.sends| <= |recs| && (forall i :: 0 <= i < |s.sends| ==> s.sends[i] >= 1) && Passed(s) == |s.sends| - 1
  {
    hide Books, Replay, Filled, SeqOf, WellFormedImage;
  }

  lemma EndsOnFinish(split: bool, img: seq<byte>, recs: seq<seq<byte>>, s0: State, labels: seq<Label>)
    requires WellFormedImage(img, recs) && Initial(s0)
    requires forall k :: 0 <= k <= |labels| ==> NoEarlyEnd(recs, Exec(split, img, s0, labels[..k]))
    requires split ==> forall k :: 0 <= k <= |labels| ==> NothingStale(Exec(split, img, s0, labels[..k]))
    requires Exec(split, img, s0, labels).pc.Succeeded? && |Exec(split, img, s0, labels).sends| <= |recs|
    ensures |Exec(split, img, s0, labels).sends| == |recs|
  {
    hide Exec, StaleArmed, NothingStale;
    SuccessProvenance(split, img, recs, s0, labels);
    var sends := Exec(split, img, s0, labels).sends;
    if split {
      NothingHeld(img, s0, labels, |sends|, Complete);
    }
    var k: nat :| EndsJustified(split, img, recs, s0, labels, k, sends);
    assert NoEarlyEnd(recs, Exec(split, img, s0, labels[..k]));
  }

  lemma ExecMore(split: bool, img: seq<byte>, s: State, labels: seq<Label>, l: Label)
    ensures Exec(split, img, s, labels + [l]) == Step(split, img, Exec(split, img, s, labels), l)
  {
    assert (labels + [l])[..|labels|] == labels;
  }
}
