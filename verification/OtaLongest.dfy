/**
  How long the sender waits: what it does at each poll while nothing is recognised, and a run that takes as many steps as any
  can.
 */
module OtaLongest {
  import opened Bytes
  import opened OtaWire
  import opened OtaProtocol
  import opened OtaInvariant
  import opened OtaJustified
  import opened OtaTermination
  import opened OtaRuns

  // ---------------------------------------------------------------------------------------------
  // Waiting.

  /** Where the sender is after `n` steps of polling that find nothing: four for each of the 749 polls that look, the last one
      does not. */
  function PlaceIn(n: nat): Pc {
    if n == 2997 then Arm
    else if n % 4 == 0 then Tick
    else if n % 4 == 1 then CheckNext
    else if n % 4 == 2 then CheckErr
    else CheckComplete
  }

  /** The sender has polled for `n` of its steps since `s`, and is still on the same send. */
  predicate StillWaits(s: State, n: nat, t: State) {
    && t.pc == PlaceIn(n) && t.waitCount == (n + 3) / 4
    && t.sendCount == s.sendCount && t.sends == s.sends && t.frames == s.frames && t.idx == s.idx && t.seqNo == s.seqNo
  }

  lemma PollWaits(img: seq<byte>, s: State, n: nat, t: State, ok: bool, got: bool)
    requires StillWaits(s, n, t) && n < 2997 && t.stage == Retrying
    ensures StillWaits(s, n + 1, SenderStep(img, t, ok, got))
  {
    hide FillStep, WriteStep;
  }

  lemma ReaderWaits(split: bool, s: State, n: nat, t: State, input: Option<seq<byte>>)
    requires StillWaits(s, n, t)
    ensures StillWaits(s, n, ReaderStep(split, t, input))
  {
    ReaderTouches(split, t, input);
    hide ReaderStep;
  }

  /** While the mailbox says that nothing has been recognised, whatever the reader does meanwhile: the sender stays on the
      send it has made. Each of its first 749 polls takes all three looks at the mailbox; the 750th, and no other, takes it
      back to arm the mailbox again. */
  lemma {:induction false} Waits(split: bool, img: seq<byte>, s: State, labels: seq<Label>)
    requires s.pc.Tick? && s.waitCount == 0
    requires forall k :: 0 <= k <= |labels| ==> Exec(split, img, s, labels[..k]).stage == Retrying
    requires SenderSteps(labels) <= 2997
    ensures StillWaits(s, SenderSteps(labels), Exec(split, img, s, labels))
  {
    hide SenderStep, ReaderStep, StillWaits;
    if labels == [] {
      WaitsFirst(s);
    } else {
      var m := |labels| - 1;
      forall k | 0 <= k <= m ensures Exec(split, img, s, labels[..m][..k]).stage == Retrying {
        assert labels[..m][..k] == labels[..k];
      }
      Waits(split, img, s, labels[..m]);
      var t := Exec(split, img, s, labels[..m]);
      assert t.stage == Retrying;
      match labels[m]
      case Sender(ok, got) => PollWaits(img, s, SenderSteps(labels[..m]), t, ok, got);
      case Reader(input) => ReaderWaits(split, s, SenderSteps(labels[..m]), t, input);
    }
  }

  lemma WaitsFirst(s: State)
    requires s.pc.Tick? && s.waitCount == 0
    ensures StillWaits(s, 0, s)
  {}

  /** An answer that is in the mailbox at any of those looks is acted on there. */
  lemma LookActs(img: seq<byte>, s: State, n: nat, t: State, ok: bool, got: bool)
    requires StillWaits(s, n, t) && n < 2997
    ensures var u := SenderStep(img, t, ok, got);
            && (n % 4 == 1 && t.stage == NextCmd ==> u.pc == LoadSeq)
            && (n % 4 == 2 && t.stage == ErrRetry ==> u.pc == Arm)
            && (n % 4 == 3 && t.stage == Complete ==> u.pc == SuccessExit)
  {
    hide FillStep, WriteStep;
  }

  // ---------------------------------------------------------------------------------------------
  // The longest run.

  /** Some schedule from the start, with `n` steps of the sender, leads to `t`. */
  ghost predicate Takes(c: Course, n: nat, t: State) {
    exists labels :: c.After(labels) == t && SenderSteps(labels) == n
  }

  lemma TakesMore(c: Course, n: nat, t: State, l: Label)
    requires Takes(c, n, t)
    ensures Takes(c, if l.Sender? then n + 1 else n, c.Next(t, l))
  {
    hide Step, Exec;
    var labels :| c.After(labels) == t && SenderSteps(labels) == n;
    ExecMore(c.split, c.img, c.start, labels, l);
    assert (labels + [l])[..|labels|] == labels;
    assert c.After(labels + [l]) == c.Next(t, l);
  }

  lemma TakesInv(c: Course, n: nat, t: State)
    requires c.Valid() && Takes(c, n, t)
    ensures Inv(c.img, c.recs, t)
  {
    hide Exec, Inv, SenderSteps;
    var labels :| c.After(labels) == t && SenderSteps(labels) == n;
    RunKeeps(c.split, c.img, c.recs, c.start, labels);
  }

  /** One step of the sender. */
  lemma Sends1(c: Course, n: nat, s: State) returns (t: State)
    requires Takes(c, n, s)
    ensures t == c.Next(s, Sender(true, true)) && Takes(c, n + 1, t)
  {
    hide Step;
    t := c.Next(s, Sender(true, true));
    TakesMore(c, n, s, Sender(true, true));
  }

  /** `k` polls that find nothing. */
  lemma {:induction false} PollsOn(c: Course, n: nat, s: State, k: nat) returns (t: State)
    requires Takes(c, n, s) && s.pc.Tick? && s.stage == Retrying && s.waitCount + k <= 749
    ensures Takes(c, n + 4 * k, t) && t == s.(waitCount := s.waitCount + k)
    decreases k
  {
    hide FillStep, WriteStep, Takes;
    t := s;
    if k > 0 {
      t := Sends1(c, n, t);
      t := Sends1(c, n + 1, t);
      t := Sends1(c, n + 2, t);
      t := Sends1(c, n + 3, t);
      t := PollsOn(c, n + 4, t, k - 1);
    }
  }

  /** The sender stands on the last record loaded, with its reader ready. */
  predicate Stands(c: Course, j: nat, s: State) {
    |s.sends| == j && s.reader == LoopTest && s.flagRead
  }

  /** A send, up to its first poll. */
  lemma SendsFirst(c: Course, n: nat, s: State, j: nat) returns (t: State)
    requires Takes(c, n, s) && s.pc.Arm? && s.sendCount < 3 && Stands(c, j, s)
    ensures Takes(c, n + 2, t) && t.pc.Tick? && t.stage == Retrying && t.waitCount == 0 && t.sendCount == s.sendCount + 1
    ensures Stands(c, j, t)
  {
    hide FillStep, Takes, FrameIn;
    t := Sends1(c, n, s);
    t := Sends1(c, n + 1, t);
  }

  /** A send that is not answered. */
  lemma Unanswered(c: Course, n: nat, s: State, j: nat) returns (t: State)
    requires Takes(c, n, s) && s.pc.Arm? && s.sendCount < 3 && Stands(c, j, s)
    ensures Takes(c, n + 2999, t) && t.pc.Arm? && t.sendCount == s.sendCount + 1 && Stands(c, j, t)
  {
    hide FillStep, WriteStep, Takes;
    t := SendsFirst(c, n, s, j);
    t := PollsOn(c, n + 2, t, 749);
    t := Sends1(c, n + 2998, t);
  }

  /** The reader reads `r` and takes its verdict to the mailbox. */
  lemma Answered(c: Course, n: nat, s: State, r: seq<byte>, v: Stage) returns (t: State)
    requires Takes(c, n, s) && s.reader == LoopTest && s.flagRead && Classify(r, s.seqNo) == Some(v)
    ensures Takes(c, n, t) && t == s.(stage := v, heard := s.heard + [r])
  {
    hide Takes, Classify, SenderStep;
    TakesMore(c, n, s, Label.Reader(Some(r)));
    t := c.Next(s, Label.Reader(Some(r)));
    TakesMore(c, n, t, Label.Reader(Some(r)));
    t := c.Next(t, Label.Reader(Some(r)));
    TakesMore(c, n, t, Label.Reader(Some(r)));
    t := c.Next(t, Label.Reader(Some(r)));
    if c.split {
      TakesMore(c, n, t, Label.Reader(Some(r)));
      t := c.Next(t, Label.Reader(Some(r)));
    }
  }

  /** A send that is answered just before the last look at the mailbox. */
  lemma AnsweredLate(c: Course, n: nat, s: State, j: nat) returns (t: State)
    requires c.Valid() && Takes(c, n, s) && s.pc.Arm? && s.sendCount == 2 && Stands(c, j, s) && 0 < j < |c.recs|
    ensures Takes(c, n + 2996, t) && t.pc.LoadSeq? && Stands(c, j, t)
  {
    hide FillStep, WriteStep, Takes, Answer, Classify, SeqOf, Inv;
    t := SendsFirst(c, n, s, j);
    t := PollsOn(c, n + 2, t, 748);
    TakesInv(c, n + 2994, t);
    OnTheRecord(c.img, c.recs, t);
    var rec := c.recs[j - 1];
    AnswerVerdict(rec, 0);
    t := Answered(c, n + 2994, t, Answer(rec, 0), NextCmd);
    t := Sends1(c, n + 2994, t);
    t := Sends1(c, n + 2995, t);
  }

  /** Loading the next record. */
  lemma LoadsNext(c: Course, n: nat, s: State, j: nat) returns (t: State)
    requires c.Valid() && Takes(c, n, s) && s.pc.LoadSeq? && Stands(c, j, s) && j < |c.recs|
    ensures Takes(c, n + 3, t) && t.pc.Arm? && t.sendCount == 0 && Stands(c, j + 1, t)
  {
    hide FillStep, WriteStep, Takes, Inv;
    t := Sends1(c, n, s);
    t := Sends1(c, n + 1, t);
    TakesInv(c, n + 2, t);
    FillKeeps(c.img, c.recs, t);
    t := Sends1(c, n + 2, t);
  }

  /** As many records as asked, but the last, each taking as long as it can. */
  lemma {:induction false} PassesSlowly(c: Course, j: nat) returns (t: State)
    requires c.Valid() && j < |c.recs|
    ensures Takes(c, 8997 * j + 2, t) && t.pc.LoadSeq? && Stands(c, j, t)
  {
    hide Takes, FillStep, WriteStep;
    if j == 0 {
      t := c.start;
      assert Takes(c, 0, t) by {
        AtStart(c);
      }
      t := Sends1(c, 0, t);
      t := Sends1(c, 1, t);
    } else {
      var n := 8997 * (j - 1) + 2;
      t := PassesSlowly(c, j - 1);
      t := LoadsNext(c, n, t, j - 1);
      t := Unanswered(c, n + 3, t, j);
      t := Unanswered(c, n + 3002, t, j);
      t := AnsweredLate(c, n + 6001, t, j);
    }
  }

  lemma AtStart(c: Course)
    ensures Takes(c, 0, c.start)
  {
    var labels: seq<Label> := [];
    assert c.After(labels) == c.start && SenderSteps(labels) == 0;
  }

  /** The bound on the length of a run is met, for every image: some run is not over after 8997 steps of the sender for each
      record and six more. */
  lemma LongestRun(split: bool, img: seq<byte>, recs: seq<seq<byte>>, s0: State)
    requires WellFormedImage(img, recs) && Initial(s0)
    ensures exists labels :: SenderSteps(labels) == 8997 * |recs| + 6 && !Done(Exec(split, img, s0, labels).pc)
  {
    hide Takes, FillStep, WriteStep, WellFormedImage, Initial;
    var c := Course(split, img, recs, s0, NEVER, NEVER, NEVER);
    LastIsFinish(img, recs);
    var j := |recs| - 1;
    var n := 8997 * j + 2;
    var t := PassesSlowly(c, j);
    t := LoadsNext(c, n, t, j);
    t := Unanswered(c, n + 3, t, j + 1);
    t := Unanswered(c, n + 3002, t, j + 1);
    t := Unanswered(c, n + 6001, t, j + 1);
    t := Sends1(c, n + 9000, t);
    var labels := TakenBy(c, n + 9001, t);
  }

  lemma TakenBy(c: Course, n: nat, t: State) returns (labels: seq<Label>)
    requires Takes(c, n, t)
    ensures Exec(c.split, c.img, c.start, labels) == t && SenderSteps(labels) == n
  {
    labels :| c.After(labels) == t && SenderSteps(labels) == n;
  }
}
