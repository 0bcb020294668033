/**
  What lock step is for. With the reader's check and store apart, the second of two answers to a record can be checked
  while that record is current and stored when the next one is.
 */
module OtaDuplicate {
  import opened Bytes
  import opened OtaWire
  import opened OtaProtocol
  import opened OtaInvariant
  import opened OtaJustified
  import opened OtaTermination
  import opened OtaRuns

  /** The reader hears the answer to the current record, then reads it again and holds on to the verdict. */
  lemma HearsTwice(c: Course, n: nat, s: State) returns (t: State)
    requires c.Valid() && c.split && Reaches(c, s) && s.pc.Tick? && s.reader.LoopTest? && s.flagRead
    requires |s.sends| == n + 1 < |c.recs| && Frame(c.recs[n]) in s.delivered
    ensures WellFormedRecord(c.recs[n]) && Reaches(c, t)
    ensures var r := Answer(c.recs[n], 0);
            t == s.(reader := Verdict(r, Some(NextCmd)), heard := s.heard + [r], stage := NextCmd)
  {
    hide Reaches, Inv, Classify, Answer, SenderStep;
    t := Hears(c, s, 0);
    NotFinish(c, n);
    AnswerVerdict(c.recs[n], 0);
    ReachesInv(c, s);
    OnTheRecord(c.img, c.recs, s);
    t := Holds(c, t, Answer(c.recs[n], 0));
  }

  lemma NotFinish(c: Course, n: nat)
    requires c.Valid() && n < |c.recs| - 1
    ensures WellFormedRecord(c.recs[n]) && !IsFinish(c.recs[n])
  {}

  /** A verdict held from the record before reaches the mailbox: it is not about this record. */
  lemma StoresLate(c: Course, n: nat, s: State) returns (t: State)
    requires c.Valid() && c.split && Reaches(c, s) && s.pc.Tick? && s.heard == [] && |s.sends| == n + 2 <= |c.recs|
    requires WellFormedRecord(c.recs[n]) && WellFormedRecord(c.recs[n + 1]) && IsData(c.recs[n])
    requires SeqOf(c.recs[n + 1]) != SeqOf(c.recs[n]) && Frame(c.recs[n]) in s.delivered
    requires s.reader == Verdict(Answer(c.recs[n], 0), Some(NextCmd))
    ensures Reaches(c, t) && t == s.(reader := LoopTest, heard := [Answer(c.recs[n], 0)], stage := NextCmd)
    ensures !Advances(Answer(c.recs[n], 0), SeqOf(c.recs[n + 1]))
  {
    hide Reaches, Inv, Classify, Answer, SenderStep, SeqOf;
    var r := Answer(c.recs[n], 0);
    ReachesInv(c, s);
    OnTheRecord(c.img, c.recs, s);
    var f := Frame(c.recs[n]);
    assert f[5] == c.recs[n][4] && f[6] == c.recs[n][5] && f[7] == c.recs[n][6];
    AnswersItself(c.recs[n]);
    assert Fair(c, Store(s, r, Some(NextCmd)));
    t := Stores(c, s, r, Some(NextCmd));
  }

  lemma AnswersItself(rec: seq<byte>)
    requires |rec| >= 7 && IsData(rec)
    ensures Answers(Frame(rec), Answer(rec, 0))
  {}

  /** A duplicate answer is enough. Take any DATA record and a next one with another sequence number. There is a run of
      the split reader that meets every other premise of delivery, in which the device gets everything up to that record and
      answers it twice, and the sender leaves the next one, which the device did not get, with nothing heard that
      advances it. */
  lemma DuplicateSkips(img: seq<byte>, recs: seq<seq<byte>>, s0: State, i: nat)
    requires WellFormedImage(img, recs) && Initial(s0) && i + 1 < |recs|
    requires WellFormedRecord(recs[i]) && WellFormedRecord(recs[i + 1]) && IsData(recs[i]) && SeqOf(recs[i + 1]) != SeqOf(recs[i])
    ensures exists labels ::
      && (forall k :: 0 <= k <= |labels| ==>
            var s := Exec(true, img, s0, labels[..k]);
            && Honest(s) && NoStaleStart(recs, s) && FinishHolds(recs, s) && NoEarlyEnd(recs, s)
            && (|s.sends| != i + 2 ==> NothingStale(s)))
      && var s := Exec(true, img, s0, labels);
         && Passed(s) == i + 2 && s.delivered == Got(recs, i + 1)
         && s.heard == [Answer(recs[i], 0)] && !Advances(Answer(recs[i], 0), SeqOf(recs[i + 1]))
  {
    hide Reaches, Exec, Inv, Honest, NoStaleStart, FinishHolds, NoEarlyEnd, NothingStale, Answer, Classify, WellFormedImage, Initial, Frames, SeqOf, Advances, WellFormedRecord;
    var c := Course(true, img, recs, s0, NEVER, NEVER, i + 2);
    var t := GetsTo(c, i);
    t := Sends(c, i, t, true);
    t := HearsTwice(c, i, t);
    t := MovesOn(c, t);
    t := Loads(c, t);
    t := Arms(c, t);
    t := Writes(c, t, false);
    t := StoresLate(c, i, t);
    t := MovesOn(c, t);
    var labels := Schedule(c, t);
    assert Exec(true, img, s0, labels) == t;
    forall k | 0 <= k <= |labels|
      ensures var s := Exec(true, img, s0, labels[..k]); Honest(s) && NoStaleStart(recs, s) && FinishHolds(recs, s) && NoEarlyEnd(recs, s) && (|s.sends| != i + 2 ==> NothingStale(s))
    {
      assert Fair(c, Exec(true, img, s0, labels[..k]));
    }
  }
}
