/**
  What a late success for START does. It counts for whatever record is outstanding, because only responses to DATA carry
  a sequence number to check.
 */
module OtaStale {
  import opened Bytes
  import opened OtaWire
  import opened OtaProtocol
  import opened OtaInvariant
  import opened OtaJustified
  import opened OtaTermination
  import opened OtaRuns

  /** A success for START, whatever else it holds. The answer to a START record, heard a second time, is one. */
  predicate StartSuccess(r: seq<byte>) {
    Rid(r) == RESPONSE_RID && Command(r) == START_CMD && Status(r) == SUCCESS
  }

  /** The reader hears a success for START during the send that the premises do not cover. */
  lemma HearsStart(c: Course, s: State, r: seq<byte>) returns (t: State)
    requires c.Valid() && Reaches(c, s) && s.pc.Tick? && s.reader.LoopTest? && s.flagRead && s.heard == []
    requires |s.sends| == c.startGap && StartSuccess(r)
    ensures Reaches(c, t) && t == s.(heard := [r], stage := NextCmd)
  {
    hide Reaches, Classify;
    ClassifyMeans(r, s.seqNo);
    t := Holds(c, s, r);
    assert Fair(c, Store(t, r, Some(NextCmd)));
    t := Stores(c, t, r, Some(NextCmd));
  }

  /** Record `n` is sent, the device does or does not get it, and a success for START takes the sender off it. */
  lemma LeavesOnStale(c: Course, n: nat, s: State, r: seq<byte>, got: bool) returns (t: State)
    requires c.Valid() && Reaches(c, s) && At(c, n, s) && n < |c.recs| && c.startGap == n + 1 && StartSuccess(r)
    ensures Reaches(c, t) && t.pc.LoadSeq? && |t.sends| == n + 1 && t.heard == [r]
    ensures t.delivered == Got(c.recs, if got then n + 1 else n)
  {
    hide Reaches, Frames, StartSuccess;
    t := Sends(c, n, s, got);
    t := HearsStart(c, t, r);
    t := MovesOn(c, t);
  }

  /** The schedule meets every premise, but for those about START and FINISH while `except` records are loaded. */
  ghost predicate FairBut(img: seq<byte>, recs: seq<seq<byte>>, s0: State, labels: seq<Label>, except: int) {
    forall k :: 0 <= k <= |labels| ==>
      var s := Exec(false, img, s0, labels[..k]);
      Honest(s) && NoEarlyEnd(recs, s) && (|s.sends| != except ==> NoStaleStart(recs, s) && FinishHolds(recs, s))
  }

  /** The premise about START is needed, for every image and every DATA record of it: after an honest run up to record
      `j`, in which each earlier record was received and answered, one more success for START takes the sender off
      record `j`, which the device never got. */
  lemma StaleStartSkips(img: seq<byte>, recs: seq<seq<byte>>, s0: State, j: nat, r: seq<byte>)
    requires WellFormedImage(img, recs) && Initial(s0) && j < |recs| && StartSuccess(r)
    ensures exists labels ::
      && FairBut(img, recs, s0, labels, j + 1)
      && var s := Exec(false, img, s0, labels);
         && Passed(s) == j + 1 && s.heard == [r] && s.delivered == Got(recs, j)
         && (WellFormedRecord(recs[j]) && IsData(recs[j]) && DistinctSequences(recs) ==> Frame(recs[j]) !in s.delivered)
  {
    hide Reaches, Exec, Fair, StartSuccess, WellFormedImage, Initial, DistinctSequences;
    var c := Course(false, img, recs, s0, j + 1, NEVER, NEVER);
    var t := GetsTo(c, j);
    t := LeavesOnStale(c, j, t, r, false);
    if DistinctSequences(recs) && WellFormedRecord(recs[j]) && IsData(recs[j]) {
      NotAmongEarlier(recs, j);
      GotMembers(recs, j, recs[j]);
    }
    var labels := Schedule(c, t);
    FairSchedule(c, labels);
  }

  lemma FairSchedule(c: Course, labels: seq<Label>)
    requires !c.split && c.endGap == NEVER
    requires forall k :: 0 <= k <= |labels| ==> Fair(c, Exec(c.split, c.img, c.start, labels[..k]))
    ensures FairBut(c.img, c.recs, c.start, labels, c.startGap)
  {
    hide Exec, Honest, NoStaleStart, FinishHolds, NoEarlyEnd, NothingStale;
  }

  lemma NotAmongEarlier(recs: seq<seq<byte>>, j: nat)
    requires j < |recs| && DistinctSequences(recs) && WellFormedRecord(recs[j]) && IsData(recs[j])
    ensures recs[j] !in recs[..j]
  {
    forall i | 0 <= i < j ensures recs[i] != recs[j] {}
  }

  /** The premise about FINISH is needed, for every image: after an honest run in which the device got everything, a
      success for START while FINISH is outstanding sends the sender past the end of the image. */
  lemma StaleStartOverruns(img: seq<byte>, recs: seq<seq<byte>>, s0: State, r: seq<byte>)
    requires WellFormedImage(img, recs) && Initial(s0) && StartSuccess(r)
    ensures exists labels ::
      && FairBut(img, recs, s0, labels, |recs|)
      && var s := Exec(false, img, s0, labels);
         s.pc.Overrun? && s.delivered == Got(recs, |recs|)
  {
    hide Reaches, Exec, Fair, StartSuccess, WellFormedImage, Initial;
    var c := Course(false, img, recs, s0, |recs|, NEVER, NEVER);
    LastIsFinish(img, recs);
    var t := GetsTo(c, |recs| - 1);
    t := LeavesOnStale(c, |recs| - 1, t, r, true);
    t := LoadsNothing(c, t);
    var labels := Schedule(c, t);
    FairSchedule(c, labels);
  }

  /** Behind the last record there is nothing to load. */
  lemma LoadsNothing(c: Course, s: State) returns (t: State)
    requires c.Valid() && Reaches(c, s) && s.pc.LoadSeq? && |s.sends| == |c.recs|
    ensures Reaches(c, t) && t.pc.Overrun? && t.delivered == s.delivered
  {
    hide Reaches, FillStep, WriteStep, Inv;
    var a := Idles(c, s);
    var b := Idles(c, a);
    assert b.pc.Fill? && b.sends == s.sends && b.delivered == s.delivered;
    ReachesInv(c, b);
    FillKeeps(c.img, c.recs, b);
    t := Idles(c, b);
  }

  // ---------------------------------------------------------------------------------------------
  // A success for FINISH, which carries no sequence number either.

  predicate FinishSuccess(r: seq<byte>) {
    Rid(r) == RESPONSE_RID && Command(r) == FINISH_CMD && Status(r) == SUCCESS
  }

  lemma HearsFinish(c: Course, s: State, r: seq<byte>) returns (t: State)
    requires c.Valid() && Reaches(c, s) && s.pc.Tick? && s.reader.LoopTest? && s.flagRead && s.heard == []
    requires |s.sends| == c.endGap && FinishSuccess(r)
    ensures Reaches(c, t) && t == s.(heard := [r], stage := Complete)
  {
    hide Reaches, Classify;
    ClassifyMeans(r, s.seqNo);
    t := Holds(c, s, r);
    assert Fair(c, Store(t, r, Some(Complete)));
    t := Stores(c, t, r, Some(Complete));
  }

  /** The premise that nothing completes early is needed, for every image, every record of it and either reader model: after a
      run that meets every premise of delivery, in which each earlier record was received and answered, one success for
      FINISH ends the transfer in success on record `j`, which the device never got. */
  lemma EarlyFinishSucceeds(split: bool, img: seq<byte>, recs: seq<seq<byte>>, s0: State, j: nat, r: seq<byte>)
    requires WellFormedImage(img, recs) && Initial(s0) && j < |recs| && FinishSuccess(r)
    ensures exists labels ::
      && (forall k :: 0 <= k <= |labels| ==>
            var s := Exec(split, img, s0, labels[..k]);
            Honest(s) && NoStaleStart(recs, s) && FinishHolds(recs, s) && NothingStale(s))
      && var s := Exec(split, img, s0, labels);
         s.pc.Succeeded? && |s.sends| == j + 1 && s.heard == [r] && s.delivered == Got(recs, j)
  {
    hide Reaches, Exec, Honest, NoStaleStart, FinishHolds, NoEarlyEnd, NothingStale, FinishSuccess, WellFormedImage, Initial, Frames;
    var c := Course(split, img, recs, s0, NEVER, j + 1, NEVER);
    var t := GetsTo(c, j);
    t := Sends(c, j, t, false);
    t := HearsFinish(c, t, r);
    t := Succeeds(c, t);
    var labels := Schedule(c, t);
    assert Exec(split, img, s0, labels) == t;
    forall k | 0 <= k <= |labels|
      ensures var s := Exec(split, img, s0, labels[..k]); Honest(s) && NoStaleStart(recs, s) && FinishHolds(recs, s) && NothingStale(s)
    {
      assert Fair(c, Exec(split, img, s0, labels[..k]));
    }
  }
}
