/** How the sender comes to write four more times after its reader is gone. */
module OtaLate {
  import opened Bytes
  import opened OtaWire
  import opened OtaProtocol
  import opened OtaInvariant
  import opened OtaJustified
  import opened OtaTermination
  import opened OtaReaderLoss
  import opened OtaRuns

  /** As many sender steps as asked, with every write successful. */
  function Alone(n: nat): (labels: seq<Label>)
    ensures AllWritten(labels)
  {
    if n == 0 then [] else Alone(n - 1) + [Sender(true, true)]
  }

  lemma {:induction false} AloneSteps(n: nat)
    ensures SenderSteps(Alone(n)) == n
  {
    if n > 0 {
      AloneSteps(n - 1);
      assert Alone(n)[..|Alone(n)| - 1] == Alone(n - 1);
    }
  }

  /** The device answers record `i` twice, first with an error and then, after the sender has armed the mailbox again,
      with success; then the reader's connection fails. */
  lemma LateAdvance(c: Course, i: nat) returns (t: State)
    requires c.Valid() && i + 1 < |c.recs|
    ensures Reaches(c, t) && ReaderGone(t) && t.pc.Write? && t.stage == NextCmd && |t.sends| == i + 1
  {
    hide Reaches, SenderStep, Frames, Answer, Classify;
    RecordFits(c.img, c.recs, i);
    assert IsFinish(c.recs[i]) <==> i == |c.recs| - 1;
    t := GetsTo(c, i);
    t := Sends(c, i, t, true);
    t := Hears(c, t, 1);
    AnswerVerdict(c.recs[i], 1);
    t := Retries(c, t);
    t := Arms(c, t);
    t := Hears(c, t, 0);
    AnswerVerdict(c.recs[i], 0);
    t := LosesReader(c, t);
  }

  /** Four writes do happen, on every record but the last of every image, with an honest device: after some run the
      reader is gone and the sender, alone, writes exactly four more frames and fails. */
  lemma FourWrites(img: seq<byte>, recs: seq<seq<byte>>, s0: State, i: nat)
    requires WellFormedImage(img, recs) && Initial(s0) && i + 1 < |recs|
    ensures exists labels, more ::
      && (forall k :: 0 <= k <= |labels| ==>
            var s := Exec(false, img, s0, labels[..k]);
            Honest(s) && NoStaleStart(recs, s) && FinishHolds(recs, s) && NoEarlyEnd(recs, s))
      && var s := Exec(false, img, s0, labels);
         var t := Exec(false, img, s, more);
         && ReaderGone(s) && |s.sends| == i + 1 && AllWritten(more)
         && t.pc == Failed && |t.frames| == |s.frames| + 4
  {
    hide Reaches, Exec, Inv, Honest, NoStaleStart, FinishHolds, NoEarlyEnd, NothingStale, WellFormedImage, Initial, AllWritten, WritesLeft, LoadsLeft, Rank;
    var c := Course(false, img, recs, s0, NEVER, NEVER, NEVER);
    var s := LateAdvance(c, i);
    ReachesInv(c, s);
    InvBounded(img, recs, s);
    var more := Alone(Rank(|recs|, s));
    AloneSteps(Rank(|recs|, s));
    ReaderLoss(false, img, recs, s, more);
    var labels := Schedule(c, s);
    assert Exec(false, img, s0, labels) == s;
    forall k | 0 <= k <= |labels|
      ensures var s := Exec(false, img, s0, labels[..k]); Honest(s) && NoStaleStart(recs, s) && FinishHolds(recs, s) && NoEarlyEnd(recs, s)
    {
      assert Fair(c, Exec(false, img, s0, labels[..k]));
    }
    assert Exec(false, img, Exec(false, img, s0, labels), more) == Exec(false, img, s, more);
  }
}
