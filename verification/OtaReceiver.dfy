/**
  A receiver that recognises a retransmission by its bytes alone: it drops a frame equal to the one before. It is left with
  the image exactly when no record of it equals the next.
 */
module OtaReceiver {
  import opened Bytes
  import opened OtaWire
  import opened OtaProtocol
  import opened OtaInvariant
  import opened OtaRuns

  /** A receiver that drops frames equal to the one before. */
  function DropRepeats(frames: seq<seq<byte>>): seq<seq<byte>> {
    if |frames| <= 1 then frames
    else if frames[|frames| - 1] == frames[|frames| - 2] then DropRepeats(frames[..|frames| - 1])
    else DropRepeats(frames[..|frames| - 1]) + [frames[|frames| - 1]]
  }

  lemma {:induction false} RepeatDrops(before: seq<seq<byte>>, frame: seq<byte>, n: nat)
    requires n > 0 && (before != [] ==> before[|before| - 1] != frame)
    ensures var all := before + Repeat(frame, n);
            all[|all| - 1] == frame && DropRepeats(all) == DropRepeats(before) + [frame]
  {
    var all := before + Repeat(frame, n);
    assert all == before + Repeat(frame, n - 1) + [frame];
    assert all[..|all| - 1] == before + Repeat(frame, n - 1);
    if n == 1 {
      assert before + Repeat(frame, 0) == before;
    } else {
      RepeatDrops(before, frame, n - 1);
    }
  }

  predicate NeighboursDiffer(recs: seq<seq<byte>>) {
    forall i :: 0 < i < |recs| ==> recs[i - 1] != recs[i]
  }

  /** Dropping repeats undoes the replay when no record equals the next. */
  lemma {:induction false} ReplayDrops(recs: seq<seq<byte>>, sends: seq<nat>)
    requires |sends| <= |recs| && Sent(sends, |sends|) && NeighboursDiffer(recs)
    ensures DropRepeats(Replay(recs, sends)) == Frames(recs[..|sends|])
    decreases |sends|
  {
    if sends != [] {
      var n := |sends| - 1;
      ReplayDrops(recs, sends[..n]);
      if n > 0 {
        ReplayEnds(recs, sends[..n]);
        FrameInjective(recs[n - 1], recs[n]);
      } else {
        assert Replay(recs, sends[..n]) == [];
      }
      RepeatDrops(Replay(recs, sends[..n]), Frame(recs[n]), sends[n]);
      FramesGrow(recs, n);
    }
  }

  /** What the receiver is left with after a run is the image up to the end of the last record sent. */
  ghost predicate LeavesPrefix(img: seq<byte>, recs: seq<seq<byte>>, s: State) {
    var k := Begun(s.sends);
    k <= |recs| && Offset(recs, k) <= |img| && Payload(DropRepeats(s.frames)) == img[..Offset(recs, k)]
  }

  lemma DropsToPrefix(split: bool, img: seq<byte>, recs: seq<seq<byte>>, s0: State, labels: seq<Label>)
    requires WellFormedImage(img, recs) && Initial(s0) && NeighboursDiffer(recs)
    ensures LeavesPrefix(img, recs, Exec(split, img, s0, labels))
  {
    hide Exec;
    TransferIntegrity(split, img, recs, s0, labels);
    var s := Exec(split, img, s0, labels);
    var k := Begun(s.sends);
    ReplayBegun(recs, s.sends);
    ReplayDrops(recs, s.sends[..k]);
    PayloadOfFrames(recs[..k]);
    PrefixOfImage(recs, k);
  }

  lemma {:induction false} DropShortens(frames: seq<seq<byte>>)
    ensures |Payload(DropRepeats(frames))| <= |Payload(frames)|
  {
    if |frames| > 1 {
      var init := frames[..|frames| - 1];
      DropShortens(init);
      assert (DropRepeats(init) + [frames[|frames| - 1]])[..|DropRepeats(init)|] == DropRepeats(init);
    }
  }

  lemma DropLoses(frames: seq<seq<byte>>)
    requires |frames| > 1 && frames[|frames| - 1] == frames[|frames| - 2] && |frames[|frames| - 1]| > 1
    ensures |Payload(DropRepeats(frames))| < |Payload(frames)|
  {
    DropShortens(frames[..|frames| - 1]);
  }

  /** When two neighbouring records are equal, a run that sends each record once leaves the receiver short. */
  lemma LosesRecord(split: bool, img: seq<byte>, recs: seq<seq<byte>>, s0: State, i: nat) returns (labels: seq<Label>)
    requires WellFormedImage(img, recs) && Initial(s0) && 0 < i < |recs| && recs[i - 1] == recs[i]
    ensures !LeavesPrefix(img, recs, Exec(split, img, s0, labels))
  {
    hide Exec, Reaches, Inv, Frames;
    var c := Course(split, img, recs, s0, NEVER, NEVER, NEVER);
    NotLast(img, recs, i);
    var s := GetsTo(c, i + 1);
    ReachesInv(c, s);
    AllBegun(img, recs, s);
    PayloadOfFrames(recs[..i + 1]);
    assert WellFormedRecord(recs[i]);
    DropLoses(s.frames);
    labels := Schedule(c, s);
  }

  lemma NotLast(img: seq<byte>, recs: seq<seq<byte>>, i: nat)
    requires WellFormedImage(img, recs) && 0 < i < |recs| && recs[i - 1] == recs[i]
    ensures i + 1 < |recs|
  {
    assert WellFormedRecord(recs[i - 1]) && WellFormedRecord(recs[i]);
    assert IsFinish(recs[i - 1]) <==> i - 1 == |recs| - 1;
  }

  lemma AllBegun(img: seq<byte>, recs: seq<seq<byte>>, s: State)
    requires Inv(img, recs, s) && s.pc.LoadSeq?
    ensures Begun(s.sends) == |s.sends|
  {
    hide Replay, Books, WellFormedImage;
  }

  /** Dropping frames by their bytes gives a prefix of the image in every run if and only if no record equals the next. */
  lemma DropIff(split: bool, img: seq<byte>, recs: seq<seq<byte>>, s0: State)
    requires WellFormedImage(img, recs) && Initial(s0)
    ensures NeighboursDiffer(recs) <==> forall labels :: LeavesPrefix(img, recs, Exec(split, img, s0, labels))
  {
    hide Exec, LeavesPrefix, WellFormedImage, Initial;
    if NeighboursDiffer(recs) {
      forall labels ensures LeavesPrefix(img, recs, Exec(split, img, s0, labels)) {
        DropsToPrefix(split, img, recs, s0, labels);
      }
    } else {
      var i :| 0 < i < |recs| && recs[i - 1] == recs[i];
      var labels := LosesRecord(split, img, recs, s0, i);
    }
  }
}
