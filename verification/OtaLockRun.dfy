/**
  Runs in the network. Lock step is possible: for every well-formed image some run in lock step transfers it, whatever other
  reports the device mixes in. And a single time-out is enough to break it, though each frame is answered once.
 */
module OtaLockRun {
  import opened Bytes
  import opened OtaWire
  import opened OtaProtocol
  import opened OtaInvariant
  import opened OtaJustified
  import opened OtaLockStep
  import OtaRuns

  /** The image, where the run starts, and whether waits must end in time. */
  datatype Meeting = Meeting(img: seq<byte>, recs: seq<seq<byte>>, start: Net, timely: bool)
  {
    ghost predicate Valid() { WellFormedImage(img, recs) && NetInitial(start) }

    function After(labels: seq<NetLabel>): Net { NetExec(img, start, labels) }

    function Next(n: Net, l: NetLabel): Net { NetStep(img, n, l) }
  }

  predicate Allowed(c: Meeting, n: Net, l: NetLabel) {
    Answering(l) && (c.timely ==> InTime(n, l))
  }

  ghost predicate Within(c: Meeting, labels: seq<NetLabel>) {
    forall k :: 0 <= k < |labels| ==> Allowed(c, c.After(labels[..k]), labels[k])
  }

  ghost predicate Reaches(c: Meeting, n: Net) {
    exists labels :: c.After(labels) == n && Within(c, labels)
  }

  lemma Goes(c: Meeting, n: Net, l: NetLabel) returns (m: Net)
    requires Reaches(c, n) && Allowed(c, n, l)
    ensures Reaches(c, m) && m == c.Next(n, l)
  {
    hide NetStep, Allowed;
    m := c.Next(n, l);
    var labels :| c.After(labels) == n && Within(c, labels);
    var more := labels + [l];
    assert more[..|labels|] == labels;
    forall k | 0 <= k < |more| ensures Allowed(c, c.After(more[..k]), more[k]) {
      if k < |labels| {
        assert more[..k] == labels[..k];
      }
    }
    assert c.After(more) == m && Within(c, more);
  }

  lemma Starts(c: Meeting)
    ensures Reaches(c, c.start)
  {
    assert c.After([]) == c.start && Within(c, []);
  }

  lemma ReachesInv(c: Meeting, n: Net)
    requires c.Valid() && Reaches(c, n)
    ensures Inv(c.img, c.recs, n.host)
  {
    hide Inv, NetStep;
    var labels :| c.After(labels) == n && Within(c, labels);
    NetRunKeeps(c.img, c.recs, c.start, labels);
  }

  // ---------------------------------------------------------------------------------------------
  // The sender.

  /** A step of the sender that is no write and no poll. */
  lemma Walks(c: Meeting, n: Net) returns (m: Net)
    requires Reaches(c, n) && !n.host.pc.Tick? && !n.host.pc.Write?
    ensures Reaches(c, m) && m == n.(host := SenderStep(c.img, n.host, true, true))
  {
    hide Reaches, SenderStep;
    m := Goes(c, n, SenderMoves(true));
  }

  /** A poll that comes before the deadline. */
  lemma Polls(c: Meeting, n: Net) returns (m: Net)
    requires Reaches(c, n) && n.host.pc.Tick? && n.host.waitCount + 1 < OTA_WAIT_TIME
    ensures Reaches(c, m) && m == n.(host := n.host.(pc := CheckNext, waitCount := n.host.waitCount + 1))
  {
    hide Reaches, FillStep, WriteStep;
    m := Goes(c, n, SenderMoves(true));
  }

  /** The next record is loaded, and the sender is about to write it. */
  lemma Prepares(c: Meeting, n: Net) returns (m: Net)
    requires c.Valid() && Reaches(c, n) && n.host.pc.LoadSeq? && |n.host.sends| < |c.recs|
    ensures Reaches(c, m) && m == n.(host := m.host)
    ensures m.host.pc.Write? && |m.host.sends| == |n.host.sends| + 1 && m.host.sendCount == 1 && m.host.waitCount == 0
    ensures m.host.stage == Retrying && m.host.heard == [] && m.host.frames == n.host.frames
    ensures m.host.reader == n.host.reader && m.host.flagRead == n.host.flagRead
  {
    hide Reaches, FillStep, WriteStep, Inv;
    var a := Walks(c, n);
    var b := Walks(c, a);
    assert b.host.pc.Fill? && b.host.sends == n.host.sends && b.host.sendCount == 0 && b.host.frames == n.host.frames;
    assert b.host.reader == n.host.reader && b.host.flagRead == n.host.flagRead;
    ReachesInv(c, b);
    FillKeeps(c.img, c.recs, b.host);
    var d := Walks(c, b);
    m := Walks(c, d);
  }

  /** The frame of the current record is written. */
  lemma Writes(c: Meeting, k: nat, n: Net) returns (m: Net)
    requires c.Valid() && Reaches(c, n) && n.host.pc.Write? && |n.host.sends| == k + 1 && n.toDevice == []
    ensures k < |c.recs| && WellFormedRecord(c.recs[k]) && Reaches(c, m) && m.host.seqNo == SeqOf(c.recs[k])
    ensures m == n.(toDevice := [Frame(c.recs[k])], host := m.host)
    ensures m.host == n.host.(pc := Tick, sends := m.host.sends, delivered := m.host.delivered,
                              frames := n.host.frames + [Frame(c.recs[k])])
    ensures |m.host.sends| == k + 1
  {
    hide Reaches, Inv, SeqOf, WellFormedImage, NetInitial;
    ReachesInv(c, n);
    WriteKeeps(c.img, c.recs, n.host, true, true);
    OtaRuns.OnTheRecord(c.img, c.recs, n.host);
    m := Goes(c, n, SenderMoves(true));
  }

  /** The device gets the frame and answers it. */
  lemma Replies(c: Meeting, n: Net, frame: seq<byte>, response: seq<byte>) returns (m: Net)
    requires Reaches(c, n) && n.toDevice == [frame] && Recognised(response)
    ensures Reaches(c, m)
    ensures m == n.(toDevice := [], toHost := n.toHost + [response], exchanges := n.exchanges + [Exchange(frame, response)])
  {
    hide Reaches, Recognised;
    m := Goes(c, n, DeviceAnswers(response));
  }

  predicate Unrecognised(reports: seq<seq<byte>>) {
    forall r :: r in reports ==> !Recognised(r)
  }

  /** The device sends other reports. */
  lemma {:induction false} Chatters(c: Meeting, n: Net, reports: seq<seq<byte>>) returns (m: Net)
    requires Reaches(c, n) && Unrecognised(reports)
    ensures Reaches(c, m) && m == n.(toHost := n.toHost + reports)
    decreases |reports|
  {
    hide Reaches, Recognised;
    m := n;
    if reports != [] {
      m := Goes(c, n, DeviceReports(reports[0]));
      m := Chatters(c, m, reports[1..]);
      assert n.toHost + [reports[0]] + reports[1..] == n.toHost + reports;
    }
  }

  // ---------------------------------------------------------------------------------------------
  // The reader.

  /** The reader takes what arrived first and checks it. */
  lemma Checks(c: Meeting, n: Net) returns (m: Net)
    requires Reaches(c, n) && n.host.reader.LoopTest? && n.host.flagRead && n.toHost != []
    ensures Reaches(c, m)
    ensures var r := n.toHost[0];
            m == n.(toHost := n.toHost[1..], host := n.host.(reader := Verdict(r, Classify(r, n.host.seqNo))))
  {
    hide Reaches, Classify;
    m := Goes(c, n, ReaderMoves(false));
    m := Goes(c, m, ReaderMoves(false));
    m := Goes(c, m, ReaderMoves(false));
  }

  /** The verdict reaches the mailbox. */
  lemma Stores(c: Meeting, n: Net, r: seq<byte>, verdict: Option<Stage>) returns (m: Net)
    requires Reaches(c, n) && n.host.reader == Verdict(r, verdict)
    ensures Reaches(c, m) && m == n.(host := Store(n.host, r, verdict))
  {
    hide Reaches, Classify;
    m := Goes(c, n, ReaderMoves(false));
  }

  lemma Unmoved(r: seq<byte>, seqNo: nat)
    requires !Recognised(r)
    ensures Classify(r, seqNo) == None
  {}

  /** The reader works off reports it does not recognise. */
  lemma {:induction false} Ignores(c: Meeting, n: Net, reports: seq<seq<byte>>, rest: seq<seq<byte>>) returns (m: Net)
    requires Reaches(c, n) && Unrecognised(reports) && n.toHost == reports + rest
    requires n.host.reader.LoopTest? && n.host.flagRead
    ensures Reaches(c, m) && m == n.(toHost := rest, host := n.host.(heard := n.host.heard + reports))
    decreases |reports|
  {
    hide Reaches, Recognised, Classify;
    m := n;
    if reports != [] {
      Unmoved(reports[0], n.host.seqNo);
      m := Checks(c, n);
      m := Stores(c, m, reports[0], None);
      assert m.toHost == reports[1..] + rest;
      m := Ignores(c, m, reports[1..], rest);
      assert n.host.heard + [reports[0]] + reports[1..] == n.host.heard + reports;
    }
  }

  // ---------------------------------------------------------------------------------------------
  // Getting through.

  /** What was exchanged when each of the first `k` records was answered once. */
  function Conversation(recs: seq<seq<byte>>, k: nat): seq<Exchange>
    requires k <= |recs| && forall i :: 0 <= i < |recs| ==> WellFormedRecord(recs[i])
  {
    if k == 0 then [] else Conversation(recs, k - 1) + [Exchange(Frame(recs[k - 1]), OtaRuns.Answer(recs[k - 1], 0))]
  }

  /** Nothing is in flight, and the sender is about to load record `k`. */
  predicate Between(c: Meeting, k: nat, n: Net) {
    && k == |n.host.sends| <= |c.recs| && (forall i :: 0 <= i < |c.recs| ==> WellFormedRecord(c.recs[i]))
    && n.host.pc.LoadSeq? && n.host.reader.LoopTest? && n.host.flagRead && n.host.frames == Frames(c.recs[..k])
    && n.toDevice == [] && n.toHost == [] && n.exchanges == Conversation(c.recs, k)
  }

  lemma Begins(c: Meeting) returns (n: Net)
    requires c.Valid()
    ensures Reaches(c, n) && Between(c, 0, n)
  {
    hide Reaches, FillStep, WriteStep, WellFormedRecord;
    Starts(c);
    n := Walks(c, c.start);
    n := Walks(c, n);
    assert c.recs[..0] == [] && Frames([]) == [];
  }

  /** Record `k` is sent and answered, other reports arrive before the answer, and the reader hears it all. */
  lemma Exchanges(c: Meeting, k: nat, n: Net, reports: seq<seq<byte>>) returns (m: Net)
    requires c.Valid() && Reaches(c, n) && Between(c, k, n) && k < |c.recs| && Unrecognised(reports)
    ensures Reaches(c, m) && m.host.pc.Tick? && m.host.waitCount == 0 && |m.host.sends| == k + 1
    ensures m.host.frames == Frames(c.recs[..k + 1]) && m.host.heard == reports + [OtaRuns.Answer(c.recs[k], 0)]
    ensures m.host.reader.LoopTest? && m.host.flagRead && m.toDevice == [] && m.toHost == [] && m.exchanges == Conversation(c.recs, k + 1)
    ensures m.host.stage == if k == |c.recs| - 1 then Complete else NextCmd
  {
    hide Reaches, SenderStep, Classify, OtaRuns.Answer, SeqOf, Unrecognised, Recognised, Frames;
    assert WellFormedRecord(c.recs[k]) && (IsFinish(c.recs[k]) <==> k == |c.recs| - 1);
    var r := OtaRuns.Answer(c.recs[k], 0);
    OtaRuns.AnswerVerdict(c.recs[k], 0);
    AnswerRecognised(c.recs[k]);
    FramesGrow(c.recs, k);
    m := Prepares(c, n);
    m := Writes(c, k, m);
    m := Chatters(c, m, reports);
    m := Replies(c, m, Frame(c.recs[k]), r);
    m := Ignores(c, m, reports, [r]);
    m := Checks(c, m);
    m := Stores(c, m, r, Classify(r, m.host.seqNo));
  }

  lemma AnswerRecognised(rec: seq<byte>)
    requires |rec| >= 7
    ensures Recognised(OtaRuns.Answer(rec, 0))
  {}

  lemma {:induction false} ComesTo(c: Meeting, k: nat, reports: seq<seq<byte>>) returns (n: Net)
    requires c.Valid() && k < |c.recs| && Unrecognised(reports)
    ensures Reaches(c, n) && Between(c, k, n)
  {
    hide Reaches, FillStep, WriteStep, Conversation, Unrecognised, Frames;
    if k == 0 {
      n := Begins(c);
    } else {
      n := ComesTo(c, k - 1, reports);
      n := Exchanges(c, k - 1, n, reports);
      n := Polls(c, n);
      n := Walks(c, n);
    }
  }

  /** A poll that finds the transfer complete, and the end. */
  lemma Finishes(c: Meeting, n: Net) returns (m: Net)
    requires Reaches(c, n) && n.host.pc.Tick? && n.host.waitCount == 0 && n.host.stage == Complete
    ensures Reaches(c, m) && m.host.pc.Succeeded? && m.exchanges == n.exchanges && m.host.heard == n.host.heard
  {
    hide Reaches, FillStep, WriteStep;
    m := Polls(c, n);
    m := Walks(c, m);
    m := Walks(c, m);
    m := Walks(c, m);
    m := Walks(c, m);
  }

  lemma Found(c: Meeting, n: Net) returns (labels: seq<NetLabel>)
    requires Reaches(c, n)
    ensures NetExec(c.img, c.start, labels) == n
    ensures forall k :: 0 <= k < |labels| ==> Allowed(c, NetExec(c.img, c.start, labels[..k]), labels[k])
  {
    hide Allowed, NetExec;
    labels :| c.After(labels) == n && Within(c, labels);
    forall k | 0 <= k < |labels| ensures Allowed(c, NetExec(c.img, c.start, labels[..k]), labels[k]) {
      assert Allowed(c, c.After(labels[..k]), labels[k]);
    }
  }

  /** For every image and whatever other reports the device sends before each answer, there is a run in lock step, without a
      time-out, in which each record's frame is answered once and the transfer succeeds. */
  lemma LockStepPossible(img: seq<byte>, recs: seq<seq<byte>>, n0: Net, reports: seq<seq<byte>>)
    requires WellFormedImage(img, recs) && NetInitial(n0) && Unrecognised(reports)
    ensures exists labels ::
      && AllAdmissible(img, n0, labels)
      && var n := NetExec(img, n0, labels);
         n.host.pc.Succeeded? && n.exchanges == Conversation(recs, |recs|)
         && n.host.heard == reports + [OtaRuns.Answer(recs[|recs| - 1], 0)]
  {
    hide Reaches, NetExec, Conversation, Unrecognised, OtaRuns.Answer, Frames, Answering, InTime;
    var c := Meeting(img, recs, n0, true);
    var n := ComesTo(c, |recs| - 1, reports);
    n := Exchanges(c, |recs| - 1, n, reports);
    n := Finishes(c, n);
    var labels := Found(c, n);
  }

  // ---------------------------------------------------------------------------------------------
  // One time-out.

  /** With nothing in the mailbox the sender polls until the time is up, and retries. */
  lemma {:induction false} TimesOut(c: Meeting, n: Net) returns (m: Net)
    requires !c.timely && Reaches(c, n) && n.host.pc.Tick? && n.host.waitCount < OTA_WAIT_TIME && n.host.stage == Retrying
    ensures Reaches(c, m) && m == n.(host := n.host.(pc := Arm, waitCount := OTA_WAIT_TIME))
    decreases OTA_WAIT_TIME - n.host.waitCount
  {
    hide Reaches, FillStep, WriteStep;
    if n.host.waitCount + 1 < OTA_WAIT_TIME {
      m := Polls(c, n);
      m := Walks(c, m);
      m := Walks(c, m);
      m := Walks(c, m);
      m := TimesOut(c, m);
    } else {
      m := Goes(c, n, SenderMoves(true));
    }
  }

  /** Record `i` is sent twice, the first wait having timed out; each frame is answered once. */
  lemma SendsTwice(c: Meeting, i: nat, n: Net) returns (m: Net)
    requires c.Valid() && !c.timely && Reaches(c, n) && Between(c, i, n) && i < |c.recs|
    ensures Reaches(c, m) && m.host.pc.Tick? && m.host.waitCount == 0 && |m.host.sends| == i + 1 && m.host.seqNo == SeqOf(c.recs[i])
    ensures m.host.reader.LoopTest? && m.host.flagRead && m.host.heard == [] && m.toDevice == []
    ensures m.host.frames == Frames(c.recs[..i + 1]) + [Frame(c.recs[i])]
    ensures var r := OtaRuns.Answer(c.recs[i], 0);
            m.toHost == [r, r] && m.exchanges == Conversation(c.recs, i) + [Exchange(Frame(c.recs[i]), r), Exchange(Frame(c.recs[i]), r)]
  {
    hide Reaches, FillStep, WriteStep, OtaRuns.Answer, SeqOf, Recognised, Frames, Conversation;
    var r := OtaRuns.Answer(c.recs[i], 0);
    AnswerRecognised(c.recs[i]);
    FramesGrow(c.recs, i);
    m := Prepares(c, n);
    m := Writes(c, i, m);
    m := Replies(c, m, Frame(c.recs[i]), r);
    m := TimesOut(c, m);
    m := Walks(c, m);
    m := Writes(c, i, m);
    m := Replies(c, m, Frame(c.recs[i]), r);
    assert [r] + [r] == [r, r];
  }

  /** The reader takes the first answer to the mailbox and holds on to the verdict on the second. */
  lemma HearsBoth(c: Meeting, i: nat, n: Net) returns (m: Net)
    requires c.Valid() && Reaches(c, n) && i + 1 < |c.recs| && WellFormedRecord(c.recs[i]) && n.host.seqNo == SeqOf(c.recs[i])
    requires n.host.reader.LoopTest? && n.host.flagRead && n.toHost == [OtaRuns.Answer(c.recs[i], 0), OtaRuns.Answer(c.recs[i], 0)]
    ensures var r := OtaRuns.Answer(c.recs[i], 0);
            Reaches(c, m) && m == n.(toHost := [], host := n.host.(reader := Verdict(r, Some(NextCmd)), heard := n.host.heard + [r], stage := NextCmd))
  {
    hide Reaches, Classify, OtaRuns.Answer, SeqOf;
    var r := OtaRuns.Answer(c.recs[i], 0);
    assert IsFinish(c.recs[i]) <==> i == |c.recs| - 1;
    OtaRuns.AnswerVerdict(c.recs[i], 0);
    m := Checks(c, n);
    m := Stores(c, m, r, Some(NextCmd));
    m := Checks(c, m);
  }

  /** One time-out is enough. The device answers every frame exactly once, and the sender retransmits one DATA record once;
      still it leaves the next record, whose frame the device has not even got, on the second verdict about the first. */
  lemma TimeoutSkips(img: seq<byte>, recs: seq<seq<byte>>, n0: Net, i: nat)
    requires WellFormedImage(img, recs) && NetInitial(n0) && i + 1 < |recs|
    requires WellFormedRecord(recs[i]) && WellFormedRecord(recs[i + 1]) && IsData(recs[i]) && SeqOf(recs[i + 1]) != SeqOf(recs[i])
    ensures exists labels ::
      && (forall k :: 0 <= k < |labels| ==> Answering(labels[k]))
      && var n := NetExec(img, n0, labels);
         var r := OtaRuns.Answer(recs[i], 0);
         && Passed(n.host) == i + 2 && n.toDevice == [Frame(recs[i + 1])]
         && n.host.frames == Frames(recs[..i + 1]) + [Frame(recs[i]), Frame(recs[i + 1])]
         && n.exchanges == Conversation(recs, i) + [Exchange(Frame(recs[i]), r), Exchange(Frame(recs[i]), r)]
         && n.host.heard == [r] && !Advances(r, SeqOf(recs[i + 1]))
  {
    hide Reaches, NetExec, Conversation, OtaRuns.Answer, Frames, Answering, InTime, SeqOf, FillStep, WriteStep, Advances;
    var c := Meeting(img, recs, n0, false);
    var r := OtaRuns.Answer(recs[i], 0);
    NotAbout(recs[i], SeqOf(recs[i + 1]));
    var n := ComesTo(c, i, []);
    n := SendsTwice(c, i, n);
    n := HearsBoth(c, i, n);
    n := Polls(c, n);
    n := Walks(c, n);
    n := Prepares(c, n);
    n := Writes(c, i + 1, n);
    n := Stores(c, n, r, Some(NextCmd));
    n := Polls(c, n);
    n := Walks(c, n);
    var labels := Found(c, n);
    assert forall k :: 0 <= k < |labels| ==> Allowed(c, NetExec(img, n0, labels[..k]), labels[k]);
    assert Frames(recs[..i + 1]) + [Frame(recs[i])] + [Frame(recs[i + 1])] == Frames(recs[..i + 1]) + [Frame(recs[i]), Frame(recs[i + 1])];
  }

  lemma NotAbout(rec: seq<byte>, seqNo: nat)
    requires |rec| >= 7 && IsData(rec) && SeqOf(rec) != seqNo
    ensures !Advances(OtaRuns.Answer(rec, 0), seqNo)
  {}
}
