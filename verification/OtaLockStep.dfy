/**
  The transfer with the reader's check and its store as separate steps, against a device that answers every frame
  exactly once and may send any other reports whenever it likes. While no wait times out, sender, channel, device,
  reader and mailbox pass one token around, so a verdict never reaches the mailbox of another record.
 */
module OtaLockStep {
  import opened Bytes
  import opened OtaWire
  import opened OtaProtocol
  import opened OtaInvariant
  import opened OtaJustified

  datatype Exchange = Exchange(frame: seq<byte>, response: seq<byte>)

  /** The two threads, the frames and responses in flight, and what the device has answered so far. */
  datatype Net = Net(host: State, toDevice: seq<seq<byte>>, toHost: seq<seq<byte>>, exchanges: seq<Exchange>)

  /** A step of the sender; a step of the reader, whose read may fail; the device answers a frame; the device sends a report
      that answers none. */
  datatype NetLabel = SenderMoves(ok: bool) | ReaderMoves(fails: bool) | DeviceAnswers(response: seq<byte>) | DeviceReports(report: seq<byte>)

  function SenderNet(img: seq<byte>, n: Net, ok: bool): Net {
    var t := SenderStep(img, n.host, ok, true);
    n.(host := t,
       toDevice := if n.host.pc.Write? && ok && t.frames != [] then n.toDevice + [t.frames[|t.frames| - 1]] else n.toDevice)
  }

  /** The reader takes what arrives in order and waits if there is nothing. */
  function ReaderNet(n: Net, fails: bool): Net {
    if !n.host.reader.Reading? || fails then n.(host := ReaderStep(true, n.host, None))
    else if n.toHost == [] then n
    else n.(host := ReaderStep(true, n.host, Some(n.toHost[0])), toHost := n.toHost[1..])
  }

  /** The device answers frames in order, each once. */
  function DeviceNet(n: Net, response: seq<byte>): Net {
    if n.toDevice == [] then n
    else n.(toDevice := n.toDevice[1..], toHost := n.toHost + [response],
            exchanges := n.exchanges + [Exchange(n.toDevice[0], response)])
  }

  function NetStep(img: seq<byte>, n: Net, l: NetLabel): Net {
    match l
    case SenderMoves(ok) => SenderNet(img, n, ok)
    case ReaderMoves(fails) => ReaderNet(n, fails)
    case DeviceAnswers(response) => DeviceNet(n, response)
    case DeviceReports(report) => n.(toHost := n.toHost + [report])
  }

  function NetExec(img: seq<byte>, n: Net, labels: seq<NetLabel>): Net {
    if labels == [] then n else NetStep(img, NetExec(img, n, labels[..|labels| - 1]), labels[|labels| - 1])
  }

  predicate NetInitial(n: Net) {
    Initial(n.host) && n.toDevice == [] && n.toHost == [] && n.exchanges == []
  }

  /** The device's answers are recognised, and its other reports are not. */
  predicate Answering(l: NetLabel) {
    (l.DeviceAnswers? ==> Recognised(l.response)) && (l.DeviceReports? ==> !Recognised(l.report))
  }

  /** No wait times out. */
  predicate InTime(n: Net, l: NetLabel) {
    l.SenderMoves? && n.host.pc.Tick? ==> n.host.waitCount + 1 < OTA_WAIT_TIME
  }

  predicate Admissible(n: Net, l: NetLabel) {
    Answering(l) && InTime(n, l)
  }

  predicate AllAdmissible(img: seq<byte>, n: Net, labels: seq<NetLabel>) {
    forall k :: 0 <= k < |labels| ==> Admissible(NetExec(img, n, labels[..k]), labels[k])
  }

  // ---------------------------------------------------------------------------------------------
  // The token.

  predicate MailboxSet(s: State) {
    Polling(s.pc) && (s.stage.NextCmd? || s.stage.ErrRetry? || s.stage.Complete?)
  }

  /** The recognised ones among what arrives. */
  function Known(rs: seq<seq<byte>>): seq<seq<byte>> {
    if rs == [] then [] else (if Recognised(rs[0]) then [rs[0]] else []) + Known(rs[1..])
  }

  lemma {:induction false} KnownMore(rs: seq<seq<byte>>, r: seq<byte>)
    ensures Known(rs + [r]) == Known(rs) + if Recognised(r) then [r] else []
  {
    if rs == [] {
      assert (rs + [r])[1..] == [];
    } else {
      assert (rs + [r])[1..] == rs[1..] + [r];
      KnownMore(rs[1..], r);
    }
  }

  /** The reader has a recognised response, checked or not. */
  predicate Held(s: State) {
    (s.reader.Holding? || s.reader.Verdict?) && Recognised(s.reader.response)
  }

  /** Sender not waiting, frames in flight, recognised responses in flight, reader with one of them or its verdict, mailbox. */
  function Tokens(n: Net): nat {
    (if Polling(n.host.pc) then 0 else 1) + |n.toDevice| + |Known(n.toHost)|
    + (if Held(n.host) then 1 else 0) + (if MailboxSet(n.host) then 1 else 0)
  }

  /** The device's last answer is `response`, to the frame written last. */
  predicate Answered(n: Net, response: seq<byte>) {
    && n.exchanges != [] && n.host.frames != []
    && n.exchanges[|n.exchanges| - 1] == Exchange(n.host.frames[|n.host.frames| - 1], response)
    && Recognised(response)
  }

  predicate LockStep(n: Net) {
    var s := n.host;
    && Tokens(n) == 1
    && (s.pc.Write? || (Polling(s.pc) && !MailboxSet(s)) ==> s.stage == Retrying && Known(s.heard) == [])
    && (n.toDevice != [] ==> s.frames != [] && n.toDevice[0] == s.frames[|s.frames| - 1])
    && (Known(n.toHost) != [] ==> Answered(n, Known(n.toHost)[0]))
    && (Held(s) ==> Answered(n, s.reader.response))
    && (s.reader.Verdict? ==> s.reader.verdict == if Held(s) then Classify(s.reader.response, s.seqNo) else None)
    && (MailboxSet(s) ==>
          |Known(s.heard)| == 1 && Answered(n, Known(s.heard)[0]) && Classify(Known(s.heard)[0], s.seqNo) == Some(s.stage))
  }

  lemma LockInitial(n: Net)
    requires NetInitial(n)
    ensures LockStep(n)
  {}

  lemma WriteLocks(img: seq<byte>, n: Net, ok: bool)
    requires LockStep(n) && n.host.pc.Write?
    ensures LockStep(SenderNet(img, n, ok))
  {
    hide WriteStep, Classify, Recognised, Known;
  }

  lemma PollLocks(img: seq<byte>, n: Net, ok: bool)
    requires LockStep(n) && Polling(n.host.pc) && Admissible(n, SenderMoves(ok))
    ensures LockStep(SenderNet(img, n, ok))
  {
    hide FillStep, WriteStep, Classify, Recognised, Known;
    match n.host.pc
    case Tick =>
    case CheckNext =>
    case CheckErr =>
    case CheckComplete =>
  }

  lemma SenderLocks(img: seq<byte>, n: Net, ok: bool)
    requires LockStep(n) && !n.host.pc.Write? && !Polling(n.host.pc)
    ensures LockStep(SenderNet(img, n, ok))
  {
    assert Known([]) == [];
    hide FillStep, WriteStep, Classify, Recognised, Known, Held;
  }

  lemma TakeLocks(n: Net)
    requires LockStep(n) && n.host.reader.Reading? && n.toHost != []
    ensures LockStep(ReaderNet(n, false))
  {
    assert Known(n.toHost) == (if Recognised(n.toHost[0]) then [n.toHost[0]] else []) + Known(n.toHost[1..]);
    hide Classify, Recognised, Known;
  }

  lemma CheckLocks(n: Net, fails: bool)
    requires LockStep(n) && n.host.reader.Holding?
    ensures LockStep(ReaderNet(n, fails))
  {
    ClassifyMeans(n.host.reader.response, n.host.seqNo);
    hide Classify, Recognised, Known;
  }

  lemma StoreLocks(n: Net, fails: bool)
    requires LockStep(n) && n.host.reader.Verdict?
    ensures LockStep(ReaderNet(n, fails))
  {
    ClassifyMeans(n.host.reader.response, n.host.seqNo);
    KnownMore(n.host.heard, n.host.reader.response);
    hide Classify, Recognised, Known;
  }

  lemma ReaderLocks(n: Net, fails: bool)
    requires LockStep(n)
    ensures LockStep(ReaderNet(n, fails))
  {
    hide Classify, Recognised, Known;
    if n.host.reader.Verdict? {
      StoreLocks(n, fails);
    } else if n.host.reader.Holding? {
      CheckLocks(n, fails);
    } else if n.host.reader.Reading? && !fails && n.toHost != [] {
      TakeLocks(n);
    }
  }

  lemma DeviceLocks(n: Net, response: seq<byte>)
    requires LockStep(n) && Recognised(response)
    ensures LockStep(DeviceNet(n, response))
  {
    KnownMore(n.toHost, response);
    hide Classify, Recognised, Known;
  }

  lemma ReportLocks(n: Net, report: seq<byte>)
    requires LockStep(n) && !Recognised(report)
    ensures LockStep(n.(toHost := n.toHost + [report]))
  {
    KnownMore(n.toHost, report);
    hide Classify, Recognised, Known;
  }

  lemma StepLocks(img: seq<byte>, n: Net, l: NetLabel)
    requires LockStep(n) && Admissible(n, l)
    ensures LockStep(NetStep(img, n, l))
  {
    hide LockStep, SenderNet, ReaderNet, DeviceNet;
    match l
    case SenderMoves(ok) =>
      if n.host.pc.Write? {
        WriteLocks(img, n, ok);
      } else if Polling(n.host.pc) {
        PollLocks(img, n, ok);
      } else {
        SenderLocks(img, n, ok);
      }
    case ReaderMoves(fails) => ReaderLocks(n, fails);
    case DeviceAnswers(response) => DeviceLocks(n, response);
    case DeviceReports(report) => ReportLocks(n, report);
  }

  // ---------------------------------------------------------------------------------------------
  // The threads in the network are the threads of the protocol.

  /** The step of the protocol that a step of the network makes, if any. */
  function HostLabel(n: Net, l: NetLabel): Option<Label> {
    match l
    case SenderMoves(ok) => Some(Sender(ok, true))
    case ReaderMoves(fails) =>
      if !n.host.reader.Reading? || fails then Some(Reader(None))
      else if n.toHost == [] then None else Some(Reader(Some(n.toHost[0])))
    case DeviceAnswers(_) => None
    case DeviceReports(_) => None
  }

  lemma HostSteps(img: seq<byte>, n: Net, l: NetLabel)
    ensures NetStep(img, n, l).host
            == (match HostLabel(n, l) case None => n.host case Some(step) => Step(true, img, n.host, step))
  {
    hide SenderStep, ReaderStep;
  }

  lemma {:induction false} NetRunKeeps(img: seq<byte>, recs: seq<seq<byte>>, n0: Net, labels: seq<NetLabel>)
    requires WellFormedImage(img, recs) && NetInitial(n0)
    ensures Inv(img, recs, NetExec(img, n0, labels).host)
  {
    hide Inv, Step, NetStep, HostLabel;
    if labels == [] {
      InitialInv(img, recs, n0.host);
    } else {
      var n := NetExec(img, n0, labels[..|labels| - 1]);
      var l := labels[|labels| - 1];
      NetRunKeeps(img, recs, n0, labels[..|labels| - 1]);
      HostSteps(img, n, l);
      if HostLabel(n, l).Some? {
        StepKeeps(true, img, recs, n.host, HostLabel(n, l).value);
      }
    }
  }

  lemma {:induction false} RunLocks(img: seq<byte>, n0: Net, labels: seq<NetLabel>)
    requires NetInitial(n0) && AllAdmissible(img, n0, labels)
    ensures LockStep(NetExec(img, n0, labels))
  {
    hide LockStep, NetStep, Admissible;
    if labels == [] {
      LockInitial(n0);
    } else {
      var m := |labels| - 1;
      forall k | 0 <= k < m ensures Admissible(NetExec(img, n0, labels[..m][..k]), labels[..m][k]) {
        assert labels[..m][..k] == labels[..k];
      }
      RunLocks(img, n0, labels[..m]);
      StepLocks(img, NetExec(img, n0, labels[..m]), labels[m]);
    }
  }

  /** In lock step there is always exactly one token. */
  lemma OneToken(img: seq<byte>, n0: Net, labels: seq<NetLabel>)
    requires NetInitial(n0) && AllAdmissible(img, n0, labels)
    ensures Tokens(NetExec(img, n0, labels)) == 1
  {
    RunLocks(img, n0, labels);
  }

  // ---------------------------------------------------------------------------------------------
  // Going on, in lock step.

  /** Step `k` takes the sender off record `i`; the one recognised response heard since it armed the mailbox is the device's
      answer to the frame of that very record, and it advances. */
  predicate LeavesAnswered(img: seq<byte>, recs: seq<seq<byte>>, n0: Net, labels: seq<NetLabel>, k: nat, i: nat) {
    && k < |labels| && labels[k].SenderMoves? && i < |recs| && WellFormedRecord(recs[i])
    && var n := NetExec(img, n0, labels[..k]);
       && n.host.pc.CheckNext? && |n.host.sends| == i + 1 && |Known(n.host.heard)| == 1
       && n.exchanges != [] && n.exchanges[|n.exchanges| - 1] == Exchange(Frame(recs[i]), Known(n.host.heard)[0])
       && Advances(Known(n.host.heard)[0], SeqOf(recs[i]))
  }

  lemma LastFrame(img: seq<byte>, recs: seq<seq<byte>>, s: State)
    requires Inv(img, recs, s) && Polling(s.pc)
    ensures s.frames != [] && 0 < |s.sends| <= |recs| && s.frames[|s.frames| - 1] == Frame(recs[|s.sends| - 1])
  {
    ReplayEnds(recs, s.sends);
  }

  lemma AnswerAdvances(img: seq<byte>, recs: seq<seq<byte>>, n: Net)
    requires Inv(img, recs, n.host) && LockStep(n) && n.host.pc.CheckNext? && n.host.stage == NextCmd
    ensures |Known(n.host.heard)| == 1 && 0 < |n.host.sends| <= |recs| && WellFormedRecord(recs[|n.host.sends| - 1])
    ensures Answered(n, Known(n.host.heard)[0])
    ensures Advances(Known(n.host.heard)[0], SeqOf(recs[|n.host.sends| - 1]))
  {
    hide Classify, Advances, Answered, Known;
    ClassifyMeans(Known(n.host.heard)[0], n.host.seqNo);
  }

  lemma {:induction false} FindAnswered(img: seq<byte>, recs: seq<seq<byte>>, n0: Net, labels: seq<NetLabel>, i: nat) returns (k: nat)
    requires WellFormedImage(img, recs) && NetInitial(n0) && AllAdmissible(img, n0, labels)
    requires i < Passed(NetExec(img, n0, labels).host)
    ensures LeavesAnswered(img, recs, n0, labels, k, i)
  {
    hide Step, NetStep, Admissible, LockStep, Inv, Advances, WellFormedImage, Known;
    var m := |labels| - 1;
    if labels == [] {
      PassedNothing(n0.host);
    }
    var n, l := NetExec(img, n0, labels[..m]), labels[m];
    NetRunKeeps(img, recs, n0, labels[..m]);
    HostSteps(img, n, l);
    if HostLabel(n, l).Some? {
      PassedMoves(true, img, recs, n.host, HostLabel(n, l).value);
    }
    forall k | 0 <= k < m ensures Admissible(NetExec(img, n0, labels[..m][..k]), labels[..m][k]) {
      assert labels[..m][..k] == labels[..k];
    }
    if i < Passed(n.host) {
      k := FindAnswered(img, recs, n0, labels[..m], i);
      assert labels[..m][..k] == labels[..k];
    } else {
      RunLocks(img, n0, labels[..m]);
      AnswerAdvances(img, recs, n);
      LastFrame(img, recs, n.host);
      k := m;
    }
  }

  lemma PassedNothing(s: State)
    requires Initial(s)
    ensures Passed(s) == 0
  {}

  /** Justified advance in lock step, with check and store apart: whenever the sender has left a record, the device had
      answered that very record's frame with a response that advances. */
  lemma LockStepAdvance(img: seq<byte>, recs: seq<seq<byte>>, n0: Net, labels: seq<NetLabel>, i: nat)
    requires WellFormedImage(img, recs) && NetInitial(n0) && AllAdmissible(img, n0, labels)
    requires i < Passed(NetExec(img, n0, labels).host)
    ensures exists k: nat :: LeavesAnswered(img, recs, n0, labels, k, i)
  {
    var k := FindAnswered(img, recs, n0, labels, i);
  }
}
