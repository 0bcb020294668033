/**
  When a stale verdict can mislead the sender, exactly: when the reader holds one at the moment the mailbox is armed. The
  condition can be checked before the send; it speaks of the state, not of the run.
 */
module OtaSplit {
  import opened Bytes
  import opened OtaWire
  import opened OtaProtocol
  import opened OtaInvariant
  import opened OtaJustified

  /** The look at the mailbox that acts on `v`. */
  predicate LooksFor(pc: Pc, v: Stage) {
    if v.NextCmd? then pc.CheckNext? else if v.ErrRetry? then pc.CheckErr? else v.Complete? && pc.CheckComplete?
  }

  /** The sender is about to act on `v`, though the last recognised response since it armed the mailbox, if any, does not call
      for it. */
  predicate Misled(s: State, v: Stage) {
    LooksFor(s.pc, v) && s.stage == v && !Shows(s, v)
  }

  lemma Loaded(split: bool, img: seq<byte>, recs: seq<seq<byte>>, s: State, l: Label)
    requires Inv(img, recs, s)
    ensures var t := Step(split, img, s, l);
            |t.sends| >= |s.sends| && (!Armed(s.pc) && Armed(t.pc) ==> |t.sends| > |s.sends|)
  {
    hide FillStep, WriteStep, ReaderStep, Inv;
    if l.Reader? {
      ReaderTouches(split, s, l.input);
    }
  }

  /** Once fresh, the mailbox stays fresh for as long as the sender stands on the record. */
  lemma {:induction false} StaysFresh(split: bool, img: seq<byte>, recs: seq<seq<byte>>, s: State, more: seq<Label>, v: Stage)
    requires Inv(img, recs, s) && ReaderSound(s) && Armed(s.pc) && Fresh(s, v) && IsVerdict(v)
    ensures var t := Exec(split, img, s, more);
            && Inv(img, recs, t) && ReaderSound(t) && |t.sends| >= |s.sends|
            && (Armed(t.pc) && |t.sends| == |s.sends| ==> Fresh(t, v))
  {
    hide Inv, ReaderSound, Fresh, Step;
    if more != [] {
      var n := |more| - 1;
      var t := Exec(split, img, s, more[..n]);
      StaysFresh(split, img, recs, s, more[..n], v);
      StepKeeps(split, img, recs, t, more[n]);
      StepSound(split, img, t, more[n]);
      Loaded(split, img, recs, t, more[n]);
      if Armed(t.pc) && Armed(Step(split, img, t, more[n]).pc) && |t.sends| == |s.sends| {
        StepFresh(split, img, t, more[n], v);
      }
    }
  }

  lemma NotMisled(s: State, v: Stage)
    requires IsVerdict(v) && (Armed(s.pc) ==> Fresh(s, v))
    ensures !Misled(s, v)
  {}

  /** The schedule on which a stale verdict misleads: the sender arms the mailbox and writes, the reader stores, the sender
      comes to its look. */
  function Misleading(v: Stage): (more: seq<Label>) {
    var go := Sender(true, true);
    var look := [go, go, Label.Reader(None), go];
    if v.NextCmd? then look else if v.ErrRetry? then look + [go] else look + [go, go]
  }

  lemma ExecFour(split: bool, img: seq<byte>, s: State, a: Label, b: Label, c: Label, d: Label)
    ensures Exec(split, img, s, [a, b, c, d])
            == Step(split, img, Step(split, img, Step(split, img, Step(split, img, s, a), b), c), d)
  {
    hide Step;
    ExecMore(split, img, s, [], a);
    ExecMore(split, img, s, [a], b);
    ExecMore(split, img, s, [a, b], c);
    ExecMore(split, img, s, [a, b, c], d);
    assert [] + [a] == [a] && [a] + [b] == [a, b] && [a, b] + [c] == [a, b, c] && [a, b, c] + [d] == [a, b, c, d];
  }

  lemma Stored(img: seq<byte>, s: State, t: State, r: seq<byte>, v: Stage)
    requires s.pc.Arm? && s.sendCount < MAX_SENDS && s.reader == Verdict(r, Some(v))
    requires t == SenderStep(img, ReaderStep(true, SenderStep(img, SenderStep(img, s, true, true), true, true), None), true, true)
    ensures t.pc.CheckNext? && t.stage == v && t.heard == [r] && t.seqNo == s.seqNo && |t.sends| == |s.sends|
  {
    hide FillStep, WriteStep;
  }

  lemma LooksOn(img: seq<byte>, s: State, v: Stage)
    requires s.pc.CheckNext? && s.stage == v && (v.ErrRetry? || v.Complete?)
    ensures var t := SenderStep(img, s, true, true);
            var u := SenderStep(img, t, true, true);
            && t == s.(pc := CheckErr) && (v.Complete? ==> u == s.(pc := CheckComplete))
  {
    hide FillStep, WriteStep;
  }

  lemma HeardOne(s: State, r: seq<byte>, v: Stage)
    requires s.heard == [r] && Classify(r, s.seqNo) != Some(v) && Recognised(r)
    ensures !Shows(s, v)
  {
    hide Classify, Recognised;
    assert [r][..0] == [];
  }

  lemma Misleads(img: seq<byte>, s: State, v: Stage)
    requires s.pc.Arm? && s.sendCount < MAX_SENDS && ReaderSound(s) && IsVerdict(v) && Stale(s, v)
    ensures var t := Exec(true, img, s, Misleading(v)); |t.sends| == |s.sends| && Misled(t, v)
  {
    hide Exec, SenderStep, ReaderStep, Classify, Recognised, Shows;
    var go := Sender(true, true);
    var look := [go, go, Label.Reader(None), go];
    var r := s.reader.response;
    ExecFour(true, img, s, go, go, Label.Reader(None), go);
    var t := Exec(true, img, s, look);
    Stored(img, s, t, r, v);
    HeardOne(t, r, v);
    if !v.NextCmd? {
      LooksOn(img, t, v);
      ExecMore(true, img, s, look, go);
      ExecMore(true, img, s, look + [go], go);
      assert look + [go] + [go] == look + [go, go];
      HeardOne(t.(pc := CheckErr), r, v);
      HeardOne(t.(pc := CheckComplete), r, v);
    }
  }

  /** The exact condition, with check and store apart. Wherever a run has brought the sender to arming the mailbox with a send
      left, some way for it to go on has the sender act on `v` for that record, wrongly, if and only if the reader holds a
      stale `v` there. This is so for going on, for retrying and for success. */
  lemma MisledIff(img: seq<byte>, recs: seq<seq<byte>>, s0: State, labels: seq<Label>, v: Stage)
    requires WellFormedImage(img, recs) && Initial(s0) && IsVerdict(v)
    requires var s := Exec(true, img, s0, labels); s.pc.Arm? && s.sendCount < MAX_SENDS
    ensures var s := Exec(true, img, s0, labels);
            Stale(s, v) <==> exists more :: var t := Exec(true, img, s, more); |t.sends| == |s.sends| && Misled(t, v)
  {
    hide Exec, Inv, Stale, Fresh, ReaderSound, Misled, WellFormedImage, Initial;
    var s := Exec(true, img, s0, labels);
    RunKeeps(true, img, recs, s0, labels);
    RunSound(true, img, s0, labels);
    if Stale(s, v) {
      Misleads(img, s, v);
    } else {
      ArmedFresh(s, v);
      forall more ensures var t := Exec(true, img, s, more); |t.sends| == |s.sends| ==> !Misled(t, v) {
        StaysFresh(true, img, recs, s, more, v);
        var t := Exec(true, img, s, more);
        if |t.sends| == |s.sends| {
          NotMisled(t, v);
        }
      }
    }
  }

  /** With check and store in one step the sender is never misled. */
  lemma NeverMisled(img: seq<byte>, recs: seq<seq<byte>>, s0: State, labels: seq<Label>, v: Stage)
    requires WellFormedImage(img, recs) && Initial(s0) && IsVerdict(v)
    ensures !Misled(Exec(false, img, s0, labels), v)
  {
    hide Exec, Misled, Fresh;
    var j := FreshOrStale(false, img, recs, s0, labels, v);
    NotMisled(Exec(false, img, s0, labels), v);
  }
}
