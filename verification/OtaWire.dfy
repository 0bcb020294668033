/**
  What the OTA client puts on and takes off the wire: the constants of the protocol, the firmware records,
  the frame built for one, and the classification of a response.
 */
module OtaWire {
  import opened Bytes

  const START_CMD := 0x01
  const DATA_CMD := 0x02
  const FINISH_CMD := 0x03

  /** Polls per send; at twenty milliseconds each, fifteen seconds. */
  const OTA_WAIT_TIME := 750
  const MAX_SENDS := 3

  const SUCCESS := 0
  const NO_NEED_UPDATE := 2

  const REPORT_TYPE: byte := 0x52
  const RESPONSE_RID := 0x02
  const BUFFER_SIZE := 1024
  const IMAGE_SIZE := 524288

  datatype Stage = Start | Data | DataNext | Finish | ErrRetry | Complete | Retrying | NextCmd | NewCmd

  function Le16(lo: byte, hi: byte): nat { lo + 256 * hi }

  // ---------------------------------------------------------------------------------------------
  // Responses.

  /** Byte `i` of a response: the read buffer is cleared before each read and its first byte is skipped, so
      what a short read does not reach is zero. */
  function ResponseByte(response: seq<byte>, i: nat): byte {
    if i + 1 < |response| then response[i + 1] else 0
  }

  function Rid(response: seq<byte>): byte { ResponseByte(response, 0) }

  function Command(response: seq<byte>): byte { ResponseByte(response, 2) }

  function Sequence(response: seq<byte>): nat { Le16(ResponseByte(response, 3), ResponseByte(response, 4)) }

  function Status(response: seq<byte>): byte { ResponseByte(response, 5) }

  /** What a response makes of the mailbox when the current record carries `seqNo`; a response that is not
      recognised leaves it alone. */
  function Classify(response: seq<byte>, seqNo: nat): Option<Stage> {
    if Rid(response) != RESPONSE_RID then None
    else if Command(response) == START_CMD then
      Some(if Status(response) == SUCCESS then NextCmd else if Status(response) == NO_NEED_UPDATE then Complete else ErrRetry)
    else if Command(response) == DATA_CMD then
      Some(if Sequence(response) != seqNo then ErrRetry
           else if Status(response) == SUCCESS then NextCmd else if Status(response) == NO_NEED_UPDATE then Complete else ErrRetry)
    else if Command(response) == FINISH_CMD then
      Some(if Status(response) == SUCCESS || Status(response) == NO_NEED_UPDATE then Complete else ErrRetry)
    else None
  }

  predicate Recognised(response: seq<byte>) {
    Rid(response) == RESPONSE_RID && START_CMD <= Command(response) <= FINISH_CMD
  }

  /** The responses that let the sender go on: START, or DATA with the current sequence number, with success. */
  predicate Advances(response: seq<byte>, seqNo: nat) {
    && Rid(response) == RESPONSE_RID && Status(response) == SUCCESS
    && (Command(response) == START_CMD || (Command(response) == DATA_CMD && Sequence(response) == seqNo))
  }

  /** The responses that end the transfer in success. */
  predicate Completes(response: seq<byte>, seqNo: nat) {
    && Rid(response) == RESPONSE_RID
    && ((Command(response) == FINISH_CMD && Status(response) == SUCCESS)
        || (Status(response) == NO_NEED_UPDATE
            && (Command(response) == START_CMD || Command(response) == FINISH_CMD
                || (Command(response) == DATA_CMD && Sequence(response) == seqNo))))
  }

  /** The classification, by meaning. */
  lemma ClassifyMeans(response: seq<byte>, seqNo: nat)
    ensures Classify(response, seqNo) == Some(NextCmd) <==> Advances(response, seqNo)
    ensures Classify(response, seqNo) == Some(Complete) <==> Completes(response, seqNo)
    ensures Classify(response, seqNo).Some? <==> Recognised(response)
    ensures Classify(response, seqNo).Some? ==> Classify(response, seqNo).value in {NextCmd, Complete, ErrRetry}
  {}

  /** Byte `i` as read, zero where the read did not reach. */
  function ByteRead(response: seq<byte>, i: nat): int { if i < |response| then response[i] else 0 }

  /** And by the bytes read: report id 2 in byte 1, command in byte 3, sequence number in bytes 4 and 5, status in byte 6. */
  lemma ClassifyByBytes(response: seq<byte>, seqNo: nat)
    ensures var id, command, status := ByteRead(response, 1), ByteRead(response, 3), ByteRead(response, 6);
            var current := ByteRead(response, 4) + 256 * ByteRead(response, 5) == seqNo;
            && (Classify(response, seqNo).Some? <==> id == 2 && (command == 1 || command == 2 || command == 3))
            && (Classify(response, seqNo) == Some(NextCmd) <==>
                  id == 2 && status == 0 && (command == 1 || (command == 2 && current)))
            && (Classify(response, seqNo) == Some(Complete) <==>
                  id == 2 && ((command == 3 && status == 0) || (status == 2 && (command == 1 || command == 3 || (command == 2 && current)))))
  {}

  // ---------------------------------------------------------------------------------------------
  // Records and frames.

  function ByteSum(s: seq<byte>): nat {
    if s == [] then 0 else ByteSum(s[..|s| - 1]) + s[|s| - 1]
  }

  function Zeros(n: nat): (z: seq<byte>)
    ensures |z| == n
  {
    seq(n, _ => 0)
  }

  /** The command buffer filled for a record: report type, record, the sum of its bytes, zeros. */
  function Filled(rec: seq<byte>): (buf: seq<byte>)
    requires |rec| <= BUFFER_SIZE - 3
    ensures |buf| == BUFFER_SIZE
  {
    [REPORT_TYPE] + rec + [ByteSum(rec) % 256, (ByteSum(rec) / 256) % 256] + Zeros(BUFFER_SIZE - 3 - |rec|)
  }

  /** What is handed to the channel for a record; the sum is not. */
  function Frame(rec: seq<byte>): seq<byte> {
    [REPORT_TYPE] + rec
  }

  /** A record as the sender relies on: its own length in bytes 1 and 2, room for a command and a sequence
      number, and a command buffer it fits in. */
  predicate WellFormedRecord(rec: seq<byte>) {
    7 <= |rec| <= BUFFER_SIZE - 3 && Le16(rec[1], rec[2]) == |rec|
  }

  predicate IsData(rec: seq<byte>)
    requires |rec| >= 7
  {
    rec[4] == DATA_CMD
  }

  predicate IsFinish(rec: seq<byte>)
    requires |rec| >= 7
  {
    rec[4] == FINISH_CMD
  }

  /** The sequence number the reader compares with: that of a DATA record, zero for any other. */
  function SeqOf(rec: seq<byte>): nat
    requires |rec| >= 7
  {
    if IsData(rec) then Le16(rec[5], rec[6]) else 0
  }

  function Flatten(recs: seq<seq<byte>>): seq<byte> {
    if recs == [] then [] else Flatten(recs[..|recs| - 1]) + recs[|recs| - 1]
  }

  /** A firmware image: records end to end, of which exactly the last one is FINISH. */
  predicate WellFormedImage(img: seq<byte>, recs: seq<seq<byte>>) {
    && |img| <= IMAGE_SIZE && img == Flatten(recs) && recs != []
    && (forall i :: 0 <= i < |recs| ==> WellFormedRecord(recs[i]))
    && (forall i :: 0 <= i < |recs| ==> (IsFinish(recs[i]) <==> i == |recs| - 1))
  }

  /** By the bytes: at most 524288 of them; each record has 7 to 1021, its length in bytes 1 and 2, low byte first, and its
      command in byte 4, which is 3 for the last record only. */
  lemma ImageIff(img: seq<byte>, recs: seq<seq<byte>>)
    ensures WellFormedImage(img, recs) <==>
      && recs != [] && img == Flatten(recs) && |img| <= 524288
      && forall i :: 0 <= i < |recs| ==>
           && 7 <= |recs[i]| <= 1021 && recs[i][1] as int + 256 * recs[i][2] as int == |recs[i]|
           && (recs[i][4] == 3 <==> i == |recs| - 1)
  {
    hide Flatten;
    if WellFormedImage(img, recs) {
      forall i | 0 <= i < |recs|
        ensures 7 <= |recs[i]| <= 1021 && recs[i][1] as int + 256 * recs[i][2] as int == |recs[i]| && (recs[i][4] == 3 <==> i == |recs| - 1)
      {
        assert WellFormedRecord(recs[i]);
      }
    }
  }

  /** The offset of record `k`. */
  function Offset(recs: seq<seq<byte>>, k: nat): nat
    requires k <= |recs|
  {
    |Flatten(recs[..k])|
  }

  lemma {:induction false} PrefixOfImage(recs: seq<seq<byte>>, k: nat)
    requires k <= |recs|
    ensures Offset(recs, k) <= |Flatten(recs)| && Flatten(recs)[..Offset(recs, k)] == Flatten(recs[..k])
    decreases |recs|
  {
    if k == |recs| {
      assert recs[..k] == recs;
    } else {
      var n := |recs| - 1;
      PrefixOfImage(recs[..n], k);
      assert recs[..n][..k] == recs[..k];
    }
  }

  lemma NextOffset(recs: seq<seq<byte>>, k: nat)
    requires k < |recs|
    ensures Offset(recs, k + 1) == Offset(recs, k) + |recs[k]|
    ensures Flatten(recs[..k + 1]) == Flatten(recs[..k]) + recs[k]
  {
    assert recs[..k + 1][..k] == recs[..k];
  }

  /** The image at the offset of record `k` holds that record. */
  lemma RecordInImage(recs: seq<seq<byte>>, k: nat)
    requires k < |recs|
    ensures Offset(recs, k) + |recs[k]| <= |Flatten(recs)|
    ensures Flatten(recs)[Offset(recs, k)..Offset(recs, k) + |recs[k]|] == recs[k]
  {
    PrefixOfImage(recs, k + 1);
    NextOffset(recs, k);
    var img, a, b := Flatten(recs), Offset(recs, k), Offset(recs, k + 1);
    assert img[..b][a..] == recs[k];
    assert img[a..b] == img[..b][a..];
  }

  lemma WholeOffset(recs: seq<seq<byte>>)
    ensures Offset(recs, |recs|) == |Flatten(recs)|
  {
    assert recs[..|recs|] == recs;
  }
}
