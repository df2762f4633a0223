/** The reply policy (`TxCmdBuff.generate_reply`): once the decoder holds a
    complete request, build the response frame in the reply buffer. The
    ids are copied, the route byte has its nibbles exchanged, and the
    request opcode selects the response opcode, length and payload from a
    fixed table. The wall clock is a pair of parameters: whole seconds and
    the microsecond remainder since the J2000 epoch. */
module Reply {
  import opened Taolst
  import opened Decoder

  /** Requests answered with a common nack. */
  const NACKED_REQUESTS: set<byte> := {
    APP_REBOOT_OPCODE, APP_SET_TIME_OPCODE, APP_TELEM_OPCODE,
    BOOTLOADER_ACK_OPCODE, BOOTLOADER_ERASE_OPCODE, BOOTLOADER_NACK_OPCODE,
    BOOTLOADER_PING_OPCODE, BOOTLOADER_WRITE_PAGE_OPCODE, BOOTLOADER_JUMP_OPCODE,
    COMMON_ASCII_OPCODE, COMMON_NACK_OPCODE }

  /** Request opcodes that the reply table has a row for. */
  predicate KnownRequest(op: byte)
  {
    op == APP_GET_TELEM_OPCODE || op == APP_GET_TIME_OPCODE || op in NACKED_REQUESTS || op == COMMON_ACK_OPCODE
  }

  /** What the clock reading must satisfy: microseconds below a second, and
      seconds that `to_bytes(4, 'little')` accepts whenever the time branch
      runs. */
  predicate ClockOk(req: seq<byte>, sec: int, micros: int)
    requires |req| == CMD_MAX_LEN
  {
    && 0 <= micros < 1_000_000
    && (req[OPCODE_INDEX] == APP_GET_TIME_OPCODE ==> 0 <= sec < 0x1_0000_0000)
  }

  /** The start bytes, the copied ids and the swapped route byte, written
      over the reply buffer's previous contents. */
  function ReplyHeader(prior: seq<byte>, req: seq<byte>): (h: seq<byte>)
    requires |prior| == CMD_MAX_LEN && |req| == CMD_MAX_LEN
    ensures |h| == CMD_MAX_LEN
  {
    prior
      [START_BYTE_0_INDEX := START_BYTE_0]
      [START_BYTE_1_INDEX := START_BYTE_1]
      [HWID_LSB_INDEX := req[HWID_LSB_INDEX]]
      [HWID_MSB_INDEX := req[HWID_MSB_INDEX]]
      [MSG_ID_LSB_INDEX := req[MSG_ID_LSB_INDEX]]
      [MSG_ID_MSB_INDEX := req[MSG_ID_MSB_INDEX]]
      [DEST_ID_INDEX := SwapNibbles(req[DEST_ID_INDEX])]
  }

  /** The reply buffer after `generate_reply` runs on request `req`. */
  function Reply(prior: seq<byte>, req: seq<byte>, sec: int, micros: int): (r: seq<byte>)
    requires |prior| == CMD_MAX_LEN && |req| == CMD_MAX_LEN && ClockOk(req, sec, micros)
    ensures |r| == CMD_MAX_LEN
  {
    var h := ReplyHeader(prior, req);
    var op := req[OPCODE_INDEX];
    if op == APP_GET_TELEM_OPCODE then
      Overwrite(h[MSG_LEN_INDEX := 0x54][OPCODE_INDEX := APP_TELEM_OPCODE], DATA_START_INDEX, Zeros(0x54 - 0x06))
    else if op == APP_GET_TIME_OPCODE then
      Overwrite(h[MSG_LEN_INDEX := 0x0e][OPCODE_INDEX := APP_SET_TIME_OPCODE],
                DATA_START_INDEX, Le32(sec) + Le32(micros * 1000))
    else if op in NACKED_REQUESTS then
      h[MSG_LEN_INDEX := 0x06][OPCODE_INDEX := COMMON_NACK_OPCODE]
    else if op == COMMON_ACK_OPCODE then
      h[MSG_LEN_INDEX := 0x06][OPCODE_INDEX := COMMON_ACK_OPCODE]
    else
      // no row: length and opcode keep whatever the buffer held
      h
  }

  // ---------------------------------------------------------------------
  // The header copy

  /** Every reply carries the start bytes and the request's ids, and sends
      it back the way it came: its source is the request's destination and
      its destination the request's source. */
  lemma ReplyHeaderCopied(prior: seq<byte>, req: seq<byte>, sec: int, micros: int)
    requires |prior| == CMD_MAX_LEN && |req| == CMD_MAX_LEN && ClockOk(req, sec, micros)
    ensures var r := Reply(prior, req, sec, micros);
      && r[START_BYTE_0_INDEX] == START_BYTE_0
      && r[START_BYTE_1_INDEX] == START_BYTE_1
      && r[HWID_LSB_INDEX..MSG_ID_MSB_INDEX + 1] == req[HWID_LSB_INDEX..MSG_ID_MSB_INDEX + 1]
      && Describe(r).hwId == Describe(req).hwId
      && Describe(r).msgId == Describe(req).msgId
      && Describe(r).src == Describe(req).dst
      && Describe(r).dst == Describe(req).src
  {
    var r := Reply(prior, req, sec, micros);
    assert r[HWID_LSB_INDEX..MSG_ID_MSB_INDEX + 1] == req[HWID_LSB_INDEX..MSG_ID_MSB_INDEX + 1];
  }

  /** A request from comm (1) to ctrl (10) is answered from ctrl to comm. */
  lemma ReplyRouteExample(prior: seq<byte>, req: seq<byte>, sec: int, micros: int)
    requires |prior| == CMD_MAX_LEN && |req| == CMD_MAX_LEN && ClockOk(req, sec, micros)
    requires req[DEST_ID_INDEX] == 0x1a
    ensures Reply(prior, req, sec, micros)[DEST_ID_INDEX] == 0xa1
  {
  }

  // ---------------------------------------------------------------------
  // The opcode table, row by row

  /** get-telemetry is answered with a telemetry frame of 78 zero bytes. */
  lemma ReplyToGetTelemetry(prior: seq<byte>, req: seq<byte>, sec: int, micros: int)
    requires |prior| == CMD_MAX_LEN && |req| == CMD_MAX_LEN && ClockOk(req, sec, micros)
    requires req[OPCODE_INDEX] == APP_GET_TELEM_OPCODE
    ensures var r := Reply(prior, req, sec, micros);
      && r[OPCODE_INDEX] == APP_TELEM_OPCODE
      && r[MSG_LEN_INDEX] == 0x54
      && Describe(r).detail == Telemetry(Zeros(78))
  {
    var r := Reply(prior, req, sec, micros);
    assert r[DATA_START_INDEX..DATA_START_INDEX + 78] == Zeros(78);
  }

  /** get-time is answered with a set-time frame whose payload decodes to
      the clock's seconds and nanoseconds, the latter below 10^9. */
  lemma ReplyToGetTime(prior: seq<byte>, req: seq<byte>, sec: int, micros: int)
    requires |prior| == CMD_MAX_LEN && |req| == CMD_MAX_LEN && ClockOk(req, sec, micros)
    requires req[OPCODE_INDEX] == APP_GET_TIME_OPCODE
    ensures var r := Reply(prior, req, sec, micros);
      && r[OPCODE_INDEX] == APP_SET_TIME_OPCODE
      && r[MSG_LEN_INDEX] == 0x0e
      && Describe(r).detail == SetTime(sec, micros * 1000)
      && micros * 1000 < 1_000_000_000
  {
    var h := ReplyHeader(prior, req)[MSG_LEN_INDEX := 0x0e][OPCODE_INDEX := APP_SET_TIME_OPCODE];
    var payload := Le32(sec) + Le32(micros * 1000);
    var r := Overwrite(h, DATA_START_INDEX, payload);
    assert r == Reply(prior, req, sec, micros);
    assert r[DATA_START_INDEX..DATA_START_INDEX + 4] == payload[..4] == Le32(sec);
    assert r[DATA_START_INDEX + 4..DATA_START_INDEX + 8] == payload[4..] == Le32(micros * 1000);
    Field32At(r, DATA_START_INDEX, sec);
    Field32At(r, DATA_START_INDEX + 4, micros * 1000);
    assert micros * 1000 < 1_000_000_000;
    assert r[OPCODE_INDEX] == APP_SET_TIME_OPCODE;
    assert DescribeDetail(r) == SetTime(sec, micros * 1000);
  }

  /** Every request in the nack group is answered with an empty common nack. */
  lemma ReplyNacks(prior: seq<byte>, req: seq<byte>, sec: int, micros: int)
    requires |prior| == CMD_MAX_LEN && |req| == CMD_MAX_LEN && ClockOk(req, sec, micros)
    requires req[OPCODE_INDEX] in NACKED_REQUESTS
    ensures var r := Reply(prior, req, sec, micros);
      && r[OPCODE_INDEX] == COMMON_NACK_OPCODE
      && r[MSG_LEN_INDEX] == 0x06
      && ByteCount(r) == 9
      && r[DATA_START_INDEX..] == prior[DATA_START_INDEX..]
  {
  }

  /** A common ack is echoed as an empty common ack. */
  lemma ReplyAcks(prior: seq<byte>, req: seq<byte>, sec: int, micros: int)
    requires |prior| == CMD_MAX_LEN && |req| == CMD_MAX_LEN && ClockOk(req, sec, micros)
    requires req[OPCODE_INDEX] == COMMON_ACK_OPCODE
    ensures var r := Reply(prior, req, sec, micros);
      && r[OPCODE_INDEX] == COMMON_ACK_OPCODE
      && r[MSG_LEN_INDEX] == 0x06
      && ByteCount(r) == 9
  {
  }

  /** An opcode without a row leaves the length, the opcode and the payload
      as the reply buffer held them. */
  lemma ReplyToUnknown(prior: seq<byte>, req: seq<byte>, sec: int, micros: int)
    requires |prior| == CMD_MAX_LEN && |req| == CMD_MAX_LEN && ClockOk(req, sec, micros)
    requires !KnownRequest(req[OPCODE_INDEX])
    ensures var r := Reply(prior, req, sec, micros);
      && r[MSG_LEN_INDEX] == prior[MSG_LEN_INDEX]
      && r[OPCODE_INDEX] == prior[OPCODE_INDEX]
      && r[DATA_START_INDEX..] == prior[DATA_START_INDEX..]
  {
  }

  /** On a cleared reply buffer, an opcode without a row gives a length byte
      of 0: three bytes `22 69 00` are sent, which no decoder accepts. */
  lemma ReplyToUnknownAfterClear(req: seq<byte>, sec: int, micros: int)
    requires |req| == CMD_MAX_LEN && ClockOk(req, sec, micros)
    requires !KnownRequest(req[OPCODE_INDEX])
    ensures var r := Reply(Zeros(CMD_MAX_LEN), req, sec, micros);
      && ByteCount(r) == 3
      && !Framed(r)
      && FeedAll(Cleared(), r[..ByteCount(r)]) == Cleared()
  {
    var r := Reply(Zeros(CMD_MAX_LEN), req, sec, micros);
    assert r[..3] == [START_BYTE_0, START_BYTE_1, 0];
    ShortLengthRejected(0);
  }

  /** Every opcode with a row gives a well-formed frame, which a cleared
      decoder receives whole. */
  lemma KnownReplyDecodes(prior: seq<byte>, req: seq<byte>, sec: int, micros: int)
    requires |prior| == CMD_MAX_LEN && |req| == CMD_MAX_LEN && ClockOk(req, sec, micros)
    requires KnownRequest(req[OPCODE_INDEX])
    ensures var r := Reply(prior, req, sec, micros);
      && Framed(r)
      && FeedAll(Cleared(), r[..ByteCount(r)]).state == Complete
      && FeedAll(Cleared(), r[..ByteCount(r)]).data[..ByteCount(r)] == r[..ByteCount(r)]
  {
    var r := Reply(prior, req, sec, micros);
    assert Framed(r);
    DecodeFrame(r);
  }

  // ---------------------------------------------------------------------
  // The reply buffer object

  class TxCmdBuff {
    var empty: bool
    var startIndex: int
    var endIndex: int
    var data: array<byte>

    ghost predicate Valid()
      reads this
    {
      data.Length == CMD_MAX_LEN
    }

    constructor ()
      ensures Valid() && fresh(data)
      ensures empty && startIndex == 0 && endIndex == 0
      ensures data[..] == Zeros(CMD_MAX_LEN)
    {
      empty := true;
      startIndex := 0;
      endIndex := 0;
      data := new byte[CMD_MAX_LEN](_ => 0);
      new;
      assert data[..] == Zeros(CMD_MAX_LEN);
    }

    method Clear()
      modifies this
      ensures Valid() && fresh(data)
      ensures empty && startIndex == 0 && endIndex == 0
      ensures data[..] == Zeros(CMD_MAX_LEN)
    {
      empty := true;
      startIndex := 0;
      endIndex := 0;
      data := new byte[CMD_MAX_LEN](_ => 0);
      assert data[..] == Zeros(CMD_MAX_LEN);
    }

    /** Nothing happens unless the decoder is COMPLETE and the buffer empty;
        `empty` itself is never changed here. */
    method GenerateReply(rx: RxCmdBuff, sec: int, micros: int)
      requires Valid() && rx.Valid() && rx.data != data
      requires 0 <= micros < 1_000_000
      requires rx.state == Complete && empty && rx.data[OPCODE_INDEX] == APP_GET_TIME_OPCODE ==>
        0 <= sec < 0x1_0000_0000
      modifies data
      ensures rx.state == Complete && empty ==>
        data[..] == Reply(old(data[..]), rx.data[..], sec, micros)
      ensures !(rx.state == Complete && empty) ==> data[..] == old(data[..])
    {
      if rx.state == Complete && empty {
        WriteHeader(rx);
        var op := rx.data[OPCODE_INDEX];
        if op == APP_GET_TELEM_OPCODE {
          data[MSG_LEN_INDEX] := 0x54;
          data[OPCODE_INDEX] := APP_TELEM_OPCODE;
          ZeroPayload();
        } else if op == APP_GET_TIME_OPCODE {
          data[MSG_LEN_INDEX] := 0x0e;
          data[OPCODE_INDEX] := APP_SET_TIME_OPCODE;
          WriteTime(sec, micros);
        } else if op in NACKED_REQUESTS {
          // reboot, set-time, telemetry, bootloader ack, erase, nack, ping,
          // write-page, jump, common ascii and common nack
          data[MSG_LEN_INDEX] := 0x06;
          data[OPCODE_INDEX] := COMMON_NACK_OPCODE;
        } else if op == COMMON_ACK_OPCODE {
          data[MSG_LEN_INDEX] := 0x06;
          data[OPCODE_INDEX] := COMMON_ACK_OPCODE;
        }
      }
    }

    /** The start bytes, the request's ids and its swapped route byte. */
    method WriteHeader(rx: RxCmdBuff)
      requires Valid() && rx.Valid() && rx.data != data
      modifies data
      ensures data[..] == ReplyHeader(old(data[..]), rx.data[..])
    {
      data[START_BYTE_0_INDEX] := START_BYTE_0;
      data[START_BYTE_1_INDEX] := START_BYTE_1;
      data[HWID_LSB_INDEX] := rx.data[HWID_LSB_INDEX];
      data[HWID_MSB_INDEX] := rx.data[HWID_MSB_INDEX];
      data[MSG_ID_LSB_INDEX] := rx.data[MSG_ID_LSB_INDEX];
      data[MSG_ID_MSB_INDEX] := rx.data[MSG_ID_MSB_INDEX];
      data[DEST_ID_INDEX] := SwapNibbles(rx.data[DEST_ID_INDEX]);
    }

    /** The telemetry row's loop over `data[MSG_LEN_INDEX] - 0x06` payload bytes. */
    method ZeroPayload()
      requires Valid() && data[MSG_LEN_INDEX] == 0x54
      modifies data
      ensures data[..] == Overwrite(old(data[..]), DATA_START_INDEX, Zeros(0x54 - 0x06))
    {
      ghost var t := data[..];
      for i := 0 to data[MSG_LEN_INDEX] as int - 0x06
        invariant forall k :: 0 <= k < CMD_MAX_LEN ==>
          data[k] == if DATA_START_INDEX <= k < DATA_START_INDEX + i then 0 else t[k]
      {
        data[DATA_START_INDEX + i] := 0x00;
      }
    }

    /** The get-time row's payload: seconds, then nanoseconds, each as four
        little-endian bytes. */
    method WriteTime(sec: int, micros: int)
      requires Valid()
      modifies data
      ensures data[..] == Overwrite(old(data[..]), DATA_START_INDEX, Le32(sec) + Le32(micros * 1000))
    {
      var secBytes := Le32(sec);
      var nsBytes := Le32(micros * 1000);
      ghost var payload := secBytes + nsBytes;
      data[DATA_START_INDEX + 0] := secBytes[0];
      data[DATA_START_INDEX + 1] := secBytes[1];
      data[DATA_START_INDEX + 2] := secBytes[2];
      data[DATA_START_INDEX + 3] := secBytes[3];
      data[DATA_START_INDEX + 4] := nsBytes[0];
      data[DATA_START_INDEX + 5] := nsBytes[1];
      data[DATA_START_INDEX + 6] := nsBytes[2];
      data[DATA_START_INDEX + 7] := nsBytes[3];
      assert forall k :: 0 <= k < CMD_MAX_LEN ==>
        data[k] == if DATA_START_INDEX <= k < DATA_START_INDEX + 8 then payload[k - DATA_START_INDEX] else old(data[k]);
    }

    /** `get_byte_count()` */
    function GetByteCount(): (n: int)
      reads this, data
      requires Valid()
      ensures Framed(data[..]) ==> 9 <= n <= CMD_MAX_LEN
    {
      ByteCount(data[..])
    }
  }
}
