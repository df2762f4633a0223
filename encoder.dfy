/** The frame encoder (`TxCmd`): the constructor writes the header and an
    opcode-dependent default length and payload; seven setters write
    payload fields, each only when the frame's opcode (and, for two of
    them, the argument's size) matches, and leave the buffer untouched
    otherwise.

    `Created` and the `With...` functions give the buffer each operation
    produces; the class `TxCmd` performs the same writes in place. */
module Encoder {
  import opened Taolst

  /** The length byte the constructor writes for each opcode. */
  function DefaultLength(opcode: byte): (len: byte)
    ensures 6 <= len <= 0x54
    ensures opcode == APP_SET_TIME_OPCODE ==> len == 0x0e
    ensures opcode == APP_TELEM_OPCODE ==> len == 0x54
    ensures opcode == BOOTLOADER_WRITE_PAGE_OPCODE ==> len == 0x07
    ensures len != 6 <==>
      opcode == APP_SET_TIME_OPCODE || opcode == APP_TELEM_OPCODE || opcode == BOOTLOADER_WRITE_PAGE_OPCODE
  {
    if opcode == APP_SET_TIME_OPCODE then 0x0e
    else if opcode == APP_TELEM_OPCODE then 0x54
    else if opcode == BOOTLOADER_WRITE_PAGE_OPCODE then 0x07
    // every other opcode, known or not
    else 0x06
  }

  /** The buffer `TxCmd(opcode, hw_id, msg_id, src, dst)` builds: the header
      over a zero buffer; the payload bytes that the constructor writes
      explicitly (set-time, telemetry, write-page) are written as zeros. */
  function Created(opcode: byte, hwId: int, msgId: int, src: int, dst: int): (d: seq<byte>)
    requires 0 <= src < 16 && 0 <= dst < 16
    ensures |d| == CMD_MAX_LEN
  {
    [START_BYTE_0, START_BYTE_1, DefaultLength(opcode),
     Le16(hwId)[0], Le16(hwId)[1], Le16(msgId)[0], Le16(msgId)[1],
     Route(src, dst), opcode]
    + Zeros(CMD_MAX_LEN - DATA_START_INDEX)
  }

  /** The constructor's frame decodes back to its arguments: the start
      bytes, the ids modulo 2^16, both roles and the opcode, with the
      default length and a zero payload. */
  lemma CreatedDecodes(opcode: byte, hwId: int, msgId: int, src: int, dst: int)
    requires 0 <= src < 16 && 0 <= dst < 16
    ensures var d := Created(opcode, hwId, msgId, src, dst);
      && Framed(d)
      && d[MSG_LEN_INDEX] == DefaultLength(opcode)
      && 9 <= ByteCount(d) <= CMD_MAX_LEN
      && Describe(d).opcode == opcode
      && Describe(d).hwId == hwId % 0x1_0000
      && Describe(d).msgId == msgId % 0x1_0000
      && Describe(d).src == src
      && Describe(d).dst == dst
      && (forall i :: DATA_START_INDEX <= i < CMD_MAX_LEN ==> d[i] == 0)
  {
    var d := Created(opcode, hwId, msgId, src, dst);
    assert d[HWID_LSB_INDEX..HWID_MSB_INDEX + 1] == Le16(hwId);
    assert d[MSG_ID_LSB_INDEX..MSG_ID_MSB_INDEX + 1] == Le16(msgId);
  }

  /** Writing the default length into a finished header gives `Created`. */
  lemma HeaderThenLength(header: seq<byte>, opcode: byte, hwId: int, msgId: int, src: int, dst: int)
    requires 0 <= src < 16 && 0 <= dst < 16 && |header| == CMD_MAX_LEN
    requires header[..DATA_START_INDEX] == [START_BYTE_0, START_BYTE_1, 0,
      Le16(hwId)[0], Le16(hwId)[1], Le16(msgId)[0], Le16(msgId)[1], Route(src, dst), opcode]
    requires header[DATA_START_INDEX..] == Zeros(CMD_MAX_LEN - DATA_START_INDEX)
    ensures header[MSG_LEN_INDEX := DefaultLength(opcode)] == Created(opcode, hwId, msgId, src, dst)
    ensures forall i :: DATA_START_INDEX <= i < CMD_MAX_LEN ==> header[i] == 0
  {
    assert header == header[..DATA_START_INDEX] + header[DATA_START_INDEX..];
    assert forall i :: DATA_START_INDEX <= i < CMD_MAX_LEN ==> header[i] == header[DATA_START_INDEX..][i - DATA_START_INDEX];
  }

  // ---------------------------------------------------------------------
  // The setters, as functions of the buffer

  /** `app_reboot(delay)` */
  function WithRebootDelay(d: seq<byte>, delay: int): (r: seq<byte>)
    requires |d| == CMD_MAX_LEN
    ensures |r| == CMD_MAX_LEN
    ensures d[OPCODE_INDEX] != APP_REBOOT_OPCODE ==> r == d
    ensures d[OPCODE_INDEX] == APP_REBOOT_OPCODE ==>
      && r[MSG_LEN_INDEX] == 0x0a
      && Field32(r, DATA_START_INDEX) == delay % 0x1_0000_0000
      && forall i :: (0 <= i < CMD_MAX_LEN && i != MSG_LEN_INDEX && !(DATA_START_INDEX <= i < DATA_START_INDEX + 4)) ==> r[i] == d[i]
    ensures Framed(d) ==> Framed(r)
  {
    if d[OPCODE_INDEX] == APP_REBOOT_OPCODE then
      var r := Overwrite(d[MSG_LEN_INDEX := 0x0a], DATA_START_INDEX, Le32(delay));
      assert r[DATA_START_INDEX..DATA_START_INDEX + 4] == Le32(delay);
      r
    else d
  }

  /** `app_set_time(sec, ns)`: the length byte is left as it is. */
  function WithTime(d: seq<byte>, sec: int, ns: int): (r: seq<byte>)
    requires |d| == CMD_MAX_LEN
    ensures |r| == CMD_MAX_LEN
    ensures d[OPCODE_INDEX] != APP_SET_TIME_OPCODE ==> r == d
    ensures d[OPCODE_INDEX] == APP_SET_TIME_OPCODE ==>
      && Field32(r, DATA_START_INDEX) == sec % 0x1_0000_0000
      && Field32(r, DATA_START_INDEX + 4) == ns % 0x1_0000_0000
      && forall i :: 0 <= i < CMD_MAX_LEN && !(DATA_START_INDEX <= i < DATA_START_INDEX + 8) ==> r[i] == d[i]
    ensures Framed(d) ==> Framed(r)
  {
    if d[OPCODE_INDEX] == APP_SET_TIME_OPCODE then
      var r := Overwrite(d, DATA_START_INDEX, Le32(sec) + Le32(ns));
      assert r[DATA_START_INDEX..DATA_START_INDEX + 4] == Le32(sec);
      assert r[DATA_START_INDEX + 4..DATA_START_INDEX + 8] == Le32(ns);
      r
    else d
  }

  /** `app_telem(telem)`: only for exactly 78 telemetry bytes. */
  function WithTelemetry(d: seq<byte>, telem: seq<byte>): (r: seq<byte>)
    requires |d| == CMD_MAX_LEN
    ensures |r| == CMD_MAX_LEN
    ensures !(d[OPCODE_INDEX] == APP_TELEM_OPCODE && |telem| == 78) ==> r == d
    ensures d[OPCODE_INDEX] == APP_TELEM_OPCODE && |telem| == 78 ==>
      && r[DATA_START_INDEX..DATA_START_INDEX + 78] == telem
      && forall i :: 0 <= i < CMD_MAX_LEN && !(DATA_START_INDEX <= i < DATA_START_INDEX + 78) ==> r[i] == d[i]
    ensures Framed(d) ==> Framed(r)
  {
    if d[OPCODE_INDEX] == APP_TELEM_OPCODE && |telem| == 78 then
      Overwrite(d, DATA_START_INDEX, telem)
    else d
  }

  /** `bootloader_ack(reason)` */
  function WithAckReason(d: seq<byte>, reason: byte): (r: seq<byte>)
    requires |d| == CMD_MAX_LEN
    ensures |r| == CMD_MAX_LEN
    ensures d[OPCODE_INDEX] != BOOTLOADER_ACK_OPCODE ==> r == d
    ensures d[OPCODE_INDEX] == BOOTLOADER_ACK_OPCODE ==>
      && r[MSG_LEN_INDEX] == 7 && r[DATA_START_INDEX] == reason
      && forall i :: 0 <= i < CMD_MAX_LEN && i != MSG_LEN_INDEX && i != DATA_START_INDEX ==> r[i] == d[i]
    ensures Framed(d) ==> Framed(r)
  {
    if d[OPCODE_INDEX] == BOOTLOADER_ACK_OPCODE then
      d[MSG_LEN_INDEX := 0x07][DATA_START_INDEX := reason]
    else d
  }

  /** `bootloader_erase(status)` */
  function WithEraseStatus(d: seq<byte>, status: byte): (r: seq<byte>)
    requires |d| == CMD_MAX_LEN
    ensures |r| == CMD_MAX_LEN
    ensures d[OPCODE_INDEX] != BOOTLOADER_ERASE_OPCODE ==> r == d
    ensures d[OPCODE_INDEX] == BOOTLOADER_ERASE_OPCODE ==>
      && r[MSG_LEN_INDEX] == 7 && r[DATA_START_INDEX] == status
      && forall i :: 0 <= i < CMD_MAX_LEN && i != MSG_LEN_INDEX && i != DATA_START_INDEX ==> r[i] == d[i]
    ensures Framed(d) ==> Framed(r)
  {
    if d[OPCODE_INDEX] == BOOTLOADER_ERASE_OPCODE then
      d[MSG_LEN_INDEX := 0x07][DATA_START_INDEX := status]
    else d
  }

  /** `bootloader_write_page(page_number, page_data)`: the page number is
      always written; the page itself only when it has exactly 128 bytes. */
  function WithWritePage(d: seq<byte>, pageNumber: byte, pageData: seq<byte>): (r: seq<byte>)
    requires |d| == CMD_MAX_LEN
    ensures |r| == CMD_MAX_LEN
    ensures d[OPCODE_INDEX] != BOOTLOADER_WRITE_PAGE_OPCODE ==> r == d
    ensures d[OPCODE_INDEX] == BOOTLOADER_WRITE_PAGE_OPCODE ==>
      && r[DATA_START_INDEX] == pageNumber
      && (|pageData| == 128 ==>
            && r[MSG_LEN_INDEX] == 0x87
            && r[DATA_START_INDEX + 1..DATA_START_INDEX + 129] == pageData
            && forall i :: (0 <= i < CMD_MAX_LEN && i != MSG_LEN_INDEX && !(DATA_START_INDEX <= i < DATA_START_INDEX + 129)) ==> r[i] == d[i])
      && (|pageData| != 128 ==> r == d[DATA_START_INDEX := pageNumber])
    ensures Framed(d) ==> Framed(r)
  {
    if d[OPCODE_INDEX] == BOOTLOADER_WRITE_PAGE_OPCODE then
      var withNumber := d[DATA_START_INDEX := pageNumber];
      if |pageData| == 128 then
        Overwrite(withNumber[MSG_LEN_INDEX := 0x87], DATA_START_INDEX + 1, pageData)
      else withNumber
    else d
  }

  /** Text whose every character has a code that fits a byte, as `ord(c)`
      must for the buffer to hold bytes. */
  predicate ByteText(text: string)
  {
    forall i :: 0 <= i < |text| ==> text[i] as int < 256
  }

  /** `[ord(c) for c in text]` */
  function Codes(text: string): (codes: seq<byte>)
    requires ByteText(text)
    ensures |codes| == |text|
  {
    seq(|text|, i requires 0 <= i < |text| => text[i] as int as byte)
  }

  /** `common_ascii(ascii)`: only for at most 249 characters. */
  function WithAscii(d: seq<byte>, text: string): (r: seq<byte>)
    requires |d| == CMD_MAX_LEN && ByteText(text)
    ensures |r| == CMD_MAX_LEN
    ensures !(d[OPCODE_INDEX] == COMMON_ASCII_OPCODE && |text| <= DATA_MAX_LEN) ==> r == d
    ensures d[OPCODE_INDEX] == COMMON_ASCII_OPCODE && |text| <= DATA_MAX_LEN ==>
      && r[MSG_LEN_INDEX] as int == 6 + |text|
      && r[DATA_START_INDEX..DATA_START_INDEX + |text|] == Codes(text)
      && forall i :: (0 <= i < CMD_MAX_LEN && i != MSG_LEN_INDEX && !(DATA_START_INDEX <= i < DATA_START_INDEX + |text|)) ==> r[i] == d[i]
    ensures Framed(d) ==> Framed(r)
  {
    if d[OPCODE_INDEX] == COMMON_ASCII_OPCODE && |text| <= DATA_MAX_LEN then
      Overwrite(d[MSG_LEN_INDEX := (6 + |text|) as byte], DATA_START_INDEX, Codes(text))
    else d
  }

  // ---------------------------------------------------------------------
  // What the renderer reads back from a set field

  lemma RebootDelayDescribed(d: seq<byte>, delay: int)
    requires |d| == CMD_MAX_LEN && d[OPCODE_INDEX] == APP_REBOOT_OPCODE
    ensures Describe(WithRebootDelay(d, delay)).detail == RebootDelay(delay % 0x1_0000_0000)
  {
  }

  lemma TimeDescribed(d: seq<byte>, sec: int, ns: int)
    requires |d| == CMD_MAX_LEN && d[OPCODE_INDEX] == APP_SET_TIME_OPCODE
    ensures Describe(WithTime(d, sec, ns)).detail == SetTime(sec % 0x1_0000_0000, ns % 0x1_0000_0000)
  {
  }

  lemma TelemetryDescribed(d: seq<byte>, telem: seq<byte>)
    requires |d| == CMD_MAX_LEN && d[OPCODE_INDEX] == APP_TELEM_OPCODE && d[MSG_LEN_INDEX] == 0x54
    requires |telem| == 78
    ensures Describe(WithTelemetry(d, telem)).detail == Telemetry(telem)
  {
  }

  lemma AckReasonDescribed(d: seq<byte>, reason: byte)
    requires |d| == CMD_MAX_LEN && d[OPCODE_INDEX] == BOOTLOADER_ACK_OPCODE
    ensures Describe(WithAckReason(d, reason)).detail == AckReason(reason)
  {
  }

  lemma EraseStatusDescribed(d: seq<byte>, status: byte)
    requires |d| == CMD_MAX_LEN && d[OPCODE_INDEX] == BOOTLOADER_ERASE_OPCODE
    ensures Describe(WithEraseStatus(d, status)).detail == EraseStatus(status)
  {
  }

  lemma WritePageDescribed(d: seq<byte>, pageNumber: byte, pageData: seq<byte>)
    requires |d| == CMD_MAX_LEN && d[OPCODE_INDEX] == BOOTLOADER_WRITE_PAGE_OPCODE
    ensures var detail := Describe(WithWritePage(d, pageNumber, pageData)).detail;
      && detail.WritePage?
      && detail.subpage == pageNumber
      && (|pageData| == 128 ==> detail.page == pageData)
      && (|pageData| != 128 && d[MSG_LEN_INDEX] != 0x87 ==> detail.page == [])
  {
  }

  /** Encoding and rendering an ascii text gives back the same text. */
  lemma AsciiDescribed(d: seq<byte>, text: string)
    requires |d| == CMD_MAX_LEN && d[OPCODE_INDEX] == COMMON_ASCII_OPCODE
    requires ByteText(text) && |text| <= DATA_MAX_LEN
    ensures Describe(WithAscii(d, text)).detail == Ascii(text)
  {
    var r := WithAscii(d, text);
    var codes := PayloadBytes(r, 0);
    assert codes == Codes(text);
    var back := seq(|codes|, i requires 0 <= i < |codes| => codes[i] as int as char);
    assert back == text;
  }

  /** The text "abc" gives length 9 and its three character codes. */
  lemma AsciiAbc(d: seq<byte>)
    requires |d| == CMD_MAX_LEN && d[OPCODE_INDEX] == COMMON_ASCII_OPCODE
    ensures var r := WithAscii(d, "abc");
      r[MSG_LEN_INDEX] == 9 && r[9] == 0x61 && r[10] == 0x62 && r[11] == 0x63
  {
    var r := WithAscii(d, "abc");
    assert r[DATA_START_INDEX..DATA_START_INDEX + 3] == Codes("abc");
  }

  // ---------------------------------------------------------------------
  // Any sequence of setter calls

  datatype SetterCall =
    | AppReboot(delay: int)
    | AppSetTime(sec: int, ns: int)
    | AppTelem(telem: seq<byte>)
    | BootloaderAck(reason: byte)
    | BootloaderErase(status: byte)
    | BootloaderWritePage(pageNumber: byte, pageData: seq<byte>)
    | CommonAscii(text: string)

  predicate CallOk(c: SetterCall)
  {
    c.CommonAscii? ==> ByteText(c.text)
  }

  function Apply(d: seq<byte>, c: SetterCall): (r: seq<byte>)
    requires |d| == CMD_MAX_LEN && CallOk(c)
    ensures |r| == CMD_MAX_LEN
    ensures Framed(d) ==> Framed(r)
  {
    match c
    case AppReboot(delay) => WithRebootDelay(d, delay)
    case AppSetTime(sec, ns) => WithTime(d, sec, ns)
    case AppTelem(telem) => WithTelemetry(d, telem)
    case BootloaderAck(reason) => WithAckReason(d, reason)
    case BootloaderErase(status) => WithEraseStatus(d, status)
    case BootloaderWritePage(n, page) => WithWritePage(d, n, page)
    case CommonAscii(text) => WithAscii(d, text)
  }

  /** The buffer after the setter calls `cs`, in order. No setter changes
      the start bytes, the ids, the route byte or the opcode, and every one
      keeps a frame a frame. */
  function ApplyAll(d: seq<byte>, cs: seq<SetterCall>): (r: seq<byte>)
    requires |d| == CMD_MAX_LEN && forall i :: 0 <= i < |cs| ==> CallOk(cs[i])
    ensures |r| == CMD_MAX_LEN
    ensures Framed(d) ==> Framed(r)
    ensures forall i :: 0 <= i < DATA_START_INDEX && i != MSG_LEN_INDEX ==> r[i] == d[i]
    decreases |cs|
  {
    if cs == [] then d else ApplyAll(Apply(d, cs[0]), cs[1..])
  }

  // ---------------------------------------------------------------------
  // The encoder object

  class TxCmd {
    var data: array<byte>

    ghost predicate Valid()
      reads this
    {
      data.Length == CMD_MAX_LEN
    }

    constructor (opcode: byte, hwId: int, msgId: int, src: int, dst: int)
      requires 0 <= src < 16 && 0 <= dst < 16
      ensures Valid() && fresh(data)
      ensures data[..] == Created(opcode, hwId, msgId, src, dst)
    {
      var buf := new byte[CMD_MAX_LEN](_ => 0);
      data := buf;
      new;
      assert data[..] == Zeros(CMD_MAX_LEN);
      WriteHeader(Le16(hwId), Le16(msgId), Route(src, dst), opcode);
      ghost var header := data[..];
      HeaderThenLength(header, opcode, hwId, msgId, src, dst);
      WriteDefaultLength(opcode);
    }

    /** The constructor's first half: start bytes, ids, route byte and
        opcode over a zeroed buffer, the length still zero. */
    method WriteHeader(hw: seq<byte>, id: seq<byte>, route: byte, opcode: byte)
      requires Valid() && |hw| == 2 && |id| == 2
      requires data[..] == Zeros(CMD_MAX_LEN)
      modifies data
      ensures data[..][..DATA_START_INDEX] == [START_BYTE_0, START_BYTE_1, 0,
        hw[0], hw[1], id[0], id[1], route, opcode]
      ensures data[..][DATA_START_INDEX..] == Zeros(CMD_MAX_LEN - DATA_START_INDEX)
    {
      data[START_BYTE_0_INDEX] := START_BYTE_0;
      data[START_BYTE_1_INDEX] := START_BYTE_1;
      data[HWID_LSB_INDEX] := hw[0];
      data[HWID_MSB_INDEX] := hw[1];
      data[MSG_ID_LSB_INDEX] := id[0];
      data[MSG_ID_MSB_INDEX] := id[1];
      data[DEST_ID_INDEX] := route;
      data[OPCODE_INDEX] := opcode;
      assert forall i :: DATA_START_INDEX <= i < CMD_MAX_LEN ==> data[i] == 0;
    }

    /** The constructor's second half: the opcode's default length, with
        the payload bytes it covers written as zeros. */
    method WriteDefaultLength(opcode: byte)
      requires Valid() && data[OPCODE_INDEX] == opcode
      requires forall i :: DATA_START_INDEX <= i < CMD_MAX_LEN ==> data[i] == 0
      modifies data
      ensures data[..] == old(data[..])[MSG_LEN_INDEX := DefaultLength(opcode)]
    {
      ghost var header := data[..];
      if opcode == APP_SET_TIME_OPCODE {
        data[MSG_LEN_INDEX] := 0x0e;
        data[DATA_START_INDEX + 0] := 0x00;
        data[DATA_START_INDEX + 1] := 0x00;
        data[DATA_START_INDEX + 2] := 0x00;
        data[DATA_START_INDEX + 3] := 0x00;
        data[DATA_START_INDEX + 4] := 0x00;
        data[DATA_START_INDEX + 5] := 0x00;
        data[DATA_START_INDEX + 6] := 0x00;
        data[DATA_START_INDEX + 7] := 0x00;
        assert data[..] == header[MSG_LEN_INDEX := 0x0e];
      } else if opcode == APP_TELEM_OPCODE {
        data[MSG_LEN_INDEX] := 0x54;
        for i := 0 to 0x54 - 0x06
          modifies data
          invariant data[..] == header[MSG_LEN_INDEX := 0x54]
        {
          data[DATA_START_INDEX + i] := 0x00;
        }
      } else if opcode == BOOTLOADER_WRITE_PAGE_OPCODE {
        data[MSG_LEN_INDEX] := 0x07;
        data[DATA_START_INDEX] := 0x00;
        assert data[..] == header[MSG_LEN_INDEX := 0x07];
      } else {
        // get-telem, get-time, reboot, ack, erase, jump, nack, ping,
        // common ack, common ascii, common nack and unknown opcodes
        data[MSG_LEN_INDEX] := 0x06;
      }
    }

    method AppReboot(delay: int)
      requires Valid()
      modifies data
      ensures data[..] == WithRebootDelay(old(data[..]), delay)
    {
      if data[OPCODE_INDEX] == APP_REBOOT_OPCODE {
        data[MSG_LEN_INDEX] := 0x0a;
        var b0 := (delay % 0x100) as byte;             // LSB
        var b1 := ((delay / 0x100) % 0x100) as byte;
        var b2 := ((delay / 0x1_0000) % 0x100) as byte;
        var b3 := ((delay / 0x100_0000) % 0x100) as byte; // MSB
        data[DATA_START_INDEX + 0] := b0;
        data[DATA_START_INDEX + 1] := b1;
        data[DATA_START_INDEX + 2] := b2;
        data[DATA_START_INDEX + 3] := b3;
      }
    }

    method AppSetTime(sec: int, ns: int)
      requires Valid()
      modifies data
      ensures data[..] == WithTime(old(data[..]), sec, ns)
    {
      if data[OPCODE_INDEX] == APP_SET_TIME_OPCODE {
        var s0 := (sec % 0x100) as byte;               // LSB
        var s1 := ((sec / 0x100) % 0x100) as byte;
        var s2 := ((sec / 0x1_0000) % 0x100) as byte;
        var s3 := ((sec / 0x100_0000) % 0x100) as byte;  // MSB
        var n0 := (ns % 0x100) as byte;                // LSB
        var n1 := ((ns / 0x100) % 0x100) as byte;
        var n2 := ((ns / 0x1_0000) % 0x100) as byte;
        var n3 := ((ns / 0x100_0000) % 0x100) as byte;   // MSB
        data[DATA_START_INDEX + 0] := s0;
        data[DATA_START_INDEX + 1] := s1;
        data[DATA_START_INDEX + 2] := s2;
        data[DATA_START_INDEX + 3] := s3;
        data[DATA_START_INDEX + 4] := n0;
        data[DATA_START_INDEX + 5] := n1;
        data[DATA_START_INDEX + 6] := n2;
        data[DATA_START_INDEX + 7] := n3;
      }
    }

    method AppTelem(telem: seq<byte>)
      requires Valid()
      modifies data
      ensures data[..] == WithTelemetry(old(data[..]), telem)
    {
      if data[OPCODE_INDEX] == APP_TELEM_OPCODE && |telem| == 78 {
        for i := 0 to |telem|
          invariant forall k :: 0 <= k < CMD_MAX_LEN ==>
            data[k] == if DATA_START_INDEX <= k < DATA_START_INDEX + i then telem[k - DATA_START_INDEX] else old(data[k])
        {
          data[DATA_START_INDEX + i] := telem[i];
        }
      }
    }

    method BootloaderAck(reason: byte)
      requires Valid()
      modifies data
      ensures data[..] == WithAckReason(old(data[..]), reason)
    {
      if data[OPCODE_INDEX] == BOOTLOADER_ACK_OPCODE {
        data[MSG_LEN_INDEX] := 0x07;
        data[DATA_START_INDEX] := reason;
      }
    }

    method BootloaderErase(status: byte)
      requires Valid()
      modifies data
      ensures data[..] == WithEraseStatus(old(data[..]), status)
    {
      if data[OPCODE_INDEX] == BOOTLOADER_ERASE_OPCODE {
        data[MSG_LEN_INDEX] := 0x07;
        data[DATA_START_INDEX] := status;
      }
    }

    method BootloaderWritePage(pageNumber: byte, pageData: seq<byte>)
      requires Valid()
      modifies data
      ensures data[..] == WithWritePage(old(data[..]), pageNumber, pageData)
    {
      if data[OPCODE_INDEX] == BOOTLOADER_WRITE_PAGE_OPCODE {
        data[DATA_START_INDEX] := pageNumber;
        if |pageData| == 128 {
          data[MSG_LEN_INDEX] := 0x87;
          ghost var withNumber := data[..];
          for i := 0 to |pageData|
            invariant forall k :: 0 <= k < CMD_MAX_LEN ==>
              data[k] == if DATA_START_INDEX + 1 <= k < DATA_START_INDEX + 1 + i
                         then pageData[k - DATA_START_INDEX - 1] else withNumber[k]
          {
            data[DATA_START_INDEX + 1 + i] := pageData[i];
          }
        }
      }
    }

    method CommonAscii(text: string)
      requires Valid() && ByteText(text)
      modifies data
      ensures data[..] == WithAscii(old(data[..]), text)
    {
      if data[OPCODE_INDEX] == COMMON_ASCII_OPCODE {
        if |text| <= DATA_MAX_LEN {
          data[MSG_LEN_INDEX] := (0x06 + |text|) as byte;
          ghost var withLength := data[..];
          for i := 0 to |text|
            invariant forall k :: 0 <= k < CMD_MAX_LEN ==>
              data[k] == if DATA_START_INDEX <= k < DATA_START_INDEX + i
                         then text[k - DATA_START_INDEX] as int as byte else withLength[k]
          {
            data[DATA_START_INDEX + i] := text[i] as int as byte;
          }
        }
      }
    }

    /** `get_byte_count()` */
    function GetByteCount(): (n: int)
      reads this, data
      requires Valid()
      ensures Framed(data[..]) ==> 9 <= n <= CMD_MAX_LEN
    {
      ByteCount(data[..])
    }

    /** `clear()`: a newly allocated zero buffer. */
    method Clear()
      modifies this
      ensures Valid() && fresh(data)
      ensures data[..] == Zeros(CMD_MAX_LEN)
    {
      data := new byte[CMD_MAX_LEN](_ => 0);
      assert data[..] == Zeros(CMD_MAX_LEN);
    }
  }
}
