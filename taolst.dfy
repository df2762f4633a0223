/** The TAOLST command frame: protocol constants, the byte-level encodings
    used by the encoder and the reply policy, and the integer field
    extraction that the diagnostic renderer performs on a frame.

    A frame lives in a 258-byte buffer:
      0 start byte 0x22, 1 start byte 0x69, 2 length L (6..255),
      3-4 hardware id (little-endian), 5-6 message id (little-endian),
      7 route byte (source role in the high nibble, destination role in the
      low nibble), 8 opcode, 9.. payload of L-6 bytes.
    Exactly L+3 bytes of the buffer are sent. */
module Taolst {

  newtype byte = x: int | 0 <= x < 256

  // General constants
  const CMD_MAX_LEN: nat := 258
  const DATA_MAX_LEN: nat := 249
  const START_BYTE_0: byte := 0x22
  const START_BYTE_1: byte := 0x69
  const DEST_COMM: int := 0x01
  const DEST_CTRL: int := 0x0a
  const DEST_EXPT: int := 0x02
  const DEST_TERM: int := 0x00

  // Opcodes
  const APP_GET_TELEM_OPCODE: byte := 0x17
  const APP_GET_TIME_OPCODE: byte := 0x13
  const APP_REBOOT_OPCODE: byte := 0x12
  const APP_SET_TIME_OPCODE: byte := 0x14
  const APP_TELEM_OPCODE: byte := 0x18
  const BOOTLOADER_ACK_OPCODE: byte := 0x01
  const BOOTLOADER_ERASE_OPCODE: byte := 0x0c
  const BOOTLOADER_JUMP_OPCODE: byte := 0x0b
  const BOOTLOADER_NACK_OPCODE: byte := 0x0f
  const BOOTLOADER_PING_OPCODE: byte := 0x00
  const BOOTLOADER_WRITE_PAGE_OPCODE: byte := 0x02
  const COMMON_ACK_OPCODE: byte := 0x10
  const COMMON_ASCII_OPCODE: byte := 0x11
  const COMMON_NACK_OPCODE: byte := 0xff

  // Bootloader acknowledgement reasons
  const BOOTLOADER_ACK_REASON_PONG: int := 0x00
  const BOOTLOADER_ACK_REASON_ERASED: int := 0x01
  const BOOTLOADER_ACK_REASON_JUMP: int := 0xff

  // Field offsets within the buffer
  const START_BYTE_0_INDEX: nat := 0
  const START_BYTE_1_INDEX: nat := 1
  const MSG_LEN_INDEX: nat := 2
  const HWID_LSB_INDEX: nat := 3
  const HWID_MSB_INDEX: nat := 4
  const MSG_ID_LSB_INDEX: nat := 5
  const MSG_ID_MSB_INDEX: nat := 6
  const DEST_ID_INDEX: nat := 7
  const OPCODE_INDEX: nat := 8
  const DATA_START_INDEX: nat := 9

  /** A freshly allocated buffer: `[0x00]*n`. */
  function Zeros(n: nat): seq<byte>
  {
    seq(n, _ => 0)
  }

  /** `d` with `src` written over positions at .. at+|src|-1. */
  function Overwrite(d: seq<byte>, at: nat, src: seq<byte>): (r: seq<byte>)
    requires at + |src| <= |d|
    ensures |r| == |d|
    ensures forall i :: at <= i < at + |src| ==> r[i] == src[i - at]
    ensures forall i :: 0 <= i < |d| && !(at <= i < at + |src|) ==> r[i] == d[i]
  {
    d[..at] + src + d[at + |src|..]
  }

  /** The number of bytes a frame occupies on the wire: `data[MSG_LEN_INDEX]+3`.
      Whatever the length byte holds, the count never runs past the buffer. */
  function ByteCount(d: seq<byte>): (n: int)
    requires |d| == CMD_MAX_LEN
    ensures 3 <= n <= CMD_MAX_LEN
    ensures d[MSG_LEN_INDEX] >= 6 <==> n >= 9
  {
    d[MSG_LEN_INDEX] as int + 3
  }

  /** A buffer holding a structurally valid frame header. */
  predicate Framed(d: seq<byte>)
  {
    && |d| == CMD_MAX_LEN
    && d[START_BYTE_0_INDEX] == START_BYTE_0
    && d[START_BYTE_1_INDEX] == START_BYTE_1
    && d[MSG_LEN_INDEX] >= 6
  }

  lemma FramedByteCount(d: seq<byte>)
    requires Framed(d)
    ensures 9 <= ByteCount(d) <= CMD_MAX_LEN
  {
  }

  // ---------------------------------------------------------------------
  // Little-endian integers. `(x >> k) & 0xff` of the source is
  // `(x / 2^k) % 256` here: Dafny's division by a positive constant floors
  // as Python's shift does, also for negative x.

  /** `[(x >> 0) & 0xff, (x >> 8) & 0xff]`: the two bytes read back as
      `x` modulo 2^16. */
  function Le16(x: int): (bs: seq<byte>)
    ensures |bs| == 2 && Field16(bs, 0) == x % 0x1_0000
  {
    var q := x / 0x100;
    assert x == q * 0x100 + x % 0x100;
    assert q == (q / 0x100) * 0x100 + q % 0x100;
    [(x % 0x100) as byte, (q % 0x100) as byte]
  }

  /** `[(x >> 0) & 0xff, (x >> 8) & 0xff, (x >> 16) & 0xff, (x >> 24) & 0xff]`,
      which for 0 <= x < 2^32 is also `x.to_bytes(4, 'little')`: the four
      bytes read back as `x` modulo 2^32. */
  function Le32(x: int): (bs: seq<byte>)
    ensures |bs| == 4 && Field32(bs, 0) == x % 0x1_0000_0000
  {
    var q1 := x / 0x100;
    var q2 := x / 0x1_0000;
    var q3 := x / 0x100_0000;
    assert q2 == q1 / 0x100;
    assert q3 == q2 / 0x100;
    assert x == q1 * 0x100 + x % 0x100;
    assert q1 == q2 * 0x100 + q1 % 0x100;
    assert q2 == q3 * 0x100 + q2 % 0x100;
    assert q3 == (q3 / 0x100) * 0x100 + q3 % 0x100;
    [ (x % 0x100) as byte, (q1 % 0x100) as byte, (q2 % 0x100) as byte, (q3 % 0x100) as byte ]
  }

  /** `(d[at+1] << 8) | d[at]`; the two shifted bytes do not overlap, so the
      bitwise or is a sum. */
  function Field16(d: seq<byte>, at: nat): (v: int)
    requires at + 2 <= |d|
    ensures 0 <= v < 0x1_0000
  {
    d[at + 1] as int * 0x100 + d[at] as int
  }

  /** `d[at+3] << 24 | d[at+2] << 16 | d[at+1] << 8 | d[at]`. */
  function Field32(d: seq<byte>, at: nat): (v: int)
    requires at + 4 <= |d|
    ensures 0 <= v < 0x1_0000_0000
  {
    d[at + 3] as int * 0x100_0000 + d[at + 2] as int * 0x1_0000
      + d[at + 1] as int * 0x100 + d[at] as int
  }

  lemma Field16Encodes(bs: seq<byte>)
    requires |bs| == 2
    ensures Le16(Field16(bs, 0)) == bs
  {
  }

  /** The same for two bytes anywhere in a buffer. */
  lemma Field16At(d: seq<byte>, at: nat)
    requires at + 2 <= |d|
    ensures Le16(Field16(d, at)) == d[at..at + 2]
  {
    var w := d[at..at + 2];
    Field16Encodes(w);
    assert Field16(w, 0) == Field16(d, at);
  }

  /** Four bytes laid down by `Le32(x)` anywhere in a buffer read back as
      `x` modulo 2^32. */
  lemma Field32At(d: seq<byte>, at: nat, x: int)
    requires at + 4 <= |d| && d[at..at + 4] == Le32(x)
    ensures Field32(d, at) == x % 0x1_0000_0000
  {
    var w := d[at..at + 4];
    assert Field32(d, at) == Field32(w, 0) by {
      assert d[at] == w[0] && d[at + 1] == w[1] && d[at + 2] == w[2] && d[at + 3] == w[3];
    }
  }

  /** Division by 256 recovers quotient and remainder of a byte-aligned sum. */
  lemma DivMod256(v: int, q: int, r: int)
    requires v == q * 0x100 + r && 0 <= r < 0x100
    ensures v / 0x100 == q && v % 0x100 == r
  {
  }

  lemma Field32Encodes(bs: seq<byte>)
    requires |bs| == 4
    ensures Le32(Field32(bs, 0)) == bs
  {
    var b0, b1, b2, b3 := bs[0] as int, bs[1] as int, bs[2] as int, bs[3] as int;
    var v := Field32(bs, 0);
    DivMod256(v, b3 * 0x1_0000 + b2 * 0x100 + b1, b0);
    DivMod256(b3 * 0x1_0000 + b2 * 0x100 + b1, b3 * 0x100 + b2, b1);
    DivMod256(b3 * 0x100 + b2, b3, b2);
    DivMod256(b3, 0, b3);
    assert v / 0x1_0000 == (v / 0x100) / 0x100;
    assert v / 0x100_0000 == (v / 0x1_0000) / 0x100;
  }

  // ---------------------------------------------------------------------
  // The route byte

  /** `(src << 4) | (dst << 0)` for roles that fit a nibble: the byte splits
      back into the two roles. */
  function Route(src: int, dst: int): (route: byte)
    requires 0 <= src < 16 && 0 <= dst < 16
    ensures SrcOf(route) == src && DstOf(route) == dst
  {
    DivMod16(src * 16 + dst, src, dst);
    (src * 16 + dst) as byte
  }

  /** `(route >> 4) & 0x0f` */
  function SrcOf(route: byte): (role: int)
    ensures 0 <= role < 16
  {
    (route as int / 16) % 16
  }

  /** `(route >> 0) & 0x0f` */
  function DstOf(route: byte): (role: int)
    ensures 0 <= role < 16
  {
    route as int % 16
  }

  /** `(0x0f & route) << 4 | (0xf0 & route) >> 4`: the two nibbles
      exchanged, so source and destination change roles. */
  function SwapNibbles(route: byte): (swapped: byte)
    ensures SrcOf(swapped) == DstOf(route)
    ensures DstOf(swapped) == SrcOf(route)
  {
    var hi, lo := route as int / 16, route as int % 16;
    DivMod16(lo * 16 + hi, lo, hi);
    (lo * 16 + hi) as byte
  }

  lemma RouteEncodes(route: byte)
    ensures Route(SrcOf(route), DstOf(route)) == route
  {
  }

  /** Division by 16 recovers the two nibbles of a byte built from them. */
  lemma DivMod16(v: int, hi: int, lo: int)
    requires v == hi * 16 + lo && 0 <= lo < 16
    ensures v / 16 == hi && v % 16 == lo
  {
  }

  lemma SwapNibblesInvolution(route: byte)
    ensures SwapNibbles(SwapNibbles(route)) == route
  {
    var hi, lo := route as int / 16, route as int % 16;
    DivMod16(SwapNibbles(route) as int, lo, hi);
  }

  /** Source comm (1), destination ctrl (10) becomes source ctrl, destination comm. */
  lemma SwapNibblesExample()
    ensures SwapNibbles(0x1a) == 0xa1
  {
  }

  // ---------------------------------------------------------------------
  // Lookups used by the diagnostic renderer

  const KNOWN_ROLES: set<int> := {DEST_COMM, DEST_CTRL, DEST_EXPT, DEST_TERM}
  const KNOWN_ACK_REASONS: set<int> :=
    {BOOTLOADER_ACK_REASON_PONG, BOOTLOADER_ACK_REASON_ERASED, BOOTLOADER_ACK_REASON_JUMP}

  /** Name of a route-nibble role; "?" for an unassigned value. */
  function DestIdToName(destId: int): (name: string)
    ensures destId == DEST_COMM ==> name == "comm"
    ensures destId == DEST_CTRL ==> name == "ctrl"
    ensures destId == DEST_EXPT ==> name == "expt"
    ensures destId == DEST_TERM ==> name == "term"
    ensures name == "?" <==> destId !in KNOWN_ROLES
  {
    if destId == DEST_COMM then "comm"
    else if destId == DEST_CTRL then "ctrl"
    else if destId == DEST_EXPT then "expt"
    else if destId == DEST_TERM then "term"
    else "?"
  }

  /** Distinct known roles are never rendered alike. */
  lemma DestIdNamesDistinct(a: int, b: int)
    requires a in KNOWN_ROLES && b in KNOWN_ROLES && a != b
    ensures DestIdToName(a) != DestIdToName(b)
  {
  }

  /** Name of a bootloader acknowledgement reason; "?" for any other value. */
  function AckReasonToName(reason: int): (name: string)
    ensures reason == BOOTLOADER_ACK_REASON_PONG ==> name == "pong"
    ensures reason == BOOTLOADER_ACK_REASON_ERASED ==> name == "erased"
    ensures reason == BOOTLOADER_ACK_REASON_JUMP ==> name == "jump"
    ensures name == "?" <==> reason !in KNOWN_ACK_REASONS
  {
    if reason == BOOTLOADER_ACK_REASON_PONG then "pong"
    else if reason == BOOTLOADER_ACK_REASON_ERASED then "erased"
    else if reason == BOOTLOADER_ACK_REASON_JUMP then "jump"
    else "?"
  }

  lemma AckReasonNamesDistinct(a: int, b: int)
    requires a in KNOWN_ACK_REASONS && b in KNOWN_ACK_REASONS && a != b
    ensures AckReasonToName(a) != AckReasonToName(b)
  {
  }

  // ---------------------------------------------------------------------
  // Field extraction of the diagnostic renderer, without the text formatting

  /** The opcode-specific fields the renderer prints after the opcode name. */
  datatype Detail =
    | NoDetail
    | RebootDelay(delay: int)
    | SetTime(sec: int, ns: int)
    | Telemetry(telem: seq<byte>)
    | AckReason(reason: byte)
    | EraseStatus(status: byte)
      // `page` is empty unless the length byte is 0x87
    | WritePage(subpage: byte, page: seq<byte>)
    | Ascii(text: string)

  /** The header fields and the opcode-specific fields of one frame. */
  datatype Summary = Summary(opcode: byte, hwId: int, msgId: int, src: int, dst: int, detail: Detail)

  /** Payload bytes 9 .. 9+n-1, where `n = data[MSG_LEN_INDEX]-0x06` and a
      negative n gives no bytes, as Python's `range` does. */
  function PayloadBytes(d: seq<byte>, drop: nat): (p: seq<byte>)
    requires |d| == CMD_MAX_LEN
    ensures |p| == if d[MSG_LEN_INDEX] as int - 6 - drop > 0 then d[MSG_LEN_INDEX] as int - 6 - drop else 0
  {
    var n := d[MSG_LEN_INDEX] as int - 6 - drop;
    if n > 0 then d[DATA_START_INDEX + drop..DATA_START_INDEX + drop + n] else []
  }

  /** Which detail the renderer adds is decided by the opcode, and for
      reboot, ack and erase also by the exact length; a payload run has as
      many bytes as the length byte announces. */
  function DescribeDetail(d: seq<byte>): (detail: Detail)
    requires |d| == CMD_MAX_LEN
    ensures detail.SetTime? <==> d[OPCODE_INDEX] == APP_SET_TIME_OPCODE
    ensures detail.Telemetry? <==> d[OPCODE_INDEX] == APP_TELEM_OPCODE
    ensures detail.WritePage? <==> d[OPCODE_INDEX] == BOOTLOADER_WRITE_PAGE_OPCODE
    ensures detail.Ascii? <==> d[OPCODE_INDEX] == COMMON_ASCII_OPCODE
    ensures detail.RebootDelay? <==> d[OPCODE_INDEX] == APP_REBOOT_OPCODE && d[MSG_LEN_INDEX] == 0x0a
    ensures detail.AckReason? <==> d[OPCODE_INDEX] == BOOTLOADER_ACK_OPCODE && d[MSG_LEN_INDEX] == 0x07
    ensures detail.EraseStatus? <==> d[OPCODE_INDEX] == BOOTLOADER_ERASE_OPCODE && d[MSG_LEN_INDEX] == 0x07
    ensures detail.Telemetry? ==> |detail.telem| == if d[MSG_LEN_INDEX] >= 6 then d[MSG_LEN_INDEX] as int - 6 else 0
    ensures detail.Ascii? ==> |detail.text| == if d[MSG_LEN_INDEX] >= 6 then d[MSG_LEN_INDEX] as int - 6 else 0
    ensures detail.WritePage? ==> detail.subpage == d[DATA_START_INDEX]
    ensures detail.WritePage? ==> |detail.page| == if d[MSG_LEN_INDEX] == 0x87 then 128 else 0
  {
    var op := d[OPCODE_INDEX];
    var len := d[MSG_LEN_INDEX];
    if op == APP_REBOOT_OPCODE then
      if len == 0x0a then RebootDelay(Field32(d, DATA_START_INDEX)) else NoDetail
    else if op == APP_SET_TIME_OPCODE then
      SetTime(Field32(d, DATA_START_INDEX), Field32(d, DATA_START_INDEX + 4))
    else if op == APP_TELEM_OPCODE then
      Telemetry(PayloadBytes(d, 0))
    else if op == BOOTLOADER_ACK_OPCODE then
      if len == 0x07 then AckReason(d[DATA_START_INDEX]) else NoDetail
    else if op == BOOTLOADER_ERASE_OPCODE then
      if len == 0x07 then EraseStatus(d[DATA_START_INDEX]) else NoDetail
    else if op == BOOTLOADER_WRITE_PAGE_OPCODE then
      WritePage(d[DATA_START_INDEX], if len == 0x87 then PayloadBytes(d, 1) else [])
    else if op == COMMON_ASCII_OPCODE then
      var codes := PayloadBytes(d, 0);
      Ascii(seq(|codes|, i requires 0 <= i < |codes| => codes[i] as int as char))
    else NoDetail
  }

  /** The integer fields the renderer extracts from a frame buffer. */
  function Describe(d: seq<byte>): (s: Summary)
    requires |d| == CMD_MAX_LEN
    ensures s.opcode == d[OPCODE_INDEX]
    ensures Le16(s.hwId) == d[HWID_LSB_INDEX..HWID_MSB_INDEX + 1]
    ensures Le16(s.msgId) == d[MSG_ID_LSB_INDEX..MSG_ID_MSB_INDEX + 1]
    ensures 0 <= s.src < 16 && 0 <= s.dst < 16 && Route(s.src, s.dst) == d[DEST_ID_INDEX]
  {
    Field16At(d, HWID_LSB_INDEX);
    Field16At(d, MSG_ID_LSB_INDEX);
    RouteEncodes(d[DEST_ID_INDEX]);
    Summary(d[OPCODE_INDEX],
            Field16(d, HWID_LSB_INDEX), Field16(d, MSG_ID_LSB_INDEX),
            SrcOf(d[DEST_ID_INDEX]), DstOf(d[DEST_ID_INDEX]),
            DescribeDetail(d))
  }
}
