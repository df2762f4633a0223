/** Encoder and decoder together. A `TxCmd` frame, fed byte for byte into
    a cleared `RxCmdBuff`, reads back as the frame that was built; and the
    driver's send loop, which puts the reply buffer's first
    `get_byte_count()` bytes on the serial line, is modelled with the line
    removed, the bytes going straight into a receiving `RxCmdBuff` one
    `append_byte` at a time. */
module Link {
  import opened Taolst
  import opened Decoder
  import opened Encoder
  import Reply

  /** The fields the renderer reads whatever the length byte says lie
      within the bytes on the wire: both 32-bit fields of a set-time frame
      and the page number of a write-page frame. */
  predicate FieldsOnWire(d: seq<byte>)
    requires |d| == CMD_MAX_LEN
  {
    && (d[OPCODE_INDEX] == APP_SET_TIME_OPCODE ==> d[MSG_LEN_INDEX] >= 0x0e)
    && (d[OPCODE_INDEX] == BOOTLOADER_WRITE_PAGE_OPCODE ==> d[MSG_LEN_INDEX] >= 0x07)
  }

  /** The renderer reads nothing beyond the bytes a frame puts on the wire,
      provided the fields it always reads are among them: two
      buffers that agree on those bytes describe the same frame. */
  lemma DescribeWithin(d: seq<byte>, e: seq<byte>)
    requires Framed(d) && |e| == CMD_MAX_LEN && FieldsOnWire(d)
    requires d[..ByteCount(d)] == e[..ByteCount(d)]
    ensures Describe(d) == Describe(e)
  {
    var n := ByteCount(d);
    assert forall i :: 0 <= i < n ==> d[i] == d[..n][i] == e[..n][i] == e[i];
    var len := d[MSG_LEN_INDEX] as int - 6;
    if len > 0 {
      assert d[DATA_START_INDEX..DATA_START_INDEX + len] == e[DATA_START_INDEX..DATA_START_INDEX + len];
    }
    if len > 1 {
      assert d[DATA_START_INDEX + 1..DATA_START_INDEX + len] == e[DATA_START_INDEX + 1..DATA_START_INDEX + len];
    }
    assert PayloadBytes(d, 0) == PayloadBytes(e, 0);
    assert PayloadBytes(d, 1) == PayloadBytes(e, 1);
    var op := d[OPCODE_INDEX];
    if (op == APP_REBOOT_OPCODE && len == 4) || op == APP_SET_TIME_OPCODE {
      assert Field32(d, DATA_START_INDEX) == Field32(e, DATA_START_INDEX);
    }
    if op == APP_SET_TIME_OPCODE {
      assert Field32(d, DATA_START_INDEX + 4) == Field32(e, DATA_START_INDEX + 4);
    }
    if op == BOOTLOADER_WRITE_PAGE_OPCODE || len == 1 {
      assert d[DATA_START_INDEX] == e[DATA_START_INDEX];
    }
    assert DescribeDetail(d) == DescribeDetail(e);
  }

  /** No setter changes the opcode; the only setter a set-time frame
      accepts leaves its length alone, and the write-page setter only ever
      raises the length. */
  lemma ApplyKeepsFieldsOnWire(d: seq<byte>, c: SetterCall)
    requires |d| == CMD_MAX_LEN && CallOk(c) && FieldsOnWire(d)
    ensures Apply(d, c)[OPCODE_INDEX] == d[OPCODE_INDEX]
    ensures FieldsOnWire(Apply(d, c))
  {
  }

  lemma {:induction false} ApplyAllKeepsFieldsOnWire(d: seq<byte>, cs: seq<SetterCall>)
    requires |d| == CMD_MAX_LEN && (forall i :: 0 <= i < |cs| ==> CallOk(cs[i])) && FieldsOnWire(d)
    ensures FieldsOnWire(ApplyAll(d, cs))
    decreases |cs|
  {
    if cs != [] {
      ApplyKeepsFieldsOnWire(d, cs[0]);
      ApplyAllKeepsFieldsOnWire(Apply(d, cs[0]), cs[1..]);
    }
  }

  /** Setters leave the header fields the constructor wrote: the frame
      still reads back as the constructor's opcode, ids and roles. */
  lemma SettersKeepHeader(opcode: byte, hwId: int, msgId: int, src: int, dst: int, cs: seq<SetterCall>)
    requires 0 <= src < 16 && 0 <= dst < 16
    requires forall i :: 0 <= i < |cs| ==> CallOk(cs[i])
    ensures var d := ApplyAll(Created(opcode, hwId, msgId, src, dst), cs);
      && Framed(d)
      && FieldsOnWire(d)
      && Describe(d).opcode == opcode
      && Describe(d).hwId == hwId % 0x1_0000
      && Describe(d).msgId == msgId % 0x1_0000
      && Describe(d).src == src
      && Describe(d).dst == dst
  {
    var c := Created(opcode, hwId, msgId, src, dst);
    CreatedDecodes(opcode, hwId, msgId, src, dst);
    var d := ApplyAll(c, cs);
    ApplyAllKeepsFieldsOnWire(c, cs);
    assert Describe(d).hwId == Describe(c).hwId by {
      assert d[HWID_LSB_INDEX] == c[HWID_LSB_INDEX] && d[HWID_MSB_INDEX] == c[HWID_MSB_INDEX];
    }
    assert Describe(d).msgId == Describe(c).msgId by {
      assert d[MSG_ID_LSB_INDEX] == c[MSG_ID_LSB_INDEX] && d[MSG_ID_MSB_INDEX] == c[MSG_ID_MSB_INDEX];
    }
    assert d[DEST_ID_INDEX] == c[DEST_ID_INDEX] && d[OPCODE_INDEX] == c[OPCODE_INDEX];
  }

  /** Any `TxCmd` after any sequence of setter calls, fed byte for byte into
      a cleared decoder up to its byte count, leaves the decoder COMPLETE
      with the same bytes and the same byte count, and the receiver reads
      back the sender's opcode, ids, roles and payload fields. */
  lemma RoundTrip(opcode: byte, hwId: int, msgId: int, src: int, dst: int, cs: seq<SetterCall>)
    requires 0 <= src < 16 && 0 <= dst < 16
    requires forall i :: 0 <= i < |cs| ==> CallOk(cs[i])
    ensures var d := ApplyAll(Created(opcode, hwId, msgId, src, dst), cs);
      var n := ByteCount(d);
      var r := FeedAll(Cleared(), d[..n]);
      && 9 <= n <= CMD_MAX_LEN
      && r.state == Complete
      && r.data[..n] == d[..n]
      && ByteCount(r.data) == n
      && Describe(r.data) == Describe(d)
      && Describe(r.data).opcode == opcode
      && Describe(r.data).hwId == hwId % 0x1_0000
      && Describe(r.data).msgId == msgId % 0x1_0000
      && Describe(r.data).src == src
      && Describe(r.data).dst == dst
  {
    var d := ApplyAll(Created(opcode, hwId, msgId, src, dst), cs);
    SettersKeepHeader(opcode, hwId, msgId, src, dst, cs);
    FramedByteCount(d);
    DecodeFrame(d);
    var n := ByteCount(d);
    DescribeWithin(d, FeedAll(Cleared(), d[..n]).data);
  }

  /** The driver's send loop with the serial line taken out: the first
      `get_byte_count()` bytes of the reply buffer `tx` go into `rx` one at
      a time. */
  method Loopback(tx: Reply.TxCmdBuff, rx: RxCmdBuff)
    requires tx.Valid() && rx.Valid() && tx.data != rx.data
    modifies rx, rx.data
    ensures rx.Valid()
    ensures tx.data[..] == old(tx.data[..])
    ensures rx.Snapshot() == FeedAll(old(rx.Snapshot()), tx.data[..tx.GetByteCount()])
  {
    var byteI := 0;
    while byteI < tx.GetByteCount()
      invariant 0 <= byteI <= tx.GetByteCount()
      invariant rx.Valid() && tx.data != rx.data
      invariant rx.data == old(rx.data) || fresh(rx.data)
      invariant tx.data[..] == old(tx.data[..])
      invariant rx.Snapshot() == FeedAll(old(rx.Snapshot()), tx.data[..byteI])
      decreases tx.GetByteCount() - byteI
    {
      ghost var sent := tx.data[..byteI];
      FeedAllSnoc(old(rx.Snapshot()), sent, tx.data[byteI]);
      assert tx.data[..byteI + 1] == sent + [tx.data[byteI]];
      rx.AppendByte(tx.data[byteI]);
      byteI := byteI + 1;
    }
  }

  /** One turn of the driver's listen-and-reply loop once `req` holds a
      request: `generate_reply`, then the send loop into the decoder
      `ground` on the far end of the line. A cleared far-end decoder that
      is sent the reply to a request the table knows ends COMPLETE, holding
      the reply's bytes. */
  method Serve(req: RxCmdBuff, tx: Reply.TxCmdBuff, ground: RxCmdBuff, sec: int, micros: int)
    requires req.Valid() && tx.Valid() && ground.Valid()
    requires req != ground && req.data != ground.data && req.data != tx.data && ground.data != tx.data
    requires req.state == Complete && tx.empty
    requires Reply.ClockOk(req.data[..], sec, micros)
    modifies tx.data, ground, ground.data
    ensures ground.Valid()
    ensures var r := Reply.Reply(old(tx.data[..]), req.data[..], sec, micros);
      && tx.data[..] == r
      && ground.Snapshot() == FeedAll(old(ground.Snapshot()), r[..ByteCount(r)])
    ensures var r := Reply.Reply(old(tx.data[..]), req.data[..], sec, micros);
      Reply.KnownRequest(req.data[OPCODE_INDEX]) && old(ground.Snapshot()) == Cleared() ==>
        && ground.state == Complete
        && ground.data[..ByteCount(r)] == r[..ByteCount(r)]
  {
    tx.GenerateReply(req, sec, micros);
    Loopback(tx, ground);
    if Reply.KnownRequest(req.data[OPCODE_INDEX]) && old(ground.Snapshot()) == Cleared() {
      Reply.KnownReplyDecodes(old(tx.data[..]), req.data[..], sec, micros);
    }
  }
}
