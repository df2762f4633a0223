/** The incremental frame decoder (`RxCmdBuff`): a state machine that takes
    one byte at a time into a 258-byte buffer, drops noise before a start
    byte, resynchronises on a bad second start byte or a bad length byte,
    and counts exactly `length` bytes after the length field.

    `Step` is the transition of `append_byte` on a value snapshot of the
    decoder; the class `RxCmdBuff` performs it in place and its
    `AppendByte` is proved to agree with `Step`. */
module Decoder {
  import opened Taolst

  datatype RxState =
    | StartByte0 | StartByte1 | MsgLen
    | HwidLsb | HwidMsb | MsgIdLsb | MsgIdMsb | DestId | Opcode
    | Data | Complete

  /** The fields of an `RxCmdBuff`: state, the two cursors and the buffer. */
  datatype RxSnapshot = RxSnapshot(state: RxState, startIndex: int, endIndex: int, data: seq<byte>)

  /** The decoder as `__init__` and `clear` leave it. */
  function Cleared(): (c: RxSnapshot)
    ensures Inv(c) && Consumed(c) == 0
    ensures forall s :: Inv(s) && s.state == StartByte0 ==> s == c
  {
    RxSnapshot(StartByte0, 0, 0, Zeros(CMD_MAX_LEN))
  }

  /** States in which no length byte has been accepted yet. */
  predicate Searching(st: RxState)
  {
    st == StartByte0 || st == StartByte1 || st == MsgLen
  }

  /** The number of frame bytes stored so far: the index that the next
      stored byte goes to. */
  function Consumed(s: RxSnapshot): int
  {
    match s.state
    case StartByte0 => 0
    case StartByte1 => 1
    case MsgLen => 2
    case HwidLsb => 3
    case HwidMsb => 4
    case MsgIdLsb => 5
    case MsgIdMsb => 6
    case DestId => 7
    case Opcode => 8
    case Data => s.startIndex
    case Complete => s.endIndex
  }

  /** What holds of the decoder between calls to `append_byte`. Before the
      length byte the buffer is the cleared one with the start bytes seen so
      far; after it, `endIndex == L+3 <= 258`, `startIndex` is 9 until the
      opcode is stored, stays strictly below `endIndex` in DATA, and equals
      it once COMPLETE. */
  predicate Inv(s: RxSnapshot)
  {
    && |s.data| == CMD_MAX_LEN
    && match s.state
       case StartByte0 =>
         s.startIndex == 0 && s.endIndex == 0 && s.data == Zeros(CMD_MAX_LEN)
       case StartByte1 =>
         s.startIndex == 0 && s.endIndex == 0 && s.data == Zeros(CMD_MAX_LEN)[0 := START_BYTE_0]
       case MsgLen =>
         s.startIndex == 0 && s.endIndex == 0
         && s.data == Zeros(CMD_MAX_LEN)[0 := START_BYTE_0][1 := START_BYTE_1]
       case _ =>
         && s.data[START_BYTE_0_INDEX] == START_BYTE_0
         && s.data[START_BYTE_1_INDEX] == START_BYTE_1
         && s.data[MSG_LEN_INDEX] >= 6
         && s.endIndex == s.data[MSG_LEN_INDEX] as int + 3
         && (s.state == Data ==> DATA_START_INDEX <= s.startIndex < s.endIndex)
         && (s.state == Complete ==> DATA_START_INDEX <= s.startIndex == s.endIndex)
         && (s.state != Data && s.state != Complete ==> s.startIndex == DATA_START_INDEX)
  }

  /** `append_byte(b)`: one transition of the decoder. */
  function Step(s: RxSnapshot, b: byte): (r: RxSnapshot)
    requires Inv(s)
    ensures Inv(r)
    ensures r.endIndex <= CMD_MAX_LEN
  {
    match s.state
    case StartByte0 =>
      if b == START_BYTE_0 then s.(data := s.data[START_BYTE_0_INDEX := b], state := StartByte1)
      else s
    case StartByte1 =>
      if b == START_BYTE_1 then s.(data := s.data[START_BYTE_1_INDEX := b], state := MsgLen)
      else Cleared()
    case MsgLen =>
      if 0x06 <= b <= 0xff then
        s.(data := s.data[MSG_LEN_INDEX := b], startIndex := DATA_START_INDEX,
           endIndex := b as int + 3, state := HwidLsb)
      else Cleared()
    case HwidLsb => s.(data := s.data[HWID_LSB_INDEX := b], state := HwidMsb)
    case HwidMsb => s.(data := s.data[HWID_MSB_INDEX := b], state := MsgIdLsb)
    case MsgIdLsb => s.(data := s.data[MSG_ID_LSB_INDEX := b], state := MsgIdMsb)
    case MsgIdMsb => s.(data := s.data[MSG_ID_MSB_INDEX := b], state := DestId)
    case DestId => s.(data := s.data[DEST_ID_INDEX := b], state := Opcode)
    case Opcode =>
      s.(data := s.data[OPCODE_INDEX := b],
         state := if s.startIndex < s.endIndex then Data else Complete)
    case Data =>
      if s.startIndex < s.endIndex then
        var t := s.(data := s.data[s.startIndex := b], startIndex := s.startIndex + 1);
        if t.startIndex == t.endIndex then t.(state := Complete) else t
      else
        // cannot happen: Inv keeps startIndex < endIndex in DATA
        s.(state := Complete)
    case Complete => s
  }

  /** Feeds `bs` to the decoder one byte at a time, first byte first. */
  function FeedAll(s: RxSnapshot, bs: seq<byte>): (r: RxSnapshot)
    requires Inv(s)
    ensures Inv(r)
    decreases |bs|
  {
    if bs == [] then s else FeedAll(Step(s, bs[0]), bs[1..])
  }

  lemma {:induction false} FeedAllAppend(s: RxSnapshot, a: seq<byte>, b: seq<byte>)
    requires Inv(s)
    ensures FeedAll(s, a + b) == FeedAll(FeedAll(s, a), b)
    decreases |a|
  {
    if a == [] {
      assert a + b == b;
    } else {
      assert (a + b)[0] == a[0];
      assert (a + b)[1..] == a[1..] + b;
      FeedAllAppend(Step(s, a[0]), a[1..], b);
    }
  }

  lemma FeedAllSnoc(s: RxSnapshot, bs: seq<byte>, b: byte)
    requires Inv(s)
    ensures FeedAll(s, bs + [b]) == Step(FeedAll(s, bs), b)
  {
    FeedAllAppend(s, bs, [b]);
    assert FeedAll(FeedAll(s, bs), [b]) == FeedAll(Step(FeedAll(s, bs), b), []);
  }

  // ---------------------------------------------------------------------
  // Ignored bytes and resynchronisation

  /** Before a frame starts, any byte but 0x22 changes nothing, and 0x22
      is stored and moves on to the second start byte. */
  lemma NoiseBeforeStart(s: RxSnapshot, b: byte)
    requires Inv(s) && s.state == StartByte0
    ensures b != START_BYTE_0 ==> Step(s, b) == s
    ensures b == START_BYTE_0 ==>
      Step(s, b) == RxSnapshot(StartByte1, 0, 0, Zeros(CMD_MAX_LEN)[0 := START_BYTE_0])
  {
  }

  /** A completed frame ignores every further byte. */
  lemma {:induction false} CompleteIgnoresBytes(s: RxSnapshot, bs: seq<byte>)
    requires Inv(s) && s.state == Complete
    ensures FeedAll(s, bs) == s
    decreases |bs|
  {
    if bs != [] {
      CompleteIgnoresBytes(Step(s, bs[0]), bs[1..]);
    }
  }

  /** A second byte other than 0x69, or a length byte below 6, resets the
      decoder to its cleared state. */
  lemma Resynchronises(s: RxSnapshot, b: byte)
    requires Inv(s)
    ensures s.state == StartByte1 && b != START_BYTE_1 ==> Step(s, b) == Cleared()
    ensures s.state == MsgLen && b < 6 ==> Step(s, b) == Cleared()
  {
  }

  /** A run of bytes none of which is 0x22 leaves a cleared decoder cleared. */
  lemma {:induction false} NoiseIgnored(noise: seq<byte>)
    requires forall i :: 0 <= i < |noise| ==> noise[i] != START_BYTE_0
    ensures FeedAll(Cleared(), noise) == Cleared()
    decreases |noise|
  {
    if noise != [] {
      assert Step(Cleared(), noise[0]) == Cleared();
      NoiseIgnored(noise[1..]);
    }
  }

  /** Noise that leaves a cleared decoder cleared, such as a run without
      0x22 or a false start `22 00`, does not change what the bytes after it
      decode to. */
  lemma NoisePrefixIgnored(noise: seq<byte>, bs: seq<byte>)
    requires FeedAll(Cleared(), noise) == Cleared()
    ensures FeedAll(Cleared(), noise + bs) == FeedAll(Cleared(), bs)
  {
    FeedAllAppend(Cleared(), noise, bs);
  }

  /** A false start, 0x22 followed by anything but 0x69, leaves the decoder
      cleared. */
  lemma FalseStartIgnored(b: byte)
    requires b != START_BYTE_1
    ensures FeedAll(Cleared(), [START_BYTE_0, b]) == Cleared()
  {
    var bs := [START_BYTE_0, b];
    var s1 := Step(Cleared(), START_BYTE_0);
    assert Step(s1, b) == Cleared();
    assert bs[1..] == [b];
    assert FeedAll(s1, [b]) == FeedAll(Step(s1, b), []);
  }

  /** The rejected byte is not re-examined: after `22 22 69` the decoder
      is still looking for a first start byte. */
  lemma RepeatedStartByteNotResynchronised()
    ensures FeedAll(Cleared(), [0x22, 0x22, 0x69]) == Cleared()
  {
    var s1 := Step(Cleared(), 0x22);
    assert s1.state == StartByte1;
    var s2 := Step(s1, 0x22);
    assert s2 == Cleared();
    assert Step(s2, 0x69) == Cleared();
    var bs: seq<byte> := [0x22, 0x22, 0x69];
    assert bs[1..] == [0x22, 0x69];
    assert bs[1..][1..] == [0x69];
    assert FeedAll(s2, [0x69]) == FeedAll(Step(s2, 0x69), []);
  }

  /** A length byte below 6 after valid start bytes leaves the decoder
      cleared, never reaching COMPLETE. */
  lemma ShortLengthRejected(len: byte)
    requires len < 6
    ensures FeedAll(Cleared(), [START_BYTE_0, START_BYTE_1, len]) == Cleared()
  {
    var bs := [START_BYTE_0, START_BYTE_1, len];
    var s1 := Step(Cleared(), START_BYTE_0);
    var s2 := Step(s1, START_BYTE_1);
    assert s2.state == MsgLen;
    assert Step(s2, len) == Cleared();
    assert bs[1..] == [START_BYTE_1, len];
    assert bs[1..][1..] == [len];
    assert FeedAll(s2, [len]) == FeedAll(Step(s2, len), []);
  }

  // ---------------------------------------------------------------------
  // Length accounting and the decoding of a whole frame

  /** Once the length byte is accepted, every byte is stored at index
      `Consumed(s)`, which advances by one, and COMPLETE is entered exactly
      when it reaches `endIndex`. */
  lemma StepStores(s: RxSnapshot, b: byte)
    requires Inv(s) && !Searching(s.state) && s.state != Complete
    ensures HWID_LSB_INDEX <= Consumed(s) < s.endIndex <= CMD_MAX_LEN
    ensures var r := Step(s, b);
      && !Searching(r.state)
      && r.data == s.data[Consumed(s) := b]
      && Consumed(r) == Consumed(s) + 1
      && r.endIndex == s.endIndex
      && (r.state == Complete <==> Consumed(r) == r.endIndex)
  {
  }

  /** The cleared buffer holding the first `p` bytes of `frame`. */
  function Prefix(frame: seq<byte>, p: nat): (d: seq<byte>)
    requires p <= |frame| && p <= CMD_MAX_LEN
    ensures |d| == CMD_MAX_LEN
  {
    frame[..p] + Zeros(CMD_MAX_LEN - p)
  }

  lemma PrefixExtend(frame: seq<byte>, p: nat)
    requires p < |frame| && p < CMD_MAX_LEN
    ensures Prefix(frame, p)[p := frame[p]] == Prefix(frame, p + 1)
  {
    assert frame[..p + 1] == frame[..p] + [frame[p]];
  }

  /** From any point after the length byte, feeding the next frame bytes
      stores them in order and reaches COMPLETE exactly at `endIndex`. */
  lemma {:induction false} FeedBody(s: RxSnapshot, frame: seq<byte>, k: nat)
    requires Inv(s) && !Searching(s.state)
    requires Consumed(s) <= k <= s.endIndex <= |frame|
    requires s.data == Prefix(frame, Consumed(s))
    ensures var r := FeedAll(s, frame[Consumed(s)..k]);
      && !Searching(r.state)
      && Consumed(r) == k
      && r.endIndex == s.endIndex
      && r.data == Prefix(frame, k)
      && (r.state == Complete <==> k == s.endIndex)
    decreases k - Consumed(s)
  {
    var p := Consumed(s);
    if p == k {
      assert frame[p..k] == [];
    } else {
      StepStores(s, frame[p]);
      PrefixExtend(frame, p);
      var t := Step(s, frame[p]);
      assert frame[p..k][0] == frame[p];
      assert frame[p..k][1..] == frame[p + 1..k];
      FeedBody(t, frame, k);
    }
  }

  /** The first three bytes of a frame leave the decoder waiting for the
      hardware id, with the length accounted for. */
  lemma FeedHeaderStart(frame: seq<byte>)
    requires Framed(frame)
    ensures var r := FeedAll(Cleared(), frame[..3]);
      && r.state == HwidLsb
      && r.startIndex == DATA_START_INDEX
      && r.endIndex == ByteCount(frame)
      && r.data == Prefix(frame, 3)
  {
    var s1 := Step(Cleared(), frame[0]);
    var s2 := Step(s1, frame[1]);
    var s3 := Step(s2, frame[2]);
    assert s1.data == Prefix(frame, 1) by {
      assert frame[..1] == [frame[0]];
    }
    assert s2.data == Prefix(frame, 2) by {
      assert frame[..2] == frame[..1] + [frame[1]];
    }
    PrefixExtend(frame, 2);
    var h := frame[..3];
    assert h[1..] == [frame[1], frame[2]];
    assert h[1..][1..] == [frame[2]];
    assert FeedAll(s2, [frame[2]]) == FeedAll(s3, []);
  }

  /** Round trip of the byte stream: feeding the `ByteCount` bytes of a
      framed buffer into a cleared decoder reaches COMPLETE with those bytes
      in the buffer, zeros after them, and the same byte count. */
  lemma DecodeFrame(frame: seq<byte>)
    requires Framed(frame)
    ensures var n := ByteCount(frame);
      var r := FeedAll(Cleared(), frame[..n]);
      && r.state == Complete
      && r.data[..n] == frame[..n]
      && (forall i :: n <= i < CMD_MAX_LEN ==> r.data[i] == 0)
      && ByteCount(r.data) == n
  {
    var n := ByteCount(frame);
    var s := FeedAll(Cleared(), frame[..3]);
    FeedHeaderStart(frame);
    assert frame[..n] == frame[..3] + frame[3..n];
    FeedAllAppend(Cleared(), frame[..3], frame[3..n]);
    FeedBody(s, frame, n);
  }

  /** COMPLETE is not reached before the last byte of the frame. */
  lemma NotCompleteEarly(frame: seq<byte>, k: nat)
    requires Framed(frame) && k < ByteCount(frame)
    ensures FeedAll(Cleared(), frame[..k]).state != Complete
  {
    FeedHeaderStart(frame);
    if k < 3 {
      assert frame[..3] == frame[..k] + frame[k..3];
      FeedAllAppend(Cleared(), frame[..k], frame[k..3]);
      var s := FeedAll(Cleared(), frame[..k]);
      if s.state == Complete {
        CompleteIgnoresBytes(s, frame[k..3]);
        assert false;
      }
    } else {
      var s := FeedAll(Cleared(), frame[..3]);
      assert frame[..k] == frame[..3] + frame[3..k];
      FeedAllAppend(Cleared(), frame[..3], frame[3..k]);
      FeedBody(s, frame, k);
    }
  }

  // ---------------------------------------------------------------------
  // The decoder object

  class RxCmdBuff {
    var state: RxState
    var startIndex: int
    var endIndex: int
    var data: array<byte>

    function Snapshot(): RxSnapshot
      reads this, data
    {
      RxSnapshot(state, startIndex, endIndex, data[..])
    }

    ghost predicate Valid()
      reads this, data
    {
      data.Length == CMD_MAX_LEN && Inv(Snapshot())
    }

    constructor ()
      ensures Valid() && fresh(data)
      ensures Snapshot() == Cleared()
    {
      state := StartByte0;
      startIndex := 0;
      endIndex := 0;
      data := new byte[CMD_MAX_LEN](_ => 0);
      new;
      assert data[..] == Zeros(CMD_MAX_LEN);
    }

    /** Back to the initial state, with a newly allocated zero buffer. */
    method Clear()
      modifies this
      ensures Valid() && fresh(data)
      ensures Snapshot() == Cleared()
    {
      state := StartByte0;
      startIndex := 0;
      endIndex := 0;
      data := new byte[CMD_MAX_LEN](_ => 0);
      assert data[..] == Zeros(CMD_MAX_LEN);
    }

    method AppendByte(b: byte)
      requires Valid()
      modifies this, data
      ensures Valid()
      ensures data == old(data) || fresh(data)
      ensures Snapshot() == Step(old(Snapshot()), b)
    {
      if state == StartByte0 {
        if b == START_BYTE_0 {
          data[START_BYTE_0_INDEX] := b;
          state := StartByte1;
        }
      } else if state == StartByte1 {
        if b == START_BYTE_1 {
          data[START_BYTE_1_INDEX] := b;
          state := MsgLen;
        } else {
          Clear();
        }
      } else if state == MsgLen {
        if 0x06 <= b && b <= 0xff {
          data[MSG_LEN_INDEX] := b;
          startIndex := DATA_START_INDEX;
          endIndex := b as int + 3;
          state := HwidLsb;
        } else {
          Clear();
        }
      } else if state == HwidLsb {
        data[HWID_LSB_INDEX] := b;
        state := HwidMsb;
      } else if state == HwidMsb {
        data[HWID_MSB_INDEX] := b;
        state := MsgIdLsb;
      } else if state == MsgIdLsb {
        data[MSG_ID_LSB_INDEX] := b;
        state := MsgIdMsb;
      } else if state == MsgIdMsb {
        data[MSG_ID_MSB_INDEX] := b;
        state := DestId;
      } else if state == DestId {
        data[DEST_ID_INDEX] := b;
        state := Opcode;
      } else if state == Opcode {
        data[OPCODE_INDEX] := b;
        if startIndex < endIndex {
          state := Data;
        } else {
          state := Complete;
        }
      } else if state == Data {
        if startIndex < endIndex {
          data[startIndex] := b;
          startIndex := startIndex + 1;
          if startIndex == endIndex {
            state := Complete;
          }
        } else {
          // The source moves to COMPLETE here; Valid() keeps
          // startIndex < endIndex in DATA, so this branch is never taken.
          assert false;
        }
      } else if state == Complete {
      }
    }

    /** `get_byte_count()`: meaningful once the length byte is accepted. */
    function GetByteCount(): (n: int)
      reads this, data
      requires Valid()
      ensures !Searching(state) ==> n == endIndex && 9 <= n <= CMD_MAX_LEN
      ensures Searching(state) ==> n == 3
    {
      ByteCount(data[..])
    }
  }
}
