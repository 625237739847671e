/** The waveform codec: set_wave_ packs one channel's (x, y, z) into a little-endian frame
    for that channel's endpoint; set_wave_sync_ builds both channels' frames from
    zero-padded binary strings, read big-endian. */
module Waveform {
  import opened Wrappers
  import opened Bytes
  import opened Bits
  import opened Device

  /** (z << 15) + (y << 5) + x. */
  function WaveWord(x: int, y: int, z: int): int
  {
    z * 32768 + y * 32 + x
  }

  /** The field widths the protocol gives x, y and z: 5, 10 and 5 bits. */
  predicate InRange(x: int, y: int, z: int)
  {
    0 <= x < 32 && 0 <= y < 1024 && 0 <= z < 32
  }

  /** The frame of set_wave_: the word's three bytes, little-endian; OverflowError when
      the word is negative or does not fit in three bytes. */
  function EncodeWave(x: int, y: int, z: int): (r: Result<seq<byte>>)
    ensures r.Ok? <==> 0 <= WaveWord(x, y, z) < 16777216
    ensures r.Ok? ==> |r.value| == 3 && LeValue(r.value) == WaveWord(x, y, z)
    ensures r.Err? ==> r.error == OverflowError
  {
    Pow256Three();
    ToBytesLittle(WaveWord(x, y, z), 3)
  }

  /** In range, the frame always encodes, and x, y and z are read back from its value. */
  lemma WaveFieldsRecover(x: int, y: int, z: int)
    requires InRange(x, y, z)
    ensures EncodeWave(x, y, z).Ok?
    ensures LeValue(EncodeWave(x, y, z).value) % 32 == x
    ensures LeValue(EncodeWave(x, y, z).value) / 32 % 1024 == y
    ensures LeValue(EncodeWave(x, y, z).value) / 32768 == z
  {
    var v := WaveWord(x, y, z);
    DivModUnique(v, 32, z * 1024 + y, x);
    DivModUnique(z * 1024 + y, 1024, z, y);
    DivModUnique(v, 32768, z, y * 32 + x);
  }

  /** In range, distinct parameters give distinct frames. */
  lemma EncodeWaveInjective(x: int, y: int, z: int, x': int, y': int, z': int)
    requires InRange(x, y, z) && InRange(x', y', z')
    requires EncodeWave(x, y, z) == EncodeWave(x', y', z')
    ensures x == x' && y == y' && z == z'
  {
    WaveFieldsRecover(x, y, z);
    WaveFieldsRecover(x', y', z');
  }

  /** The endpoint set_wave_ writes to: channel A's for a ChannelA object, B's otherwise. */
  function EndpointFor(role: Role): Endpoint
  {
    if role == A then EStimA else EStimB
  }

  /** set_wave_: one write of the channel's frame, returning (x, y, z) unchanged. */
  function SetWave(ch: Channel): (r: Result<Outcome<(int, int, int)>>)
    reads ch
    ensures r.Ok? <==> EncodeWave(ch.waveX, ch.waveY, ch.waveZ).Ok?
    ensures r.Err? ==> r.error == OverflowError
    ensures r.Ok? ==> r.value.value == (ch.waveX, ch.waveY, ch.waveZ)
    ensures r.Ok? ==> (|r.value.writes| == 1
                       && r.value.writes[0].data == EncodeWave(ch.waveX, ch.waveY, ch.waveZ).value
                       && (r.value.writes[0].endpoint == EStimA <==> ch.role == A)
                       && (r.value.writes[0].endpoint == EStimB <==> ch.role == B))
  {
    match EncodeWave(ch.waveX, ch.waveY, ch.waveZ)
    case Err(e) => Err(e)
    case Ok(frame) => Ok(Outcome([Write(EndpointFor(ch.role), frame)], (ch.waveX, ch.waveY, ch.waveZ)))
  }

  /** The string set_wave_sync_ builds for one channel:
      the fixed prefix "0000", then z in 5 binary digits, y in 10, x in 5. */
  function SyncBits(x: int, y: int, z: int): (bits: seq<bool>)
    requires InRange(x, y, z)
    ensures |bits| == 24
  {
    Pow2Constants();
    BinFixed(0, 4) + BinFixed(z, 5) + BinFixed(y, 10) + BinFixed(x, 5)
  }

  /** One channel's frame of set_wave_sync_: the 24-bit string converted to bytes. */
  function SyncFrame(x: int, y: int, z: int): seq<byte>
    requires InRange(x, y, z)
  {
    BitsToBytes(SyncBits(x, y, z))
  }

  /** The synchronised frame is three bytes whose big-endian value is the waveform word,
      whose top four bits are zero, and which is the set_wave_ frame reversed. */
  lemma SyncFrameSpec(x: int, y: int, z: int)
    requires InRange(x, y, z)
    ensures |SyncFrame(x, y, z)| == 3
    ensures BeValue(SyncFrame(x, y, z)) == WaveWord(x, y, z)
    ensures SyncFrame(x, y, z)[0] < 16
    ensures EncodeWave(x, y, z).Ok? && SyncFrame(x, y, z) == Reverse(EncodeWave(x, y, z).value)
  {
    Pow2Constants();
    var zb, yb, xb := BinFixed(z, 5), BinFixed(y, 10), BinFixed(x, 5);
    var zeros := BinFixed(0, 4);
    BinValueConcat(zeros, zb);
    BinValueConcat(zeros + zb, yb);
    BinValueConcat(zeros + zb + yb, xb);
    assert BinValue(SyncBits(x, y, z)) == WaveWord(x, y, z);
    var f := SyncFrame(x, y, z);
    BitsToBytesValue(SyncBits(x, y, z));
    BeValue3(f);
    var e := EncodeWave(x, y, z).value;
    LeValueReversed(e);
    BeValueInjective(f, Reverse(e));
  }

  /** set_wave_sync_: channel A's frame to endpoint A, then channel B's to endpoint B;
      returns both channels' parameters. Out-of-range fields would widen the strings. */
  function SetWaveSync(value: Coyote): (r: Outcome<((int, int, int), (int, int, int))>)
    reads value.channelA, value.channelB
    requires InRange(value.channelA.waveX, value.channelA.waveY, value.channelA.waveZ)
    requires InRange(value.channelB.waveX, value.channelB.waveY, value.channelB.waveZ)
    ensures |r.writes| == 2 && r.writes[0].endpoint == EStimA && r.writes[1].endpoint == EStimB
    ensures r.value == ((value.channelA.waveX, value.channelA.waveY, value.channelA.waveZ),
                        (value.channelB.waveX, value.channelB.waveY, value.channelB.waveZ))
  {
    var a, b := value.channelA, value.channelB;
    Outcome([Write(EStimA, SyncFrame(a.waveX, a.waveY, a.waveZ)),
             Write(EStimB, SyncFrame(b.waveX, b.waveY, b.waveZ))],
            ((a.waveX, a.waveY, a.waveZ), (b.waveX, b.waveY, b.waveZ)))
  }

  /** Each frame set_wave_sync_ writes is the byte-reverse of the frame set_wave_ would
      write for the same channel, and carries the channel's word big-endian. */
  lemma SetWaveSyncReversesSetWave(value: Coyote)
    requires InRange(value.channelA.waveX, value.channelA.waveY, value.channelA.waveZ)
    requires InRange(value.channelB.waveX, value.channelB.waveY, value.channelB.waveZ)
    ensures SetWave(value.channelA).Ok? && SetWave(value.channelB).Ok?
    ensures SetWaveSync(value).writes[0].data == Reverse(SetWave(value.channelA).value.writes[0].data)
    ensures SetWaveSync(value).writes[1].data == Reverse(SetWave(value.channelB).value.writes[0].data)
    ensures BeValue(SetWaveSync(value).writes[0].data)
      == WaveWord(value.channelA.waveX, value.channelA.waveY, value.channelA.waveZ)
    ensures BeValue(SetWaveSync(value).writes[1].data)
      == WaveWord(value.channelB.waveX, value.channelB.waveY, value.channelB.waveZ)
  {
    var a, b := value.channelA, value.channelB;
    SyncFrameSpec(a.waveX, a.waveY, a.waveZ);
    SyncFrameSpec(b.waveX, b.waveY, b.waveZ);
  }

  /** (x, y, z) = (5, 200, 10): the word is 334085, sent as 05 19 05 in both forms. */
  lemma WaveExample()
    ensures EncodeWave(5, 200, 10) == Ok([5, 25, 5])
    ensures SyncFrame(5, 200, 10) == [5, 25, 5]
  {
    var e := EncodeWave(5, 200, 10).value;
    var expected: seq<byte> := [5, 25, 5];
    LeValue3(expected);
    LeValueInjective(e, expected);
    SyncFrameSpec(5, 200, 10);
    assert Reverse(expected) == expected;
  }

  /** (x, y, z) = (1, 0, 0): the word is 1, so the byte orders differ: set_wave_ sends
      01 00 00 and set_wave_sync_ sends 00 00 01. */
  lemma WaveByteOrderExample()
    ensures EncodeWave(1, 0, 0) == Ok([1, 0, 0])
    ensures SyncFrame(1, 0, 0) == [0, 0, 1]
  {
    var e := EncodeWave(1, 0, 0).value;
    var expected: seq<byte> := [1, 0, 0];
    LeValue3(expected);
    LeValueInjective(e, expected);
    SyncFrameSpec(1, 0, 0);
    assert Reverse(expected) == [0, 0, 1];
  }
}
