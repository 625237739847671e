/** The power codec: get_strength_ decodes the power endpoint's frame into two raw 11-bit
    fields; set_strength_ packs both channels' intensities (times 11) into one frame and
    clamps the channels' stored intensities to zero when out of range. */
module Power {
  import opened Wrappers
  import opened Bytes
  import opened Bits
  import opened Device

  /** The two raw fields of a power frame, in protocol units (11 per intensity step). */
  datatype PowerFields = PowerFields(a: nat, b: nat)

  /** int(s, 2) on a string of binary digits: ValueError when the string is empty. */
  function ParseBinary(bits: seq<bool>): (r: Result<nat>)
    ensures r.Err? <==> bits == []
    ensures r.Err? ==> r.error == ValueError
    ensures r.Ok? ==> r.value == BinValue(bits) && r.value < Pow2(|bits|)
  {
    if bits == [] then Err(ValueError) else Ok(BinValue(bits))
  }

  /** The field extraction of get_strength_ on the reversed frame's bit string r:
      int(r[-22:-11], 2), then int(r[-11:], 2). */
  function DecodeBits(bits: seq<bool>): Result<PowerFields>
  {
    match ParseBinary(Slice(bits, -22, -11))
    case Err(e) => Err(e)
    case Ok(a) =>
      match ParseBinary(Slice(bits, -11, |bits|))
      case Err(e) => Err(e)
      case Ok(b) => Ok(PowerFields(a, b))
  }

  /** get_strength_ as a value: reverse the frame, take its bit string, extract the fields. */
  function DecodeStrength(frame: seq<byte>): Result<PowerFields>
  {
    DecodeBits(BitsOf(Reverse(frame)))
  }

  /** The physical reading of a raw field: the field divided by 11, as an exact rational. */
  function Reading(raw: nat): real
  {
    raw as real / 11.0
  }

  /** get_strength_ on the frame read from the power endpoint: the bytearray is reversed
      in place, then its bit string is cut into the two fields. */
  method GetStrength(frame: seq<byte>) returns (r: Result<PowerFields>)
    ensures r == DecodeStrength(frame)
  {
    var buf := new byte[|frame|](k requires 0 <= k < |frame| => frame[k]);
    var n := buf.Length;
    var i := 0;
    while i < n / 2
      invariant 0 <= i <= n / 2
      invariant forall k :: 0 <= k < i ==> buf[k] == frame[n - 1 - k] && buf[n - 1 - k] == frame[k]
      invariant forall k :: i <= k < n - i ==> buf[k] == frame[k]
    {
      buf[i], buf[n - 1 - i] := buf[n - 1 - i], buf[i];
      i := i + 1;
    }
    assert buf[..] == Reverse(frame);
    r := DecodeBits(BitsOf(buf[..]));
  }

  /** Decoding succeeds exactly for frames of two or more bytes; the fields are the 11-bit
      groups at bits 11..21 and 0..10 of the frame read little-endian, so each is below 2048. */
  lemma DecodeStrengthFields(frame: seq<byte>)
    ensures DecodeStrength(frame).Ok? <==> |frame| >= 2
    ensures |frame| < 2 ==> DecodeStrength(frame) == Err(ValueError)
    ensures |frame| >= 2 ==>
      DecodeStrength(frame).value == PowerFields(LeValue(frame) / 2048 % 2048, LeValue(frame) % 2048)
  {
    var bits := BitsOf(Reverse(frame));
    LeValueReversed(frame);
    BitsOfValue(Reverse(frame));
    if |frame| < 2 {
      ShortBitsFail(bits);
    } else {
      LongBitsFields(bits);
    }
  }

  lemma ShortBitsFail(bits: seq<bool>)
    requires |bits| <= 8
    ensures DecodeBits(bits) == Err(ValueError)
  {
    assert Slice(bits, -22, -11) == [];
  }

  lemma LongBitsFields(bits: seq<bool>)
    requires 16 <= |bits|
    requires |bits| >= 22 || |bits| == 16
    ensures DecodeBits(bits) == Ok(PowerFields(BinValue(bits) / 2048 % 2048, BinValue(bits) % 2048))
  {
    var n := |bits|;
    var lo := if n >= 22 then n - 22 else 0;
    var high, low := Slice(bits, -22, -11), Slice(bits, -11, n);
    SliceFromEnd(bits, -22, -11);
    SliceTail(bits, -11);
    assert high == bits[lo..n - 11];
    assert low == bits[n - 11..];
    HighField(bits, lo);
    LowField(bits);
    assert ParseBinary(high) == Ok(BinValue(bits) / 2048 % 2048);
    assert ParseBinary(low) == Ok(BinValue(bits) % 2048);
  }

  lemma LowField(bits: seq<bool>)
    requires 11 <= |bits|
    ensures BinValue(bits[|bits| - 11..]) == BinValue(bits) % 2048
  {
    Pow2Constants();
    BinValueSuffix(bits, |bits| - 11);
  }

  lemma HighField(bits: seq<bool>, lo: nat)
    requires |bits| >= 22 || |bits| == 16
    requires lo == if |bits| >= 22 then |bits| - 22 else 0
    ensures BinValue(bits[lo..|bits| - 11]) == BinValue(bits) / 2048 % 2048
  {
    var n := |bits|;
    BinValueMiddle(bits, lo, n - 11);
    assert n - (n - 11) == 11;
    HighFieldValue(BinValue(bits), n - lo, n);
  }

  lemma HighFieldValue(v: nat, width: nat, n: nat)
    requires v < Pow2(n)
    requires width == 22 || (width == 16 && n == 16)
    ensures v % Pow2(width) / Pow2(11) == v / 2048 % 2048
  {
    Pow2Constants();
    if width == 22 {
      ModThenDiv(v, 2048, 2048);
    } else {
      Pow2Add(11, 5);
      SmallHigh(v);
    }
  }

  lemma SmallHigh(v: nat)
    requires v < 65536
    ensures v % 65536 / 2048 == v / 2048 % 2048
  {
  }

  /** The two most significant bits of a three-byte frame do not affect the decoding. */
  lemma DecodeIgnoresTopBits(f: seq<byte>, g: seq<byte>)
    requires |f| == 3 && |g| == 3
    requires f[0] == g[0] && f[1] == g[1] && f[2] % 64 == g[2] % 64
    ensures DecodeStrength(f) == DecodeStrength(g)
  {
    DecodeStrengthFields(f);
    DecodeStrengthFields(g);
    var w := f[0] as int + 256 * f[1] as int + 65536 * (f[2] as int % 64);
    TopBitsSplit(f, w);
    TopBitsSplit(g, w);
  }

  /** A three-byte frame's value splits into its low 22 bits w and the top two bits. */
  lemma TopBitsSplit(f: seq<byte>, w: nat)
    requires |f| == 3 && w == f[0] as int + 256 * f[1] as int + 65536 * (f[2] as int % 64)
    ensures LeValue(f) / 2048 % 2048 == w / 2048 % 2048 && LeValue(f) % 2048 == w % 2048
  {
    LeValue3(f);
    var h := f[2] as int / 64;
    assert LeValue(f) == w + 4194304 * h;
    HighBitsDropped(w, h);
  }

  lemma HighBitsDropped(w: nat, h: nat)
    requires w < 4194304
    ensures (w + 4194304 * h) / 2048 % 2048 == w / 2048 % 2048
    ensures (w + 4194304 * h) % 2048 == w % 2048
  {
    var v := w + 4194304 * h;
    var q := w / 2048 + 2048 * h;
    assert v == q * 2048 + w % 2048;
    DivModUnique(v, 2048, q, w % 2048);
    assert w / 2048 < 2048;
    DivModUnique(q, 2048, h, w / 2048);
  }

  /** The word set_strength_ serialises: (strengthA << 11) + strengthB with each strength
      first multiplied by 11. */
  function PowerWord(a: int, b: int): int
  {
    11 * a * 2048 + 11 * b
  }

  /** The frame of set_strength_: the word's three bytes, little-endian; OverflowError
      when the word is negative or does not fit in three bytes. */
  function EncodeStrength(a: int, b: int): (r: Result<seq<byte>>)
    ensures r.Ok? <==> 0 <= PowerWord(a, b) < 16777216
    ensures r.Ok? ==> |r.value| == 3 && LeValue(r.value) == PowerWord(a, b)
    ensures r.Err? ==> r.error == OverflowError
  {
    Pow256Three();
    ToBytesLittle(PowerWord(a, b), 3)
  }

  /** The clamp of set_strength_: an intensity outside [0, 2047] becomes 0. */
  function Clamp(s: int): (c: int)
    ensures 0 <= c <= 2047
    ensures c == s || c == 0
    ensures c == s <==> 0 <= s <= 2047
  {
    if s < 0 || s > 2047 then 0 else s
  }

  /** What set_strength_ writes and returns for intensities a and b: the frame built from
      the unclamped values, sent to the power endpoint, and the clamped values. */
  function StrengthOutcome(a: int, b: int): Result<Outcome<(int, int)>>
  {
    match EncodeStrength(a, b)
    case Err(e) => Err(e)
    case Ok(frame) => Ok(Outcome([Write(EStimPower, frame)], (Clamp(a), Clamp(b))))
  }

  /** set_strength_: both products are taken before the clamp rewrites the channels'
      strengths in place; the serialisation, which may fail, comes after the clamp. */
  method SetStrength(value: Coyote) returns (r: Result<Outcome<(int, int)>>)
    modifies value.channelA`strength, value.channelB`strength
    ensures value.channelA.strength == Clamp(old(value.channelA.strength))
    ensures value.channelB.strength == Clamp(old(value.channelB.strength))
    ensures r == StrengthOutcome(old(value.channelA.strength), old(value.channelB.strength))
  {
    var strengthA := value.channelA.strength * 11;
    var strengthB := value.channelB.strength * 11;
    if value.channelA.strength < 0 || value.channelA.strength > 2047 {
      value.channelA.strength := 0;
    }
    if value.channelB.strength < 0 || value.channelB.strength > 2047 {
      value.channelB.strength := 0;
    }
    var frame := ToBytesLittle(strengthA * 2048 + strengthB, 3);
    if frame.Err? {
      return Err(frame.error);
    }
    Pow256Three();
    r := Ok(Outcome([Write(EStimPower, frame.value)], (value.channelA.strength, value.channelB.strength)));
  }

  /** The set_strength_ outcome reports the clamped intensities, and its frame is the same
      whatever the clamp does. */
  lemma StrengthOutcomeClamps(a: int, b: int)
    ensures StrengthOutcome(a, b).Ok? <==> 0 <= PowerWord(a, b) < 16777216
    ensures StrengthOutcome(a, b).Ok? ==>
      StrengthOutcome(a, b).value.value == (Clamp(a), Clamp(b))
      && |StrengthOutcome(a, b).value.writes| == 1
      && StrengthOutcome(a, b).value.writes[0].endpoint == EStimPower
      && |StrengthOutcome(a, b).value.writes[0].data| == 3
      && LeValue(StrengthOutcome(a, b).value.writes[0].data) == PowerWord(a, b)
  {
  }

  /** Intensities whose protocol units fit in 11 bits come back from the device's frame:
      the raw fields are 11a and 11b, the readings are a and b. */
  lemma PowerRoundTrip(a: int, b: int)
    requires 0 <= a && 0 <= b && 11 * a <= 2047 && 11 * b <= 2047
    ensures StrengthOutcome(a, b).Ok?
    ensures StrengthOutcome(a, b).value.value == (a, b)
    ensures DecodeStrength(EncodeStrength(a, b).value) == Ok(PowerFields(11 * a, 11 * b))
    ensures Reading(11 * a) == a as real && Reading(11 * b) == b as real
  {
    var word := 11 * a * 2048 + 11 * b;
    assert 0 <= word < 16777216;
    var frame := EncodeStrength(a, b).value;
    assert LeValue(frame) == word;
    DecodeStrengthFields(frame);
    DivModUnique(word, 2048, 11 * a, 11 * b);
    DivModUnique(11 * a, 2048, 0, 11 * a);
    assert word / 2048 % 2048 == 11 * a;
    assert DecodeStrength(frame) == Ok(PowerFields(word / 2048 % 2048, word % 2048));
  }

  /** Intensities from 187 to 2047 pass the clamp, but 11 times them no longer fits
      channel B's 11-bit field: the excess lands in channel A's field. */
  lemma StrengthFieldOverflow(b: int)
    requires 187 <= b <= 2047
    ensures Clamp(b) == b && StrengthOutcome(0, b).Ok?
    ensures DecodeStrength(EncodeStrength(0, b).value) == Ok(PowerFields(11 * b / 2048, 11 * b % 2048))
    ensures 11 * b / 2048 >= 1 && 11 * b % 2048 != 11 * b
  {
    var frame := EncodeStrength(0, b).value;
    assert LeValue(frame) == 11 * b;
    DecodeStrengthFields(frame);
    var q := 11 * b / 2048;
    DivModUnique(11 * b, 2048, q, 11 * b % 2048);
    assert q < 11;
    DivModUnique(q, 2048, 0, q);
    assert DecodeStrength(frame) == Ok(PowerFields((11 * b) / 2048 % 2048, (11 * b) % 2048));
  }

  /** Channel A's units alone overflow three bytes from 745 up when b is not negative. */
  lemma StrengthWordOverflow(a: int, b: int)
    requires a >= 745 && b >= 0
    ensures EncodeStrength(a, b) == Err(OverflowError)
  {
    assert 11 * a * 2048 >= 11 * 745 * 2048;
  }

  /** At 744 the largest in-range b already overflows; a negative b can bring a large
      a back into range. */
  lemma StrengthWordExample()
    ensures EncodeStrength(744, 2047) == Err(OverflowError)
    ensures EncodeStrength(745, -1000).Ok?
  {
  }

  /** Out-of-range intensities: both stored strengths become 0, and for (-5, 3000) the
      word 11 * -5 * 2048 + 11 * 3000 is negative, so the serialisation fails. */
  lemma ClampExample()
    ensures Clamp(-5) == 0 && Clamp(3000) == 0
    ensures StrengthOutcome(-5, 3000) == Err(OverflowError)
  {
  }
}
