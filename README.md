# DG-LAB Coyote driver: protocol codec and device selection

A Dafny model of the core of `pydglab/bthandler.py`, the Bluetooth handler of a Python driver
for the DG-LAB Coyote, a two-channel electrical-stimulation device. The Bluetooth calls are
stripped away. What is left is the arithmetic and byte handling around them:

- **Discovery.** `scan` filters the scanner's advertisements by the device profile's name.
  `scan_` picks one address among the candidates that pass.
- **Power codec.** `get_strength_` decodes the power endpoint's 3-byte frame into two 11-bit
  fields. `set_strength_` packs both channels' intensities, multiplied by 11, into one frame.
  It also clamps each channel's stored intensity to 0 when that intensity is outside [0, 2047].
- **Waveform codec.** `set_wave_` packs one channel's `(x, y, z)` into a little-endian frame
  and sends it to that channel's endpoint. `set_wave_sync_` builds both channels' frames from
  zero-padded binary strings.

Transport reads become inputs: the advertisement list, and the frame read from the power
endpoint. Transport writes become outputs: an `Outcome` lists each write as an endpoint and
its bytes, in the order the code issues them, next to the value the Python function returns.
The channel objects that `set_strength_` updates in place are a class,
`Device.Channel`, held by `Device.Coyote`. The runtime type test `type(value) is ChannelA`
becomes a `Role` field. A string of binary digits, as the `bitstring` library and Python's
`format` produce it, is a `seq<bool>`, most significant bit first. Python's negative slice
bounds and `int(s, 2)` are modelled as written (`Bits.Slice`, `Power.ParseBinary`).

Modules: `Wrappers` (results and error kinds), `Bytes` (byte sequences, byte orders,
`int.to_bytes`), `Bits` (bit strings), `Device` (channels, endpoints, writes),
`Discovery`, `Power`, `Waveform`.

Behaviour of the code that the model makes explicit:

- A power frame of any length of two bytes or more decodes. A frame shorter than that makes
  the slice `r[-22:-11]` empty, and `int('', 2)` raises ValueError (`Power.DecodeStrengthFields`).
- `set_strength_` clamps the stored intensities *before* `to_bytes` runs. When `to_bytes`
  raises OverflowError, the channels have already been rewritten (`Power.SetStrength`).
- Since (-5, 3000) clamps to (0, 0), one might expect it to encode like (0, 0). In the code
  the frame is built from the unclamped values: the word 11·(−5)·2048 + 11·3000 is negative,
  so `to_bytes` raises OverflowError (`Power.ClampExample`).
- The clamp admits intensities up to 2047, but a protocol unit is 11 times the intensity.
  From 187 up, channel B's units exceed 11 bits and carry into channel A's field
  (`Power.StrengthFieldOverflow`). Channel A's units alone overflow three bytes from 745 up
  when b is not negative; at 744 a large b already overflows (`Power.StrengthWordOverflow`, `Power.StrengthWordExample`).
- `scan_` sorts ascending by RSSI and takes the first candidate. This picks the weakest
  signal, although its warning says the closest device is chosen (see Findings).

## Model

| member | source | states |
|---|---|---|
| `Bytes.ToBytesLittle` | pydglab/bthandler.py:75 | `v.to_bytes(n, "little")` succeeds exactly when 0 <= v < 256^n and otherwise fails with OverflowError; on success it gives n bytes whose little-endian value is v |
| `Bytes.LeValueReversed` | pydglab/bthandler.py:49-50 | the reversed frame, read big-endian, has the value of the frame read little-endian |
| `Bits.BinValue` | pydglab/bthandler.py:52 | the value `int(s, 2)` gives a binary string is below 2 to the string's length |
| `Bits.BinFixed` | pydglab/bthandler.py:115-117 | `"{0:0wb}".format(v)` for v < 2^w has w digits and reads back as v |
| `Bits.SliceFromEnd` | pydglab/bthandler.py:52 | Python's `s[i:j]` with negative bounds is the range from len(s) + i to len(s) + j; a start before the beginning is clamped to 0 (as `r[-22:-11]` is on a 2-byte frame), and a stop before the beginning gives the empty slice |
| `Bits.SliceTail` | pydglab/bthandler.py:52 | `s[i:]` with -len(s) <= i < 0 is the last -i elements |
| `Bits.BitsOfValue` | pydglab/bthandler.py:50 | `BitArray(r).bin` reads as the big-endian value of r |
| `Bits.BitsToBytesValue` | pydglab/bthandler.py:119 | the bytes `BitArray(bin=s).tobytes()` returns for a whole-byte string read big-endian as the string's value |
| `Discovery.Scan` | pydglab/bthandler.py:12-27 | the loop's list equals the candidates `Matching` assigns the advertisements |
| `Discovery.MatchingMembers` | pydglab/bthandler.py:21-24 | a candidate is in the list exactly when some advertisement has the profile's name and an address and yields that (address, RSSI) |
| `Discovery.MatchingAppend` | pydglab/bthandler.py:21-24 | the list keeps discovery order: advertisements found later give candidates placed later |
| `Discovery.MatchingEmpty` | pydglab/bthandler.py:25-27 | the list is empty, with no error, exactly when no advertisement matches |
| `Discovery.SortPermutes` | pydglab/bthandler.py:38 | the RSSI sort is a permutation of the candidates |
| `Discovery.SortSorted` | pydglab/bthandler.py:38 | the RSSI sort is ascending |
| `Discovery.SortHead` | pydglab/bthandler.py:38 | the first element of the stable sort is the earliest candidate of minimal RSSI |
| `Discovery.SelectTarget` | pydglab/bthandler.py:32-38 | selection fails with NoDeviceFound exactly when there is no candidate |
| `Discovery.SelectTargetChoosesWeakest` | pydglab/bthandler.py:38 | a successful selection is the address of a candidate whose RSSI is minimal and lower than that of every earlier candidate |
| `Discovery.ScanAndSelect` | pydglab/bthandler.py:30-38 | `scan_` is the selection applied to `scan`'s list; it fails with NoDeviceFound exactly when no advertisement matches |
| `Discovery.SelectClosest` | pydglab/bthandler.py:35 | the corrected selection returns the earliest candidate of maximal RSSI, and fails exactly on an empty list |
| `Discovery.SelectTargetPicksWeakest` | pydglab/bthandler.py:34-38 | given candidates at -40 and -80, `scan_` picks the one at -80 and the corrected selection picks the one at -40 |
| `Discovery.ScanExample` | pydglab/bthandler.py:21-24 | of two advertisements, only the one carrying the profile's name is kept |
| `Power.ParseBinary` | pydglab/bthandler.py:52 | `int(s, 2)` fails with ValueError exactly on the empty string and otherwise gives the string's binary value |
| `Power.GetStrength` | pydglab/bthandler.py:46-52 | reversing the frame in place and cutting its bit string gives the decoding `DecodeStrength` defines |
| `Power.DecodeStrengthFields` | pydglab/bthandler.py:49-52 | decoding succeeds exactly for frames of at least two bytes, shorter ones failing with ValueError; the fields are (v >> 11) % 2048 and v % 2048 of the frame's little-endian value v |
| `Power.DecodeIgnoresTopBits` | pydglab/bthandler.py:50-52 | 3-byte frames that differ only in their two top bits decode alike |
| `Power.EncodeStrength` | pydglab/bthandler.py:60-75 | the frame exists exactly when 11a·2048 + 11b lies in [0, 2^24), and fails with OverflowError otherwise; it is 3 bytes whose little-endian value is that word |
| `Power.Clamp` | pydglab/bthandler.py:62-73 | the stored intensity is the input when the input is in [0, 2047], and 0 otherwise |
| `Power.SetStrength` | pydglab/bthandler.py:55-82 | each channel's strength becomes its clamped value and no other field changes; the result is the frame of the unclamped values to the power endpoint with the clamped values, or the serialisation error |
| `Power.StrengthOutcomeClamps` | pydglab/bthandler.py:60-82 | the call succeeds exactly when the unclamped word fits; it then returns the clamped values and writes one 3-byte frame to the power endpoint whose little-endian value is the word of the unclamped (a, b), so the clamp never changes the bytes |
| `Power.PowerRoundTrip` | pydglab/bthandler.py:52-75 | for 0 <= a, b with 11a, 11b <= 2047, encoding succeeds, returns (a, b), and decoding gives fields 11a and 11b, that is, readings a and b |
| `Power.StrengthFieldOverflow` | pydglab/bthandler.py:60-75 | for 187 <= b <= 2047 the clamp keeps b, and the decoded fields of the (0, b) frame are 11b / 2048 (at least 1) and 11b % 2048, not 0 and 11b |
| `Power.StrengthWordOverflow` | pydglab/bthandler.py:60-75 | for a >= 745 and b >= 0 the call fails with OverflowError |
| `Power.StrengthWordExample` | pydglab/bthandler.py:60-75 | (744, 2047) fails with OverflowError, while (745, -1000) encodes |
| `Power.ClampExample` | pydglab/bthandler.py:60-75 | (-5, 3000) clamp to (0, 0), yet the call fails with OverflowError |
| `Waveform.EncodeWave` | pydglab/bthandler.py:91-93 | the frame exists exactly when (z << 15) + (y << 5) + x lies in [0, 2^24), and fails with OverflowError otherwise; it is 3 bytes whose little-endian value is that word |
| `Waveform.WaveFieldsRecover` | pydglab/bthandler.py:91-93 | for in-range fields the frame's value v gives back x = v % 32, y = (v >> 5) % 1024 and z = v >> 15 |
| `Waveform.EncodeWaveInjective` | pydglab/bthandler.py:91-93 | in-range parameters with equal frames are equal |
| `Waveform.SetWave` | pydglab/bthandler.py:85-106 | one write of the channel's frame, to endpoint A exactly when the channel is A (B otherwise); returns (x, y, z) unchanged |
| `Waveform.SyncFrameSpec` | pydglab/bthandler.py:113-119 | the synchronised frame is 3 bytes with big-endian value (z << 15) + (y << 5) + x and a zero top nibble; it is the reverse of the single-channel frame |
| `Waveform.SetWaveSync` | pydglab/bthandler.py:109-136 | two writes, channel A's frame to endpoint A first, then channel B's to endpoint B; returns both parameter triples |
| `Waveform.SetWaveSyncReversesSetWave` | pydglab/bthandler.py:91-131 | each synchronised frame is the byte-reverse of the frame `set_wave_` writes for that channel, and reads big-endian as the channel's word |
| `Waveform.WaveExample` | pydglab/bthandler.py:91-119 | (x, y, z) = (5, 200, 10) is sent as bytes 05 19 05 in both forms |
| `Waveform.WaveByteOrderExample` | pydglab/bthandler.py:91-119 | (x, y, z) = (1, 0, 0) is sent as 01 00 00 by `set_wave_` and as 00 00 01 by `set_wave_sync_` |

## Left out

- Bluetooth I/O: discovery, `read_gatt_char`, `write_gatt_char` and the connection lifecycle are not modelled. Advertisements and read frames are inputs; writes are returned.
- Transport failures, including a failed second write in `set_wave_sync_` after the first has succeeded: the transport is not modelled, so the non-atomic pair of writes is only visible as two separate entries in the returned list.
- `get_batterylevel_`: a raw read with no logic of its own.
- Logging, in `bthandler.py` and in the environment-driven setup of `pydglab/__init__.py`: it has no effect on any result.
- The float division by 11 in `get_strength_`: `Power.Reading` states it as an exact rational, not as floating point.
- `async`/`await`: the calls run one step after another, and nothing concurrent is modelled.
- `pydglab/model.py` and `pydglab/uuid.py` are not part of this model. The profile's name is a parameter, endpoints are the abstract `Device.Endpoint`, and channels are `Device.Channel`.
- Strengths and waveform fields are integers. `int()` applied to a float or None strength, as well as the unreachable `None` test at line 63, is not modelled.
- Waveform.SetWaveSync: requires every field to lie within its bit width. Too-large fields give wider strings and longer frames; a negative field gives a minus sign, and `BitArray(bin=…)` raises before either write. Neither case is modelled.
- Discovery.SortByRssi: stability is proved only for the head of the sorted list (`Discovery.SortHead`), the one element the selection reads.

## Findings

| source | as written | input that shows it | evidently intended | confidence | as-written member | corrected member |
|---|---|---|---|---|---|---|
| pydglab/bthandler.py:35-38 | sorts candidates ascending by RSSI and takes the first, which is the weakest signal | candidates ("A1", -40) and ("A2", -80): "A2" is chosen | choose the closest device, the one with the strongest signal (highest RSSI), as the warning at line 35 says | not executed; medium (the code's own message says "closest") | `Discovery.SelectTargetPicksWeakest` | `Discovery.SelectClosest` |

`Discovery.ScanAndSelect` keeps the policy the code has. `Discovery.SelectClosest` is the
alternative a caller would use if the closest-device policy were adopted.
