/** The device-side vocabulary the driver works with: the two channels, the control
    endpoints, and the frames written to them. */
module Device {
  import opened Bytes

  /** Which of the two channel classes a channel object is (ChannelA or ChannelB). */
  datatype Role = A | B

  /** The logical endpoints of a device profile; their transport identifiers are opaque. */
  datatype Endpoint = Battery | EStimPower | EStimA | EStimB

  /** One write on the transport: the endpoint and the bytes sent to it. */
  datatype Write = Write(endpoint: Endpoint, data: seq<byte>)

  /** What an encoding call sends, in order, and what it returns to its caller. */
  datatype Outcome<T> = Outcome(writes: seq<Write>, value: T)

  /** One output channel: its intensity and its three waveform parameters. */
  class Channel {
    const role: Role
    var strength: int
    var waveX: int
    var waveY: int
    var waveZ: int

    constructor (role: Role, strength: int, waveX: int, waveY: int, waveZ: int)
      ensures this.role == role && this.strength == strength
      ensures this.waveX == waveX && this.waveY == waveY && this.waveZ == waveZ
    {
      this.role := role;
      this.strength := strength;
      this.waveX, this.waveY, this.waveZ := waveX, waveY, waveZ;
    }
  }

  /** The device state a caller hands to the driver: both channels. */
  class Coyote {
    const channelA: Channel
    const channelB: Channel

    constructor (channelA: Channel, channelB: Channel)
      ensures this.channelA == channelA && this.channelB == channelB
    {
      this.channelA := channelA;
      this.channelB := channelB;
    }
  }
}
