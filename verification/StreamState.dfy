/** The state that a stream codec keeps between calls. */
module StreamState {
  import opened Tables
  import Encoder
  import Decoder

  /** struct base64_state; both *_init functions set it the same way. */
  class Base64State {
    var eof: int
    var bytes: int
    var carry: byte
    var flags: int

    constructor (flags: int)
      ensures eof == 0 && bytes == 0 && carry == 0 && this.flags == flags
    {
      eof, bytes, carry, this.flags := 0, 0, 0, flags;
    }

    ghost function Decoding(): Decoder.State
      reads this
    {
      Decoder.State(eof, bytes, carry)
    }

    ghost function Encoding(): Encoder.State
      reads this
    {
      Encoder.State(bytes, carry)
    }
  }
}
