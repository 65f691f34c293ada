/** The pixel colour and the per-pixel channel arithmetic of the codec. */
module Colors {
  import opened Bits

  /** One 8-bit colour channel; java.awt.Color refuses anything else. */
  type Channel = x: int | 0 <= x < 256

  /** An RGB triple: the colour a pixel holds. */
  datatype Color = Color(red: Channel, green: Channel, blue: Channel)

  /** The two high bits of a channel, scaled back to a channel value: all
      that survives of a secret channel after hiding and revealing it. */
  function Coarse(ch: Channel): (r: Channel)
    ensures r % 64 == 0 && ch - 64 < r <= ch
  {
    (ch / 64) * 64
  }

  /** `(ch / 4) * 4`: rounds a channel down to a multiple of 4. */
  function ClearLowChannel(ch: Channel): (r: Channel)
    ensures r % 4 == 0
    ensures ch - 4 < r <= ch
  {
    (ch / 4) * 4
  }

  /** `(ch & 0b11111100) | bits`: the top six bits of ch with `bits` below. */
  function PutLow(ch: Channel, bits: int): (r: Channel)
    requires 0 <= bits < 4
    ensures r / 4 == ch / 4
    ensures r % 4 == bits
  {
    AndHighSix(ch);
    assert ch - ch % 4 == (ch / 4) * Pow2(2);
    OrDisjoint(ch / 4, bits, 2);
    Or(And(ch, 252), bits)
  }

  /** `(ch & 0b11111100) | (payload >> 6)`: stashes the two high bits of
      payload in the two low bits of ch. */
  function SetLowChannel(ch: Channel, payload: Channel): (r: Channel)
    ensures r / 4 == ch / 4
    ensures r % 4 == payload / 64
  {
    PutLow(ch, Shr(payload, 6))
  }

  /** `(ch & 0b00000011) << 6`: moves the two low bits to the top. */
  function RevealChannel(ch: Channel): (r: Channel)
    ensures r == (ch % 4) * 64
    ensures r == 0 || r == 64 || r == 128 || r == 192
  {
    AndThree(ch);
    Shl(And(ch, 3), 6)
  }

  /** clearLow: every channel rounded down to a multiple of 4. */
  function ClearLow(p: Color): (q: Color)
    ensures q.red % 4 == 0 && p.red - 4 < q.red <= p.red
    ensures q.green % 4 == 0 && p.green - 4 < q.green <= p.green
    ensures q.blue % 4 == 0 && p.blue - 4 < q.blue <= p.blue
  {
    Color(ClearLowChannel(p.red), ClearLowChannel(p.green), ClearLowChannel(p.blue))
  }

  /** setLow: the top two bits of each channel of c go into the low two
      bits of the same channel of p. */
  function SetLow(p: Color, c: Color): (q: Color)
    ensures q.red / 4 == p.red / 4 && q.red % 4 == c.red / 64
    ensures q.green / 4 == p.green / 4 && q.green % 4 == c.green / 64
    ensures q.blue / 4 == p.blue / 4 && q.blue % 4 == c.blue / 64
  {
    Color(SetLowChannel(p.red, c.red), SetLowChannel(p.green, c.green), SetLowChannel(p.blue, c.blue))
  }

  /** The colour revealPicture gives a pixel. */
  function Reveal(p: Color): (q: Color)
    ensures q.red == (p.red % 4) * 64 && q.green == (p.green % 4) * 64 && q.blue == (p.blue % 4) * 64
  {
    Color(RevealChannel(p.red), RevealChannel(p.green), RevealChannel(p.blue))
  }

  /** The colour a secret pixel comes back as. */
  function CoarseColor(p: Color): Color
  {
    Color(Coarse(p.red), Coarse(p.green), Coarse(p.blue))
  }

  /** Clearing the low bits twice changes nothing more. */
  lemma ClearLowIdempotent(p: Color)
    ensures ClearLow(ClearLow(p)) == ClearLow(p)
  {}

  /** Revealing a pixel that hides c gives back the coarse version of c,
      whatever the carrier pixel was. */
  lemma RevealSetLow(p: Color, c: Color)
    ensures Reveal(SetLow(p, c)) == CoarseColor(c)
  {}

  /** A revealed pixel has every channel in {0, 64, 128, 192}. */
  lemma RevealIsCoarse(p: Color)
    ensures Reveal(p) == CoarseColor(Reveal(p))
    ensures Reveal(p).red % 64 == 0 && Reveal(p).green % 64 == 0 && Reveal(p).blue % 64 == 0
  {}
}
