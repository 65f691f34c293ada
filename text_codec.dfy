/** Hiding a text in the low bits of a picture, one code per pixel in
    row-major order, and reading it back. */
module TextCodec {
  import opened Bits
  import opened Colors
  import opened Pictures
  import opened Results
  import opened Transcoder

  /** The base-4 digits getBitPairs takes from code, n of them, least
      significant first, with Java's truncating `%` and `/`. */
  function DigitsFrom(code: int, n: nat): (d: seq<int>)
    ensures |d| == n
    ensures forall i :: 0 <= i < n ==> -4 < d[i] < 4
    ensures code >= 0 ==> forall i :: 0 <= i < n ==> 0 <= d[i]
    decreases n
  {
    if n == 0 then [] else [Rem(code, 4)] + DigitsFrom(Quot(code, 4), n - 1)
  }

  /** The three bit pairs of a code. */
  function Digits(code: int): (d: seq<int>)
    ensures |d| == 3
    ensures code >= 0 ==> forall i :: 0 <= i < 3 ==> 0 <= d[i] < 4
  {
    DigitsFrom(code, 3)
  }

  /** A code below 64 splits into three digits 0..3 that rebuild it. */
  lemma DigitsOfCode(n: int)
    requires 0 <= n < 64
    ensures |Digits(n)| == 3
    ensures forall i :: 0 <= i < 3 ==> 0 <= Digits(n)[i] < 4
    ensures Digits(n)[0] + 4 * Digits(n)[1] + 16 * Digits(n)[2] == n
    ensures Digits(n) == [n % 4, n / 4 % 4, n / 16]
  {
    var q1 := n / 4;
    var q2 := q1 / 4;
    assert n == 4 * q1 + n % 4 && 0 <= n % 4 < 4;
    assert q1 == 4 * q2 + q1 % 4 && 0 <= q1 % 4 < 4;
    assert q1 < 16 && q2 < 4;
    DivUnique(n, q2, 4 * (q1 % 4) + n % 4, 16);
    DivUnique(q2, 0, q2, 4);
    assert DigitsFrom(q2, 1) == [q2];
    assert DigitsFrom(q1, 2) == [q1 % 4, q2];
    assert Digits(n) == [n % 4, q1 % 4, q2];
  }

  /** getBitPairs: fills a 3-element array with code % 4, dividing code by
      4 after each step. */
  method GetBitPairs(num: int) returns (bits: array<int>)
    ensures bits.Length == 3 && bits[..] == Digits(num)
  {
    bits := new int[3];
    var code := num;
    for i := 0 to 3
      invariant bits[..i] + DigitsFrom(code, 3 - i) == Digits(num)
    {
      assert DigitsFrom(code, 3 - i) == [Rem(code, 4)] + DigitsFrom(Quot(code, 4), 3 - i - 1);
      bits[i] := Rem(code, 4);
      code := Quot(code, 4);
      assert bits[..i + 1] == bits[..i] + [bits[i]];
    }
    assert bits[..] == bits[..3];
  }

  /** The colour a pixel gets when it carries code: each channel keeps its
      top six bits, and red, green and blue take the code's base-4 digits
      from the least significant up. */
  function HideCode(p: Color, code: int): Color
    requires 0 <= code < 64
  {
    Color(p.red / 4 * 4 + code % 4, p.green / 4 * 4 + code / 4 % 4, p.blue / 4 * 4 + code / 16)
  }

  /** The code revealText reads from a pixel:
      (blue & 3) << 4 | (green & 3) << 2 | (red & 3). */
  function PixelCode(p: Color): (code: int)
    ensures code == 16 * (p.blue % 4) + 4 * (p.green % 4) + p.red % 4
    ensures 0 <= code < 64
  {
    var blue, green, red := And(p.blue, 3), And(p.green, 3), And(p.red, 3);
    AndThree(p.red);
    AndThree(p.green);
    AndThree(p.blue);
    PackPairs(blue, green, red);
    Or(Or(Shl(blue, 4), Shl(green, 2)), red)
  }

  /** Three bit pairs shifted to bits 4-5, 2-3 and 0-1 do not overlap, so
      or-ing them adds them. */
  lemma PackPairs(blue: nat, green: nat, red: nat)
    requires blue < 4 && green < 4 && red < 4
    ensures Or(Or(Shl(blue, 4), Shl(green, 2)), red) == 16 * blue + 4 * green + red
  {
    assert Pow2(2) == 4 && Pow2(4) == 16;
    OrDisjoint(blue, Shl(green, 2), 4);
    assert Or(Shl(blue, 4), Shl(green, 2)) == (4 * blue + green) * Pow2(2);
    OrDisjoint(4 * blue + green, red, 2);
  }

  /** A pixel that carries a code gives that code back, and only the low
      two bits of its channels changed. */
  lemma PixelCodeHideCode(p: Color, code: int)
    requires 0 <= code < 64
    ensures PixelCode(HideCode(p, code)) == code
    ensures var q := HideCode(p, code);
      q.red / 4 == p.red / 4 && q.green / 4 == p.green / 4 && q.blue / 4 == p.blue / 4
  {
    var q := HideCode(p, code);
    DigitsOfCode(code);
    DivUnique(q.red, p.red / 4, code % 4, 4);
    DivUnique(q.green, p.green / 4, code / 4 % 4, 4);
    DivUnique(q.blue, p.blue / 4, code / 16, 4);
  }

  /** Putting the base-4 digits of a code into the low bits of a pixel's
      channels, as hideText does, gives the pixel that carries the code. */
  lemma PutDigits(p: Color, code: int)
    requires 0 <= code < 64
    ensures |Digits(code)| == 3 && forall i :: 0 <= i < 3 ==> 0 <= Digits(code)[i] < 4
    ensures Color(PutLow(p.red, Digits(code)[0]), PutLow(p.green, Digits(code)[1]),
                  PutLow(p.blue, Digits(code)[2])) == HideCode(p, code)
  {
    DigitsOfCode(code);
  }

  /** The scan with the first |codes| pixels carrying the codes. */
  function HideCodes(ps: seq<Color>, codes: seq<int>): (hs: seq<Color>)
    requires forall i :: 0 <= i < |codes| ==> 0 <= codes[i] < 64
    ensures |hs| == |ps|
  {
    seq(|ps|, k requires 0 <= k < |ps| => if k < |codes| then HideCode(ps[k], codes[k]) else ps[k])
  }

  /** The codes of a scan of pixels. */
  function ScanCodes(ps: seq<Color>): seq<int>
  {
    seq(|ps|, k requires 0 <= k < |ps| => PixelCode(ps[k]))
  }

  /** The message in a code sequence: every code before the first 0, or
      all of them when there is no 0. */
  function Message(codes: seq<int>): (m: seq<int>)
    ensures |m| <= |codes| && m == codes[..|m|]
    ensures 0 !in m
    ensures |m| < |codes| ==> codes[|m|] == 0
  {
    if codes == [] || codes[0] == 0 then []
    else
      var rest := Message(codes[1..]);
      assert codes == [codes[0]] + codes[1..];
      [codes[0]] + rest
  }

  /** The message of codes with no 0 before position k, where a 0 stands. */
  lemma MessageUpTo(codes: seq<int>, k: int)
    requires 0 <= k <= |codes| && 0 !in codes[..k]
    requires k < |codes| ==> codes[k] == 0
    ensures Message(codes) == codes[..k]
  {
  }

  /** The text revealText finds in a scan of pixels. */
  function RevealScan(ps: seq<Color>): Result<string>
  {
    Decode(Message(ScanCodes(ps)))
  }

  /** hideText: encodes s and writes code i into pixel i of the row-major
      scan, for as many codes as the picture has pixels; the pixels after
      them are left alone. */
  method HideText(source: Picture, s: string)
    modifies source
    ensures forall r, c :: 0 <= r < source.Length0 && 0 <= c < source.Length1 ==>
      source[r, c] ==
        if ScanIndex(r, c, source.Length1) < |s| + 1
        then HideCode(old(source[r, c]), Encode(s)[ScanIndex(r, c, source.Length1)])
        else old(source[r, c])
    ensures Flat(source) == HideCodes(old(Flat(source)), Encode(s))
  {
    FlatCells(source);
    ghost var before := Flat(source);
    var encoded := EncodeString(s);
    var width := source.Length1;
    var i := 0;
    var r := 0;
    while r < source.Length0 && i < |encoded|
      invariant 0 <= r <= source.Length0
      invariant i == if r * width < |encoded| then r * width else |encoded|
      invariant forall y, x :: 0 <= y < source.Length0 && 0 <= x < width ==>
        source[y, x] ==
          if ScanIndex(y, x, width) < i then HideCode(old(source[y, x]), encoded[ScanIndex(y, x, width)])
          else old(source[y, x])
    {
      RowOrder(r, width);
      i := HideRow(source, encoded, r, i);
      assert (r + 1) * width == r * width + width;
      r := r + 1;
    }
    HideTextFlat(source, before, Encode(s));
  }

  /** The body of hideText's inner loop: splits the code into bit pairs
      and puts one into the low bits of each channel of the pixel. */
  method HideInPixel(p: Color, num: int) returns (q: Color)
    requires 0 <= num < 64
    ensures q == HideCode(p, num)
  {
    var bitPairs := GetBitPairs(num);
    PutDigits(p, num);
    var red := PutLow(p.red, bitPairs[0]);
    var green := PutLow(p.green, bitPairs[1]);
    var blue := PutLow(p.blue, bitPairs[2]);
    q := Color(red, green, blue);
  }

  /** The inner loop of hideText: writes codes start, start + 1, ... into
      row r, one pixel each from column 0 on, until the row or the codes run
      out, and returns the position after the last code written. */
  method HideRow(source: Picture, encoded: seq<int>, r: int, start: int) returns (next: int)
    requires 0 <= r < source.Length0
    requires 0 <= start <= |encoded|
    requires forall k :: 0 <= k < |encoded| ==> 0 <= encoded[k] < 64
    modifies source
    ensures next == Min(start + source.Length1, |encoded|)
    ensures forall y, x :: 0 <= y < source.Length0 && 0 <= x < source.Length1 ==>
      source[y, x] ==
        if y == r && start + x < next then HideCode(old(source[y, x]), encoded[start + x])
        else old(source[y, x])
  {
    var width := source.Length1;
    var i := start;
    var c := 0;
    while c < width && i < |encoded|
      invariant 0 <= c <= width
      invariant i == start + c && i <= |encoded|
      invariant forall y, x :: 0 <= y < source.Length0 && 0 <= x < width ==>
        source[y, x] ==
          if y == r && x < c then HideCode(old(source[y, x]), encoded[start + x])
          else old(source[y, x])
    {
      var hidden := HideInPixel(source[r, c], encoded[i]);
      source[r, c] := hidden;
      i := i + 1;
      c := c + 1;
    }
    next := i;
  }

  /** The per-pixel description of hideText, read along the scan. */
  lemma HideTextFlat(p: Picture, before: seq<Color>, codes: seq<int>)
    requires |before| == p.Length0 * p.Length1
    requires forall i :: 0 <= i < |codes| ==> 0 <= codes[i] < 64
    requires forall r, c :: 0 <= r < p.Length0 && 0 <= c < p.Length1 ==>
      ScanIndex(r, c, p.Length1) < |before| &&
      p[r, c] ==
        if ScanIndex(r, c, p.Length1) < |codes|
        then HideCode(before[ScanIndex(r, c, p.Length1)], codes[ScanIndex(r, c, p.Length1)])
        else before[ScanIndex(r, c, p.Length1)]
    ensures Flat(p) == HideCodes(before, codes)
  {
    forall k | 0 <= k < |before|
      ensures Flat(p)[k] == HideCodes(before, codes)[k]
    {
      ScanPosition(p, k);
    }
  }

  /** revealText: reads the code of each pixel in row-major order until
      one is 0, and decodes the codes before it (all of them when no pixel
      holds 0); decoding throws on a code above 27. */
  method RevealText(source: Picture) returns (text: Result<string>)
    ensures text == RevealScan(Flat(source))
  {
    FlatCells(source);
    ghost var codes := ScanCodes(Flat(source));
    var width := source.Length1;
    var words: seq<int> := [];
    for r := 0 to source.Length0
      invariant r * width <= |codes| && words == codes[..r * width]
      invariant 0 !in words
    {
      for c := 0 to width
        invariant ScanIndex(r, c, width) <= |codes| && words == codes[..ScanIndex(r, c, width)]
        invariant 0 !in words
      {
        var p := source[r, c];
        var letter := PixelCode(p);
        if letter == 0 {
          MessageUpTo(codes, ScanIndex(r, c, width));
          text := DecodeString(words);
          return;
        }
        words := words + [letter];
        assert words == codes[..ScanIndex(r, c, width) + 1];
      }
      assert ScanIndex(r, width, width) == (r + 1) * width;
    }
    assert words == codes;
    MessageUpTo(codes, |codes|);
    text := DecodeString(words);
  }

  /** Revealing a scan that carries a hideable text gives the text back
      upper-cased when the scan has room for the terminator, and silently
      cut to the length of the scan when it does not. */
  lemma RevealHiddenText(ps: seq<Color>, s: string)
    requires forall i :: 0 <= i < |s| ==> Hideable(s[i])
    ensures RevealScan(HideCodes(ps, Encode(s))) == Ok(ToUpper(s)[..Min(|s|, |ps|)])
  {
    var e := Encode(s);
    var codes := ScanCodes(HideCodes(ps, e));
    forall k | 0 <= k < |ps| && k < |e|
      ensures codes[k] == e[k]
    {
      PixelCodeHideCode(ps[k], e[k]);
    }
    var n := Min(|s|, |ps|);
    EncodeHideable(s);
    assert codes[..n] == e[..n];
    MessageUpTo(codes, n);
    DecodeEncodePrefix(s, n);
  }

  /** Hiding a hideable text and then revealing it, as the demo does. */
  method HideThenRevealText(source: Picture, s: string) returns (text: Result<string>)
    requires forall i :: 0 <= i < |s| ==> Hideable(s[i])
    modifies source
    ensures text == Ok(ToUpper(s)[..Min(|s|, source.Length0 * source.Length1)])
  {
    HideText(source, s);
    text := RevealText(source);
    RevealHiddenText(old(Flat(source)), s);
  }
}
