/** Hiding one picture in the low bits of another, revealing it again, and
    the two whole-picture channel demonstrations. Every operation here
    returns a new picture and leaves its arguments as they were. */
module ImageCodec {
  import opened Colors
  import opened Pictures

  /** testClearLow: a copy of p with clearLow applied to every pixel. */
  method TestClearLow(p: Picture) returns (copy: Picture)
    ensures fresh(copy) && Congruent(copy, p)
    ensures forall r, c :: 0 <= r < p.Length0 && 0 <= c < p.Length1 ==> copy[r, c] == ClearLow(p[r, c])
  {
    copy := CopyPicture(p);
    for r := 0 to copy.Length0
      invariant forall i, j :: 0 <= i < p.Length0 && 0 <= j < p.Length1 ==>
        copy[i, j] == if i < r then ClearLow(p[i, j]) else p[i, j]
    {
      for c := 0 to copy.Length1
        invariant forall i, j :: 0 <= i < p.Length0 && 0 <= j < p.Length1 ==>
          copy[i, j] == if i < r || (i == r && j < c) then ClearLow(p[i, j]) else p[i, j]
      {
        copy[r, c] := ClearLow(copy[r, c]);
      }
    }
  }

  /** testSetLow: a copy of p with setLow(pixel, c) applied to every pixel. */
  method TestSetLow(p: Picture, c: Color) returns (copy: Picture)
    ensures fresh(copy) && Congruent(copy, p)
    ensures forall i, j :: 0 <= i < p.Length0 && 0 <= j < p.Length1 ==> copy[i, j] == SetLow(p[i, j], c)
  {
    copy := CopyPicture(p);
    for r := 0 to copy.Length0
      invariant forall i, j :: 0 <= i < p.Length0 && 0 <= j < p.Length1 ==>
        copy[i, j] == if i < r then SetLow(p[i, j], c) else p[i, j]
    {
      for col := 0 to copy.Length1
        invariant forall i, j :: 0 <= i < p.Length0 && 0 <= j < p.Length1 ==>
          copy[i, j] == if i < r || (i == r && j < col) then SetLow(p[i, j], c) else p[i, j]
      {
        copy[r, col] := SetLow(copy[r, col], c);
      }
    }
  }

  /** revealPicture: a copy in which every channel ch of every pixel
      becomes (ch & 3) << 6. */
  method RevealPicture(hidden: Picture) returns (copy: Picture)
    ensures fresh(copy) && Congruent(copy, hidden)
    ensures forall r, c :: 0 <= r < hidden.Length0 && 0 <= c < hidden.Length1 ==> copy[r, c] == Reveal(hidden[r, c])
  {
    copy := CopyPicture(hidden);
    for r := 0 to copy.Length0
      invariant forall i, j :: 0 <= i < hidden.Length0 && 0 <= j < hidden.Length1 ==>
        copy[i, j] == if i < r then Reveal(hidden[i, j]) else hidden[i, j]
    {
      for c := 0 to copy.Length1
        invariant forall i, j :: 0 <= i < hidden.Length0 && 0 <= j < hidden.Length1 ==>
          copy[i, j] == if i < r || (i == r && j < c) then Reveal(hidden[i, j]) else hidden[i, j]
      {
        copy[r, c] := Reveal(copy[r, c]);
      }
    }
  }

  /** canHide: the carrier is at least as wide and as high as the secret.
      For a secret with pixels, that is exactly when every secret pixel,
      placed at (0, 0), lands on a carrier pixel, so that nothing of it is
      dropped (equal sizes included). */
  function CanHide(source: Picture, secret: Picture): (ok: bool)
    ensures secret.Length0 > 0 && secret.Length1 > 0 ==>
      (ok <==> forall r, c :: Covered(secret, 0, 0, r, c) ==> r < source.Length0 && c < source.Length1)
  {
    var ok := source.Length1 >= secret.Length1 && source.Length0 >= secret.Length0;
    assert !ok && secret.Length0 > 0 && secret.Length1 > 0 ==>
      Covered(secret, 0, 0, secret.Length0 - 1, secret.Length1 - 1);
    ok
  }

  /** Carrier position (r, c) receives secret pixel (r - startRow, c - startCol). */
  predicate Covered(secret: Picture, startRow: int, startCol: int, r: int, c: int)
  {
    startRow <= r < startRow + secret.Length0 && startCol <= c < startCol + secret.Length1
  }

  /** hidePicture: a copy of the carrier in which every pixel covered by the
      secret (placed with its corner at (startRow, startCol)) holds the top
      two bits of the matching secret channel in its low two bits. Secret
      pixels that fall outside the carrier are dropped; every other
      carrier pixel is copied unchanged. */
  method HidePicture(source: Picture, secret: Picture, startRow: int, startCol: int) returns (combined: Picture)
    requires startRow >= 0 && startCol >= 0
    ensures fresh(combined) && Congruent(combined, source)
    ensures forall r, c :: 0 <= r < source.Length0 && 0 <= c < source.Length1 ==>
      combined[r, c] ==
        if Covered(secret, startRow, startCol, r, c)
        then SetLow(source[r, c], secret[r - startRow, c - startCol])
        else source[r, c]
  {
    combined := CopyPicture(source);
    for r := 0 to secret.Length0
      invariant forall i, j :: 0 <= i < source.Length0 && 0 <= j < source.Length1 ==>
        combined[i, j] ==
          if startRow <= i < startRow + r && startCol <= j < startCol + secret.Length1
          then SetLow(source[i, j], secret[i - startRow, j - startCol])
          else source[i, j]
    {
      for c := 0 to secret.Length1
        invariant forall i, j :: 0 <= i < source.Length0 && 0 <= j < source.Length1 ==>
          combined[i, j] ==
            if (startRow <= i < startRow + r && startCol <= j < startCol + secret.Length1)
               || (i == startRow + r && startCol <= j < startCol + c)
            then SetLow(source[i, j], secret[i - startRow, j - startCol])
            else source[i, j]
      {
        var sourceR := startRow + r;
        var sourceC := startCol + c;
        if sourceR < combined.Length0 && sourceC < combined.Length1 {
          // the channel formulas here are setLow's, applied to this pixel
          combined[sourceR, sourceC] := SetLow(combined[sourceR, sourceC], secret[r, c]);
        }
      }
    }
  }

  /** Hiding a secret at (0, 0) and revealing the result gives back the top
      two bits of every secret pixel that fits, and garbage elsewhere. */
  method HideThenReveal(source: Picture, secret: Picture) returns (revealed: Picture)
    ensures Congruent(revealed, source)
    ensures forall r, c :: 0 <= r < source.Length0 && 0 <= c < source.Length1 ==>
      revealed[r, c] ==
        if r < secret.Length0 && c < secret.Length1
        then CoarseColor(secret[r, c])
        else Reveal(source[r, c])
  {
    var hidden := HidePicture(source, secret, 0, 0);
    revealed := RevealPicture(hidden);
    forall r, c | 0 <= r < source.Length0 && 0 <= c < source.Length1 && r < secret.Length0 && c < secret.Length1
      ensures revealed[r, c] == CoarseColor(secret[r, c])
    {
      RevealSetLow(source[r, c], secret[r, c]);
    }
  }
}
