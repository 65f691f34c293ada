/** The pixel grid the codec works on: a rectangular array of colours,
    indexed [row, column], with Length0 rows (the picture's height) and
    Length1 columns (its width). A pixel is a cell: setting a pixel's
    colour is an assignment to its cell. */
module Pictures {
  import opened Colors
  import opened Bits

  type Picture = array2<Color>

  /** Two pictures are congruent when they have the same height and width. */
  predicate Congruent(p1: Picture, p2: Picture)
  {
    p1.Length0 == p2.Length0 && p1.Length1 == p2.Length1
  }

  /** `new Picture(p)`: a fresh picture holding the same colours. */
  method CopyPicture(p: Picture) returns (copy: Picture)
    ensures fresh(copy)
    ensures Congruent(copy, p)
    ensures forall r, c :: 0 <= r < p.Length0 && 0 <= c < p.Length1 ==> copy[r, c] == p[r, c]
  {
    copy := new Color[p.Length0, p.Length1];
    for r := 0 to p.Length0
      invariant forall i, j :: 0 <= i < r && 0 <= j < p.Length1 ==> copy[i, j] == p[i, j]
    {
      for c := 0 to p.Length1
        invariant forall i, j :: 0 <= i < r && 0 <= j < p.Length1 ==> copy[i, j] == p[i, j]
        invariant forall j :: 0 <= j < c ==> copy[r, j] == p[r, j]
      {
        copy[r, c] := p[r, c];
      }
    }
  }

  /** The pixels of a picture in row-major scan order. */
  ghost function Flat(p: Picture): (ps: seq<Color>)
    reads p
    ensures |ps| == p.Length0 * p.Length1
  {
    seq(p.Length0 * p.Length1, k requires 0 <= k < p.Length0 * p.Length1 reads p =>
      DivBound(k, p.Length0, p.Length1);
      p[k / p.Length1, k % p.Length1])
  }

  /** The position of pixel (r, c) in the row-major scan of a picture
      that is width pixels wide. */
  function ScanIndex(r: int, c: int, width: int): int
  {
    r * width + c
  }

  /** Pixel (r, c) is number ScanIndex(r, c, width) of the scan. */
  lemma FlatAt(p: Picture, r: int, c: int)
    requires 0 <= r < p.Length0 && 0 <= c < p.Length1
    ensures 0 <= ScanIndex(r, c, p.Length1) < p.Length0 * p.Length1
    ensures Flat(p)[ScanIndex(r, c, p.Length1)] == p[r, c]
  {
    var w := p.Length1;
    assert (r + 1) * w == r * w + w;
    MulMono(p.Length0, r + 1, w);
    DivUnique(r * w + c, r, c, w);
  }

  /** Every pixel sits in the scan at its scan position. */
  lemma FlatCells(p: Picture)
    ensures forall r, c :: 0 <= r < p.Length0 && 0 <= c < p.Length1 ==>
      ScanIndex(r, c, p.Length1) < |Flat(p)| && Flat(p)[ScanIndex(r, c, p.Length1)] == p[r, c]
  {
    forall r, c | 0 <= r < p.Length0 && 0 <= c < p.Length1
      ensures ScanIndex(r, c, p.Length1) < |Flat(p)| && Flat(p)[ScanIndex(r, c, p.Length1)] == p[r, c]
    {
      FlatAt(p, r, c);
    }
  }

  /** The rows before row r come before it in the scan, and the rows after
      it come after its last pixel. */
  lemma RowOrder(r: int, width: int)
    requires 0 <= r && 0 <= width
    ensures forall y, x :: 0 <= y && 0 <= x < width ==>
      (y < r ==> ScanIndex(y, x, width) < ScanIndex(r, 0, width)) &&
      (y == r ==> ScanIndex(y, x, width) == ScanIndex(r, 0, width) + x) &&
      (y > r ==> ScanIndex(y, x, width) >= ScanIndex(r, 0, width) + width)
  {
    forall y, x | 0 <= y && 0 <= x < width
      ensures y < r ==> ScanIndex(y, x, width) < ScanIndex(r, 0, width)
      ensures y > r ==> ScanIndex(y, x, width) >= ScanIndex(r, 0, width) + width
    {
      if y < r {
        MulMono(r, y + 1, width);
      } else if y > r {
        MulMono(y, r + 1, width);
      }
    }
  }

  /** Scan position k is pixel (k / width, k % width). */
  lemma ScanPosition(p: Picture, k: int)
    requires 0 <= k < p.Length0 * p.Length1
    ensures 0 <= k / p.Length1 < p.Length0 && 0 <= k % p.Length1 < p.Length1
    ensures k == ScanIndex(k / p.Length1, k % p.Length1, p.Length1)
  {
    DivBound(k, p.Length0, p.Length1);
  }
}
