# Least-significant-bit steganography, modelled in Dafny

This project models the core of a small Java steganography program,
`Steganography.java`. The program hides a picture, or a short text, in the
two low bits of each colour channel of another picture. It can reveal the
hidden payload again. It can also compare two pictures pixel by pixel and
draw a box around the pixels where they differ.

A picture is an `array2<Color>`, indexed `[row, column]`. `Length0` is the
height and `Length1` the width. A `Color` is a red, green and blue channel,
each in 0..255, the range `java.awt.Color` enforces. A Java `Pixel` is one
cell of the array: setting a pixel's colour assigns to that cell. Copying a
picture (`new Picture(p)`) is `Pictures.CopyPicture`.

The modules follow the program's components:

- `Bits`: Java's `&`, `|`, `<<` and `>>` on non-negative ints, and Java's
  truncating `/` and `%`. `&` and `|` are defined bit by bit, by recursion,
  and lemmas work out what each mask and shift in the program computes.
- `Colors`: the channel arithmetic of `clearLow`, `setLow` and
  `revealPicture`, at channel level and at pixel level.
- `Pictures`: the grid, the picture copy, and the row-major scan
  (`Flat`, `ScanIndex`) that the text codec walks.
- `ImageCodec`: `testClearLow`, `testSetLow`, `revealPicture`, `canHide`
  and `hidePicture`. `canHide` is a pure size comparison. Each of the
  others is a method that copies the picture and then updates the copy in
  place with nested row and column loops. Its postcondition describes
  every pixel of the result.
- `DiffEngine`: `isSame`, `findDifferences` and the bounding-box loop of
  `showDifferentArea`.
- `Transcoder`: `encodeString` and `decodeString`, each proved equal to a
  reference definition (`Encode`, `Decode`).
- `TextCodec`: `getBitPairs`, `hideText` (in place on the caller's picture)
  and `revealText`, with the round trip between them.

Notes on how the model reads the code:

- `decodeString` throws when it meets a code outside 1..27, because
  `substring` is then out of range. `revealText` can pass such codes on,
  since a picture that never had text hidden in it holds arbitrary codes.
  The model therefore gives this exception as the `OutOfBounds` value of
  `Result`, not as a precondition. `Transcoder.Substring` states when
  `substring` throws.
- `encodeString` does not refuse characters other than letters and
  spaces. `indexOf` returns -1 for them, so their code is 0, which is an
  early end-of-message marker. `Transcoder.LetterCode` models this as
  written. The round-trip lemmas require the text to hold only A–Z, a–z
  and spaces (`Transcoder.Hideable`).
- `findDifferences` builds `new Point(r, c)`, so a point's `x` is the row
  and its `y` the column. `showDifferentArea` then reads `row = p.y` and
  `col = p.x`. So its variables `minRow`/`maxRow` hold the least and
  greatest column, and `minCol`/`maxCol` the least and greatest row. The
  model's `Box` names each bound by the point field it bounds (`minY`,
  `maxY`, `minX`, `maxX`). The source passes these to
  `drawRect(x, y, w, h)`, where x is the horizontal (column) coordinate, so
  the two swaps cancel out and the rectangle lands where the differences
  are.
- `hidePicture` takes each channel from the same channel of the secret
  (red from red, green from green, blue from blue). The model does the
  same.
- `HidePicture` requires `startRow >= 0` and `startCol >= 0`. The code
  checks only the upper bounds (Steganography.java:70). A negative
  coordinate makes Java index the array out of range only when the other
  coordinate of the same pixel passes that check. When, say, `startRow < 0`
  and `startCol` is at least the carrier's width, the check fails for every
  pixel and Java returns an unchanged copy without throwing. The
  precondition excludes these harmless calls as well.
- `FindDifferences` requires the picture's sides to be at most
  `Integer.MAX_VALUE`. This holds for every Java array, and it lets the
  model's `Point` keep Java's 32-bit `int` coordinates. Those coordinates
  are what the bounding-box loop's `Integer.MAX_VALUE`/`MIN_VALUE` starting
  values rely on.

## Model

| member | source | states |
|---|---|---|
| `Bits.AndThree` | Steganography.java:205-207 | `ch & 0b00000011` is the two low bits, `ch % 4` |
| `Bits.AndHighSix` | Steganography.java:26-28 | on a byte, `x & 0b11111100` clears the two low bits: it is `x - x % 4` |
| `Bits.OrDisjoint` | Steganography.java:190-192 | or-ing a value below 2^k into a multiple of 2^k is addition, so no bits collide |
| `Bits.Quot` | Steganography.java:176 | Java's `/` truncates toward zero: the remainder `a - b*q` lies in 0..b-1 for a non-negative dividend and in -(b-1)..0 for a negative one; on a non-negative dividend it is floor division |
| `Bits.Rem` | Steganography.java:175 | Java's `%` satisfies `a == b * (a / b) + a % b` with the remainder strictly between -b and b; on a non-negative dividend it is the Euclidean remainder |
| `Colors.ClearLowChannel` | Steganography.java:8-10 | a cleared channel is a multiple of 4 and less than 4 below the original: the largest multiple of 4 not above it |
| `Colors.ClearLow` | Steganography.java:7-12 | clearLow rounds every channel of a pixel down to the largest multiple of 4 not above it |
| `Colors.ClearLowIdempotent` | Steganography.java:7-12 | applying clearLow twice gives the same pixel as applying it once |
| `Colors.PutLow` | Steganography.java:190-192 | `(ch & 0b11111100) OR bits` keeps the top six bits (`r / 4 == ch / 4`) and its low two bits are `bits` |
| `Colors.SetLowChannel` | Steganography.java:26-28 | the new channel keeps the old top six bits, its low two bits are the payload's top two (`payload / 64`), and it stays in 0..255 |
| `Colors.SetLow` | Steganography.java:25-30 | setLow does the above for red, green and blue, each from the same channel of the colour |
| `Colors.RevealChannel` | Steganography.java:50 | a revealed channel is `(ch % 4) * 64`, one of 0, 64, 128, 192 |
| `Colors.Reveal` | Steganography.java:50 | the pixel revealPicture writes has each channel equal to the original channel's two low bits times 64 |
| `Colors.RevealIsCoarse` | Steganography.java:50 | every channel of a revealed pixel is a multiple of 64 |
| `Colors.RevealSetLow` | Steganography.java:72-74 | revealing a pixel that hides colour c gives each channel of c rounded down to a multiple of 64, whatever the carrier pixel was |
| `Pictures.CopyPicture` | Steganography.java:15 | the copy is a new picture of the same size with the same colours |
| `ImageCodec.TestClearLow` | Steganography.java:14-23 | the result is a new picture of the same size whose every pixel is clearLow of the input's; the input is not modified |
| `ImageCodec.TestSetLow` | Steganography.java:32-41 | the result is a new picture whose every pixel is setLow(input pixel, c) |
| `ImageCodec.RevealPicture` | Steganography.java:43-54 | the result is a new picture of the same size whose every channel is the revealed value of the input's |
| `ImageCodec.CanHide` | Steganography.java:56-58 | for a secret with pixels, canHide holds exactly when every secret pixel placed at (0, 0) lands inside the carrier, equal sizes included |
| `ImageCodec.HidePicture` | Steganography.java:60-81 | the result has the carrier's size; a carrier pixel covered by the secret at the offset gets setLow with the matching secret pixel; every other pixel, and every secret pixel falling outside, is left as it was |
| `ImageCodec.HideThenReveal` | Steganography.java:43-81 | revealing a secret hidden at (0, 0) gives, inside the secret's extent, each secret channel rounded down to a multiple of 64 |
| `DiffEngine.IsSame` | Steganography.java:83-97 | true iff the pictures have the same size and the same colour at every position; false on a size mismatch |
| `DiffEngine.SameReflexive` | Steganography.java:83-97 | every picture is the same as itself |
| `DiffEngine.SameSymmetric` | Steganography.java:83-97 | sameness does not depend on the argument order |
| `DiffEngine.FindDifferences` | Steganography.java:99-114 | empty on a size mismatch; otherwise exactly the positions Point(row, col) whose colours differ, strictly increasing in row-major order, so each appears once; empty iff the pictures are the same |
| `DiffEngine.BoundingBox` | Steganography.java:122-132 | no box for an empty list; otherwise every point lies within the four bounds and each bound is attained by some point |
| `DiffEngine.BoundingBoxUnique` | Steganography.java:122-132 | the bounds and attainment conditions determine the box, so the loop computes the least and greatest coordinates |
| `DiffEngine.ShowDifferentArea` | Steganography.java:116-133 | the result is an unchanged copy of the picture, with the bounding box of the differences, or none when there are no differences |
| `Transcoder.UpperChar` | Steganography.java:143 | a lower-case letter a..z becomes the upper-case letter at the same place in the alphabet, an upper-cased character is never a lower-case letter, characters other than a..z are unchanged, and a character is a letter or space exactly when its upper-case form is |
| `Transcoder.ToUpper` | Steganography.java:143 | `toUpperCase` keeps the length, is `UpperChar` at each position, leaves no lower-case letter, changes nothing but a..z, and does not change the encoding |
| `Transcoder.IndexOf` | Steganography.java:150 | `indexOf` gives -1 iff the character is absent, otherwise the position of its first occurrence |
| `Transcoder.IndexCode` | Steganography.java:147-150 | for a character that does not upper-case to a space, its position in the alphabet plus one (0 when absent) is its letter code |
| `Transcoder.LetterCode` | Steganography.java:143-151 | a character's code is in 0..27, and it is 0 exactly for the characters other than letters and spaces |
| `Transcoder.Encode` | Steganography.java:142-155 | a text of n characters encodes to n + 1 codes in 0..27, the last of them 0 |
| `Transcoder.EncodeString` | Steganography.java:142-155 | the loop over the upper-cased text yields exactly the reference encoding |
| `Transcoder.EncodeHideable` | Steganography.java:142-155 | for a text of letters and spaces, every code before the terminator is in 1..27, so the terminator is the only 0 |
| `Transcoder.Substring` | Steganography.java:165 | `substring(b, e)` succeeds iff `0 <= b <= e <= length`, and then it is the `e - b` characters starting at position b |
| `Transcoder.SubstringCode` | Steganography.java:161-165 | the one-letter substring for code k exists iff k is in 1..26, and it is the k-th letter |
| `Transcoder.DecodeString` | Steganography.java:157-169 | the loop yields the reference decoding: the letters of the codes when all are in 1..27, the exception otherwise |
| `Transcoder.DecodeEncodePrefix` | Steganography.java:142-169 | decoding the first n codes of a text of letters and spaces gives its first n characters, upper-cased |
| `Transcoder.DecodeEncode` | Steganography.java:142-169 | decoding a text's codes without the terminator gives back the text, upper-cased |
| `Transcoder.EncodeDecode` | Steganography.java:142-169 | codes in 1..27 decode without error, and encoding the decoded text gives them back followed by 0 |
| `TextCodec.DigitsFrom` | Steganography.java:174-177 | n rounds of Java `%` and `/` by 4 give n digits, each strictly between -4 and 4, and in 0..3 when the code is non-negative |
| `TextCodec.Digits` | Steganography.java:171-179 | getBitPairs' three bit pairs, each in 0..3 for a non-negative code |
| `TextCodec.DigitsOfCode` | Steganography.java:171-179 | a code in 0..63 splits into three base-4 digits in 0..3, least significant first, with `d0 + 4*d1 + 16*d2` equal to the code |
| `TextCodec.GetBitPairs` | Steganography.java:171-179 | the array has three elements, the digits taken by repeated Java `%` and `/` by 4 |
| `TextCodec.PutDigits` | Steganography.java:187-193 | putting the three bit pairs of a code into the low bits of red, green and blue gives the pixel that carries the code (`HideCode`) |
| `TextCodec.HideInPixel` | Steganography.java:187-193 | the new colour of a pixel is the one that carries the code: top six bits of each channel kept, base-4 digits of the code in the low bits |
| `TextCodec.HideRow` | Steganography.java:186-195 | one row of hideText: from column 0 on, pixel x gets code start + x until the row or the codes run out; every other pixel is unchanged |
| `Pictures.RowOrder` | Steganography.java:185-186 | in the row-major scan, every pixel of an earlier row comes before row r and every pixel of a later row after its end |
| `TextCodec.PackPairs` | Steganography.java:208 | `(blue << 4) OR (green << 2) OR red` on bit pairs is `16*blue + 4*green + red`, since the pairs do not overlap |
| `TextCodec.PixelCode` | Steganography.java:205-208 | the code read from a pixel is `16*(blue%4) + 4*(green%4) + red%4`, in 0..63 |
| `TextCodec.PixelCodeHideCode` | Steganography.java:187-208 | a pixel written with a code reads back as that code, and only the two low bits of each channel changed |
| `TextCodec.Message` | Steganography.java:209-215 | the message is the prefix before the first 0, or the whole sequence when there is no 0 |
| `TextCodec.MessageUpTo` | Steganography.java:209-215 | a sequence with no 0 before position k, and 0 at k (or ending there), has the first k codes as its message |
| `TextCodec.HideText` | Steganography.java:181-197 | pixel k of the row-major scan gets code k of the encoded text, for k below the number of codes; the other pixels are unchanged; the same holds along the scan |
| `TextCodec.RevealText` | Steganography.java:199-216 | the result is the decoding of the codes before the first 0 in the scan, or of all of them when no pixel holds 0 |
| `TextCodec.RevealHiddenText` | Steganography.java:181-216 | revealing a scan that hides a text of letters and spaces gives the text upper-cased when there is room for the terminator, and otherwise its first (number of pixels) characters |
| `TextCodec.HideThenRevealText` | Steganography.java:181-216 | hiding a text in a picture and then revealing it returns the text upper-cased, cut to the number of pixels when the picture is too small |

## Left out

- `main` (Steganography.java:218-294): it loads JPEG files, opens windows and prints. These are file and display I/O and the demo's sequence of calls.
- The red rectangle drawing of `showDifferentArea` (Steganography.java:134-137): this is AWT rendering. The model computes the box that would be drawn and returns an unchanged copy.
- `Picture`, `Pixel`, `Color` and `Point` are not part of this model beyond their use here. A picture is a rectangular grid of RGB triples, a colour's channels are in 0..255, colour equality compares the three channels, and a point is a pair of 32-bit ints.
- `Transcoder.UpperChar`: upper-cases only ASCII a–z, one character into one. Java's locale-dependent `toUpperCase` also maps some non-ASCII letters (such as dotless i) to ASCII ones, and can make a string longer ("ß" becomes "SS"), so that Java's `encodeString` then gives more than |s| + 1 codes where the model gives one code 0; neither is modelled.
- `ImageCodec.HidePicture`: overflow of `startRow + r` or `startCol + c` past `Integer.MAX_VALUE` is not modelled, because the model's ints are unbounded.
- `ImageCodec.HidePicture`: the exception Java throws when a negative offset meets an in-range other coordinate is excluded by a precondition, not modelled as a result. The precondition also excludes the calls with a negative offset that Java completes without an exception: those where every pixel fails the upper-bound check, so that Java returns an unchanged copy.
- `Transcoder.Encode`: counts Unicode scalar values, while Java's `length()` and `substring(i, i + 1)` count UTF-16 code units. A character outside the Basic Multilingual Plane is one code 0 here but two codes 0 in Java, so on such text `Encode`, `EncodeString` and `HideText` write one pixel fewer per such character than Java does. On letters and spaces the two agree.
- `ImageCodec.RevealPicture`: the unused local `col` (Steganography.java:49) has no counterpart.
