/** The text transcoding: letters and spaces to small integer codes and
    back. Code 1..26 is a letter A..Z, 27 is a space, 0 ends a message. */
module Transcoder {
  import opened Results

  const Alpha: string := "ABCDEFGHIJKLMNOPQRSTUVWXYZ"

  /** The letters of Alpha are A..Z in order. */
  lemma AlphaInOrder()
    ensures |Alpha| == 26
    ensures forall j :: 0 <= j < 26 ==> Alpha[j] as int == 'A' as int + j
  {}

  /** String.toUpperCase on one character; only ASCII a..z are folded. */
  function UpperChar(ch: char): (u: char)
    ensures !('a' <= u <= 'z')
    ensures 'a' <= ch <= 'z' ==> 'A' <= u <= 'Z' && u as int - 'A' as int == ch as int - 'a' as int
    ensures !('a' <= ch <= 'z') ==> u == ch
    ensures Hideable(u) <==> Hideable(ch)
  {
    if 'a' <= ch <= 'z' then (ch as int - 32) as char else ch
  }

  /** String.toUpperCase, character by character. */
  function ToUpper(s: string): (t: string)
    ensures |t| == |s| && forall i :: 0 <= i < |s| ==> t[i] == UpperChar(s[i])
    ensures forall i :: 0 <= i < |t| ==> !('a' <= t[i] <= 'z')
    ensures forall i :: 0 <= i < |s| && !('a' <= s[i] <= 'z') ==> t[i] == s[i]
    ensures Encode(t) == Encode(s)
  {
    var t := seq(|s|, i requires 0 <= i < |s| => UpperChar(s[i]));
    assert forall i :: 0 <= i < |s| ==> Encode(t)[i] == Encode(s)[i];
    t
  }

  /** A character that the text codec can carry. */
  predicate Hideable(ch: char)
  {
    'A' <= ch <= 'Z' || 'a' <= ch <= 'z' || ch == ' '
  }

  /** String.indexOf: the first position of ch in s, or -1. */
  function IndexOf(s: string, ch: char): (r: int)
    ensures -1 <= r < |s|
    ensures r == -1 <==> ch !in s
    ensures r >= 0 ==> s[r] == ch && ch !in s[..r]
  {
    if s == [] then -1
    else if s[0] == ch then 0
    else
      var k := IndexOf(s[1..], ch);
      assert s == [s[0]] + s[1..];
      if k == -1 then -1
      else
        assert s[..k + 1] == [s[0]] + s[1..][..k];
        k + 1
  }

  /** The code of one character of the text: its letter number, 27 for a
      space, and 0 (a premature end of message) for anything else. */
  function LetterCode(ch: char): (code: int)
    ensures 0 <= code <= 27
    ensures code == 0 <==> !Hideable(ch)
  {
    if ch == ' ' then 27
    else if 'A' <= ch <= 'Z' then ch as int - 'A' as int + 1
    else if 'a' <= ch <= 'z' then ch as int - 'a' as int + 1
    else 0
  }

  /** The code sequence of a text: one code per character, then a 0. */
  function Encode(s: string): (codes: seq<int>)
    ensures |codes| == |s| + 1 && codes[|s|] == 0
    ensures forall i :: 0 <= i < |codes| ==> 0 <= codes[i] <= 27
  {
    seq(|s|, i requires 0 <= i < |s| => LetterCode(s[i])) + [0]
  }

  /** The character a code stands for, when it stands for one. */
  function CodeLetter(code: int): char
    requires 1 <= code <= 27
  {
    if code == 27 then ' ' else (code + 'A' as int - 1) as char
  }

  /** The text of a code sequence, or the exception when a code is not 1..27. */
  function Decode(codes: seq<int>): Result<string>
  {
    if forall i :: 0 <= i < |codes| ==> 1 <= codes[i] <= 27
    then Ok(seq(|codes|, i requires 0 <= i < |codes| && 1 <= codes[i] <= 27 => CodeLetter(codes[i])))
    else OutOfBounds
  }

  /** String.substring(begin, end), which throws unless
      0 <= begin <= end <= length. */
  function Substring(s: string, begin: int, end: int): (r: Result<string>)
    ensures r.Ok? <==> 0 <= begin <= end <= |s|
    ensures r.Ok? ==> |r.value| == end - begin
    ensures r.Ok? ==> forall i :: 0 <= i < end - begin ==> r.value[i] == s[begin + i]
  {
    if 0 <= begin <= end <= |s| then Ok(s[begin..end]) else OutOfBounds
  }

  /** For a character that does not upper-case to a space, encodeString's
      code (its position in Alpha plus one) is its letter code. */
  lemma IndexCode(ch: char)
    ensures UpperChar(ch) != ' ' ==> IndexOf(Alpha, UpperChar(ch)) + 1 == LetterCode(ch)
  {
    AlphaInOrder();
    var u := UpperChar(ch);
    if 'A' <= u <= 'Z' {
      var k := u as int - 'A' as int;
      assert Alpha[k] == u;
      var r := IndexOf(Alpha, u);
      assert r >= 0 && Alpha[r] == u;
      assert r == k;
    } else if u != ' ' {
      assert u !in Alpha;
    }
  }

  /** encodeString: upper-cases the text, gives a space 27 and any other
      character its position in Alpha plus one, then appends the 0. */
  method EncodeString(s: string) returns (result: seq<int>)
    ensures result == Encode(s)
  {
    var u := ToUpper(s);
    result := [];
    for i := 0 to |u|
      invariant |result| == i
      invariant forall j :: 0 <= j < i ==> result[j] == LetterCode(s[j])
    {
      var code := if u[i] == ' ' then 27 else IndexOf(Alpha, u[i]) + 1;
      assert code == LetterCode(s[i]) by {
        IndexCode(s[i]);
      }
      result := result + [code];
    }
    result := result + [0];
    assert forall j :: 0 <= j < |result| ==> result[j] == Encode(s)[j];
  }

  /** One code transcoded as decodeString does: 27 is a space, any other
      code the one-letter substring of Alpha that ends at it. */
  lemma SubstringCode(code: int)
    ensures code != 27 ==>
      (Substring(Alpha, code - 1, code).Ok? <==> 1 <= code <= 26)
    ensures 1 <= code <= 26 ==> Substring(Alpha, code - 1, code) == Ok([CodeLetter(code)])
  {
    if 1 <= code <= 26 {
      AlphaInOrder();
      assert Alpha[code - 1] as int == code + 'A' as int - 1;
      assert Alpha[code - 1..code] == [Alpha[code - 1]];
    }
  }

  /** decodeString: appends a space for 27 and the substring of Alpha for
      any other code; a code outside 1..27 makes substring throw. */
  method DecodeString(codes: seq<int>) returns (result: Result<string>)
    ensures result == Decode(codes)
  {
    var text := "";
    for i := 0 to |codes|
      invariant forall j :: 0 <= j < i ==> 1 <= codes[j] <= 27
      invariant |text| == i
      invariant forall j :: 0 <= j < i ==> text[j] == CodeLetter(codes[j])
    {
      SubstringCode(codes[i]);
      if codes[i] == 27 {
        text := text + " ";
      } else {
        var piece := Substring(Alpha, codes[i] - 1, codes[i]);
        if piece.OutOfBounds? {
          return OutOfBounds;
        }
        text := text + piece.value;
      }
    }
    ghost var t := seq(|codes|, i requires 0 <= i < |codes| && 1 <= codes[i] <= 27 => CodeLetter(codes[i]));
    assert text == t;
    assert Decode(codes) == Ok(t);
    return Ok(text);
  }

  /** A hideable text encodes to codes in 1..27 followed by one 0. */
  lemma EncodeHideable(s: string)
    requires forall i :: 0 <= i < |s| ==> Hideable(s[i])
    ensures forall i :: 0 <= i < |s| ==> 1 <= Encode(s)[i] <= 27
    ensures 0 !in Encode(s)[..|s|]
  {}

  /** Decoding the first n codes of a hideable text gives back its first n
      characters, upper-cased. */
  lemma DecodeEncodePrefix(s: string, n: int)
    requires forall i :: 0 <= i < |s| ==> Hideable(s[i])
    requires 0 <= n <= |s|
    ensures Decode(Encode(s)[..n]) == Ok(ToUpper(s)[..n])
  {
    var codes := Encode(s)[..n];
    assert forall i :: 0 <= i < n ==> 1 <= codes[i] <= 27;
    var t := seq(|codes|, i requires 0 <= i < |codes| && 1 <= codes[i] <= 27 => CodeLetter(codes[i]));
    assert t == ToUpper(s)[..n];
  }

  /** Decoding a hideable text's codes before the terminator gives back the
      text upper-cased. */
  lemma DecodeEncode(s: string)
    requires forall i :: 0 <= i < |s| ==> Hideable(s[i])
    ensures Decode(Encode(s)[..|s|]) == Ok(ToUpper(s))
  {
    DecodeEncodePrefix(s, |s|);
    assert ToUpper(s)[..|s|] == ToUpper(s);
  }

  /** Encoding the text of a valid code sequence gives the codes back,
      followed by the terminator. */
  lemma EncodeDecode(codes: seq<int>)
    requires forall i :: 0 <= i < |codes| ==> 1 <= codes[i] <= 27
    ensures Decode(codes).Ok?
    ensures Encode(Decode(codes).value) == codes + [0]
  {
    var t := Decode(codes).value;
    assert Encode(t)[..|t|] == codes;
  }
}
