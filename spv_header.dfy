/** The SPIR-V to C header converter: a binary module is read as little-endian 32-bit words
    and printed as the initialiser of a `uint32_t` array, eight hexadecimal digits a word. */
module SpvHeader {
  import opened Wrappers

  type Byte = b: int | 0 <= b < 256
  type Word = w: int | 0 <= w < 0x1_0000_0000

  const LengthError := "SPIR-V byte length must be a multiple of 4"

  /** `struct.unpack("<I", …)` of four bytes: the first byte is the least significant. */
  function LittleEndian(b0: Byte, b1: Byte, b2: Byte, b3: Byte): Word
  {
    b0 + 256 * b1 + 65536 * b2 + 16777216 * b3
  }

  /** Word `i` of `data` as the comprehension reads it, at byte offset `4 * i`. */
  function WordAt(data: seq<Byte>, i: nat): Word
    requires 4 * i + 4 <= |data|
  {
    LittleEndian(data[4 * i], data[4 * i + 1], data[4 * i + 2], data[4 * i + 3])
  }

  /** The words of a byte string whose length is a multiple of four. */
  function Words(data: seq<Byte>): (words: seq<Word>)
    requires |data| % 4 == 0
    ensures |words| == |data| / 4
    ensures forall i :: 0 <= i < |words| ==> words[i] == WordAt(data, i)
  {
    if |data| == 0 then []
    else
      var rest := Words(data[4..]);
      assert forall i :: 1 <= i < |data| / 4 ==> WordAt(data[4..], i - 1) == WordAt(data, i);
      [WordAt(data, 0)] + rest
  }

  /** The converter's decoding step: an error unless the length is a multiple of four. */
  function DecodeWords(data: seq<Byte>): (r: Result<seq<Word>, string>)
    ensures r.Failure? <==> |data| % 4 != 0
    ensures r.Failure? ==> r.error == LengthError
    ensures r.Success? ==> |r.value| == |data| / 4
    ensures r.Success? ==> forall i :: 0 <= i < |r.value| ==> r.value[i] == WordAt(data, i)
  {
    if |data| % 4 != 0 then Failure(LengthError) else Success(Words(data))
  }

  /** The four little-endian bytes of a word. */
  function WordBytes(w: Word): (bs: seq<Byte>)
    ensures |bs| == 4 && LittleEndian(bs[0], bs[1], bs[2], bs[3]) == w
  {
    var q1 := w / 256;
    var q2 := q1 / 256;
    [w % 256, q1 % 256, q2 % 256, q2 / 256]
  }

  /** The byte string of a sequence of words, each written little-endian. */
  function EncodeWords(words: seq<Word>): (data: seq<Byte>)
    ensures |data| == 4 * |words|
  {
    if |words| == 0 then [] else WordBytes(words[0]) + EncodeWords(words[1..])
  }

  /** Splitting the word of four bytes back into bytes gives those bytes. */
  lemma BytesRoundTrip(b0: Byte, b1: Byte, b2: Byte, b3: Byte)
    ensures WordBytes(LittleEndian(b0, b1, b2, b3)) == [b0, b1, b2, b3]
  {
    var w := LittleEndian(b0, b1, b2, b3);
    var m1 := b1 + 256 * b2 + 65536 * b3;
    var m2 := b2 + 256 * b3;
    assert w == 256 * m1 + b0;
    assert w / 256 == m1 && w % 256 == b0;
    assert m1 == 256 * m2 + b1;
    assert m1 / 256 == m2 && m1 % 256 == b1;
    assert m2 / 256 == b3 && m2 % 256 == b2;
  }

  lemma {:induction false} WordsOfEncoding(words: seq<Word>)
    ensures Words(EncodeWords(words)) == words
  {
    if |words| > 0 {
      var data := EncodeWords(words);
      assert data == WordBytes(words[0]) + EncodeWords(words[1..]);
      assert data[4..] == EncodeWords(words[1..]);
      WordsOfEncoding(words[1..]);
      assert WordAt(data, 0) == words[0];
      assert Words(data) == [WordAt(data, 0)] + Words(data[4..]);
    }
  }

  /** Encoding words and decoding the bytes gives the words back. */
  lemma DecodeEncode(words: seq<Word>)
    ensures DecodeWords(EncodeWords(words)) == Success(words)
  {
    WordsOfEncoding(words);
  }

  /** Decoding bytes and encoding the words gives the bytes back. */
  lemma {:induction false} EncodeDecode(data: seq<Byte>)
    requires |data| % 4 == 0
    ensures EncodeWords(Words(data)) == data
  {
    if |data| > 0 {
      var words := Words(data);
      assert words == [WordAt(data, 0)] + Words(data[4..]);
      EncodeDecode(data[4..]);
      BytesRoundTrip(data[0], data[1], data[2], data[3]);
      assert EncodeWords(words) == WordBytes(words[0]) + EncodeWords(words[1..]);
      assert data == data[..4] + data[4..];
    }
  }

  const HexDigits := "0123456789abcdef"

  predicate IsHexDigit(c: char) {
    '0' <= c <= '9' || 'a' <= c <= 'f'
  }

  function DigitValue(c: char): (v: nat)
    requires IsHexDigit(c)
    ensures v < 16 && HexDigits[v] == c
  {
    if c <= '9' then c as int - '0' as int else c as int - 'a' as int + 10
  }

  /** Exactly `n` lowercase hexadecimal digits of `w`, most significant first. */
  function Hex(w: nat, n: nat): (s: string)
    ensures |s| == n && forall i :: 0 <= i < n ==> IsHexDigit(s[i])
  {
    if n == 0 then "" else Hex(w / 16, n - 1) + [HexDigits[w % 16]]
  }

  /** The digits of `w` without leading zeros (Python's `format(w, "x")`). */
  function MinimalHex(w: nat): (s: string)
    ensures |s| > 0
    decreases w
  {
    if w < 16 then [HexDigits[w]] else MinimalHex(w / 16) + [HexDigits[w % 16]]
  }

  function Zeros(n: nat): (s: string)
    ensures |s| == n && forall i :: 0 <= i < n ==> s[i] == '0'
  {
    if n == 0 then "" else Zeros(n - 1) + "0"
  }

  /** Python's `format(w, "08x")`: the minimal digits, padded with zeros to width eight. */
  function Format08x(w: nat): string {
    var digits := MinimalHex(w);
    if |digits| < 8 then Zeros(8 - |digits|) + digits else digits
  }

  /** The value of a string of hexadecimal digits. */
  function ParseHex(s: string): nat
    requires forall i :: 0 <= i < |s| ==> IsHexDigit(s[i])
  {
    if |s| == 0 then 0 else ParseHex(s[..|s| - 1]) * 16 + DigitValue(s[|s| - 1])
  }

  function Pow16(n: nat): (p: nat)
    ensures p >= 1
  {
    if n == 0 then 1 else 16 * Pow16(n - 1)
  }

  /** `n` digits suffice for every value below 16 to the `n`: parsing them gives the value. */
  lemma {:induction false} ParseHexOfHex(w: nat, n: nat)
    requires w < Pow16(n)
    ensures ParseHex(Hex(w, n)) == w
  {
    if n > 0 {
      ParseHexOfHex(w / 16, n - 1);
      var s := Hex(w, n);
      assert s[..n - 1] == Hex(w / 16, n - 1);
    }
  }

  lemma {:induction false} HexOfZero(n: nat)
    ensures Hex(0, n) == Zeros(n)
  {
    if n > 0 {
      HexOfZero(n - 1);
    }
  }

  /** Below 16 to the `n`, zero-padding the minimal digits to width `n` gives the `n` digits. */
  lemma {:induction false} PaddedMinimalHex(w: nat, n: nat)
    requires n > 0 && w < Pow16(n)
    ensures |MinimalHex(w)| <= n
    ensures Zeros(n - |MinimalHex(w)|) + MinimalHex(w) == Hex(w, n)
    decreases n
  {
    if w < 16 {
      HexOfZero(n - 1);
      assert w / 16 == 0 && w % 16 == w;
      assert Hex(w, n) == Hex(0, n - 1) + [HexDigits[w]];
      assert MinimalHex(w) == [HexDigits[w]];
    } else {
      assert n != 1;
      PaddedMinimalHex(w / 16, n - 1);
      var m, d := MinimalHex(w / 16), [HexDigits[w % 16]];
      assert MinimalHex(w) == m + d;
      assert Hex(w, n) == Hex(w / 16, n - 1) + d;
      assert Zeros(n - 1 - |m|) + (m + d) == (Zeros(n - 1 - |m|) + m) + d;
    }
  }

  /** `{word:08x}` of a 32-bit word is exactly eight lowercase digits that parse back to it. */
  lemma Format08xOfWord(w: Word)
    ensures Format08x(w) == Hex(w, 8)
    ensures |Format08x(w)| == 8 && forall i :: 0 <= i < 8 ==> IsHexDigit(Format08x(w)[i])
    ensures ParseHex(Format08x(w)) == w
  {
    assert Pow16(8) == 0x1_0000_0000;
    PaddedMinimalHex(w, 8);
    ParseHexOfHex(w, 8);
  }

  /** The line of word `i`: indented when it starts a group of eight, then `0x`, the digits
      and a comma. */
  function WordLine(i: nat, w: Word): string {
    (if i % 8 == 0 then "    " else "") + "0x" + Format08x(w) + ","
  }

  /** Reads the word back from a word line. */
  function ParseWordLine(line: string): Option<nat> {
    ParseBodyOf(if |line| >= 4 && line[..4] == "    " then line[4..] else line)
  }

  /** Reads the word back from a word line without its indentation. */
  function ParseBodyOf(body: string): Option<nat> {
    if |body| < 3 || body[..2] != "0x" || body[|body| - 1] != ',' then None
    else
      var digits := body[2..|body| - 1];
      if forall k :: 0 <= k < |digits| ==> IsHexDigit(digits[k]) then Some(ParseHex(digits)) else None
  }

  /** Each word line has the documented shape and gives its word back. */
  lemma WordLineRoundTrip(i: nat, w: Word)
    ensures var line := WordLine(i, w);
      (i % 8 == 0 <==> |line| == 15 && line[..4] == "    ") && (i % 8 != 0 <==> |line| == 11)
    ensures ParseWordLine(WordLine(i, w)) == Some(w)
  {
    Format08xOfWord(w);
    var digits := Format08x(w);
    var body := "0x" + digits + ",";
    ParseBody(digits);
    if i % 8 == 0 {
      assert WordLine(i, w) == "    " + body;
      ParseIndented(body);
    } else {
      assert WordLine(i, w) == body;
    }
  }

  /** An unindented word line parses to the value of its digits. */
  lemma ParseBody(digits: string)
    requires |digits| == 8 && forall k :: 0 <= k < 8 ==> IsHexDigit(digits[k])
    ensures var body := "0x" + digits + ",";
      |body| == 11 && body[..4] != "    " && ParseWordLine(body) == Some(ParseHex(digits))
  {
    var body := "0x" + digits + ",";
    assert body[0] == '0';
    assert body[..4][0] == '0';
    assert body[..2] == "0x" && body[2..|body| - 1] == digits;
  }

  /** The indentation is stripped before parsing, from a line that does not start with
      another. */
  lemma ParseIndented(body: string)
    requires |body| >= 4 && body[..4] != "    "
    ensures var line := "    " + body;
      |line| == |body| + 4 && line[..4] == "    " && ParseWordLine(line) == ParseWordLine(body)
  {
    var line := "    " + body;
    assert line[..4] == "    " && line[4..] == body;
    assert ParseWordLine(line) == ParseBodyOf(body);
  }

  function Opening(symbol: string): seq<string> {
    [ "#ifndef VULKANPATHTRACERSPV_H",
      "#define VULKANPATHTRACERSPV_H",
      "",
      "#include <cstddef>",
      "#include <cstdint>",
      "",
      "static const uint32_t " + symbol + "[] = {" ]
  }

  function Closing(symbol: string): seq<string> {
    [ "};",
      "",
      "static const size_t " + symbol + "Size = sizeof(" + symbol + ");",
      "",
      "#endif",
      "" ]
  }

  /** The lines of the header for `words`: seven opening lines, a line per word in order,
      six closing lines. */
  ghost predicate IsHeader(lines: seq<string>, symbol: string, words: seq<Word>) {
    && |lines| == 7 + |words| + 6
    && lines[..7] == Opening(symbol)
    && (forall i :: 0 <= i < |words| ==> lines[7 + i] == WordLine(i, words[i]))
    && lines[7 + |words|..] == Closing(symbol)
  }

  /** The header's shape fixes every line. */
  lemma HeaderUnique(a: seq<string>, b: seq<string>, symbol: string, words: seq<Word>)
    requires IsHeader(a, symbol, words) && IsHeader(b, symbol, words)
    ensures a == b
  {
    forall k | 0 <= k < |a|
      ensures a[k] == b[k]
    {
      if k < 7 {
        assert a[k] == a[..7][k] && b[k] == b[..7][k];
      } else if k < 7 + |words| {
        var i := k - 7;
        assert a[7 + i] == WordLine(i, words[i]) == b[7 + i];
      } else {
        assert a[k] == a[7 + |words|..][k - 7 - |words|];
        assert b[k] == b[7 + |words|..][k - 7 - |words|];
      }
    }
  }

  /** The words can be read back from a header, line by line. */
  lemma HeaderWordsRecoverable(lines: seq<string>, symbol: string, words: seq<Word>)
    requires IsHeader(lines, symbol, words)
    ensures forall i :: 0 <= i < |words| ==> ParseWordLine(lines[7 + i]) == Some(words[i])
    ensures lines[7 + |words| + 2] == "static const size_t " + symbol + "Size = sizeof(" + symbol + ");"
  {
    forall i | 0 <= i < |words|
      ensures ParseWordLine(lines[7 + i]) == Some(words[i])
    {
      WordLineRoundTrip(i, words[i]);
    }
    assert lines[7 + |words| + 2] == lines[7 + |words|..][2];
  }

  /** The list `lines` built by the script: the opening, one `append` per word, then `extend`
      with the closing. */
  method HeaderLines(symbol: string, words: seq<Word>) returns (lines: seq<string>)
    ensures IsHeader(lines, symbol, words)
  {
    var opening := Opening(symbol);
    lines := opening;
    ghost var body: seq<string> := [];
    for i := 0 to |words|
      invariant lines == opening + body && |body| == i
      invariant forall k :: 0 <= k < i ==> body[k] == WordLine(k, words[k])
    {
      lines, body := lines + [WordLine(i, words[i])], body + [WordLine(i, words[i])];
    }
    lines := lines + Closing(symbol);
    ThreeParts(opening, body, Closing(symbol));
  }

  /** The parts of a three-part concatenation sit at their offsets. */
  lemma ThreeParts(a: seq<string>, b: seq<string>, c: seq<string>)
    ensures (a + b + c)[..|a|] == a && (a + b + c)[|a| + |b|..] == c
    ensures forall k :: 0 <= k < |b| ==> (a + b + c)[|a| + k] == b[k]
  {
  }

  /** `"\n".join(lines)`. */
  function Join(lines: seq<string>): (text: string)
    ensures |lines| == 0 ==> text == ""
    ensures |lines| > 0 ==> |text| == TotalLength(lines) + |lines| - 1
  {
    if |lines| == 0 then ""
    else if |lines| == 1 then lines[0]
    else Join(lines[..|lines| - 1]) + "\n" + lines[|lines| - 1]
  }

  function TotalLength(lines: seq<string>): nat {
    if |lines| == 0 then 0 else TotalLength(lines[..|lines| - 1]) + |lines[|lines| - 1]|
  }

  /** The converter: the header text for `data`, or the error for a ragged length. */
  method Convert(symbol: string, data: seq<Byte>) returns (r: Result<string, string>, ghost lines: seq<string>)
    ensures r.Failure? <==> |data| % 4 != 0
    ensures r.Failure? ==> r.error == LengthError
    ensures r.Success? ==> |data| % 4 == 0 && IsHeader(lines, symbol, Words(data)) && r.value == Join(lines)
  {
    lines := [];
    var decoded := DecodeWords(data);
    if decoded.Failure? {
      return Failure(decoded.error), lines;
    }
    var built := HeaderLines(symbol, decoded.value);
    lines := built;
    r := Success(Join(built));
  }
}
