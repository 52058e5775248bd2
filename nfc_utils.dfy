/**
 * NFCUtils: the NFC Forum Text record framing (RTD-Text, section 3.2.1 of the Text Record Type
 * Definition), the upper-case hex formatter, and the input-hygiene predicates of the tag editor.
 */
module NFCUtils {
  import opened Base
  import Utf8
  import Hex

  /** A type name format, the 3-bit TNF field of an NDEF record header. */
  type Tnf = t: int | 0 <= t < 8

  const TnfEmpty: Tnf := 0
  const TnfWellKnown: Tnf := 1

  /** The well-known record type "T". */
  const RtdText: seq<byte> := [0x54]

  /** The language code `createTextRecord` writes when none is given. */
  const DefaultLanguage: string := "en"

  /** An NDEF record as android.nfc.NdefRecord holds it. */
  datatype NdefRecord = NdefRecord(tnf: Tnf, recordType: seq<byte>, id: seq<byte>, payload: seq<byte>)

  // ---------------------------------------------------------------------------------------------
  // Text records

  /** `String.toByteArray(US-ASCII)`: every character outside ASCII becomes '?'. */
  function AsciiEncode(s: string): (r: seq<byte>)
    ensures |r| == |s|
    ensures forall i :: 0 <= i < |s| && s[i] as int < 0x80 ==> r[i] as int == s[i] as int
    ensures forall i :: 0 <= i < |s| && s[i] as int >= 0x80 ==> r[i] == '?' as int as byte
  {
    seq(|s|, i requires 0 <= i < |s| => if s[i] as int < 0x80 then s[i] as int as byte else '?' as int as byte)
  }

  /** The record `createTextRecord(text, language)` builds; CreateTextRecord computes it in place. */
  function TextRecord(text: string, language: string): (r: NdefRecord)
  {
    var lang := AsciiEncode(language);
    NdefRecord(TnfWellKnown, RtdText, [], [(|lang| % 256) as byte] + lang + Utf8.Encode(text))
  }

  /**
   * Copies `src` into `dst` from position `at` on, as System.arraycopy does.
   */
  method CopyInto(src: seq<byte>, dst: array<byte>, at: nat)
    requires at + |src| <= dst.Length
    modifies dst
    ensures dst[..] == old(dst[..at]) + src + old(dst[at + |src|..])
  {
    ghost var before := dst[..];
    var k := 0;
    while k < |src|
      invariant 0 <= k <= |src|
      invariant forall i :: 0 <= i < dst.Length && !(at <= i < at + k) ==> dst[i] == before[i]
      invariant forall i :: 0 <= i < k ==> dst[at + i] == src[i]
    {
      dst[at + k] := src[k];
      k := k + 1;
    }
    ghost var expected := before[..at] + src + before[at + |src|..];
    forall i | 0 <= i < dst.Length ensures dst[i] == expected[i] {
      if at <= i < at + |src| {
        assert dst[at + (i - at)] == src[i - at];
      }
    }
    assert dst[..] == expected;
  }

  /**
   * createTextRecord: a well-known "T" record with no id whose payload is the status byte
   * (the language-code length L, truncated to a byte), the L ASCII bytes of the language code,
   * then the UTF-8 bytes of the text.
   */
  method CreateTextRecord(text: string, language: string) returns (record: NdefRecord)
    ensures record == TextRecord(text, language)
    ensures record.tnf == TnfWellKnown && record.recordType == RtdText && record.id == []
    ensures |record.payload| == 1 + |language| + |Utf8.Encode(text)|
    ensures record.payload[0] as int == |language| % 256
    ensures record.payload[1..1 + |language|] == AsciiEncode(language)
    ensures record.payload[1 + |language|..] == Utf8.Encode(text)
  {
    var langBytes := AsciiEncode(language);
    var textBytes := Utf8.Encode(text);
    var langLength, textLength := |langBytes|, |textBytes|;
    var payload := new byte[1 + langLength + textLength];
    payload[0] := (langLength % 256) as byte;
    ghost var status := payload[0];
    CopyInto(langBytes, payload, 1);
    assert payload[..1 + langLength] == [status] + langBytes;
    CopyInto(textBytes, payload, 1 + langLength);
    assert payload[..] == [status] + langBytes + textBytes;
    record := NdefRecord(TnfWellKnown, RtdText, [], payload[..]);
  }

  /**
   * parseTextRecord: the text of a well-known "T" record. Only the low 6 bits of the status byte
   * are read as the language-code length; the language code itself is skipped.
   */
  function ParseTextRecord(record: NdefRecord): (r: Option<string>)
    ensures r.Some? <==>
      record.tnf == TnfWellKnown && record.recordType == RtdText && |record.payload| > 0
      && 1 + record.payload[0] as int % 64 <= |record.payload|
    ensures r.Some? ==> r.value == Utf8.Decode(record.payload[1 + record.payload[0] as int % 64..])
  {
    if record.tnf == TnfWellKnown && record.recordType == RtdText then
      var payload := record.payload;
      if |payload| > 0 then
        var languageCodeLength := payload[0] as int % 64;
        // copyOfRange(1 + languageCodeLength, size) throws when the range starts past the end
        if 1 + languageCodeLength <= |payload| then Some(Utf8.Decode(payload[1 + languageCodeLength..]))
        else None
      else None
    else None
  }

  /** A text record whose language code is shorter than 64 characters reads back as its text. */
  lemma ParseCreatedTextRecord(text: string, language: string)
    requires |language| < 64
    ensures ParseTextRecord(TextRecord(text, language)) == Some(text)
  {
    var lang := AsciiEncode(language);
    var p := [(|lang| % 256) as byte] + lang + Utf8.Encode(text);
    assert TextRecord(text, language).payload == p;
    assert p[0] as int % 64 == |language|;
    assert p[1 + |language|..] == Utf8.Encode(text);
    Utf8.DecodeEncode(text);
  }

  /** A 64-character language code wraps the 6-bit length to 0 and its bytes are read as text. */
  lemma ParseLongLanguageCode(language: string)
    requires |language| == 64
    ensures ParseTextRecord(TextRecord("", language)) != Some("")
  {
    var p := TextRecord("", language).payload;
    assert p[0] as int % 64 == 0;
    assert |p[1..]| == 64;
    Utf8.DecodeNonEmpty(p[1..]);
  }

  // ---------------------------------------------------------------------------------------------
  // Record size

  function BigEndian32(n: nat): (r: seq<byte>)
    ensures |r| == 4
  {
    [(n / 0x100_0000 % 256) as byte, (n / 0x1_0000 % 256) as byte, (n / 0x100 % 256) as byte, (n % 256) as byte]
  }

  /**
   * The bytes of a record that is alone in its message (MB and ME set), laid out as section 3.2
   * of the NFC Forum NDEF specification and android.nfc.NdefRecord.toByteArray give them:
   * header, type length, payload length (1 byte for a short record, else 4), id length when
   * present, type, id, payload.
   */
  function RecordBytes(record: NdefRecord): (bytes: seq<byte>)
  {
    var sr := |record.payload| < 256;
    var il := record.tnf == TnfEmpty || |record.id| > 0;
    var header := 0x80 + 0x40 + (if sr then 0x10 else 0) + (if il then 0x08 else 0) + record.tnf;
    [header as byte, (|record.recordType| % 256) as byte]
    + (if sr then [|record.payload| as byte] else BigEndian32(|record.payload|))
    + (if il then [(|record.id| % 256) as byte] else [])
    + record.recordType + record.id + record.payload
  }

  /** validateDataLength: the text record of `data` plus 3 bytes of message overhead fits in maxSize. */
  function ValidateDataLength(data: string, maxSize: int): (fits: bool)
  {
    |RecordBytes(TextRecord(data, DefaultLanguage))| + 3 <= maxSize
  }

  /**
   * In terms of the text: its UTF-8 size n plus 3 payload bytes, 4 header bytes for a short record
   * (payload under 256 bytes) or 7 for a long one, plus 3.
   */
  lemma ValidateDataLengthBound(data: string, maxSize: int)
    ensures var n := |Utf8.Encode(data)|;
      ValidateDataLength(data, maxSize) <==> (if n + 3 < 256 then 4 else 7) + (n + 3) + 3 <= maxSize
  {
    var r := TextRecord(data, DefaultLanguage);
    assert |r.payload| == 3 + |Utf8.Encode(data)|;
  }

  // ---------------------------------------------------------------------------------------------
  // Hex formatting

  const HexChars: string := "0123456789ABCDEF"

  /**
   * bytesToHex: two characters of HexChars per byte, the high nibble first; the text decodes back
   * to the bytes.
   */
  method BytesToHex(bytes: seq<byte>) returns (hex: string)
    ensures |hex| == 2 * |bytes|
    ensures forall i :: 0 <= i < |bytes| ==>
      hex[2 * i] == HexChars[bytes[i] as int / 16] && hex[2 * i + 1] == HexChars[bytes[i] as int % 16]
    ensures forall k :: 0 <= k < |hex| ==> hex[k] in HexChars
    ensures Hex.Decode(hex) == Some(bytes)
  {
    var result := "";
    for k := 0 to |bytes|
      invariant |result| == 2 * k
      invariant forall i :: 0 <= i < k ==>
        result[2 * i] == HexChars[bytes[i] as int / 16] && result[2 * i + 1] == HexChars[bytes[i] as int % 16]
    {
      var i := bytes[k] as int;
      result := result + [HexChars[i / 16], HexChars[i % 16]];
    }
    hex := result;
    forall k | 0 <= k < |hex| ensures hex[k] in HexChars {
      var i := k / 2;
      assert k == 2 * i || k == 2 * i + 1;
      assert hex[2 * i] == HexChars[bytes[i] as int / 16] && hex[2 * i + 1] == HexChars[bytes[i] as int % 16];
    }
    forall i | 0 <= i < |bytes|
      ensures Hex.DigitValue(hex[2 * i]) == Some(bytes[i] as int / 16)
      ensures Hex.DigitValue(hex[2 * i + 1]) == Some(bytes[i] as int % 16)
    {
      UpperDigitValue(bytes[i] as int / 16);
      UpperDigitValue(bytes[i] as int % 16);
    }
    Hex.DecodePairs(hex, bytes);
  }

  lemma UpperDigitValue(n: int)
    requires 0 <= n < 16
    ensures Hex.DigitValue(HexChars[n]) == Some(n)
  {
  }

  // ---------------------------------------------------------------------------------------------
  // Input hygiene

  /** Kotlin's `Char.isWhitespace` on the JVM: Character.isWhitespace or Character.isSpaceChar. */
  predicate IsWhitespace(c: char)
  {
    ('\t' <= c <= '\r') || ('\U{1C}' <= c <= '\U{1F}') || c == ' ' || c == '\U{A0}' || c == '\U{1680}'
    || ('\U{2000}' <= c <= '\U{200A}') || c == '\U{2028}' || c == '\U{2029}' || c == '\U{202F}'
    || c == '\U{205F}' || c == '\U{3000}'
  }

  /** Every character of `s[lo..hi]` satisfies `p`. */
  predicate AllIn(s: string, lo: int, hi: int, p: char -> bool)
    requires 0 <= lo <= hi <= |s|
  {
    forall k :: lo <= k < hi ==> p(s[k])
  }

  /** `isBlank`: every character is whitespace. */
  predicate IsBlank(s: string)
  {
    AllIn(s, 0, |s|, IsWhitespace)
  }

  /** The first index at or after `i` whose character does not satisfy `p` (or |s|). */
  function SkipForward(s: string, i: nat, p: char -> bool): (n: nat)
    requires i <= |s|
    ensures i <= n <= |s| && AllIn(s, i, n, p)
    ensures n < |s| ==> !p(s[n])
    decreases |s| - i
  {
    if i < |s| && p(s[i]) then SkipForward(s, i + 1, p) else i
  }

  /** The least index n in [lo, j] such that every character of s[n..j] satisfies `p`. */
  function SkipBackward(s: string, j: nat, lo: nat, p: char -> bool): (n: nat)
    requires lo <= j <= |s|
    ensures lo <= n <= j && AllIn(s, n, j, p)
    ensures n > lo ==> !p(s[n - 1])
    decreases j - lo
  {
    if j > lo && p(s[j - 1]) then SkipBackward(s, j - 1, lo, p) else j
  }

  /**
   * `trim(p)`: the slice of `s` between its leading and its trailing run of characters satisfying
   * `p`; the first and last characters kept do not satisfy `p`, and the result is empty exactly
   * when every character of `s` satisfies `p`.
   */
  function TrimBy(s: string, p: char -> bool): (r: string)
    ensures r == [] <==> AllIn(s, 0, |s|, p)
    ensures r != [] ==> !p(r[0]) && !p(r[|r| - 1])
    ensures exists i :: 0 <= i <= |s| - |r| && r == s[i..i + |r|] && AllIn(s, 0, i, p) && AllIn(s, i + |r|, |s|, p)
  {
    var i := SkipForward(s, 0, p);
    var j := SkipBackward(s, |s|, i, p);
    assert i < |s| ==> !p(s[i]) && i < j;
    assert i == |s| ==> AllIn(s, 0, |s|, p);
    s[i..j]
  }

  /** `trim()`: `s` without its leading and trailing whitespace. */
  function Trim(s: string): (r: string)
    ensures r == [] <==> IsBlank(s)
    ensures r != [] ==> !IsWhitespace(r[0]) && !IsWhitespace(r[|r| - 1])
    ensures exists i :: (0 <= i <= |s| - |r| && r == s[i..i + |r|]
                         && AllIn(s, 0, i, IsWhitespace) && AllIn(s, i + |r|, |s|, IsWhitespace))
  {
    TrimBy(s, IsWhitespace)
  }

  predicate IsControl(c: char)
  {
    c as int <= 0x1F || c as int == 0x7F
  }

  /** `replace(Regex("[\\x00-\\x1F\\x7F]"), "")`: the characters of `s` that are not controls, in order. */
  function RemoveControls(s: string): (r: string)
    ensures forall k :: 0 <= k < |r| ==> !IsControl(r[k])
    ensures |r| <= |s|
    ensures (forall k :: 0 <= k < |s| ==> !IsControl(s[k])) ==> r == s
    ensures (forall k :: 0 <= k < |s| ==> IsControl(s[k])) ==> r == []
  {
    if s == [] then []
    else (if IsControl(s[0]) then [] else [s[0]]) + RemoveControls(s[1..])
  }

  /** Removing controls works character by character: it distributes over concatenation. */
  lemma {:induction false} RemoveControlsConcat(a: string, b: string)
    ensures RemoveControls(a + b) == RemoveControls(a) + RemoveControls(b)
    decreases |a|
  {
    if a != [] {
      var head := if IsControl(a[0]) then [] else [a[0]];
      assert (a + b)[0] == a[0] && (a + b)[1..] == a[1..] + b;
      assert RemoveControls(a + b) == head + RemoveControls(a[1..] + b);
      RemoveControlsConcat(a[1..], b);
      assert RemoveControls(a) == head + RemoveControls(a[1..]);
    } else {
      assert a + b == b;
    }
  }

  const MaxInputLength: nat := 1000

  /** sanitizeInput: trimmed, control characters removed, cut to 1000 characters. */
  function SanitizeInput(input: string): (r: string)
    ensures |r| <= MaxInputLength
    ensures forall k :: 0 <= k < |r| ==> !IsControl(r[k])
  {
    var cleaned := RemoveControls(Trim(input));
    if |cleaned| <= MaxInputLength then cleaned else cleaned[..MaxInputLength]
  }

  /** Input without surrounding whitespace, within 1000 characters, only loses its controls. */
  lemma SanitizeTrimmedInput(input: string)
    requires |input| <= MaxInputLength
    requires input != [] ==> !IsWhitespace(input[0]) && !IsWhitespace(input[|input| - 1])
    ensures SanitizeInput(input) == RemoveControls(input)
  {
    assert SkipForward(input, 0, IsWhitespace) == 0;
    assert SkipBackward(input, |input|, 0, IsWhitespace) == |input|;
    assert input[0..|input|] == input;
  }

  /** Clean input (no controls, no surrounding whitespace, at most 1000 characters) passes unchanged. */
  lemma SanitizeKeepsCleanInput(input: string)
    requires |input| <= MaxInputLength
    requires forall k :: 0 <= k < |input| ==> !IsControl(input[k])
    requires input != [] ==> !IsWhitespace(input[0]) && !IsWhitespace(input[|input| - 1])
    ensures SanitizeInput(input) == input
  {
    SanitizeTrimmedInput(input);
  }

  /** Sanitizing is not idempotent: removing a control can expose whitespace that the first trim kept. */
  lemma SanitizeNotIdempotent()
    ensures SanitizeInput("\U{1} a") == " a"
    ensures SanitizeInput(" a") == "a"
  {
    SanitizeControlFirst();
    SanitizeSpaceFirst();
  }

  lemma SanitizeControlFirst()
    ensures SanitizeInput("\U{1} a") == " a"
  {
    var s := "\U{1} a";
    assert SkipForward(s, 0, IsWhitespace) == 0 by { assert !IsWhitespace(s[0]); }
    assert SkipBackward(s, 3, 0, IsWhitespace) == 3 by { assert !IsWhitespace(s[2]); }
    assert s[0..3] == s;
    assert Trim(s) == s;
    assert s[1..] == " a" && s[1..][1..] == "a" && "a"[1..] == [];
    assert RemoveControls("a") == "a";
    assert RemoveControls(" a") == " a";
    assert RemoveControls(s) == " a";
  }

  lemma SanitizeSpaceFirst()
    ensures SanitizeInput(" a") == "a"
  {
    assert Trim(" a") == "a" by {
      assert SkipForward(" a", 1, IsWhitespace) == 1;
      assert SkipForward(" a", 0, IsWhitespace) == 1;
      assert SkipBackward(" a", 2, 1, IsWhitespace) == 2;
    }
    assert RemoveControls("a") == "a";
  }

  /** A control between two visible characters is dropped, not replaced, and its neighbours stay in order. */
  lemma SanitizeInnerControl(x: char, c: char, y: char)
    requires IsControl(c) && !IsControl(x) && !IsControl(y)
    requires !IsWhitespace(x) && !IsWhitespace(y)
    ensures SanitizeInput([x, c, y]) == [x, y]
  {
    var s := [x, c, y];
    SanitizeTrimmedInput(s);
    assert s[1..] == [c, y] && s[1..][1..] == [y] && [y][1..] == [];
    assert RemoveControls([y]) == [y];
    assert RemoveControls([c, y]) == [y];
    assert RemoveControls(s) == [x] + [y];
  }

  /**
   * The characters `.` does not match without the DOTALL flag, in the ICU regular expressions that
   * back `java.util.regex` on Android: LF, VT, FF, CR, NEL, LINE SEPARATOR and PARAGRAPH SEPARATOR.
   */
  predicate IsLineTerminator(c: char)
  {
    c == '\n' || c == '\U{B}' || c == '\U{C}' || c == '\r' || c == '\U{85}' || c == '\U{2028}' || c == '\U{2029}'
  }

  /** Text that `.*` matches entirely. */
  predicate SingleLine(s: string)
  {
    forall k :: 0 <= k < |s| ==> !IsLineTerminator(s[k])
  }

  predicate IsAsciiLetter(c: char)
  {
    'a' <= c <= 'z' || 'A' <= c <= 'Z'
  }

  predicate IsAsciiAlnum(c: char)
  {
    IsAsciiLetter(c) || '0' <= c <= '9'
  }

  /** `s.matches(".*[a-zA-Z0-9].*")`: the whole of `s` is dot-matched around one letter or digit. */
  predicate MatchesAlnumPattern(s: string)
  {
    exists i :: 0 <= i < |s| && SingleLine(s[..i]) && IsAsciiAlnum(s[i]) && SingleLine(s[i + 1..])
  }

  /** `s.matches(".*[a-zA-Z]{3,}.*")`: the whole of `s` is dot-matched around a run of 3 or more letters. */
  predicate MatchesLetterRunPattern(s: string)
  {
    exists i, j :: 0 <= i && i + 3 <= j <= |s| && SingleLine(s[..i])
      && (forall k :: i <= k < j ==> IsAsciiLetter(s[k])) && SingleLine(s[j..])
  }

  /** isValidText: not blank, and matching `.*[a-zA-Z0-9].*`. */
  predicate IsValidText(text: string)
  {
    !IsBlank(text) && MatchesAlnumPattern(text)
  }

  lemma SingleLineSplit(s: string, i: int)
    requires SingleLine(s) && 0 <= i <= |s|
    ensures SingleLine(s[..i]) && SingleLine(s[i..])
  {
    assert forall k :: 0 <= k < |s[i..]| ==> s[i..][k] == s[i + k];
  }

  /**
   * Blank text is invalid. On single-line text isValidText holds exactly when some character is an
   * ASCII letter or digit; text with a line terminator is always invalid.
   */
  lemma IsValidTextCharacterization(text: string)
    ensures IsBlank(text) ==> !IsValidText(text)
    ensures SingleLine(text) ==> (IsValidText(text) <==> exists i :: 0 <= i < |text| && IsAsciiAlnum(text[i]))
    ensures !SingleLine(text) ==> !IsValidText(text)
  {
    if SingleLine(text) && exists i :: 0 <= i < |text| && IsAsciiAlnum(text[i]) {
      var i :| 0 <= i < |text| && IsAsciiAlnum(text[i]);
      SingleLineSplit(text, i);
      SingleLineSplit(text, i + 1);
      assert !IsWhitespace(text[i]);
    }
    if !SingleLine(text) && MatchesAlnumPattern(text) {
      var i :| 0 <= i < |text| && SingleLine(text[..i]) && IsAsciiAlnum(text[i]) && SingleLine(text[i + 1..]);
      forall k | 0 <= k < |text| ensures !IsLineTerminator(text[k]) {
        if k < i { assert text[k] == text[..i][k]; }
        else if k > i { assert text[k] == text[i + 1..][k - i - 1]; }
      }
      assert false;
    }
  }

  /**
   * isEncryptedText: the Base64 decoder accepts the text (`decodes`, a foreign call) and the text
   * does not match `.*[a-zA-Z]{3,}.*`.
   */
  predicate IsEncryptedText(text: string, decodes: bool)
  {
    decodes && !MatchesLetterRunPattern(text)
  }

  /** Single-line text holding three consecutive ASCII letters is never taken for ciphertext. */
  lemma LetterRunIsNotEncrypted(text: string, i: int, decodes: bool)
    requires SingleLine(text)
    requires 0 <= i && i + 3 <= |text|
    requires IsAsciiLetter(text[i]) && IsAsciiLetter(text[i + 1]) && IsAsciiLetter(text[i + 2])
    ensures !IsEncryptedText(text, decodes)
  {
    SingleLineSplit(text, i);
    SingleLineSplit(text, i + 3);
    assert forall k :: i <= k < i + 3 ==> IsAsciiLetter(text[k]);
  }

  /** Any decodable text containing a line terminator is taken for ciphertext, whatever its letters. */
  lemma MultiLineIsEncrypted(text: string)
    requires !SingleLine(text)
    ensures IsEncryptedText(text, true)
  {
    if MatchesLetterRunPattern(text) {
      var i, j :| 0 <= i && i + 3 <= j <= |text| && SingleLine(text[..i])
        && (forall k :: i <= k < j ==> IsAsciiLetter(text[k])) && SingleLine(text[j..]);
      forall k | 0 <= k < |text| ensures !IsLineTerminator(text[k]) {
        if k < i { assert text[k] == text[..i][k]; }
        else if k >= j { assert text[k] == text[j..][k - j]; }
      }
      assert false;
    }
  }
}
