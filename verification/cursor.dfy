/** The opaque pagination cursor: the text `cursor:<id>` written as bytes and wrapped in
    base64 (pagination.service.ts, encodeCursor and decodeCursor). */
module Cursor {
  import opened Wrappers
  import opened JsText
  import Base64

  const Prefix: string := "cursor:"

  datatype CursorError = CursorEmpty | InvalidCursor(cursor: string)

  /** The message of the Error thrown for each failure. */
  function CursorErrorMessage(e: CursorError): string {
    match e
    case CursorEmpty => "Cursor cannot be empty"
    case InvalidCursor(c) => "Invalid cursor: " + c
  }

  predicate IsAscii(s: string) {
    forall i :: 0 <= i < |s| ==> s[i] as int < 128
  }

  /** `Buffer.from(text)` for a text made only of ASCII characters: one byte per character. */
  function AsciiBytes(s: string): (b: seq<Base64.byte>)
    requires IsAscii(s)
    ensures |b| == |s|
    ensures forall i :: 0 <= i < |s| ==> b[i] == s[i] as int
  {
    seq(|s|, i requires 0 <= i < |s| => s[i] as int)
  }

  /** `bytes.toString('utf-8')`: ASCII bytes read back as themselves; any other byte is
      shown as the replacement character U+FFFD. */
  function Utf8Text(b: seq<Base64.byte>): (s: string)
    ensures |s| == |b|
    ensures forall i :: 0 <= i < |b| && b[i] < 128 ==> s[i] as int == b[i]
  {
    seq(|b|, i requires 0 <= i < |b| => if b[i] < 128 then b[i] as char else '\U{FFFD}')
  }

  lemma Utf8TextOfAscii(s: string)
    requires IsAscii(s)
    ensures Utf8Text(AsciiBytes(s)) == s
  {
  }

  /** Base64 of the ASCII bytes of a text. */
  function EncodeText(text: string): string
    requires IsAscii(text)
  {
    Base64.Encode(AsciiBytes(text))
  }

  function CursorText(id: int): (t: string)
    ensures IsAscii(t)
    ensures |t| > |Prefix| && t[..|Prefix|] == Prefix
  {
    var digits := NatToDecimal(if id < 0 then -id else id);
    assert IsAscii(digits);
    Prefix + NumberToString(id)
  }

  /** encodeCursor: base64 of `cursor:${id}`. The cursor is never empty, so it is truthy. */
  function EncodeCursor(id: int): (c: string)
    ensures |c| > 0
  {
    EncodeText(CursorText(id))
  }

  /** decodeCursor. An empty cursor is refused with its own message; every other failure
      (text that is not base64, a missing `cursor:` prefix, a remainder that parseInt reads
      as NaN or as a number not above zero) is reported as `Invalid cursor: <cursor>`.
      The remainder after the prefix is the text after its first occurrence, which is at
      the start once the prefix check has passed. */
  function DecodeCursor(cursor: string): (r: Result<int, CursorError>)
    ensures r.Ok? ==> r.value > 0
    ensures cursor == "" <==> r == Err(CursorEmpty)
    ensures r.Err? && cursor != "" ==> r.error == InvalidCursor(cursor)
  {
    if cursor == "" then Err(CursorEmpty)
    else
      match Base64.Decode(cursor)
      case None => Err(InvalidCursor(cursor))
      case Some(bytes) =>
        var decoded := Utf8Text(bytes);
        if !(|decoded| >= |Prefix| && decoded[..|Prefix|] == Prefix) then Err(InvalidCursor(cursor))
        else
          match ParseInt(decoded[|Prefix|..])
          case None => Err(InvalidCursor(cursor))
          case Some(n) => if n <= 0 then Err(InvalidCursor(cursor)) else Ok(n)
  }

  /** The text a well-formed cursor carries, when there is one. */
  lemma DecodeEncodedText(text: string)
    requires IsAscii(text)
    ensures Base64.Decode(EncodeText(text)) == Some(AsciiBytes(text))
    ensures Utf8Text(AsciiBytes(text)) == text
  {
    Base64.DecodeEncode(AsciiBytes(text));
    Utf8TextOfAscii(text);
  }

  /** Every positive id survives the round trip through its cursor. */
  lemma DecodeEncodeCursor(id: int)
    requires id > 0
    ensures DecodeCursor(EncodeCursor(id)) == Ok(id)
  {
    var text := CursorText(id);
    DecodeEncodedText(text);
    assert text[|Prefix|..] == NumberToString(id);
    ParseIntNumberToString(id);
  }

  /** A cursor built from an id that is zero or negative is refused. */
  lemma DecodeEncodeNonPositive(id: int)
    requires id <= 0
    ensures DecodeCursor(EncodeCursor(id)) == Err(InvalidCursor(EncodeCursor(id)))
  {
    var text := CursorText(id);
    DecodeEncodedText(text);
    assert text[|Prefix|..] == NumberToString(id);
    ParseIntNumberToString(id);
  }

  /** Cursors that decode to an id are exactly those whose text starts with the prefix
      followed by something parseInt reads as a positive number. */
  lemma DecodeCursorOfText(text: string)
    requires IsAscii(text)
    ensures DecodeCursor(EncodeText(text)).Ok? <==>
      && |text| >= |Prefix| && text[..|Prefix|] == Prefix
      && ParseInt(text[|Prefix|..]).Some? && ParseInt(text[|Prefix|..]).value > 0
  {
    DecodeEncodedText(text);
  }

  /** Decoding is not injective: text after the digits is ignored by parseInt, so the
      cursor of `cursor:12x` decodes to 12 just as the cursor of `cursor:12` does. */
  lemma DecodeCursorNotInjective(id: int, junk: string)
    requires id > 0
    requires IsAscii(junk) && |junk| > 0 && !IsDigit(junk[0])
    ensures IsAscii(CursorText(id) + junk)
    ensures EncodeText(CursorText(id) + junk) != EncodeCursor(id)
    ensures DecodeCursor(EncodeText(CursorText(id) + junk)) == DecodeCursor(EncodeCursor(id)) == Ok(id)
  {
    var text := CursorText(id) + junk;
    assert IsAscii(text);
    DecodeTrailingText(id, junk);
    DecodeEncodeCursor(id);
    var a, b := AsciiBytes(text), AsciiBytes(CursorText(id));
    assert |a| != |b|;
    if EncodeText(text) == EncodeCursor(id) {
      Base64.EncodeInjective(a, b);
      assert false;
    }
  }

  lemma DecodeTrailingText(id: int, junk: string)
    requires id > 0
    requires IsAscii(junk) && |junk| > 0 && !IsDigit(junk[0])
    ensures IsAscii(CursorText(id) + junk)
    ensures DecodeCursor(EncodeText(CursorText(id) + junk)) == Ok(id)
  {
    var digits := NatToDecimal(id);
    var text := CursorText(id) + junk;
    assert CursorText(id) == Prefix + digits;
    assert text == Prefix + (digits + junk);
    assert IsAscii(text);
    DecodeEncodedText(text);
    assert text[..|Prefix|] == Prefix;
    assert text[|Prefix|..] == digits + junk;
    ParseIntIgnoresTrailingText(digits, junk);
  }
}
