/** Opaque page cursors: base64 of the primary key, a pipe and the ordering value. */
module Cursor {
  import opened Wrappers
  import opened Decimal
  import opened Text
  import Base64
  import Utf8

  datatype CursorError = InvalidEncoding | InvalidFormat | InvalidPrimaryKey

  function RawCursor(pk: int, orderValue: Option<string>): string {
    IntToString(pk) + "|" + (if orderValue.Some? then orderValue.value else "")
  }

  function EncodeCursor(pk: int, orderValue: Option<string>): string
    requires Utf8.IsBytes(RawCursor(pk, orderValue))
  {
    Base64.Encode(RawCursor(pk, orderValue))
  }

  function DecodeCursor(cursor: string): Result<(int, Option<string>), CursorError> {
    match Base64.Decode(cursor)
    case None => Err(InvalidEncoding)
    case Some(raw) =>
      if !Utf8.Valid(raw) then Err(InvalidFormat)
      else match SplitOnce(raw, '|')
        case None => Err(InvalidFormat)
        case Some((pkText, value)) =>
          match ParseInt(pkText, I64_MIN, I64_MAX)
          case None => Err(InvalidPrimaryKey)
          case Some(pk) => Ok((pk, if value != "" then Some(value) else None))
  }

  lemma RawIsValid(pk: int, orderValue: Option<string>)
    requires orderValue.Some? ==> Utf8.Valid(orderValue.value)
    ensures Utf8.Valid(RawCursor(pk, orderValue)) && Utf8.IsBytes(RawCursor(pk, orderValue))
  {
    var head := IntToString(pk) + "|";
    Utf8.AsciiIsValid(head);
    Utf8.ValidConcat(head, if orderValue.Some? then orderValue.value else "");
    Utf8.ValidIsBytes(RawCursor(pk, orderValue));
  }

  /** A cursor reads back as the key and value it was made from, but for an empty value, read as none. */
  lemma CursorRoundTrip(pk: int, orderValue: Option<string>)
    requires I64_MIN <= pk <= I64_MAX
    requires orderValue.Some? ==> Utf8.Valid(orderValue.value)
    ensures Utf8.IsBytes(RawCursor(pk, orderValue))
    ensures DecodeCursor(EncodeCursor(pk, orderValue)) == Ok((pk, if orderValue == Some("") then None else orderValue))
  {
    RawIsValid(pk, orderValue);
    Base64.DecodeEncode(RawCursor(pk, orderValue));
    assert '|' !in IntToString(pk) by {
      if '|' in IntToString(pk) { PrintedChars(pk, '|'); }
    }
    SplitOnceAtFirst(IntToString(pk), '|', if orderValue.Some? then orderValue.value else "");
    ParsePrinted(pk, I64_MIN, I64_MAX);
  }
}
