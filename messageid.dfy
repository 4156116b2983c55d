/**
 * Message ids of the pane (View.js `encodeMessageId` / `decodeMessageId`):
 * `username:timestamp`.
 */
module MessageId {
  import opened JsString
  import opened JsNumber

  datatype MessageIdData = MessageIdData(username: string, timestamp: Num)

  /** `username + ":" + timestamp`. */
  function EncodeMessageId(username: string, timestamp: Num): string {
    username + ":" + NumToString(timestamp)
  }

  /** `split(":")`: the text before the first colon, and `parseInt` of the
      text between the first and the second; without a colon that part is
      `undefined`, which `parseInt` reads as NaN. */
  function DecodeMessageId(id: string): MessageIdData {
    var parts := Split(id, ':');
    MessageIdData(parts[0], if |parts| > 1 then ParseInt(parts[1]) else NaN)
  }

  /** Decoding an encoded id gives back the username and the timestamp, for
      a username without a colon. */
  lemma DecodeEncode(username: string, timestamp: Num)
    requires ':' !in username
    ensures DecodeMessageId(EncodeMessageId(username, timestamp)) == MessageIdData(username, timestamp)
  {
    var d := NumToString(timestamp);
    assert ':' !in d;
    SplitAtFirst(username, d, ':');
    SplitNoSeparator(d, ':');
    assert username + ":" + d == username + [':'] + d;
    ParseIntOfNumToString(timestamp);
  }

  /** A colon in the username cuts the name at the colon, and the
      timestamp is read from the rest of the name instead. */
  lemma DecodeEncodeColonName(first: string, second: string, timestamp: Num)
    requires ':' !in first && ':' !in second
    ensures DecodeMessageId(EncodeMessageId(first + ":" + second, timestamp))
         == MessageIdData(first, ParseInt(second))
  {
    var d := NumToString(timestamp);
    assert first + ":" + second + ":" + d == first + [':'] + (second + [':'] + d);
    SplitAtFirst(first, second + [':'] + d, ':');
    SplitAtFirst(second, d, ':');
  }
}
