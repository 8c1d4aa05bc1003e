/** `TelegramBotService`, without its HTTP client: the credential guards that decide whether a request
    is made at all, the JSON string-escaping chain applied to the message text, and the status label of
    the statistics message. A JSON string decoder written after section 7 of RFC 8259 is the partner
    against which the escaping is judged. */
module Telegram {
  import opened Wrappers
  import JavaString

  const ApiBase := "https://api.telegram.org/bot"

  /** A configured credential: `None` stands for Java's `null`. */
  predicate Usable(v: Option<string>) {
    v.Some? && |v.value| > 0
  }

  /** The POST the service would send: target URL and JSON body. */
  datatype Request = Request(url: string, body: string)

  /* ---------------------------------------------------------------- the escape chain */

  /** The five `String.replace` calls in their source order: backslash, quote, LF, CR, TAB. */
  function ReplaceChain(text: string): string {
    var s1 := JavaString.Replace(text, "\\", "\\\\");
    var s2 := JavaString.Replace(s1, "\"", "\\\"");
    var s3 := JavaString.Replace(s2, "\n", "\\n");
    var s4 := JavaString.Replace(s3, "\r", "\\r");
    JavaString.Replace(s4, "\t", "\\t")
  }

  /** The characters the chain rewrites. */
  predicate IsSpecial(c: char) {
    c == '\\' || c == '"' || c == '\n' || c == '\r' || c == '\t'
  }

  /** Reference escaping, one character at a time. */
  function EscapeChar(c: char): (r: string)
    ensures IsSpecial(c) ==> |r| == 2 && r[0] == '\\'
    ensures !IsSpecial(c) ==> r == [c]
  {
    if c == '\\' then "\\\\"
    else if c == '"' then "\\\""
    else if c == '\n' then "\\n"
    else if c == '\r' then "\\r"
    else if c == '\t' then "\\t"
    else [c]
  }

  function EscapeEach(text: string): (r: string)
    ensures forall i :: 0 <= i < |r| ==> r[i] != '\n' && r[i] != '\r' && r[i] != '\t'
    ensures (forall i :: 0 <= i < |text| ==> !IsSpecial(text[i])) ==> r == text
  {
    if |text| == 0 then ""
    else EscapeChar(text[0]) + EscapeEach(text[1..])
  }

  /** A one-character replacement leaves text without that character alone. */
  lemma ReplaceCharFree(s: string, c: char, replacement: string)
    requires c !in s
    ensures JavaString.Replace(s, [c], replacement) == s
  {
    assert forall k :: JavaString.OccursAt(s, [c], k) ==> s[k] == c;
    JavaString.ReplaceAbsent(s, [c], replacement);
  }

  /** The chain distributes over concatenation, because each step replaces a single character. */
  lemma ReplaceChainConcat(a: string, b: string)
    ensures ReplaceChain(a + b) == ReplaceChain(a) + ReplaceChain(b)
  {
    var a1 := JavaString.Replace(a, "\\", "\\\\");
    var b1 := JavaString.Replace(b, "\\", "\\\\");
    JavaString.ReplaceCharConcat(a, b, '\\', "\\\\");
    var a2 := JavaString.Replace(a1, "\"", "\\\"");
    var b2 := JavaString.Replace(b1, "\"", "\\\"");
    JavaString.ReplaceCharConcat(a1, b1, '"', "\\\"");
    var a3 := JavaString.Replace(a2, "\n", "\\n");
    var b3 := JavaString.Replace(b2, "\n", "\\n");
    JavaString.ReplaceCharConcat(a2, b2, '\n', "\\n");
    var a4 := JavaString.Replace(a3, "\r", "\\r");
    var b4 := JavaString.Replace(b3, "\r", "\\r");
    JavaString.ReplaceCharConcat(a3, b3, '\r', "\\r");
    JavaString.ReplaceCharConcat(a4, b4, '\t', "\\t");
  }

  /** On a single character the chain produces that character's escape. Backslash goes first, so the
      backslashes introduced by the later steps are never doubled. */
  lemma ReplaceChainSingle(x: char)
    ensures ReplaceChain([x]) == EscapeChar(x)
  {
    JavaString.ReplaceCharSingle(x, '\\', "\\\\");
    var s1 := JavaString.Replace([x], "\\", "\\\\");
    if x == '\\' {
      ReplaceCharFree(s1, '"', "\\\"");
      ReplaceCharFree(s1, '\n', "\\n");
      ReplaceCharFree(s1, '\r', "\\r");
      ReplaceCharFree(s1, '\t', "\\t");
    } else {
      JavaString.ReplaceCharSingle(x, '"', "\\\"");
      var s2 := JavaString.Replace([x], "\"", "\\\"");
      if x == '"' {
        ReplaceCharFree(s2, '\n', "\\n");
        ReplaceCharFree(s2, '\r', "\\r");
        ReplaceCharFree(s2, '\t', "\\t");
      } else {
        JavaString.ReplaceCharSingle(x, '\n', "\\n");
        var s3 := JavaString.Replace([x], "\n", "\\n");
        if x == '\n' {
          ReplaceCharFree(s3, '\r', "\\r");
          ReplaceCharFree(s3, '\t', "\\t");
        } else {
          JavaString.ReplaceCharSingle(x, '\r', "\\r");
          var s4 := JavaString.Replace([x], "\r", "\\r");
          if x == '\r' {
            ReplaceCharFree(s4, '\t', "\\t");
          } else {
            JavaString.ReplaceCharSingle(x, '\t', "\\t");
          }
        }
      }
    }
  }

  /** The replace chain of the source is exactly the per-character escape. */
  lemma {:induction false} ReplaceChainIsEachChar(text: string)
    ensures ReplaceChain(text) == EscapeEach(text)
  {
    if |text| > 0 {
      assert text == [text[0]] + text[1..];
      ReplaceChainConcat([text[0]], text[1..]);
      ReplaceChainSingle(text[0]);
      ReplaceChainIsEachChar(text[1..]);
    }
  }

  /** The escaping `sendMessage` applies to the text before it goes into the JSON body: the replace
      chain, which is the per-character escape `EscapeEach`. */
  function EscapeChain(text: string): (r: string)
    ensures r == EscapeEach(text)
  {
    ReplaceChainIsEachChar(text);
    ReplaceChain(text)
  }

  /** The escaped text carries no raw line feed, carriage return or tab. */
  lemma EscapeLeavesNoRawControl(text: string)
    ensures var r := EscapeChain(text);
      forall i :: 0 <= i < |r| ==> r[i] != '\n' && r[i] != '\r' && r[i] != '\t'
  {
  }

  /** Text with no backslash, quote, LF, CR or TAB is sent as it is. */
  lemma EscapeKeepsPlainText(text: string)
    requires forall i :: 0 <= i < |text| ==> !IsSpecial(text[i])
    ensures EscapeChain(text) == text
  {
  }

  /* ---------------------------------------------------------------- JSON string decoding (RFC 8259, section 7) */

  predicate IsHex(c: char) {
    ('0' <= c <= '9') || ('a' <= c <= 'f') || ('A' <= c <= 'F')
  }

  function HexValue(c: char): (v: nat)
    requires IsHex(c)
    ensures v < 16
  {
    if '0' <= c <= '9' then c as int - '0' as int
    else if 'a' <= c <= 'f' then c as int - 'a' as int + 10
    else c as int - 'A' as int + 10
  }

  predicate IsHex4(s: string) {
    |s| == 4 && IsHex(s[0]) && IsHex(s[1]) && IsHex(s[2]) && IsHex(s[3])
  }

  function Hex4Value(s: string): (v: nat)
    requires IsHex4(s)
    ensures v < 0x1_0000
  {
    ((HexValue(s[0]) * 16 + HexValue(s[1])) * 16 + HexValue(s[2])) * 16 + HexValue(s[3])
  }

  function Prepend(c: char, rest: Option<string>): (r: Option<string>)
    ensures r.Some? <==> rest.Some?
    ensures r.Some? ==> r.value == [c] + rest.value
  {
    match rest
    case None => None
    case Some(t) => Some([c] + t)
  }

  /** The contents of a JSON string (between its quotes) decoded strictly: raw quotes, raw backslashes
      and raw characters below U+0020 are rejected; the two-character escapes and `\uXXXX` (with
      surrogate pairs combined, lone surrogates rejected) are decoded. */
  function Unescape(s: string): Option<string>
    decreases |s|
  {
    if |s| == 0 then Some("")
    else if s[0] == '\\' then
      if |s| < 2 then None
      else if s[1] == '"' then Prepend('"', Unescape(s[2..]))
      else if s[1] == '\\' then Prepend('\\', Unescape(s[2..]))
      else if s[1] == '/' then Prepend('/', Unescape(s[2..]))
      else if s[1] == 'b' then Prepend(8 as char, Unescape(s[2..]))
      else if s[1] == 'f' then Prepend(12 as char, Unescape(s[2..]))
      else if s[1] == 'n' then Prepend('\n', Unescape(s[2..]))
      else if s[1] == 'r' then Prepend('\r', Unescape(s[2..]))
      else if s[1] == 't' then Prepend('\t', Unescape(s[2..]))
      else if s[1] == 'u' && |s| >= 6 && IsHex4(s[2..6]) then
        var v := Hex4Value(s[2..6]);
        if 0xD800 <= v < 0xDC00 then
          if |s| >= 12 && s[6] == '\\' && s[7] == 'u' && IsHex4(s[8..12])
             && 0xDC00 <= Hex4Value(s[8..12]) < 0xE000
          then
            var w := Hex4Value(s[8..12]);
            Prepend((0x1_0000 + (v - 0xD800) * 0x400 + (w - 0xDC00)) as char, Unescape(s[12..]))
          else None
        else if 0xDC00 <= v < 0xE000 then None
        else Prepend(v as char, Unescape(s[6..]))
      else None
    else if s[0] == '"' || s[0] < ' ' then None
    else Prepend(s[0], Unescape(s[1..]))
  }

  /** The characters the source's chain leaves in a form JSON accepts: everything from U+0020 on, and
      the three control characters it rewrites. */
  predicate JsonSafe(c: char) {
    c >= ' ' || c == '\n' || c == '\r' || c == '\t'
  }

  lemma UnescapeEscapedChar(x: char, rest: string)
    requires JsonSafe(x)
    ensures Unescape(EscapeChar(x) + rest) == Prepend(x, Unescape(rest))
  {
    var e := EscapeChar(x) + rest;
    if IsSpecial(x) {
      assert e[2..] == rest;
    } else {
      assert e[1..] == rest;
    }
  }

  lemma {:induction false} UnescapeEscapeEach(text: string)
    requires forall i :: 0 <= i < |text| ==> JsonSafe(text[i])
    ensures Unescape(EscapeEach(text)) == Some(text)
  {
    if |text| > 0 {
      UnescapeEscapeEach(text[1..]);
      UnescapeEscapedChar(text[0], EscapeEach(text[1..]));
      assert text == [text[0]] + text[1..];
    }
  }

  /** Decoding the escaped text under the rules of section 7 of RFC 8259 gives back the original text,
      for every text whose control characters are only LF, CR and TAB. */
  lemma EscapeRoundTrip(text: string)
    requires forall i :: 0 <= i < |text| ==> JsonSafe(text[i])
    ensures Unescape(EscapeChain(text)) == Some(text)
  {
    UnescapeEscapeEach(text);
  }

  /** Any other control character passes the chain raw, and the resulting JSON string is malformed:
      a backspace is the smallest case. */
  lemma BackspaceIsNotEscaped()
    ensures var text := [8 as char];
      EscapeChain(text) == text && Unescape(EscapeChain(text)).None?
  {
  }

  /* ---------------------------------------------------------------- guards and requests */

  /** `sendMessage` up to the network call: with an unusable token or chat id there is no request (the
      method returns `false`); otherwise the POST to `sendMessage` whose body carries the chat id as is
      and the escaped text, with Markdown parsing. */
  function SendMessageRequest(botToken: Option<string>, chatId: Option<string>, text: string): (r: Option<Request>)
    ensures r.None? <==> !Usable(botToken) || !Usable(chatId)
    ensures r.Some? ==> r.value.url == ApiBase + botToken.value + "/sendMessage"
    ensures r.Some? ==> r.value.body == MessageBody(chatId.value, EscapeChain(text))
  {
    if !Usable(botToken) || !Usable(chatId) then None
    else Some(Request(ApiBase + botToken.value + "/sendMessage", MessageBody(chatId.value, EscapeChain(text))))
  }

  function MessageBody(chatId: string, escaped: string): string {
    "{\"chat_id\": \"" + chatId + "\", \"text\": \"" + escaped + "\", \"parse_mode\": \"Markdown\"}"
  }

  /** The body carries the escaped text whole: for one chat id, two bodies are equal exactly when their
      escaped texts are. */
  lemma MessageBodyKeepsText(chatId: string, e1: string, e2: string)
    ensures MessageBody(chatId, e1) == MessageBody(chatId, e2) <==> e1 == e2
  {
    var head := "{\"chat_id\": \"" + chatId + "\", \"text\": \"";
    var tail := "\", \"parse_mode\": \"Markdown\"}";
    if MessageBody(chatId, e1) == MessageBody(chatId, e2) {
      assert MessageBody(chatId, e1) == head + e1 + tail;
      assert MessageBody(chatId, e2) == head + e2 + tail;
      assert (head + e1 + tail)[|head|..|head| + |e1|] == e1;
      assert (head + e2 + tail)[|head|..|head| + |e2|] == e2;
    }
  }

  /** The text field of every request that is made decodes back to the message, for text whose control
      characters are only LF, CR and TAB. */
  lemma SentTextDecodes(botToken: Option<string>, chatId: Option<string>, text: string)
    requires Usable(botToken) && Usable(chatId)
    requires forall i :: 0 <= i < |text| ==> JsonSafe(text[i])
    ensures var r := SendMessageRequest(botToken, chatId, text);
      r.Some? && exists e :: r.value.body == MessageBody(chatId.value, e) && Unescape(e) == Some(text)
  {
    EscapeRoundTrip(text);
    var e := EscapeChain(text);
    assert SendMessageRequest(botToken, chatId, text).value.body == MessageBody(chatId.value, e);
  }

  /** `testConnection` up to the network call: `false` without a request when either argument is
      unusable, otherwise the `getMe` URL it opens. */
  function TestConnectionRequest(testToken: Option<string>, testChatId: Option<string>): (r: Option<string>)
    ensures r.None? <==> !Usable(testToken) || !Usable(testChatId)
    ensures r.Some? ==> r.value == ApiBase + testToken.value + "/getMe"
  {
    if !Usable(testToken) || !Usable(testChatId) then None
    else Some(ApiBase + testToken.value + "/getMe")
  }

  /* ---------------------------------------------------------------- statistics message */

  const RunningLabel := "работает"
  const StoppedLabel := "остановлен"

  /** The state word of the statistics message. */
  function StatusLabel(status: string): (r: string)
    ensures r == RunningLabel || r == StoppedLabel
    ensures r == RunningLabel <==> status == "Running"
  {
    if status == "Running" then RunningLabel else StoppedLabel
  }
}
