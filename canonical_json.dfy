/**
 * The text the event routes hash: `JSON.stringify` of the fixed-order record
 * `{machine_id, event_type, description, data: null, previous_hash}`.
 * String values are quoted as ECMAScript's QuoteJSONString does; a small
 * parser reads the text back, which shows that distinct records never
 * serialise to the same text.
 */
module CanonicalJson {
  import opened Platform
  import opened JsText

  /** The record whose serialisation is hashed; `data` is always `null` in it. */
  datatype HashPayload = HashPayload(
    machineId: string,
    eventType: string,
    description: string,
    previousHash: Option<string>)

  /** One character inside a JSON string literal, as QuoteJSONString writes it. */
  function EscapeChar(c: char): (r: string)
    ensures r != []
  {
    var n := c as int;
    if c == '"' then "\\\""
    else if c == '\\' then "\\\\"
    else if n == 0x08 then "\\b"
    else if n == 0x09 then "\\t"
    else if n == 0x0A then "\\n"
    else if n == 0x0C then "\\f"
    else if n == 0x0D then "\\r"
    else if n < 0x20 then "\\u00" + [DigitChar(n / 16), DigitChar(n % 16)]
    else [c]
  }

  /**
   * A character is written as itself exactly when it is neither a quote, a
   * backslash nor a control character; otherwise it becomes an escape of two
   * to six characters that starts with a backslash.
   */
  lemma EscapeCharVerbatim(c: char)
    ensures EscapeChar(c) == [c] <==> c != '"' && c != '\\' && c as int >= 0x20
    ensures EscapeChar(c) != [c] ==> EscapeChar(c)[0] == '\\' && 2 <= |EscapeChar(c)| <= 6
  {
  }

  function Escape(s: string): string {
    if s == [] then "" else EscapeChar(s[0]) + Escape(s[1..])
  }

  /** A JSON string literal holding `s`. */
  function Quote(s: string): string {
    "\"" + Escape(s) + "\""
  }

  /** `previous_hash` is written as a string literal or as `null`. */
  function NullableJson(v: Option<string>): string {
    if v.Some? then Quote(v.value) else "null"
  }

  const MachineIdKey: string := "{\"machine_id\":"
  const EventTypeKey: string := ",\"event_type\":"
  const DescriptionKey: string := ",\"description\":"
  const DataAndPreviousHashKey: string := ",\"data\":null,\"previous_hash\":"
  const CloseBrace: string := "}"

  /** `JSON.stringify(hashPayload)`: keys in insertion order, no white space. */
  function Stringify(p: HashPayload): string {
    MachineIdKey + (Quote(p.machineId) +
    (EventTypeKey + (Quote(p.eventType) +
    (DescriptionKey + (Quote(p.description) +
    (DataAndPreviousHashKey + (NullableJson(p.previousHash) + CloseBrace)))))))
  }

  // ----- reading the text back -----

  /** The rest of `t` after the literal `lit`, if `t` starts with it. */
  function Expect(t: string, lit: string): (r: Option<string>)
    ensures r.Some? ==> |r.value| < |t| || lit == []
  {
    if StartsWith(t, lit) then Some(t[|lit|..]) else None
  }

  /** The value of a JSON hex digit, either case, or -1. */
  function JsonHexValue(c: char): int {
    if 'A' <= c <= 'F' then c as int - 'A' as int + 10
    else if '0' <= c <= '9' || 'a' <= c <= 'f' then DigitValue(c)
    else -1
  }

  /** Decodes the escape sequence that follows a backslash; returns the character and what follows. */
  function Unescape(u: string): (r: Option<(char, string)>)
    ensures r.Some? ==> |r.value.1| < |u|
  {
    if u == [] then None
    else if u[0] == '"' then Some(('"', u[1..]))
    else if u[0] == '\\' then Some(('\\', u[1..]))
    else if u[0] == '/' then Some(('/', u[1..]))
    else if u[0] == 'b' then Some((8 as char, u[1..]))
    else if u[0] == 'f' then Some((12 as char, u[1..]))
    else if u[0] == 'n' then Some((10 as char, u[1..]))
    else if u[0] == 'r' then Some((13 as char, u[1..]))
    else if u[0] == 't' then Some((9 as char, u[1..]))
    else if u[0] == 'u' && |u| >= 5 then
      var h0, h1, h2, h3 := JsonHexValue(u[1]), JsonHexValue(u[2]), JsonHexValue(u[3]), JsonHexValue(u[4]);
      if h0 < 0 || h1 < 0 || h2 < 0 || h3 < 0 then None
      else
        var v := ((h0 * 16 + h1) * 16 + h2) * 16 + h3;
        if 0xD800 <= v < 0xE000 then None else Some((v as char, u[5..]))
    else None
  }

  /** Reads string characters up to the closing quote; returns the value and what follows the quote. */
  function ParseChars(t: string): Option<(string, string)>
    decreases |t|
  {
    if t == [] then None
    else if t[0] == '"' then Some(([], t[1..]))
    else if t[0] == '\\' then
      match Unescape(t[1..])
      case None => None
      case Some((c, rest)) =>
        match ParseChars(rest)
        case None => None
        case Some((s, after)) => Some(([c] + s, after))
    else if (t[0] as int) < 0x20 then None
    else
      match ParseChars(t[1..])
      case None => None
      case Some((s, after)) => Some(([t[0]] + s, after))
  }

  /** Reads one JSON string literal at the start of `t`. */
  function ParseString(t: string): Option<(string, string)> {
    if t != [] && t[0] == '"' then ParseChars(t[1..]) else None
  }

  /** Reads `null` or a JSON string literal. */
  function ParseNullable(t: string): Option<(Option<string>, string)> {
    match Expect(t, "null")
    case Some(rest) => Some((None, rest))
    case None =>
      match ParseString(t)
      case None => None
      case Some((s, rest)) => Some((Some(s), rest))
  }

  /** Reads back a whole serialised payload, refusing anything after the closing brace. */
  function ParsePayload(t: string): Option<HashPayload> {
    var t1 :- Expect(t, MachineIdKey);
    var (machineId, t2) :- ParseString(t1);
    var t3 :- Expect(t2, EventTypeKey);
    var (eventType, t4) :- ParseString(t3);
    var t5 :- Expect(t4, DescriptionKey);
    var (description, t6) :- ParseString(t5);
    var t7 :- Expect(t6, DataAndPreviousHashKey);
    var (previousHash, t8) :- ParseNullable(t7);
    var t9 :- Expect(t8, CloseBrace);
    if t9 == [] then Some(HashPayload(machineId, eventType, description, previousHash)) else None
  }

  // ----- round trip -----

  lemma ExpectLiteral(lit: string, rest: string)
    ensures Expect(lit + rest, lit) == Some(rest)
  {
    assert (lit + rest)[..|lit|] == lit;
    assert (lit + rest)[|lit|..] == rest;
  }

  /** One escaped character reads back as that character. */
  lemma ParseEscapedChar(c: char, t: string)
    ensures ParseChars(EscapeChar(c) + t) ==
      match ParseChars(t)
      case None => None
      case Some((s, after)) => Some(([c] + s, after))
  {
    var e := EscapeChar(c);
    var n := c as int;
    if |e| == 1 {
      assert (e + t)[0] == c && (e + t)[1..] == t;
    } else if |e| == 2 {
      assert (e + t)[0] == '\\';
      assert (e + t)[1..] == [e[1]] + t;
      assert ([e[1]] + t)[1..] == t;
    } else {
      assert e == ['\\', 'u', '0', '0', DigitChar(n / 16), DigitChar(n % 16)];
      var u := (e + t)[1..];
      assert u == ['u', '0', '0', DigitChar(n / 16), DigitChar(n % 16)] + t;
      assert u[5..] == t;
      assert ((0 * 16 + 0) * 16 + n / 16) * 16 + n % 16 == n;
      assert Unescape(u) == Some((c, t));
    }
  }

  /** The escaped characters of `s`, then the closing quote, read back as `s`. */
  lemma {:induction false} ParseEscaped(s: string, t: string)
    ensures ParseChars(Escape(s) + "\"" + t) == Some((s, t))
  {
    if s == [] {
      assert Escape(s) + "\"" + t == "\"" + t;
      assert ("\"" + t)[1..] == t;
    } else {
      ParseEscaped(s[1..], t);
      assert Escape(s) + "\"" + t == EscapeChar(s[0]) + (Escape(s[1..]) + "\"" + t);
      ParseEscapedChar(s[0], Escape(s[1..]) + "\"" + t);
      assert [s[0]] + s[1..] == s;
    }
  }

  lemma QuoteParses(s: string, t: string)
    ensures ParseString(Quote(s) + t) == Some((s, t))
  {
    var q := Quote(s) + t;
    assert q[1..] == Escape(s) + "\"" + t;
    ParseEscaped(s, t);
  }

  lemma NullableParses(v: Option<string>, t: string)
    ensures ParseNullable(NullableJson(v) + t) == Some((v, t))
  {
    if v.None? {
      ExpectLiteral("null", t);
    } else {
      QuoteParses(v.value, t);
      assert (NullableJson(v) + t)[0] == '"';
    }
  }

  /** The parser reads every serialised payload back unchanged. */
  lemma StringifyRoundTrip(p: HashPayload)
    ensures ParsePayload(Stringify(p)) == Some(p)
  {
    var t8 := CloseBrace;
    var t7 := NullableJson(p.previousHash) + t8;
    var t6 := DataAndPreviousHashKey + t7;
    var t5 := Quote(p.description) + t6;
    var t4 := DescriptionKey + t5;
    var t3 := Quote(p.eventType) + t4;
    var t2 := EventTypeKey + t3;
    var t1 := Quote(p.machineId) + t2;
    assert Stringify(p) == MachineIdKey + t1;
    ExpectLiteral(MachineIdKey, t1);
    QuoteParses(p.machineId, t2);
    ExpectLiteral(EventTypeKey, t3);
    QuoteParses(p.eventType, t4);
    ExpectLiteral(DescriptionKey, t5);
    QuoteParses(p.description, t6);
    ExpectLiteral(DataAndPreviousHashKey, t7);
    NullableParses(p.previousHash, t8);
    ExpectLiteral(CloseBrace, []);
    assert CloseBrace + [] == t8;
  }

  /** Distinct payloads serialise to distinct texts. */
  lemma StringifyInjective(p: HashPayload, q: HashPayload)
    requires Stringify(p) == Stringify(q)
    ensures p == q
  {
    StringifyRoundTrip(p);
    StringifyRoundTrip(q);
  }
}
