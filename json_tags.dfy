/**
  The text form of an article's tag list.  The server stores
  JSON.stringify(tags) in the `tags` column, and the admin and public scripts
  read it back with JSON.parse.  Encode is JSON.stringify on an array of
  strings (the escaping of ECMAScript's QuoteJSONString); Decode is JSON.parse
  restricted to texts whose value is an array of strings (RFC 8259 grammar:
  white space, array, string, escapes including surrogate pairs).
 */
module JsonTags {
  import opened JsBuiltins

  // ---------------------------------------------------------------------
  // Encoding (JSON.stringify)
  // ---------------------------------------------------------------------

  function HexDigit(d: nat): (c: char)
    requires d < 16
  {
    if d < 10 then ('0' as int + d) as char else ('a' as int + d - 10) as char
  }

  /** Four lower-case hex digits of a code unit. */
  function Hex4(v: nat): (r: string)
    requires v < 0x10000
    ensures |r| == 4
  {
    [HexDigit(v / 0x1000), HexDigit(v / 0x100 % 16), HexDigit(v / 0x10 % 16), HexDigit(v % 16)]
  }

  /** How JSON.stringify writes one character inside a string literal. */
  function EscapeChar(c: char): (r: string)
    ensures |r| >= 1
  {
    if c == '"' then "\\\""
    else if c == '\\' then "\\\\"
    else if c == '\U{0008}' then "\\b"
    else if c == '\t' then "\\t"
    else if c == '\n' then "\\n"
    else if c == '\U{000C}' then "\\f"
    else if c == '\r' then "\\r"
    else if c < ' ' then "\\u" + Hex4(c as nat)
    else [c]
  }

  function EscapeBody(x: string): string {
    if x == [] then "" else EscapeChar(x[0]) + EscapeBody(x[1..])
  }

  /** JSON.stringify of one string. */
  function EncodeString(x: string): string {
    "\"" + EscapeBody(x) + "\""
  }

  function EncodeItems(tags: seq<string>): string {
    if tags == [] then ""
    else if |tags| == 1 then EncodeString(tags[0])
    else EncodeString(tags[0]) + "," + EncodeItems(tags[1..])
  }

  /** JSON.stringify of an array of strings: no white space, comma separated. */
  function Encode(tags: seq<string>): (r: string)
    ensures |r| >= 2 && r[0] == '[' && r[|r| - 1] == ']'
  {
    "[" + EncodeItems(tags) + "]"
  }

  // ---------------------------------------------------------------------
  // Decoding (JSON.parse)
  // ---------------------------------------------------------------------

  /** The four white-space characters RFC 8259 allows between tokens. */
  predicate IsJsonSpace(c: char) {
    c == ' ' || c == '\t' || c == '\n' || c == '\r'
  }

  function SkipWs(s: string): (r: string)
    ensures |r| <= |s| && r == s[|s| - |r|..]
  {
    if s != [] && IsJsonSpace(s[0]) then SkipWs(s[1..]) else s
  }

  function HexValue(c: char): (v: int)
    ensures -1 <= v < 16
  {
    if '0' <= c <= '9' then c as int - '0' as int
    else if 'a' <= c <= 'f' then c as int - 'a' as int + 10
    else if 'A' <= c <= 'F' then c as int - 'A' as int + 10
    else -1
  }

  /** The code unit written by four hex digits at the front of s, if they are there. */
  function ParseHex4(s: string): (r: Option<nat>)
    ensures r.Some? ==> r.value < 0x10000
  {
    if |s| < 4 || HexValue(s[0]) < 0 || HexValue(s[1]) < 0 || HexValue(s[2]) < 0 || HexValue(s[3]) < 0
    then None
    else Some(((HexValue(s[0]) * 16 + HexValue(s[1])) * 16 + HexValue(s[2])) * 16 + HexValue(s[3]))
  }

  predicate IsHighSurrogate(v: nat) { 0xD800 <= v < 0xDC00 }
  predicate IsLowSurrogate(v: nat) { 0xDC00 <= v < 0xE000 }

  /**
    The escape after a backslash: the character it denotes and how many
    characters it occupies after the backslash.  A \u escape of a high
    surrogate must be followed by the \u escape of a low one; the pair is one
    character.  A lone surrogate has no character value here.
   */
  function ParseEscape(s: string): (r: Option<(char, nat)>)
    ensures r.Some? ==> 1 <= r.value.1 <= |s|
  {
    if s == [] then None
    else if s[0] == '"' then Some(('"', 1))
    else if s[0] == '\\' then Some(('\\', 1))
    else if s[0] == '/' then Some(('/', 1))
    else if s[0] == 'b' then Some(('\U{0008}', 1))
    else if s[0] == 'f' then Some(('\U{000C}', 1))
    else if s[0] == 'n' then Some(('\n', 1))
    else if s[0] == 'r' then Some(('\r', 1))
    else if s[0] == 't' then Some(('\t', 1))
    else if s[0] != 'u' then None
    else
      match ParseHex4(s[1..])
      case None => None
      case Some(v) =>
        if IsLowSurrogate(v) then None
        else if !IsHighSurrogate(v) then Some((v as char, 5))
        else if |s| < 11 || s[5] != '\\' || s[6] != 'u' then None
        else
          match ParseHex4(s[7..])
          case None => None
          case Some(w) =>
            if !IsLowSurrogate(w) then None
            else Some(((0x10000 + (v - 0xD800) * 0x400 + (w - 0xDC00)) as char, 11))
  }

  /**
    The characters of a string literal up to its closing quote: the value and
    the text after the quote.
   */
  function ParseChars(s: string): (r: Option<(string, string)>)
    ensures r.Some? ==> |r.value.1| < |s|
    decreases |s|
  {
    if s == [] then None
    else if s[0] == '"' then Some(("", s[1..]))
    else if s[0] == '\\' then
      var e := ParseEscape(s[1..]);
      if e.None? then None
      else
        var more := ParseChars(s[1 + e.value.1..]);
        if more.None? then None else Some(([e.value.0] + more.value.0, more.value.1))
    else if s[0] < ' ' then None
    else
      var more := ParseChars(s[1..]);
      if more.None? then None else Some(([s[0]] + more.value.0, more.value.1))
  }

  /** The elements of an array from its first string literal through `]` and the end of the text. */
  function ParseItems(s: string): Option<seq<string>>
    decreases |s|, 1
  {
    if s == [] || s[0] != '"' then None
    else
      var first := ParseChars(s[1..]);
      if first.None? then None else ParseAfterItem(first.value.0, SkipWs(first.value.1))
  }

  /** What follows an element v: `]` and the end of the text, or `,` and further elements. */
  function ParseAfterItem(v: string, t: string): Option<seq<string>>
    decreases |t|, 0
  {
    if t == [] then None
    else if t[0] == ']' then (if SkipWs(t[1..]) == [] then Some([v]) else None)
    else if t[0] != ',' then None
    else
      var rest := ParseItems(SkipWs(t[1..]));
      if rest.None? then None else Some([v] + rest.value)
  }

  /** JSON.parse of a text whose value is an array of strings; None where JSON.parse would throw. */
  function Decode(s: string): (r: Option<seq<string>>)
    ensures r.Some? ==> SkipWs(s) != [] && SkipWs(s)[0] == '['
    ensures SkipWs(s) == [] ==> r.None?
  {
    var t := SkipWs(s);
    if t == [] || t[0] != '[' then None
    else
      var u := SkipWs(t[1..]);
      if u != [] && u[0] == ']' then (if SkipWs(u[1..]) == [] then Some([]) else None)
      else ParseItems(u)
  }

  /** The text is the JSON literal null, with any JSON white space around it. */
  predicate IsNull(s: string) {
    var t := SkipWs(s);
    |t| >= 4 && t[..4] == "null" && SkipWs(t[4..]) == []
  }

  /** null is not an array: Decode refuses it. */
  lemma NullIsNotList(s: string)
    requires IsNull(s)
    ensures Decode(s).None?
  {
    var t := SkipWs(s);
    assert t[0] == t[..4][0] == 'n';
  }

  /** A text Decode accepts as a list is not null. */
  lemma ListIsNotNull(s: string)
    requires Decode(s).Some?
    ensures !IsNull(s)
  {
    if IsNull(s) {
      NullIsNotList(s);
    }
  }

  /**
    JSON.parse of a text whose value is null (Some(None)) or an array of
    strings (Some(Some(list))); None where JSON.parse would throw.
   */
  function DecodeNullable(s: string): (r: Option<Option<seq<string>>>)
    ensures r == Some(None) <==> IsNull(s)
    ensures !IsNull(s) ==> (r.Some? <==> Decode(s).Some?) && (r.Some? ==> r.value == Decode(s))
    ensures IsNull(s) ==> Decode(s).None?
  {
    if IsNull(s) then
      NullIsNotList(s);
      Some(None)
    else
      match Decode(s)
      case Some(items) => Some(Some(items))
      case None => None
  }

  // ---------------------------------------------------------------------
  // Round trip
  // ---------------------------------------------------------------------

  lemma {:induction false} HexDigitValue(d: nat)
    requires d < 16
    ensures HexValue(HexDigit(d)) == d
  {
  }

  /** The \u escapes the encoder writes (control characters) read back as the same code unit. */
  lemma {:induction false} Hex4RoundTrip(v: nat, rest: string)
    requires v < 0x20
    ensures ParseHex4(Hex4(v) + rest) == Some(v)
  {
    var h := Hex4(v) + rest;
    assert v / 0x1000 == 0 && v / 0x100 % 16 == 0;
    HexDigitValue(0);
    HexDigitValue(v / 16);
    HexDigitValue(v % 16);
    assert h[..4] == [HexDigit(0), HexDigit(0), HexDigit(v / 16), HexDigit(v % 16)];
  }

  /** One escaped character reads back as itself. */
  lemma {:induction false} EscapeCharRoundTrip(c: char, rest: string)
    ensures ParseChars(EscapeChar(c) + rest) ==
      if ParseChars(rest).None? then None else Some(([c] + ParseChars(rest).value.0, ParseChars(rest).value.1))
  {
    var e := EscapeChar(c);
    var s := e + rest;
    if c == '"' || c == '\\' || c == '\U{0008}' || c == '\t' || c == '\n' || c == '\U{000C}' || c == '\r' {
      assert s[0] == '\\' && s[1..] == [e[1]] + rest;
      assert s[2..] == rest;
    } else if c < ' ' {
      assert s[0] == '\\';
      assert s[1..] == "u" + (Hex4(c as nat) + rest);
      Hex4RoundTrip(c as nat, rest);
      assert s[1..][1..] == Hex4(c as nat) + rest;
      assert ParseEscape(s[1..]) == Some((c, 5));
      assert s[6..] == rest;
    } else {
      assert s[1..] == rest;
    }
  }

  lemma {:induction false} EscapeBodyRoundTrip(x: string, rest: string)
    ensures ParseChars(EscapeBody(x) + "\"" + rest) == Some((x, rest))
  {
    if x == [] {
      assert EscapeBody(x) + "\"" + rest == "\"" + rest;
    } else {
      var tail := EscapeBody(x[1..]) + "\"" + rest;
      EscapeBodyRoundTrip(x[1..], rest);
      EscapeBodyCons(x, rest, tail);
      EscapeCharRoundTrip(x[0], tail);
      assert [x[0]] + x[1..] == x;
    }
  }

  lemma EscapeBodyCons(x: string, rest: string, tail: string)
    requires x != [] && tail == EscapeBody(x[1..]) + "\"" + rest
    ensures EscapeBody(x) + "\"" + rest == EscapeChar(x[0]) + tail
  {
    Regroup3(EscapeChar(x[0]), EscapeBody(x[1..]), "\"", rest);
  }

  lemma Regroup3(a: string, b: string, c: string, d: string)
    ensures a + b + c + d == a + (b + c + d)
  {
  }

  /** An encoded string literal at the front of s reads back as its value. */
  lemma {:induction false} ParseLiteral(s: string, x: string, tail: string)
    requires s == EncodeString(x) + tail
    ensures s != [] && s[0] == '"' && ParseChars(s[1..]) == Some((x, tail))
  {
    EscapeBodyRoundTrip(x, tail);
    assert s[1..] == EscapeBody(x) + "\"" + tail;
  }

  lemma {:induction false} SkipWsNone(s: string)
    requires s == [] || !IsJsonSpace(s[0])
    ensures SkipWs(s) == s
  {
  }

  lemma {:induction false} AfterClose(x: string)
    ensures ParseAfterItem(x, [']']) == Some([x])
  {
    assert [']'][1..] == [];
  }

  /** How ParseItems reads a last literal followed by the closing bracket. */
  lemma {:induction false} ParseItemsLast(s: string, x: string)
    requires s != [] && s[0] == '"' && ParseChars(s[1..]) == Some((x, [']']))
    ensures ParseItems(s) == Some([x])
  {
    var first := ParseChars(s[1..]);
    assert first.value.1 == [']'];
    SkipWsNone([']']);
    assert ParseItems(s) == ParseAfterItem(x, [']']);
    AfterClose(x);
  }

  /** How ParseItems reads a literal followed by a comma and further items. */
  lemma {:induction false} ParseItemsNext(s: string, x: string, more: string)
    requires s != [] && s[0] == '"' && ParseChars(s[1..]) == Some((x, [','] + more))
    requires more != [] && more[0] == '"'
    ensures ParseItems(s) == if ParseItems(more).None? then None else Some([x] + ParseItems(more).value)
  {
    SkipWsNone([','] + more);
    assert ParseItems(s) == ParseAfterItem(x, [','] + more);
    assert ([','] + more)[1..] == more;
    SkipWsNone(more);
  }

  /** A non-empty item list starts with the opening quote of its first literal. */
  lemma {:induction false} EncodeItemsStart(tags: seq<string>)
    requires tags != []
    ensures EncodeItems(tags) != [] && EncodeItems(tags)[0] == '"'
  {
    assert EncodeString(tags[0])[0] == '"';
  }

  lemma {:induction false} EncodeOneRoundTrip(x: string)
    ensures ParseItems(EncodeItems([x]) + [']']) == Some([x])
  {
    var s := EncodeItems([x]) + [']'];
    ParseLiteral(s, x, [']']);
    ParseItemsLast(s, x);
  }

  lemma {:induction false} Regroup(a: string, b: string)
    ensures a + [','] + b + [']'] == a + ([','] + (b + [']']))
  {
  }

  /** How the encoder lays out a list of two or more: the first literal, a comma, the rest. */
  lemma {:induction false} EncodeItemsShape(tags: seq<string>)
    requires |tags| >= 2
    ensures EncodeItems(tags) + [']'] == EncodeString(tags[0]) + ([','] + (EncodeItems(tags[1..]) + [']']))
  {
    assert EncodeItems(tags) == EncodeString(tags[0]) + "," + EncodeItems(tags[1..]);
    Regroup(EncodeString(tags[0]), EncodeItems(tags[1..]));
  }

  /** A literal and a comma in front of parseable items add one item at the front. */
  lemma {:induction false} ParseConsLiteral(s: string, x: string, more: string, rest: seq<string>, all: seq<string>)
    requires s == EncodeString(x) + ([','] + more)
    requires more != [] && more[0] == '"' && ParseItems(more) == Some(rest)
    requires all == [x] + rest
    ensures ParseItems(s) == Some(all)
  {
    ParseLiteral(s, x, [','] + more);
    ParseItemsNext(s, x, more);
  }

  lemma {:induction false} HeadTail(tags: seq<string>)
    requires tags != []
    ensures tags == [tags[0]] + tags[1..]
  {
  }

  lemma {:induction false} EncodeItemsStep(tags: seq<string>)
    requires |tags| >= 2
    requires ParseItems(EncodeItems(tags[1..]) + [']']) == Some(tags[1..])
    ensures ParseItems(EncodeItems(tags) + [']']) == Some(tags)
  {
    EncodeItemsShape(tags);
    EncodeItemsStart(tags[1..]);
    HeadTail(tags);
    ParseConsLiteral(EncodeItems(tags) + [']'], tags[0], EncodeItems(tags[1..]) + [']'], tags[1..], tags);
  }

  lemma {:induction false} EncodeItemsRoundTrip(tags: seq<string>)
    requires tags != []
    ensures ParseItems(EncodeItems(tags) + [']']) == Some(tags)
  {
    if |tags| == 1 {
      EncodeOneRoundTrip(tags[0]);
      assert tags == [tags[0]];
    } else {
      EncodeItemsRoundTrip(tags[1..]);
      EncodeItemsStep(tags);
    }
  }

  lemma {:induction false} DecodeEmpty()
    ensures Decode("[]") == Some([])
  {
    var s: string := "[]";
    SkipWsNone(s);
    assert s[1..] == [']'];
    SkipWsNone([']']);
    assert [']'][1..] == [];
  }

  lemma {:induction false} DecodeItems(items: string)
    requires items != [] && items[0] == '"'
    ensures Decode(['['] + items) == ParseItems(items)
  {
    var s := ['['] + items;
    SkipWsNone(s);
    assert s[1..] == items;
    SkipWsNone(items);
  }

  /** What the server stores for a tag list parses back to that list, in order, duplicates and all. */
  lemma {:induction false} DecodeEncode(tags: seq<string>)
    ensures Decode(Encode(tags)) == Some(tags)
  {
    if tags == [] {
      assert Encode(tags) == "[]";
      DecodeEmpty();
    } else {
      var items := EncodeItems(tags) + [']'];
      assert Encode(tags) == ['['] + items;
      EncodeItemsStart(tags);
      DecodeItems(items);
      EncodeItemsRoundTrip(tags);
    }
  }
  lemma {:induction false} SkipWsPadded(pre: string, x: string)
    requires forall i :: 0 <= i < |pre| ==> IsJsonSpace(pre[i])
    requires x == [] || !IsJsonSpace(x[0])
    ensures SkipWs(pre + x) == x
    decreases |pre|
  {
    if pre != [] {
      assert (pre + x)[1..] == pre[1..] + x;
      SkipWsPadded(pre[1..], x);
    }
  }

  /** The literal null is null whatever JSON white space surrounds it. */
  lemma NullPadded(pre: string, post: string)
    requires forall i :: 0 <= i < |pre| ==> IsJsonSpace(pre[i])
    requires forall i :: 0 <= i < |post| ==> IsJsonSpace(post[i])
    ensures IsNull(pre + "null" + post)
    ensures DecodeNullable(pre + "null" + post) == Some(None)
  {
    var s := pre + "null" + post;
    assert s == pre + ("null" + post);
    SkipWsPadded(pre, "null" + post);
    assert ("null" + post)[4..] == post + [];
    SkipWsPadded(post, []);
  }
}
