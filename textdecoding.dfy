/** `extractTextField` and `decodeText` of the content script: reading a
    labelled text out of a JSON-like fragment, and the "unescape" step every
    extracted text goes through. */
module TextDecoding {
  import opened JsText

  // ---------------------------------------------------------------------
  // extractTextField
  // ---------------------------------------------------------------------

  /** The literal part of `"<key>":\{"simpleText":"([^"]+)"`. */
  function SimpleTextPrefix(key: JsString): JsString
  {
    Lit("\"") + key + Lit("\":{\"simpleText\":\"")
  }

  /** The literal part of `"<key>":\{"runs":\[\{"text":"([^"]+)"`. */
  function RunsPrefix(key: JsString): JsString
  {
    Lit("\"") + key + Lit("\":{\"runs\":[{\"text\":\"")
  }

  /** `extractTextField(block, key)`. The key is spliced into a regular
      expression; the three keys the scraper passes are plain words, so the
      pattern is the literal text above. The `simpleText` shape wins when it
      matches anywhere; otherwise the text of the first element of `runs`
      is taken; otherwise the result is null. */
  function ExtractTextField(block: JsString, key: JsString): Option<JsString>
  {
    var simple := Match(block, SimpleTextPrefix(key), NonQuote);
    if simple.Some? then simple else Match(block, RunsPrefix(key), NonQuote)
  }

  /** What extractTextField returns: the leftmost `simpleText` capture when
      that shape matches anywhere, else the leftmost `runs` capture, else
      null. */
  lemma ExtractTextFieldPrefersSimpleText(block: JsString, key: JsString)
    ensures HasCapture(block, SimpleTextPrefix(key), NonQuote) ==>
              ExtractTextField(block, key).Some? && IsLeftmostCapture(block, SimpleTextPrefix(key), NonQuote, ExtractTextField(block, key).value)
    ensures !HasCapture(block, SimpleTextPrefix(key), NonQuote) && HasCapture(block, RunsPrefix(key), NonQuote) ==>
              ExtractTextField(block, key).Some? && IsLeftmostCapture(block, RunsPrefix(key), NonQuote, ExtractTextField(block, key).value)
    ensures !HasCapture(block, SimpleTextPrefix(key), NonQuote) && !HasCapture(block, RunsPrefix(key), NonQuote) ==>
              ExtractTextField(block, key).None?
  {
    MatchIsLeftmostCapture(block, SimpleTextPrefix(key), NonQuote);
    MatchIsLeftmostCapture(block, RunsPrefix(key), NonQuote);
  }

  /** A text extractTextField returns is non-empty and holds no quote. */
  lemma ExtractedTextShape(block: JsString, key: JsString)
    ensures var r := ExtractTextField(block, key);
            r.Some? ==> 0 < |r.value| && forall i :: 0 <= i < |r.value| ==> r.value[i] != Quote
  {
    MatchIsLeftmostCapture(block, SimpleTextPrefix(key), NonQuote);
    MatchIsLeftmostCapture(block, RunsPrefix(key), NonQuote);
    var r := ExtractTextField(block, key);
    if r.Some? {
      assert forall i :: 0 <= i < |r.value| ==> InClass(r.value[i], NonQuote);
    }
  }

  // ---------------------------------------------------------------------
  // Hexadecimal digits, shared by JSON `\u` escapes and the manual fallback
  // ---------------------------------------------------------------------

  /** The value of a digit of `[0-9a-fA-F]`. */
  function HexValue(c: CodeUnit): (r: Option<nat>)
    ensures r.Some? ==> r.value < 16
  {
    if Unit('0') <= c <= Unit('9') then Some(c as nat - 0x30)
    else if Unit('a') <= c <= Unit('f') then Some(c as nat - 0x57)
    else if Unit('A') <= c <= Unit('F') then Some(c as nat - 0x37)
    else None
  }

  /** Four hexadecimal digits as the code unit they spell:
      `String.fromCharCode(parseInt(code, 16))`, and a JSON `\u` escape. */
  function Hex4(h: JsString): Option<CodeUnit>
    requires |h| == 4
  {
    match (HexValue(h[0]), HexValue(h[1]), HexValue(h[2]), HexValue(h[3]))
    case (Some(a), Some(b), Some(c), Some(d)) => Some((a * 0x1000 + b * 0x100 + c * 0x10 + d) as CodeUnit)
    case _ => None
  }

  // ---------------------------------------------------------------------
  // JSON.parse of a string literal
  // ---------------------------------------------------------------------

  /** The code unit that a JSON escape stands for, given the text after
      its backslash, and how many units of that text the escape uses;
      None for an escape JSON does not have. */
  function JsonEscape(t: JsString): (r: Option<(CodeUnit, nat)>)
    requires 0 < |t|
    ensures r.Some? ==> 1 <= r.value.1 <= |t|
  {
    var c := t[0];
    if c == Quote then Some((Quote, 1))
    else if c == Backslash then Some((Backslash, 1))
    else if c == Unit('/') then Some((Unit('/'), 1))
    else if c == Unit('b') then Some((0x08, 1))
    else if c == Unit('f') then Some((0x0C, 1))
    else if c == Unit('n') then Some((0x0A, 1))
    else if c == Unit('r') then Some((0x0D, 1))
    else if c == Unit('t') then Some((0x09, 1))
    else if c == Unit('u') && 5 <= |t| then
      match Hex4(t[1..5])
      case Some(u) => Some((u, 5))
      case None => None
    else None
  }

  /** The body of a JSON string literal, read after its opening quote:
      the decoded value and the text after the closing quote, or None
      where JSON.parse throws (a raw control character below U+0020, an
      unknown escape, a missing closing quote). */
  function ScanJsonString(t: JsString): Option<(JsString, JsString)>
    decreases |t|
  {
    if t == [] then None
    else if t[0] == Quote then Some(([], t[1..]))
    else if t[0] == Backslash then
      if |t| < 2 then None
      else match JsonEscape(t[1..])
        case None => None
        case Some((u, n)) =>
          match ScanJsonString(t[1 + n..])
          case None => None
          case Some((v, rest)) => Some(([u] + v, rest))
    else if t[0] < 0x20 then None
    else match ScanJsonString(t[1..])
      case None => None
      case Some((v, rest)) => Some(([t[0]] + v, rest))
  }

  predicate IsJsonWhitespace(c: CodeUnit)
  {
    c == 0x20 || c == 0x09 || c == 0x0A || c == 0x0D
  }

  /** `JSON.parse(text)` for a text that begins with a quote, the only kind
      decodeText builds: Some(value) when the text is one JSON string
      literal followed by whitespace at most, None when JSON.parse throws. */
  function JsonParseString(text: JsString): Option<JsString>
  {
    if |text| == 0 || text[0] != Quote then None
    else match ScanJsonString(text[1..])
      case None => None
      case Some((v, rest)) =>
        if forall i | 0 <= i < |rest| :: IsJsonWhitespace(rest[i]) then Some(v) else None
  }

  // ---------------------------------------------------------------------
  // decodeText
  // ---------------------------------------------------------------------

  /** Some code unit of `s` is a control character, below U+0020. */
  predicate HasControlUnit(s: JsString)
  {
    exists i :: 0 <= i < |s| && s[i] < 0x20
  }

  /** `text.replace(/\\/g, '\\\\').replace(/"/g, '\\"')`: every backslash
      is doubled, then every quote gets a backslash in front. */
  function EscapeForJson(s: JsString): JsString
  {
    ReplaceAll(ReplaceAll(s, [Backslash], [Backslash, Backslash]), [Quote], [Backslash, Quote])
  }

  /** `.replace(/\\u([0-9a-fA-F]{4})/g, ...)`: each backslash, `u` and four
      hexadecimal digits, left to right, becomes the code unit they spell. */
  function UnescapeUnicode(s: JsString): JsString
    decreases |s|
  {
    if s == [] then []
    else if 6 <= |s| && s[0] == Backslash && s[1] == Unit('u') && Hex4(s[2..6]).Some? then
      [Hex4(s[2..6]).value] + UnescapeUnicode(s[6..])
    else [s[0]] + UnescapeUnicode(s[1..])
  }

  /** The fallback of decodeText: `\uXXXX` escapes, then backslash-`n`,
      then backslash-`t`, each replaced globally in that order. */
  function ManualUnescape(s: JsString): JsString
  {
    ReplaceAll(ReplaceAll(UnescapeUnicode(s), Lit("\\n"), [0x0A]), Lit("\\t"), [0x09])
  }

  /** `decodeText(text)`, None standing for null. Falsy input (null or the
      empty string) is returned as it is; otherwise the text is escaped and
      handed to JSON.parse inside quotes, and the manual substitutions run
      only when JSON.parse throws. It never throws itself. */
  function DecodeText(text: Option<JsString>): Option<JsString>
  {
    match text
    case None => None
    case Some(s) =>
      if s == [] then text
      else match JsonParseString([Quote] + EscapeForJson(s) + [Quote])
        case Some(v) => Some(v)
        case None => Some(ManualUnescape(s))
  }

  // ---------------------------------------------------------------------
  // What decodeText does, proved
  // ---------------------------------------------------------------------

  /** The escape of one code unit. */
  function EscapeUnit(c: CodeUnit): JsString
  {
    if c == Backslash then [Backslash, Backslash] else if c == Quote then [Backslash, Quote] else [c]
  }

  /** The two replace passes amount to escaping unit by unit. */
  lemma {:induction false} EscapeForJsonByUnit(s: JsString)
    ensures s != [] ==> EscapeForJson(s) == EscapeUnit(s[0]) + EscapeForJson(s[1..])
  {
    if s != [] {
      var first := if s[0] == Backslash then [Backslash, Backslash] else [s[0]];
      var rest := ReplaceAll(s[1..], [Backslash], [Backslash, Backslash]);
      assert s[..1] == [s[0]];
      assert ReplaceAll(s, [Backslash], [Backslash, Backslash]) == first + rest;
      ReplaceUnitConcat(first, rest, Quote, [Backslash, Quote]);
      if s[0] == Backslash {
        assert first[..1] == [Backslash] && first[1..][..1] == [Backslash] && first[1..][1..] == [];
        assert ReplaceAll(first, [Quote], [Backslash, Quote]) == [Backslash, Backslash];
      } else if s[0] == Quote {
        assert first[..1] == [Quote] && first[1..] == [];
        assert ReplaceAll(first, [Quote], [Backslash, Quote]) == [Backslash, Quote];
      } else {
        assert first[..1] != [Quote] && first[1..] == [];
        assert ReplaceAll(first, [Quote], [Backslash, Quote]) == [s[0]];
      }
    }
  }

  /** JSON.parse reads an escaped text back up to the closing quote, and
      fails exactly when the text holds a control character. */
  lemma {:induction false} ScanEscaped(s: JsString)
    ensures ScanJsonString(EscapeForJson(s) + [Quote]) ==
              if HasControlUnit(s) then None else Some((s, []))
  {
    EscapeForJsonByUnit(s);
    if s == [] {
      assert EscapeForJson(s) == [] by {
        assert ReplaceAll(s, [Backslash], [Backslash, Backslash]) == [];
      }
      assert EscapeForJson(s) + [Quote] == [Quote];
      assert !HasControlUnit(s);
    } else {
      var tail := EscapeForJson(s[1..]) + [Quote];
      var t := EscapeForJson(s) + [Quote];
      assert t == EscapeUnit(s[0]) + tail;
      ScanEscaped(s[1..]);
      assert HasControlUnit(s) <==> s[0] < 0x20 || HasControlUnit(s[1..]) by {
        if HasControlUnit(s[1..]) {
          var i :| 0 <= i < |s[1..]| && s[1..][i] < 0x20;
          assert s[i + 1] < 0x20;
        }
        if HasControlUnit(s) && s[0] >= 0x20 {
          var i :| 0 <= i < |s| && s[i] < 0x20;
          assert s[1..][i - 1] < 0x20;
        }
      }
      if s[0] == Backslash || s[0] == Quote {
        assert t[0] == Backslash && t[1..][0] == s[0] && t[2..] == tail;
        assert s == [s[0]] + s[1..];
      } else {
        assert t[0] == s[0] && t[1..] == tail;
        assert s == [s[0]] + s[1..];
      }
    }
  }

  /** The escape-then-parse step of decodeText is an identity wherever it
      succeeds: JSON.parse of the quoted, escaped text gives back exactly
      the text when it holds no control character, and throws otherwise. */
  lemma JsonRoundTrip(s: JsString)
    ensures JsonParseString([Quote] + EscapeForJson(s) + [Quote]) ==
              if HasControlUnit(s) then None else Some(s)
  {
    var text := [Quote] + EscapeForJson(s) + [Quote];
    assert text[1..] == EscapeForJson(s) + [Quote];
    ScanEscaped(s);
  }

  /** decodeText in full: null and the empty string come back unchanged; a
      text without control characters comes back unchanged too, so `\uXXXX`
      sequences in it stay undecoded; only a text with a control character
      goes through the manual substitutions. */
  lemma DecodeTextCases(s: JsString)
    ensures DecodeText(None) == None
    ensures DecodeText(Some([])) == Some([])
    ensures !HasControlUnit(s) ==> DecodeText(Some(s)) == Some(s)
    ensures HasControlUnit(s) ==> DecodeText(Some(s)) == Some(ManualUnescape(s))
  {
    JsonRoundTrip(s);
  }

  /** UnescapeUnicode only touches backslashes. */
  lemma {:induction false} UnescapeUnicodeNoBackslash(s: JsString)
    requires forall i :: 0 <= i < |s| ==> s[i] != Backslash
    ensures UnescapeUnicode(s) == s
  {
    if s != [] {
      UnescapeUnicodeNoBackslash(s[1..]);
    }
  }

  /** The fallback leaves a text without backslashes as it is. */
  lemma ManualUnescapeNoBackslash(s: JsString)
    requires forall i :: 0 <= i < |s| ==> s[i] != Backslash
    ensures ManualUnescape(s) == s
  {
    UnescapeUnicodeNoBackslash(s);
    assert Lit("\\n")[0] == Backslash && Lit("\\t")[0] == Backslash;
    forall p: nat ensures !OccursAt(s, Lit("\\n"), p) && !OccursAt(s, Lit("\\t"), p) {
      if p + 2 <= |s| {
        assert s[p..p + 2][0] == s[p];
      }
    }
    ReplaceAllAbsent(s, Lit("\\n"), [0x0A]);
    ReplaceAllAbsent(s, Lit("\\t"), [0x09]);
  }

  /** decodeText never turns a non-empty text into an empty one. */
  lemma DecodeTextNonEmpty(s: JsString)
    requires s != []
    ensures DecodeText(Some(s)).Some? && DecodeText(Some(s)).value != []
  {
    DecodeTextCases(s);
    var u := UnescapeUnicode(s);
    assert u != [];
    var n := ReplaceAll(u, Lit("\\n"), [0x0A]);
    assert n != [];
    assert ReplaceAll(n, Lit("\\t"), [0x09]) != [];
  }
}
