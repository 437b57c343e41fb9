/** JavaScript strings as the content script sees them, and the few fixed
    regular-expression shapes it matches against them, as search functions.

    A JavaScript string is a sequence of UTF-16 code units; a regular
    expression without the `u` flag matches code unit by code unit. Every
    pattern the scraper uses is a literal prefix, optionally followed by a
    capture `([^"]+)"` or `(\d+)"`; both shapes are specified here once,
    declaratively (IsCapture), and computed by a left-to-right search
    (FindCapture) proved to return the leftmost match. */
module JsText {

  /** One UTF-16 code unit. */
  newtype CodeUnit = x: int | 0 <= x < 0x1_0000

  type JsString = seq<CodeUnit>

  datatype Option<+T> = None | Some(value: T)

  const Quote: CodeUnit := 0x22
  const Backslash: CodeUnit := 0x5C

  /** The code unit of a character of the Basic Multilingual Plane, which
      every string literal of the content script is written in. */
  function Unit(c: char): CodeUnit
  {
    if (c as int) < 0x1_0000 then c as int as CodeUnit else 0xFFFD
  }

  /** A string literal of the content script as code units. */
  function Lit(s: string): (r: JsString)
    ensures |r| == |s|
  {
    seq(|s|, i requires 0 <= i < |s| => Unit(s[i]))
  }

  /** `lit` occurs in `s` starting at index `p`. */
  predicate OccursAt(s: JsString, lit: JsString, p: nat)
  {
    p + |lit| <= |s| && s[p..p + |lit|] == lit
  }

  /** The search for a literal that every pattern of the scraper starts
      with: the first occurrence of `lit` in `s` at or after `from`. */
  function IndexOf(s: JsString, lit: JsString, from: nat): (r: Option<nat>)
    decreases |s| - from
    ensures r.Some? ==> from <= r.value && OccursAt(s, lit, r.value)
    ensures r.None? ==> forall q :: from <= q ==> !OccursAt(s, lit, q)
  {
    if from + |lit| > |s| then None
    else if s[from..from + |lit|] == lit then Some(from)
    else IndexOf(s, lit, from + 1)
  }

  /** The occurrence IndexOf finds is the first one at or after `from`. */
  lemma {:induction false} IndexOfIsFirst(s: JsString, lit: JsString, from: nat)
    decreases |s| - from
    ensures IndexOf(s, lit, from).Some? ==> forall q :: from <= q < IndexOf(s, lit, from).value ==> !OccursAt(s, lit, q)
  {
    if from + |lit| <= |s| && s[from..from + |lit|] != lit {
      IndexOfIsFirst(s, lit, from + 1);
    }
  }

  /** `/lit/.test(s)` for a pattern that is a plain literal. */
  function Contains(s: JsString, lit: JsString): (b: bool)
    ensures b <==> exists p :: OccursAt(s, lit, p)
  {
    var r := IndexOf(s, lit, 0);
    assert r.Some? ==> OccursAt(s, lit, r.value);
    r.Some?
  }

  /** The character class of a capture group: `[^"]` or `\d`. */
  datatype UnitClass = NonQuote | Digit

  predicate InClass(c: CodeUnit, k: UnitClass)
  {
    match k
    case NonQuote => c != Quote
    case Digit => 0x30 <= c <= 0x39
  }

  /** The regular expression `lit(K+)"`, with K the class `k`, matches at
      index `p` of `s` with `v` as its capture: `lit` is at `p`, then a
      non-empty run `v` of class `k`, then a quote. */
  ghost predicate IsCapture(s: JsString, lit: JsString, k: UnitClass, p: nat, v: JsString)
  {
    && OccursAt(s, lit, p)
    && 0 < |v|
    && p + |lit| + |v| < |s|
    && s[p + |lit|..p + |lit| + |v|] == v
    && (forall i :: 0 <= i < |v| ==> InClass(v[i], k))
    && s[p + |lit| + |v|] == Quote
  }

  /** `lit(K+)"` matches somewhere in `s`. */
  ghost predicate HasCapture(s: JsString, lit: JsString, k: UnitClass)
  {
    exists p: nat, v :: IsCapture(s, lit, k, p, v)
  }

  /** `v` is what `s.match(/lit(K+)"/)[1]` yields: the capture of the
      match at the smallest index. */
  ghost predicate IsLeftmostCapture(s: JsString, lit: JsString, k: UnitClass, v: JsString)
  {
    exists p: nat :: IsCapture(s, lit, k, p, v) && forall q: nat, w :: q < p ==> !IsCapture(s, lit, k, q, w)
  }

  /** A greedy run ends where the class stops; since a quote is in neither
      class, a match at a given index has exactly one capture. */
  lemma CaptureUniqueAt(s: JsString, lit: JsString, k: UnitClass, p: nat, v: JsString, w: JsString)
    requires IsCapture(s, lit, k, p, v) && IsCapture(s, lit, k, p, w)
    ensures v == w
  {
    RunEndAtCapture(s, lit, k, p, v);
    RunEndAtCapture(s, lit, k, p, w);
  }

  /** The run of a capture is the longest run of its class. */
  lemma RunEndAtCapture(s: JsString, lit: JsString, k: UnitClass, p: nat, v: JsString)
    requires IsCapture(s, lit, k, p, v)
    ensures RunEnd(s, k, p + |lit|) == p + |lit| + |v|
  {
    var i := p + |lit|;
    assert forall m :: i <= m < i + |v| ==> s[m] == v[m - i];
    RunEndCovers(s, k, i, i + |v|);
  }

  /** A run of class `k` from `i` to `e` lies inside the longest one. */
  lemma {:induction false} RunEndCovers(s: JsString, k: UnitClass, i: nat, e: nat)
    requires i <= e <= |s|
    requires forall m :: i <= m < e ==> InClass(s[m], k)
    decreases e - i
    ensures e <= RunEnd(s, k, i)
  {
    if i < e {
      RunEndCovers(s, k, i + 1, e);
    }
  }

  /** The leftmost capture is unique: IsLeftmostCapture determines the result of `match`. */
  lemma LeftmostCaptureUnique(s: JsString, lit: JsString, k: UnitClass, v: JsString, w: JsString)
    requires IsLeftmostCapture(s, lit, k, v) && IsLeftmostCapture(s, lit, k, w)
    ensures v == w
  {
    var p: nat :| IsCapture(s, lit, k, p, v) && forall q: nat, u :: q < p ==> !IsCapture(s, lit, k, q, u);
    var p': nat :| IsCapture(s, lit, k, p', w) && forall q: nat, u :: q < p' ==> !IsCapture(s, lit, k, q, u);
    assert p == p';
    CaptureUniqueAt(s, lit, k, p, v, w);
  }

  /** The end of the longest run of class `k` that starts at `i`. */
  function RunEnd(s: JsString, k: UnitClass, i: nat): (j: nat)
    requires i <= |s|
    decreases |s| - i
    ensures i <= j <= |s|
    ensures forall m :: i <= m < j ==> InClass(s[m], k)
    ensures j < |s| ==> !InClass(s[j], k)
  {
    if i == |s| || !InClass(s[i], k) then i else RunEnd(s, k, i + 1)
  }

  /** The capture of `lit(K+)"` tried at index `p` only. */
  function CaptureAt(s: JsString, lit: JsString, k: UnitClass, p: nat): (r: Option<JsString>)
    ensures r.Some? ==> IsCapture(s, lit, k, p, r.value)
  {
    if !OccursAt(s, lit, p) then None
    else
      var i := p + |lit|;
      var j := RunEnd(s, k, i);
      if i < j < |s| && s[j] == Quote then
        var v := s[i..j];
        assert forall m :: 0 <= m < |v| ==> v[m] == s[i + m];
        Some(v)
      else
        None
  }

  /** Every match at `p` is the one CaptureAt finds. */
  lemma CaptureAtComplete(s: JsString, lit: JsString, k: UnitClass, p: nat, v: JsString)
    requires IsCapture(s, lit, k, p, v)
    ensures CaptureAt(s, lit, k, p) == Some(v)
  {
    RunEndAtCapture(s, lit, k, p, v);
    CaptureUniqueAt(s, lit, k, p, v, CaptureAt(s, lit, k, p).value);
  }

  /** The leftmost match of `lit(K+)"` at or after `from`, with its index. */
  function FindCapture(s: JsString, lit: JsString, k: UnitClass, from: nat): (r: Option<(nat, JsString)>)
    decreases |s| - from
    ensures r.Some? ==> from <= r.value.0 && IsCapture(s, lit, k, r.value.0, r.value.1)
    ensures r.Some? ==> forall q: nat, v :: from <= q < r.value.0 ==> !IsCapture(s, lit, k, q, v)
    ensures r.None? ==> forall q: nat, v :: from <= q ==> !IsCapture(s, lit, k, q, v)
  {
    if from + |lit| >= |s| then None
    else match CaptureAt(s, lit, k, from)
      case Some(v) => Some((from, v))
      case None =>
        assert forall v :: !IsCapture(s, lit, k, from, v) by {
          forall v | IsCapture(s, lit, k, from, v) ensures false {
            CaptureAtComplete(s, lit, k, from, v);
          }
        }
        FindCapture(s, lit, k, from + 1)
  }

  /** `s.match(/lit(K+)"/)` and its first capture group; None is `null`. */
  function Match(s: JsString, lit: JsString, k: UnitClass): Option<JsString>
  {
    match FindCapture(s, lit, k, 0)
    case Some((p, v)) => Some(v)
    case None => None
  }

  /** Match finds a capture exactly when the pattern matches, and then the
      capture of the leftmost match: a non-empty run of the class. */
  lemma MatchIsLeftmostCapture(s: JsString, lit: JsString, k: UnitClass)
    ensures Match(s, lit, k).Some? <==> HasCapture(s, lit, k)
    ensures Match(s, lit, k).Some? ==> IsLeftmostCapture(s, lit, k, Match(s, lit, k).value)
    ensures Match(s, lit, k).Some? ==>
              0 < |Match(s, lit, k).value| && forall i :: 0 <= i < |Match(s, lit, k).value| ==> InClass(Match(s, lit, k).value[i], k)
  {
    match FindCapture(s, lit, k, 0)
    case Some((p, v)) =>
      assert IsCapture(s, lit, k, p, v);
    case None =>
  }

  /** The capture Match returns is the one of every leftmost match. */
  lemma MatchOfLeftmost(s: JsString, lit: JsString, k: UnitClass, v: JsString)
    requires IsLeftmostCapture(s, lit, k, v)
    ensures Match(s, lit, k) == Some(v)
  {
    MatchIsLeftmostCapture(s, lit, k);
    var p: nat :| IsCapture(s, lit, k, p, v);
    assert HasCapture(s, lit, k);
    LeftmostCaptureUnique(s, lit, k, v, Match(s, lit, k).value);
  }

  /** `s.replace(/pat/g, rep)` for a literal pattern: every occurrence,
      left to right and without overlap, is replaced; the replacement text
      is not searched again. */
  function ReplaceAll(s: JsString, pat: JsString, rep: JsString): (r: JsString)
    requires 0 < |pat|
    decreases |s|
  {
    if s == [] then []
    else if |pat| <= |s| && s[..|pat|] == pat then rep + ReplaceAll(s[|pat|..], pat, rep)
    else [s[0]] + ReplaceAll(s[1..], pat, rep)
  }

  /** Without an occurrence of the pattern, a global replace changes nothing. */
  lemma {:induction false} ReplaceAllAbsent(s: JsString, pat: JsString, rep: JsString)
    requires 0 < |pat|
    requires forall p :: !OccursAt(s, pat, p)
    ensures ReplaceAll(s, pat, rep) == s
  {
    if s != [] {
      assert !OccursAt(s, pat, 0);
      forall p: nat ensures !OccursAt(s[1..], pat, p) {
        assert !OccursAt(s, pat, p + 1);
        if p + |pat| <= |s| - 1 {
          assert s[p + 1..p + 1 + |pat|] == s[1..][p..p + |pat|];
        }
      }
      ReplaceAllAbsent(s[1..], pat, rep);
    }
  }

  /** A one-unit pattern is replaced unit by unit, so the replace splits
      over a concatenation. */
  lemma {:induction false} ReplaceUnitConcat(a: JsString, b: JsString, c: CodeUnit, rep: JsString)
    ensures ReplaceAll(a + b, [c], rep) == ReplaceAll(a, [c], rep) + ReplaceAll(b, [c], rep)
  {
    if a != [] {
      assert (a + b)[1..] == a[1..] + b;
      ReplaceUnitConcat(a[1..], b, c, rep);
    } else {
      assert a + b == b;
    }
  }

  // ---------------------------------------------------------------------
  // The global lazy pattern `/open([\s\S]*?)close/g` driven by `exec`
  // ---------------------------------------------------------------------

  /** `/open([\s\S]*?)close/` matches at index `p`: `open` is at `p` and a
      `close` follows somewhere after it. */
  ghost predicate LazyMatchesAt(s: JsString, open: JsString, close: JsString, p: nat)
  {
    OccursAt(s, open, p) && exists q: nat :: p + |open| <= q && OccursAt(s, close, q)
  }

  /** The bounds of the text a match captures: `s[start..end]`. */
  datatype Span = Span(start: nat, end: nat)

  /** One `exec` with `lastIndex` at `from`: the bounds of the captured
      text, or None when `exec` returns null. */
  function ExecLazy(s: JsString, open: JsString, close: JsString, from: nat): (r: Option<Span>)
    ensures r.Some? ==> from + |open| <= r.value.start <= r.value.end && r.value.end + |close| <= |s|
    ensures r.Some? ==> OccursAt(s, open, r.value.start - |open|) && OccursAt(s, close, r.value.end)
  {
    match IndexOf(s, open, from)
    case None => None
    case Some(p) =>
      match IndexOf(s, close, p + |open|)
      case None => None
      case Some(q) => Some(Span(p + |open|, q))
  }

  /** The `lastIndex` a global regular expression moves to after a match
      whose capture is `span`: just past the `close` that ends it. */
  function NextIndex(span: Span, close: JsString): nat
  {
    span.end + |close|
  }

  /** When ExecLazy finds something, it is the regular expression's match:
      the leftmost index at or after `from` where the whole pattern
      matches, with a lazy body that ends at the first `close` after the
      opening. */
  lemma ExecLazyIsLeftmostLazyMatch(s: JsString, open: JsString, close: JsString, from: nat)
    ensures var r := ExecLazy(s, open, close, from);
            r.Some? ==>
              && LazyMatchesAt(s, open, close, r.value.start - |open|)
              && (forall p: nat :: from <= p < r.value.start - |open| ==> !LazyMatchesAt(s, open, close, p))
              && (forall q: nat :: r.value.start <= q < r.value.end ==> !OccursAt(s, close, q))
  {
    match IndexOf(s, open, from)
    case None =>
    case Some(p) =>
      IndexOfIsFirst(s, open, from);
      IndexOfIsFirst(s, close, p + |open|);
      if IndexOf(s, close, p + |open|).Some? {
        assert LazyMatchesAt(s, open, close, p);
      }
  }

  /** ExecLazy returns None exactly when the pattern matches nowhere from
      `from` on. */
  lemma ExecLazyNoneIsNoMatch(s: JsString, open: JsString, close: JsString, from: nat)
    ensures ExecLazy(s, open, close, from).None? <==> forall p: nat :: from <= p ==> !LazyMatchesAt(s, open, close, p)
  {
    match IndexOf(s, open, from)
    case None =>
    case Some(p) =>
      IndexOfIsFirst(s, open, from);
      if IndexOf(s, close, p + |open|).Some? {
        assert LazyMatchesAt(s, open, close, p);
      }
  }

  /** The captures a `while ((m = re.exec(s)) !== null)` loop visits,
      starting with `lastIndex` at `from`. */
  function ExecSpans(s: JsString, open: JsString, close: JsString, from: nat): seq<Span>
    requires 0 < |open|
    decreases |s| - from
  {
    var r := ExecLazy(s, open, close, from);
    if r.None? then [] else [r.value] + ExecSpans(s, open, close, NextIndex(r.value, close))
  }

  /** `span` bounds a capture that follows an `open` at or after `from`
      and precedes a `close`, and holds no `close` itself: the lazy body
      stops at the first one. */
  ghost predicate IsLazySpan(s: JsString, open: JsString, close: JsString, from: nat, span: Span)
  {
    && from + |open| <= span.start <= span.end
    && span.end + |close| <= |s|
    && OccursAt(s, open, span.start - |open|)
    && OccursAt(s, close, span.end)
    && forall q :: span.start <= q < span.end ==> !OccursAt(s, close, q)
  }

  /** Every visited text lies between an `open` at or after `from` and the
      first `close` after it. */
  lemma {:induction false} ExecSpansBetweenMarkers(s: JsString, open: JsString, close: JsString, from: nat)
    requires 0 < |open|
    decreases |s| - from
    ensures forall i :: 0 <= i < |ExecSpans(s, open, close, from)| ==>
              IsLazySpan(s, open, close, from, ExecSpans(s, open, close, from)[i])
  {
    var r := ExecLazy(s, open, close, from);
    if r.Some? {
      ExecLazyIsLeftmostLazyMatch(s, open, close, from);
      var next := NextIndex(r.value, close);
      ExecSpansBetweenMarkers(s, open, close, next);
      var rest := ExecSpans(s, open, close, next);
      var spans := ExecSpans(s, open, close, from);
      assert spans == [r.value] + rest;
      forall i | 1 <= i < |spans| ensures IsLazySpan(s, open, close, from, spans[i]) {
        assert spans[i] == rest[i - 1];
        assert IsLazySpan(s, open, close, next, rest[i - 1]);
      }
    }
  }

  /** The loop visits the texts left to right without overlap: the next
      `open` starts after the previous `close`. */
  lemma {:induction false} ExecSpansInOrder(s: JsString, open: JsString, close: JsString, from: nat)
    requires 0 < |open|
    decreases |s| - from
    ensures forall i :: 0 <= i < |ExecSpans(s, open, close, from)| - 1 ==>
              ExecSpans(s, open, close, from)[i].end + |close| + |open| <= ExecSpans(s, open, close, from)[i + 1].start
  {
    var r := ExecLazy(s, open, close, from);
    if r.Some? {
      var next := NextIndex(r.value, close);
      ExecSpansInOrder(s, open, close, next);
      var rest := ExecSpans(s, open, close, next);
      assert ExecSpans(s, open, close, from) == [r.value] + rest;
      if rest != [] {
        assert ExecLazy(s, open, close, next).Some?;
      }
    }
  }

  /** The loop visits nothing exactly when the pattern matches nowhere from `from` on. */
  lemma ExecSpansEmpty(s: JsString, open: JsString, close: JsString, from: nat)
    requires 0 < |open|
    ensures ExecSpans(s, open, close, from) == [] <==> forall p: nat :: from <= p ==> !LazyMatchesAt(s, open, close, p)
  {
    ExecLazyNoneIsNoMatch(s, open, close, from);
  }

  /** The part of `s` that `span` bounds (empty for a span that is not
      inside `s`, which ExecSpans never yields). */
  function SpanText(s: JsString, span: Span): JsString
  {
    if span.start <= span.end <= |s| then s[span.start..span.end] else []
  }

  /** The texts of a sequence of spans, in order. */
  function SpanTexts(s: JsString, spans: seq<Span>): seq<JsString>
  {
    seq(|spans|, i requires 0 <= i < |spans| => SpanText(s, spans[i]))
  }

  /** The captured texts themselves, `m[1]` of each match, in loop order. */
  function ExecTexts(s: JsString, open: JsString, close: JsString, from: nat): seq<JsString>
    requires 0 < |open|
  {
    SpanTexts(s, ExecSpans(s, open, close, from))
  }

  /** One turn of the loop: the text of the first match, then the texts
      from the next `lastIndex` on. */
  lemma ExecTextsStep(s: JsString, open: JsString, close: JsString, from: nat, span: Span)
    requires 0 < |open|
    requires ExecLazy(s, open, close, from) == Some(span)
    ensures span.start <= span.end <= |s|
    ensures ExecTexts(s, open, close, from) == [s[span.start..span.end]] + ExecTexts(s, open, close, NextIndex(span, close))
  {
    var rest := ExecSpans(s, open, close, NextIndex(span, close));
    var spans := ExecSpans(s, open, close, from);
    assert spans == [span] + rest;
    var texts := SpanTexts(s, spans);
    var restTexts := SpanTexts(s, rest);
    assert texts[0] == s[span.start..span.end];
    assert forall i :: 1 <= i < |texts| ==> texts[i] == restTexts[i - 1] by {
      forall i | 1 <= i < |texts| ensures texts[i] == restTexts[i - 1] {
        assert spans[i] == rest[i - 1];
      }
    }
    assert texts == [s[span.start..span.end]] + restTexts;
  }

  /** The loop's invariant, that the texts visited so far followed by the
      texts from `lastIndex` on are all the texts, survives one turn. */
  lemma ExecTextsAdvance(s: JsString, open: JsString, close: JsString, all: seq<JsString>, visited: seq<JsString>,
                         from: nat, span: Span)
    requires 0 < |open|
    requires all == visited + ExecTexts(s, open, close, from)
    requires ExecLazy(s, open, close, from) == Some(span)
    ensures span.start <= span.end <= |s| && from < NextIndex(span, close) <= |s|
    ensures all == (visited + [s[span.start..span.end]]) + ExecTexts(s, open, close, NextIndex(span, close))
  {
    ExecTextsStep(s, open, close, from, span);
    var rest := ExecTexts(s, open, close, NextIndex(span, close));
    assert visited + ([s[span.start..span.end]] + rest) == (visited + [s[span.start..span.end]]) + rest;
  }

  /** The loop stops when `exec` returns null. */
  lemma ExecTextsDone(s: JsString, open: JsString, close: JsString, from: nat)
    requires 0 < |open|
    requires ExecLazy(s, open, close, from).None?
    ensures ExecTexts(s, open, close, from) == []
  {
  }
}
