/** `parseLiveVideosFromHtml`: the scan of a channel page for
    `"videoRenderer":{ … "trackingParams"` blocks, the record built from
    each block, and the first-seen-wins collection of those records. */
module VideoScanner {
  import opened JsText
  import opened TextDecoding

  // ---------------------------------------------------------------------
  // The fixed texts the scraper looks for and produces
  // ---------------------------------------------------------------------

  const RendererOpen: JsString := Lit("\"videoRenderer\":{")
  const TrackingMarker: JsString := Lit("\"trackingParams\"")
  const VideoIdPrefix: JsString := Lit("\"videoId\":\"")
  const LiveStyleMarker: JsString := Lit("\"style\":\"LIVE\"")
  const LiveLabelMarker: JsString := Lit("\"label\":\"LIVE\"")
  const UpcomingPrefix: JsString := Lit("\"upcomingEventData\":{\"startTime\":\"")
  const ThumbnailPrefix: JsString := Lit("\"thumbnails\":[{\"url\":\"")
  const WatchUrlPrefix: JsString := Lit("https://www.youtube.com/watch?v=")
  const UntitledPlaceholder: JsString := Lit("未命名直播")
  const TitleKey: JsString := Lit("title")
  const PublishedKey: JsString := Lit("publishedTimeText")
  const ViewCountKey: JsString := Lit("viewCountText")

  /** The smallest magnitude a double rounds to Infinity from: 2^1024 - 2^970. */
  const DoubleOverflowThreshold: nat := 0xffff_ffff_ffff_fc00_0000_0000_0000_0000_0000_0000_0000_0000_0000_0000_0000_0000_0000_0000_0000_0000_0000_0000_0000_0000_0000_0000_0000_0000_0000_0000_0000_0000_0000_0000_0000_0000_0000_0000_0000_0000_0000_0000_0000_0000_0000_0000_0000_0000_0000_0000_0000_0000_0000_0000_0000_0000_0000_0000_0000_0000_0000_0000_0000_0000

  // ---------------------------------------------------------------------
  // Records
  // ---------------------------------------------------------------------

  datatype BadgeKind = Live | Upcoming

  datatype Badge = Badge(kind: BadgeKind, text: JsString)

  const LiveBadge: Badge := Badge(Live, Lit("正在直播"))
  const UpcomingBadge: Badge := Badge(Upcoming, Lit("已预约直播"))

  /** One element of the list parseLiveVideosFromHtml returns. None stands
      for null; `scheduledStart` is the timestamp in milliseconds that is
      passed to `new Date`. */
  datatype VideoRecord = VideoRecord(
    videoId: JsString,
    title: JsString,
    url: JsString,
    publishedTimeText: Option<JsString>,
    viewCountText: Option<JsString>,
    isLive: bool,
    isUpcoming: bool,
    scheduledStart: Option<nat>,
    badges: seq<Badge>,
    thumbnailUrl: Option<JsString>)

  /** `text || fallback` on a decoded text: null and "" are falsy. */
  function OrElse(text: Option<JsString>, fallback: JsString): JsString
  {
    if text.Some? && text.value != [] then text.value else fallback
  }

  /** `text || null`. */
  function OrNull(text: Option<JsString>): Option<JsString>
  {
    if text.Some? && text.value != [] then text else None
  }

  /** `badges.some((badge) => badge.type === kind)`. */
  predicate HasBadge(badges: seq<Badge>, kind: BadgeKind)
  {
    exists i :: 0 <= i < |badges| && badges[i].kind == kind
  }

  /** The value of a string of decimal digits, `Number(digits)` read
      exactly; the scraper applies it to a `\d+` capture only. */
  function DigitsValue(digits: JsString): nat
  {
    if digits == [] then 0
    else
      var last := digits[|digits| - 1];
      DigitsValue(digits[..|digits| - 1]) * 10 + (if 0x30 <= last <= 0x39 then last as nat - 0x30 else 0)
  }

  /** `Number.isFinite` of a non-negative integer held as a double. */
  predicate IsFiniteDouble(x: nat)
  {
    x < DoubleOverflowThreshold
  }

  /** The scheduled start a block announces: the first
      `"upcomingEventData":{"startTime":"<digits>"` seconds times 1000,
      when that product is finite. */
  function ScheduledStartOf(block: JsString): Option<nat>
  {
    match Match(block, UpcomingPrefix, Digit)
    case None => None
    case Some(digits) =>
      var timestamp := DigitsValue(digits) * 1000;
      if IsFiniteDouble(timestamp) then Some(timestamp) else None
  }

  /** The badges of a record, in the order they are pushed. */
  function BadgeList(live: bool, upcoming: bool): seq<Badge>
  {
    if live && upcoming then [LiveBadge, UpcomingBadge]
    else if live then [LiveBadge]
    else if upcoming then [UpcomingBadge]
    else []
  }

  /** The record parseLiveVideosFromHtml builds from a block whose id is
      `videoId`. */
  function VideoOf(block: JsString, videoId: JsString): VideoRecord
  {
    var live := Contains(block, LiveStyleMarker) || Contains(block, LiveLabelMarker);
    var scheduledStart := ScheduledStartOf(block);
    var badges := BadgeList(live, scheduledStart.Some?);
    var thumbnailMatch := Match(block, ThumbnailPrefix, NonQuote);
    VideoRecord(
      videoId,
      OrElse(DecodeText(ExtractTextField(block, TitleKey)), UntitledPlaceholder),
      WatchUrlPrefix + videoId,
      OrNull(DecodeText(ExtractTextField(block, PublishedKey))),
      OrNull(DecodeText(ExtractTextField(block, ViewCountKey))),
      HasBadge(badges, Live),
      HasBadge(badges, Upcoming),
      scheduledStart,
      badges,
      if thumbnailMatch.Some? then DecodeText(thumbnailMatch) else None)
  }

  /** VideoOf under a second name, as a function value. It adds no
      behaviour: the collection below is stated over any builder of
      records and instantiated with this one, which keeps the verifier
      from unfolding VideoOf inside the proofs about the scan. */
  const RecordBuilder: (JsString, JsString) -> VideoRecord := VideoOf

  /** The imperative construction of a record: the badges list starts
      empty and gets the live badge, then the upcoming badge, pushed. */
  method BuildRecord(block: JsString, videoId: JsString) returns (video: VideoRecord)
    ensures video == RecordBuilder(block, videoId)
  {
    var title := OrElse(DecodeText(ExtractTextField(block, TitleKey)), UntitledPlaceholder);
    var published := OrNull(DecodeText(ExtractTextField(block, PublishedKey)));
    var viewCount := OrNull(DecodeText(ExtractTextField(block, ViewCountKey)));
    var badges: seq<Badge> := [];
    var live := Contains(block, LiveStyleMarker) || Contains(block, LiveLabelMarker);
    if live {
      badges := badges + [LiveBadge];
    }
    assert badges == BadgeList(live, false);
    var upcomingMatch := Match(block, UpcomingPrefix, Digit);
    var scheduledStart: Option<nat> := None;
    if upcomingMatch.Some? {
      var timestamp := DigitsValue(upcomingMatch.value) * 1000;
      if IsFiniteDouble(timestamp) {
        scheduledStart := Some(timestamp);
        badges := badges + [UpcomingBadge];
      }
    }
    assert scheduledStart == ScheduledStartOf(block);
    assert badges == BadgeList(live, scheduledStart.Some?);
    var thumbnailMatch := Match(block, ThumbnailPrefix, NonQuote);
    var thumbnailUrl := if thumbnailMatch.Some? then DecodeText(thumbnailMatch) else None;
    video := VideoRecord(videoId, title, WatchUrlPrefix + videoId, published, viewCount,
                         HasBadge(badges, Live), HasBadge(badges, Upcoming), scheduledStart, badges, thumbnailUrl);
  }

  /** The record links to the watch page of its id. */
  lemma RecordLinksWatchPage(block: JsString, videoId: JsString)
    ensures var v := VideoOf(block, videoId);
            v.videoId == videoId && v.url[..|WatchUrlPrefix|] == WatchUrlPrefix && v.url[|WatchUrlPrefix|..] == videoId
  {
  }

  /** The title is never empty: the decoded extraction, or the placeholder
      when there is none; the published and view-count texts are null or
      non-empty, and are the decoded extractions when those are non-empty. */
  lemma RecordTextsNonEmpty(block: JsString, videoId: JsString)
    ensures VideoOf(block, videoId).title != []
    ensures ExtractTextField(block, TitleKey).None? ==> VideoOf(block, videoId).title == UntitledPlaceholder
    ensures ExtractTextField(block, TitleKey).Some? ==>
              VideoOf(block, videoId).title == DecodeText(ExtractTextField(block, TitleKey)).value
    ensures VideoOf(block, videoId).publishedTimeText.Some? <==> ExtractTextField(block, PublishedKey).Some?
    ensures VideoOf(block, videoId).viewCountText.Some? <==> ExtractTextField(block, ViewCountKey).Some?
    ensures VideoOf(block, videoId).publishedTimeText.Some? ==> VideoOf(block, videoId).publishedTimeText.value != []
    ensures VideoOf(block, videoId).viewCountText.Some? ==> VideoOf(block, videoId).viewCountText.value != []
    ensures ExtractTextField(block, PublishedKey).Some? ==>
              VideoOf(block, videoId).publishedTimeText == DecodeText(ExtractTextField(block, PublishedKey))
    ensures ExtractTextField(block, ViewCountKey).Some? ==>
              VideoOf(block, videoId).viewCountText == DecodeText(ExtractTextField(block, ViewCountKey))
  {
    ExtractedTextShape(block, TitleKey);
    ExtractedTextShape(block, PublishedKey);
    ExtractedTextShape(block, ViewCountKey);
    var t, p, c := ExtractTextField(block, TitleKey), ExtractTextField(block, PublishedKey), ExtractTextField(block, ViewCountKey);
    if t.Some? { DecodeTextNonEmpty(t.value); }
    if p.Some? { DecodeTextNonEmpty(p.value); }
    if c.Some? { DecodeTextNonEmpty(c.value); }
    assert UntitledPlaceholder != [];
  }

  /** `badges.some(...)` finds a badge of a kind exactly when it was pushed. */
  lemma BadgeListFlags(live: bool, upcoming: bool)
    ensures HasBadge(BadgeList(live, upcoming), Live) == live
    ensures HasBadge(BadgeList(live, upcoming), Upcoming) == upcoming
  {
    var badges := BadgeList(live, upcoming);
    if live { assert badges[0].kind == Live; }
    if upcoming { assert badges[|badges| - 1].kind == Upcoming; }
  }

  /** The badges agree with the flags: the live badge first when the block
      carries a LIVE style or label, the upcoming badge when a finite start
      time was read, nothing else. */
  lemma RecordBadgesMatchFlags(block: JsString, videoId: JsString)
    ensures var v := VideoOf(block, videoId);
            && (v.isLive <==> Contains(block, LiveStyleMarker) || Contains(block, LiveLabelMarker))
            && (v.isUpcoming <==> v.scheduledStart.Some?)
            && v.badges == (if v.isLive then [LiveBadge] else []) + (if v.isUpcoming then [UpcomingBadge] else [])
  {
    BadgeListFlags(Contains(block, LiveStyleMarker) || Contains(block, LiveLabelMarker), ScheduledStartOf(block).Some?);
  }

  /** A scheduled start is the first `startTime`'s digits, read as seconds,
      in milliseconds: present exactly when that capture exists and the
      product stays below the double overflow bound. */
  lemma ScheduledStartIsFirstStartTime(block: JsString)
    ensures ScheduledStartOf(block).Some? <==>
              exists d :: IsLeftmostCapture(block, UpcomingPrefix, Digit, d) && IsFiniteDouble(DigitsValue(d) * 1000)
    ensures forall d :: ScheduledStartOf(block).Some? && IsLeftmostCapture(block, UpcomingPrefix, Digit, d) ==>
              ScheduledStartOf(block).value == DigitsValue(d) * 1000
  {
    MatchIsLeftmostCapture(block, UpcomingPrefix, Digit);
    var m := Match(block, UpcomingPrefix, Digit);
    forall d | IsLeftmostCapture(block, UpcomingPrefix, Digit, d) ensures m == Some(d) {
      MatchOfLeftmost(block, UpcomingPrefix, Digit, d);
    }
    if ScheduledStartOf(block).Some? {
      assert IsLeftmostCapture(block, UpcomingPrefix, Digit, m.value) && IsFiniteDouble(DigitsValue(m.value) * 1000);
    }
  }

  /** The thumbnail is the decoded first `"thumbnails":[{"url":"…"`
      capture, and null exactly when there is none. */
  lemma RecordThumbnail(block: JsString, videoId: JsString)
    ensures var t := VideoOf(block, videoId).thumbnailUrl;
            t.Some? <==> HasCapture(block, ThumbnailPrefix, NonQuote)
    ensures var t := VideoOf(block, videoId).thumbnailUrl;
            forall u :: IsLeftmostCapture(block, ThumbnailPrefix, NonQuote, u) ==> t == DecodeText(Some(u)) && t.value != []
  {
    MatchIsLeftmostCapture(block, ThumbnailPrefix, NonQuote);
    var m := Match(block, ThumbnailPrefix, NonQuote);
    if m.Some? { DecodeTextNonEmpty(m.value); }
    forall u | IsLeftmostCapture(block, ThumbnailPrefix, NonQuote, u) ensures m == Some(u) {
      MatchOfLeftmost(block, ThumbnailPrefix, NonQuote, u);
    }
  }

  // ---------------------------------------------------------------------
  // The blocks of a page
  // ---------------------------------------------------------------------

  /** The blocks `videoRendererRegex.exec` yields with `lastIndex` at
      `from`: the text between each `"videoRenderer":{` and the first
      `"trackingParams"` after it, left to right. */
  function BlocksFrom(html: JsString, from: nat): seq<JsString>
  {
    ExecTexts(html, RendererOpen, TrackingMarker, from)
  }

  // ---------------------------------------------------------------------
  // First seen wins
  // ---------------------------------------------------------------------

  /** A block that has an id, with its first id. */
  datatype Identified = Identified(videoId: JsString, block: JsString)

  /** The blocks that have an id, each with its first
      `"videoId":"<id>"` capture, in block order; a block without one is
      skipped (`continue`). */
  function IdentifiedBlocks(blocks: seq<JsString>): seq<Identified>
  {
    if blocks == [] then []
    else
      var last := blocks[|blocks| - 1];
      IdentifiedBlocks(blocks[..|blocks| - 1]) +
        match Match(last, VideoIdPrefix, NonQuote)
        case None => []
        case Some(videoId) => [Identified(videoId, last)]
  }

  function IdsOf(es: seq<Identified>): set<JsString>
  {
    set e | e in es :: e.videoId
  }

  predicate UniqueIds(es: seq<Identified>)
  {
    forall i, j :: 0 <= i < j < |es| ==> es[i].videoId != es[j].videoId
  }

  /** What a JavaScript Map filled with `if (!has(id)) set(id, …)` keeps,
      in insertion order: the first entry of each id. */
  function KeepFirst(es: seq<Identified>): (r: seq<Identified>)
    ensures UniqueIds(r)
    ensures IdsOf(r) == IdsOf(es)
    ensures forall x :: x in r ==> x in es
  {
    if es == [] then []
    else
      var kept := KeepFirst(es[..|es| - 1]);
      var last := es[|es| - 1];
      assert IdsOf(es) == IdsOf(es[..|es| - 1]) + {last.videoId} by {
        assert es == es[..|es| - 1] + [last];
      }
      if last.videoId in IdsOf(kept) then kept
      else
        assert IdsOf(kept + [last]) == IdsOf(kept) + {last.videoId};
        kept + [last]
  }

  /** The records `build` makes for the kept entries, in order. */
  function Records(es: seq<Identified>, build: (JsString, JsString) -> VideoRecord): seq<VideoRecord>
  {
    if es == [] then []
    else
      var last := es[|es| - 1];
      Records(es[..|es| - 1], build) + [build(last.block, last.videoId)]
  }

  /** The list parseLiveVideosFromHtml returns for a page. */
  function LiveVideos(html: JsString): seq<VideoRecord>
  {
    Records(KeepFirst(IdentifiedBlocks(BlocksFrom(html, 0))), RecordBuilder)
  }

  /** No entry before index `i` has the id of `es[i]`. */
  predicate IsFirstOfId(es: seq<Identified>, i: nat)
    requires i < |es|
  {
    forall j :: 0 <= j < i ==> es[j].videoId != es[i].videoId
  }

  /** The entries among the first `n` that are the first of their id, in order. */
  function FirstOccurrences(es: seq<Identified>, n: nat): seq<Identified>
    requires n <= |es|
  {
    if n == 0 then []
    else FirstOccurrences(es, n - 1) + (if IsFirstOfId(es, n - 1) then [es[n - 1]] else [])
  }

  /** Whether an entry is a first occurrence depends only on what precedes it. */
  lemma {:induction false} FirstOccurrencesOfPrefix(es: seq<Identified>, k: nat, n: nat)
    requires n <= k <= |es|
    ensures FirstOccurrences(es[..k], n) == FirstOccurrences(es, n)
  {
    if n > 0 {
      FirstOccurrencesOfPrefix(es, k, n - 1);
      assert IsFirstOfId(es[..k], n - 1) == IsFirstOfId(es, n - 1);
    }
  }

  /** KeepFirst keeps exactly the first entry of each id, in the order of
      the input. */
  lemma {:induction false} KeepFirstIsFirstOccurrences(es: seq<Identified>)
    ensures KeepFirst(es) == FirstOccurrences(es, |es|)
  {
    if es != [] {
      var n := |es| - 1;
      var prefix, last := es[..n], es[n];
      KeepFirstIsFirstOccurrences(prefix);
      FirstOccurrencesOfPrefix(es, n, n);
      assert last.videoId in IdsOf(prefix) <==> !IsFirstOfId(es, n) by {
        if last.videoId in IdsOf(prefix) {
          var x :| x in prefix && x.videoId == last.videoId;
          var j :| 0 <= j < n && prefix[j] == x;
          assert es[j].videoId == es[n].videoId;
        }
        if !IsFirstOfId(es, n) {
          var j :| 0 <= j < n && es[j].videoId == es[n].videoId;
          assert prefix[j] in prefix;
        }
      }
    }
  }

  /** IdentifiedBlocks pairs each block that has a `"videoId":"…"` with
      its first id, and holds nothing else. */
  lemma {:induction false} IdentifiedBlocksAreFirstIds(blocks: seq<JsString>)
    ensures forall e :: e in IdentifiedBlocks(blocks) ==>
              e.block in blocks && IsLeftmostCapture(e.block, VideoIdPrefix, NonQuote, e.videoId)
    ensures forall b :: b in blocks && HasCapture(b, VideoIdPrefix, NonQuote) ==>
              exists e :: e in IdentifiedBlocks(blocks) && e.block == b
  {
    if blocks != [] {
      var n := |blocks| - 1;
      var prefix, last := blocks[..n], blocks[n];
      IdentifiedBlocksAreFirstIds(prefix);
      MatchIsLeftmostCapture(last, VideoIdPrefix, NonQuote);
      assert blocks == prefix + [last];
      forall b | b in blocks && HasCapture(b, VideoIdPrefix, NonQuote)
        ensures exists e :: e in IdentifiedBlocks(blocks) && e.block == b
      {
        if b != last {
          assert b in prefix;
        } else {
          assert Identified(Match(last, VideoIdPrefix, NonQuote).value, last) in IdentifiedBlocks(blocks);
        }
      }
    }
  }

  /** Records builds one record per entry, from the entry's block and id. */
  lemma {:induction false} RecordsOfEntries(es: seq<Identified>, build: (JsString, JsString) -> VideoRecord)
    ensures |Records(es, build)| == |es|
    ensures forall i :: 0 <= i < |es| ==> Records(es, build)[i] == build(es[i].block, es[i].videoId)
  {
    if es != [] {
      RecordsOfEntries(es[..|es| - 1], build);
    }
  }

  /** For any record builder that keys a record by the id it is given, the
      collected records have distinct ids. */
  lemma KeptRecordIdsDistinct(blocks: seq<JsString>, build: (JsString, JsString) -> VideoRecord)
    requires forall b, id :: build(b, id).videoId == id
    ensures var videos := Records(KeepFirst(IdentifiedBlocks(blocks)), build);
            forall i, j :: 0 <= i < j < |videos| ==> videos[i].videoId != videos[j].videoId
  {
    RecordsOfEntries(KeepFirst(IdentifiedBlocks(blocks)), build);
  }

  /** Each collected record is built from a block of the list and that
      block's first id. */
  lemma KeptRecordsFromBlocks(blocks: seq<JsString>, build: (JsString, JsString) -> VideoRecord)
    ensures forall x :: x in Records(KeepFirst(IdentifiedBlocks(blocks)), build) ==>
              exists b, id :: b in blocks && IsLeftmostCapture(b, VideoIdPrefix, NonQuote, id) && x == build(b, id)
  {
    var identified := IdentifiedBlocks(blocks);
    var kept := KeepFirst(identified);
    var videos := Records(kept, build);
    IdentifiedBlocksAreFirstIds(blocks);
    RecordsOfEntries(kept, build);
    forall x | x in videos
      ensures exists b, id :: b in blocks && IsLeftmostCapture(b, VideoIdPrefix, NonQuote, id) && x == build(b, id)
    {
      var i :| 0 <= i < |videos| && videos[i] == x;
      assert kept[i] in identified;
    }
  }

  /** The first id of a block of the list is among the kept ids. */
  lemma FirstIdIsKept(blocks: seq<JsString>, b: JsString, id: JsString)
    requires b in blocks && IsLeftmostCapture(b, VideoIdPrefix, NonQuote, id)
    ensures id in IdsOf(KeepFirst(IdentifiedBlocks(blocks)))
  {
    var identified := IdentifiedBlocks(blocks);
    IdentifiedBlocksAreFirstIds(blocks);
    var p: nat :| IsCapture(b, VideoIdPrefix, NonQuote, p, id);
    assert HasCapture(b, VideoIdPrefix, NonQuote);
    var e :| e in identified && e.block == b;
    LeftmostCaptureUnique(b, VideoIdPrefix, NonQuote, id, e.videoId);
    assert id in IdsOf(identified);
  }

  /** For any record builder that keys a record by the id it is given,
      the first `videoId` of every block of the list has a collected
      record. */
  lemma KeptRecordsCoverIds(blocks: seq<JsString>, build: (JsString, JsString) -> VideoRecord)
    requires forall b, id :: build(b, id).videoId == id
    ensures forall b, id :: b in blocks && IsLeftmostCapture(b, VideoIdPrefix, NonQuote, id) ==>
              exists x :: x in Records(KeepFirst(IdentifiedBlocks(blocks)), build) && x.videoId == id
  {
    var kept := KeepFirst(IdentifiedBlocks(blocks));
    var videos := Records(kept, build);
    RecordsOfEntries(kept, build);
    forall b, id | b in blocks && IsLeftmostCapture(b, VideoIdPrefix, NonQuote, id)
      ensures exists x :: x in videos && x.videoId == id
    {
      FirstIdIsKept(blocks, b, id);
      var k :| k in kept && k.videoId == id;
      var i :| 0 <= i < |kept| && kept[i] == k;
      assert videos[i] in videos;
    }
  }

  /** The list parseLiveVideosFromHtml returns has distinct ids; each
      record is built from a block of the page and that block's first id;
      and the first `videoId` of every block of the page is among them. */
  lemma LiveVideosAreFirstPerId(html: JsString)
    ensures forall i, j :: 0 <= i < j < |LiveVideos(html)| ==> LiveVideos(html)[i].videoId != LiveVideos(html)[j].videoId
    ensures forall x :: x in LiveVideos(html) ==>
              exists b, id :: b in BlocksFrom(html, 0) && IsLeftmostCapture(b, VideoIdPrefix, NonQuote, id) && x == VideoOf(b, id)
    ensures forall b, id :: b in BlocksFrom(html, 0) && IsLeftmostCapture(b, VideoIdPrefix, NonQuote, id) ==>
              exists x :: x in LiveVideos(html) && x.videoId == id
  {
    var blocks := BlocksFrom(html, 0);
    assert LiveVideos(html) == Records(KeepFirst(IdentifiedBlocks(blocks)), RecordBuilder);
    KeptRecordIdsDistinct(BlocksFrom(html, 0), RecordBuilder);
    KeptRecordsFromBlocks(BlocksFrom(html, 0), RecordBuilder);
    KeptRecordsCoverIds(BlocksFrom(html, 0), RecordBuilder);
  }

  /** First seen wins, for the page: the i-th record returned is built
      from the i-th block, among the blocks that have an id, whose first
      id is not the first id of any earlier block, and from that id. */
  lemma LiveVideosKeepFirstBlockPerId(html: JsString)
    ensures var firsts := FirstOccurrences(IdentifiedBlocks(BlocksFrom(html, 0)), |IdentifiedBlocks(BlocksFrom(html, 0))|);
            && |LiveVideos(html)| == |firsts|
            && forall i :: 0 <= i < |firsts| ==> LiveVideos(html)[i] == VideoOf(firsts[i].block, firsts[i].videoId)
  {
    var es := IdentifiedBlocks(BlocksFrom(html, 0));
    KeepFirstIsFirstOccurrences(es);
    RecordsOfEntries(KeepFirst(es), RecordBuilder);
  }

  /** A page without a `"videoRenderer":{ … "trackingParams"` yields an
      empty list. */
  lemma NoRendererNoVideos(html: JsString)
    requires forall p: nat :: !LazyMatchesAt(html, RendererOpen, TrackingMarker, p)
    ensures LiveVideos(html) == []
  {
    ExecSpansEmpty(html, RendererOpen, TrackingMarker, 0);
  }

  // ---------------------------------------------------------------------
  // The scan itself
  // ---------------------------------------------------------------------

  /** IdentifiedBlocks over one more block. */
  lemma IdentifiedBlocksSnoc(blocks: seq<JsString>, block: JsString)
    ensures IdentifiedBlocks(blocks + [block]) ==
              IdentifiedBlocks(blocks) +
                match Match(block, VideoIdPrefix, NonQuote)
                case None => []
                case Some(videoId) => [Identified(videoId, block)]
  {
    assert (blocks + [block])[..|blocks|] == blocks;
  }

  /** KeepFirst and Records over one more entry. */
  lemma KeepFirstSnoc(es: seq<Identified>, e: Identified, build: (JsString, JsString) -> VideoRecord)
    ensures KeepFirst(es + [e]) == if e.videoId in IdsOf(KeepFirst(es)) then KeepFirst(es) else KeepFirst(es) + [e]
    ensures Records(es + [e], build) == Records(es, build) + [build(e.block, e.videoId)]
  {
    assert (es + [e])[..|es|] == es;
  }

  /** The Map `results` with its insertion order `order` holds the kept
      entries' ids, in order, each mapped to its record. */
  predicate Mirrors(results: map<JsString, VideoRecord>, order: seq<JsString>, kept: seq<Identified>, records: seq<VideoRecord>)
  {
    && |order| == |kept| == |records|
    && (forall i :: 0 <= i < |kept| ==> order[i] == kept[i].videoId && order[i] in results && results[order[i]] == records[i])
    && results.Keys == IdsOf(kept)
  }

  /** `results.set(videoId, record)` for an id not yet present appends to
      the insertion order. */
  lemma MirrorsInsert(results: map<JsString, VideoRecord>, order: seq<JsString>, kept: seq<Identified>, records: seq<VideoRecord>,
                      e: Identified, video: VideoRecord)
    requires Mirrors(results, order, kept, records)
    requires e.videoId !in results
    ensures Mirrors(results[e.videoId := video], order + [e.videoId], kept + [e], records + [video])
  {
    assert IdsOf(kept + [e]) == IdsOf(kept) + {e.videoId};
  }

  /** `Array.from(results.values())`: the values of the Map in the order
      their keys were inserted. */
  method ValuesInOrder(results: map<JsString, VideoRecord>, order: seq<JsString>) returns (values: seq<VideoRecord>)
    requires forall i :: 0 <= i < |order| ==> order[i] in results
    ensures |values| == |order|
    ensures forall i :: 0 <= i < |order| ==> values[i] == results[order[i]]
  {
    values := [];
    for i := 0 to |order|
      invariant |values| == i
      invariant forall j :: 0 <= j < i ==> values[j] == results[order[j]]
    {
      values := values + [results[order[i]]];
    }
  }

  /** After the blocks `visited`, the Map `results` with insertion order
      `order` holds the records of the first-seen ids. */
  ghost predicate Scanned(visited: seq<JsString>, results: map<JsString, VideoRecord>, order: seq<JsString>)
  {
    var kept := KeepFirst(IdentifiedBlocks(visited));
    Mirrors(results, order, kept, Records(kept, RecordBuilder))
  }

  /** The body of the exec loop for one block: find its id; when there is
      one and the Map does not have it yet, build the record and set it. */
  method VisitBlock(ghost visited: seq<JsString>, results: map<JsString, VideoRecord>, order: seq<JsString>, block: JsString)
    returns (results': map<JsString, VideoRecord>, order': seq<JsString>)
    requires Scanned(visited, results, order)
    ensures Scanned(visited + [block], results', order')
  {
    ghost var identified := IdentifiedBlocks(visited);
    ghost var kept := KeepFirst(identified);
    IdentifiedBlocksSnoc(visited, block);
    results', order' := results, order;
    var videoIdMatch := Match(block, VideoIdPrefix, NonQuote);
    if videoIdMatch.Some? {
      var videoId := videoIdMatch.value;
      ghost var e := Identified(videoId, block);
      assert IdentifiedBlocks(visited + [block]) == identified + [e];
      KeepFirstSnoc(identified, e, RecordBuilder);
      if videoId !in results {
        var video := BuildRecord(block, videoId);
        KeepFirstSnoc(kept, e, RecordBuilder);
        MirrorsInsert(results, order, kept, Records(kept, RecordBuilder), e, video);
        results' := results[videoId := video];
        order' := order + [videoId];
      } else {
        assert KeepFirst(identified + [e]) == kept;
      }
    } else {
      assert IdentifiedBlocks(visited + [block]) == identified;
    }
  }

  /** `parseLiveVideosFromHtml(html)`: run the global regular expression
      over the page, and key the record of each block by the block's first
      id in a Map that ignores ids already present; return the Map's
      values in insertion order. The Map is `results` with its insertion
      order kept in `order`; `lastIndex` is the regular expression's. */
  method ParseLiveVideosFromHtml(html: JsString) returns (videos: seq<VideoRecord>)
    ensures videos == LiveVideos(html)
  {
    var results: map<JsString, VideoRecord> := map[];
    var order: seq<JsString> := [];
    ghost var visited: seq<JsString> := [];
    var lastIndex: nat := 0;
    var found := ExecLazy(html, RendererOpen, TrackingMarker, lastIndex);
    while found.Some?
      invariant found == ExecLazy(html, RendererOpen, TrackingMarker, lastIndex)
      invariant BlocksFrom(html, 0) == visited + BlocksFrom(html, lastIndex)
      invariant Scanned(visited, results, order)
      decreases |html| - lastIndex
    {
      var span := found.value;
      ExecTextsAdvance(html, RendererOpen, TrackingMarker, BlocksFrom(html, 0), visited, lastIndex, span);
      var block := html[span.start..span.end];
      results, order := VisitBlock(visited, results, order, block);
      visited := visited + [block];
      lastIndex := NextIndex(span, TrackingMarker);
      found := ExecLazy(html, RendererOpen, TrackingMarker, lastIndex);
    }
    ExecTextsDone(html, RendererOpen, TrackingMarker, lastIndex);
    assert visited + [] == visited;
    videos := ValuesInOrder(results, order);
  }
}
