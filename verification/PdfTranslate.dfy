/**
 * The PDF translation feature end to end: the page texts are split into lines
 * with the page sentinel after each page, merged into paragraphs, checked for
 * content, packed, translated and rebuilt into a document.
 */
module PdfTranslate {
  import opened Wrappers
  import opened Text
  import opened Layout
  import opened Chunking
  import opened Reconstruct

  // ---------------------------------------------------------------------------
  // Reading the pages
  // ---------------------------------------------------------------------------

  /** The text of a page: None (no text layer) reads as "". */
  function PageText(page: Option<string>): string
  {
    if page.Some? then page.value else ""
  }

  /** Every page's text split on "\n", each page followed by the sentinel line. */
  function PageLines(pages: seq<Option<string>>): seq<string>
  {
    if pages == [] then []
    else PageLines(pages[..|pages| - 1]) + Split(PageText(pages[|pages| - 1]), "\n") + [PageMarker]
  }

  /** The extraction loop as the source writes it, proved to compute PageLines. */
  method ExtractLines(pages: seq<Option<string>>) returns (lines: seq<string>)
    ensures lines == PageLines(pages)
  {
    lines := [];
    var i := 0;
    while i < |pages|
      invariant 0 <= i <= |pages|
      invariant lines == PageLines(pages[..i])
    {
      assert pages[..i + 1][..i] == pages[..i];
      var pageText := PageText(pages[i]);
      lines := lines + Split(pageText, "\n");
      lines := lines + [PageMarker];
      i := i + 1;
    }
    assert pages[..i] == pages;
  }

  /** The extracted lines hold no newline, and at least one sentinel line per page. */
  lemma {:induction false} PageLinesShape(pages: seq<Option<string>>)
    ensures forall i | 0 <= i < |PageLines(pages)| :: NoNewline(PageLines(pages)[i])
    ensures Count(PageLines(pages), PageMarker) >= |pages|
  {
    if pages != [] {
      var n := |pages| - 1;
      PageLinesShape(pages[..n]);
      var pre := PageLines(pages[..n]);
      var mid := Split(PageText(pages[n]), "\n");
      forall i | 0 <= i < |mid|
        ensures NoNewline(mid[i])
      {
        SplitPiecesFree(PageText(pages[n]), "\n", i);
      }
      assert NoNewline(PageMarker);
      var all := pre + mid + [PageMarker];
      forall i | 0 <= i < |all|
        ensures NoNewline(all[i])
      {
        if i < |pre| {
          assert all[i] == pre[i];
        } else if i < |pre| + |mid| {
          assert all[i] == mid[i - |pre|];
        }
      }
      CountAppend(pre + mid, [PageMarker], PageMarker);
      CountAppend(pre, mid, PageMarker);
      assert [PageMarker][..0] == [];
    }
  }

  // ---------------------------------------------------------------------------
  // The content check
  // ---------------------------------------------------------------------------

  /** The paragraphs that are neither the sentinel nor "", in order. */
  function TextParagraphs(ps: seq<string>): seq<string>
  {
    if ps == [] then []
    else TextParagraphs(ps[..|ps| - 1]) + (if IsSentinel(ps[|ps| - 1]) then [] else [ps[|ps| - 1]])
  }

  /** The text the content check looks at. */
  function FullTextClean(ps: seq<string>): string
  {
    Join(TextParagraphs(ps), ParaSep)
  }

  /** Only sentinels and "" leave nothing to check. */
  lemma {:induction false} TextParagraphsNone(ps: seq<string>)
    ensures TextParagraphs(ps) == [] <==> forall i | 0 <= i < |ps| :: IsSentinel(ps[i])
  {
    if ps != [] {
      var n := |ps| - 1;
      var pre := ps[..n];
      assert forall i | 0 <= i < n :: pre[i] == ps[i];
      TextParagraphsNone(pre);
    }
  }

  /** Clean text paragraphs all pass through, clean and text. */
  lemma {:induction false} TextParagraphsText(ps: seq<string>)
    requires AllClean(ps)
    ensures AllClean(TextParagraphs(ps)) && AllText(TextParagraphs(ps))
  {
    if ps != [] {
      var n := |ps| - 1;
      var pre, p := ps[..n], ps[n];
      assert AllClean(pre) by {
        assert forall i | 0 <= i < n :: pre[i] == ps[i];
      }
      TextParagraphsText(pre);
      var tp := TextParagraphs(pre);
      if !IsSentinel(p) {
        assert CleanBlock(p);
        StripOfStripped(p);
        var all := tp + [p];
        assert TextParagraphs(ps) == all;
        assert forall i | 0 <= i < |all| :: all[i] == if i < |tp| then tp[i] else p;
      } else {
        assert TextParagraphs(ps) == tp;
      }
    }
  }

  /**
   * The content check fails exactly when the merged paragraphs are all
   * sentinels or "".
   */
  lemma NoContentIff(ps: seq<string>)
    requires AllClean(ps)
    ensures Strip(FullTextClean(ps)) == "" <==> forall i | 0 <= i < |ps| :: IsSentinel(ps[i])
  {
    TextParagraphsNone(ps);
    TextParagraphsText(ps);
    var tps := TextParagraphs(ps);
    if tps != [] {
      JoinTextStripped(tps);
      StripOfStripped(Join(tps, ParaSep));
    }
  }

  // ---------------------------------------------------------------------------
  // The whole feature
  // ---------------------------------------------------------------------------

  datatype Failure = EmptyContent | TranslationFailed(chunk: nat)

  /** What the feature produces for the pages and the translator. */
  function TranslatePdfSpec(pages: seq<Option<string>>, tr: Translator): Result<seq<Event>, Failure>
  {
    TranslateParagraphs(Merge(PageLines(pages)), tr)
  }

  /** The stages after the merger: the content check, packing, translation and rebuild. */
  function TranslateParagraphs(ps: seq<string>, tr: Translator): Result<seq<Event>, Failure>
  {
    if Strip(FullTextClean(ps)) == "" then Err(EmptyContent)
    else match TranslateAll(tr, Pack(ps))
      case Err(i) => Err(TranslationFailed(i))
      case Ok(parts) => Ok(Rebuild(parts))
  }

  /** The body of the feature, stage by stage. */
  method TranslatePdf(pages: seq<Option<string>>, tr: Translator) returns (r: Result<seq<Event>, Failure>)
    ensures r == TranslatePdfSpec(pages, tr)
  {
    var lines := ExtractLines(pages);
    var paragraphs := PreprocessTextForLayout(lines);
    var fullTextClean := Join(TextParagraphs(paragraphs), ParaSep);
    if Strip(fullTextClean) == "" {
      return Err(EmptyContent);
    }
    var chunks := PackParagraphs(paragraphs);
    var translated := TranslateParts(tr, chunks);
    if translated.Err? {
      return Err(TranslationFailed(translated.error));
    }
    var events := BuildDocument(translated.value);
    return Ok(events);
  }

  /** The feature stops with EmptyContent exactly when the merged paragraphs are all sentinels or "". */
  lemma TranslatePdfEmpty(pages: seq<Option<string>>, tr: Translator)
    ensures var ps := Merge(PageLines(pages));
      TranslatePdfSpec(pages, tr) == Err(EmptyContent)
      <==> forall i | 0 <= i < |ps| :: IsSentinel(ps[i])
  {
    var ps := Merge(PageLines(pages));
    assert AllClean(ps) by {
      MergeBlankEntries(PageLines(pages));
    }
    ParagraphsEmpty(ps, tr);
  }

  lemma ParagraphsEmpty(ps: seq<string>, tr: Translator)
    requires AllClean(ps)
    ensures TranslateParagraphs(ps, tr) == Err(EmptyContent) <==> forall i | 0 <= i < |ps| :: IsSentinel(ps[i])
  {
    NoContentIff(ps);
  }

  /** TranslationFailed(i) names the first piece whose translation fails. */
  lemma TranslatePdfFailure(pages: seq<Option<string>>, tr: Translator)
    ensures var r := TranslatePdfSpec(pages, tr);
      r.Err? && r.error.TranslationFailed? ==>
        var cs := Pack(Merge(PageLines(pages)));
        var e := r.error.chunk;
        e < |cs| && TranslateChunk(tr, cs[e]).None?
        && forall i | 0 <= i < e :: TranslateChunk(tr, cs[i]).Some?
  {
    var cs := Pack(Merge(PageLines(pages)));
    var t := TranslateAll(tr, cs);
    if t.Err? {
      TranslateAllErr(tr, cs);
    }
  }

  /** Every paragraph the feature adds is non-empty, not the sentinel, and without surrounding whitespace. */
  lemma TranslatePdfEvents(pages: seq<Option<string>>, tr: Translator)
    ensures var r := TranslatePdfSpec(pages, tr);
      r.Ok? ==> forall i | 0 <= i < |r.value| :: GoodEvent(r.value[i])
  {
    var t := TranslateAll(tr, Pack(Merge(PageLines(pages))));
    if t.Ok? {
      RebuildGood(t.value);
    }
  }

  // ---------------------------------------------------------------------------
  // Page breaks under the identity translation
  // ---------------------------------------------------------------------------

  /** A translator that gives its input back. */
  const Identity: Translator := c => Some(c)

  /** Every piece is the sentinel, "", or without surrounding whitespace. */
  predicate PiecesOk(cs: seq<string>)
  {
    forall i | 0 <= i < |cs| :: IsSentinel(cs[i]) || Stripped(cs[i])
  }

  /** The identity translation gives such pieces back unchanged. */
  lemma {:induction false} IdentityOnStripped(cs: seq<string>)
    requires PiecesOk(cs)
    ensures TranslateAll(Identity, cs) == Ok(cs)
  {
    if cs != [] {
      var n := |cs| - 1;
      assert PiecesOk(cs[..n]);
      IdentityOnStripped(cs[..n]);
      if !IsSentinel(cs[n]) {
        StripOfStripped(cs[n]);
      }
      assert cs[..n] + [cs[n]] == cs;
    }
  }

  /** No parts, no document: "" splits into one blank segment, which adds nothing. */
  lemma RebuildNothing()
    ensures Rebuild([]) == []
  {
    assert Join([], ParaSep) == "";
    SplitSingle("", ParaSep);
    assert [""][..0] == [];
    assert Strip("") == "";
  }

  /** Non-empty newline-free segments, joined by "\n\n", split back into themselves. */
  lemma SplitJoined(segs: seq<string>)
    requires segs != [] && forall i | 0 <= i < |segs| :: NoNewline(segs[i])
    ensures Split(Join(segs, ParaSep), ParaSep) == segs
  {
    assert forall i | 0 <= i < |segs| :: ParaSep[0] !in segs[i];
    SplitJoin(segs, ParaSep);
  }

  /** Rebuilding clean newline-free segments, joined, gives their own events. */
  lemma RebuildJoined(segs: seq<string>)
    requires forall i | 0 <= i < |segs| :: NoNewline(segs[i])
    ensures Rebuild(segs) == EventsOf(segs)
  {
    if segs == [] {
      RebuildNothing();
    } else {
      SplitJoined(segs);
    }
  }

  /** The text paragraphs ps[k..j] joined by "\n\n". */
  predicate JoinedRun(ps: seq<string>, t: string)
  {
    exists k: nat, j: nat | k < j <= |ps| :: AllText(ps[k..j]) && t == Join(ps[k..j], ParaSep)
  }

  lemma AllCleanSlice(ps: seq<string>, k: nat, j: nat)
    requires AllClean(ps) && k <= j <= |ps|
    ensures AllClean(ps[k..j])
  {
    assert forall i | 0 <= i < j - k :: ps[k..j][i] == ps[k + i];
  }

  /** A run piece, translated by the identity, is its paragraphs joined. */
  lemma IdentityPiece(ps: seq<string>, c: string)
    requires AllClean(ps) && RunPiece(ps, c)
    ensures !IsSentinel(c) && TranslateChunk(Identity, c) == Some(Strip(c)) && JoinedRun(ps, Strip(c))
  {
    var k: nat, j: nat :| k < j <= |ps| && AllText(ps[k..j])
      && (c == Join(ps[k..j], ParaSep) || c == Join(ps[k..j], ParaSep) + ParaSep);
    var r := ps[k..j];
    AllCleanSlice(ps, k, j);
    RunNotSentinel(r);
    BufferNotSentinel(r);
    JoinTextStripped(r);
    if c == Join(r, ParaSep) {
      StripOfStripped(c);
    } else {
      StripBuffer(r);
    }
  }

  lemma {:induction false} CountPointwise(xs: seq<string>, ys: seq<string>, x: string)
    requires |xs| == |ys|
    requires forall i | 0 <= i < |xs| :: (xs[i] == x <==> ys[i] == x)
    ensures Count(xs, x) == Count(ys, x)
  {
    if xs != [] {
      var n := |xs| - 1;
      assert forall i | 0 <= i < n :: xs[..n][i] == xs[i] && ys[..n][i] == ys[i];
      CountPointwise(xs[..n], ys[..n], x);
    }
  }

  /**
   * With the identity translator on clean paragraphs the parts are the
   * sentinels and "" of the pieces, copied, and joined runs of paragraphs;
   * as many parts are the sentinel as paragraphs were.
   */
  lemma IdentityParts(ps: seq<string>)
    requires AllClean(ps)
    ensures TranslateAll(Identity, Pack(ps)).Ok?
    ensures var ts := TranslateAll(Identity, Pack(ps)).value;
      (forall i | 0 <= i < |ts| :: IsSentinel(ts[i]) || JoinedRun(ps, ts[i]))
      && Count(ts, PageMarker) == Count(ps, PageMarker)
  {
    var cs := Pack(ps);
    PackShape(ps);
    forall i | 0 <= i < |cs|
      ensures TranslateChunk(Identity, cs[i]).Some?
      ensures var t := TranslateChunk(Identity, cs[i]).value;
        (IsSentinel(t) || JoinedRun(ps, t)) && (t == PageMarker <==> cs[i] == PageMarker)
    {
      if !IsSentinel(cs[i]) {
        IdentityPiece(ps, cs[i]);
        var k: nat, j: nat :| k < j <= |ps| && AllText(ps[k..j]) && Strip(cs[i]) == Join(ps[k..j], ParaSep);
        AllCleanSlice(ps, k, j);
        RunNotSentinel(ps[k..j]);
      }
    }
    TranslateAllOk(Identity, cs);
    var ts := TranslateAll(Identity, cs).value;
    CountPointwise(ts, cs, PageMarker);
    PackSentinelCounts(ps);
  }

  lemma {:induction false} CountAbsent(xs: seq<string>, x: string)
    requires forall i | 0 <= i < |xs| :: xs[i] != x
    ensures Count(xs, x) == 0
  {
    if xs != [] {
      CountAbsent(xs[..|xs| - 1], x);
    }
  }

  /** The segment list a part splits into: the sentinel or "" alone, or the paragraphs of a joined run. */
  lemma PartSegments(ps: seq<string>, t: string) returns (g: seq<string>)
    requires AllClean(ps) && (forall i | 0 <= i < |ps| :: NoNewline(ps[i]))
    requires IsSentinel(t) || JoinedRun(ps, t)
    ensures g != [] && Join(g, ParaSep) == t && AllClean(g)
    ensures forall i | 0 <= i < |g| :: NoNewline(g[i])
    ensures Count(g, PageMarker) == if t == PageMarker then 1 else 0
  {
    if IsSentinel(t) {
      g := [t];
      assert NoNewline(PageMarker);
      assert g[..0] == [];
    } else {
      var k: nat, j: nat :| k < j <= |ps| && AllText(ps[k..j]) && t == Join(ps[k..j], ParaSep);
      g := ps[k..j];
      AllCleanSlice(ps, k, j);
      RunNotSentinel(g);
      CountAbsent(g, PageMarker);
    }
  }

  /**
   * Parts that are sentinels, "" or joined runs of clean newline-free paragraphs
   * are, joined by "\n\n", the join of a list of clean newline-free segments
   * holding as many sentinels.
   */
  lemma {:induction false} PartsSegments(ps: seq<string>, ts: seq<string>) returns (segs: seq<string>)
    requires AllClean(ps) && (forall i | 0 <= i < |ps| :: NoNewline(ps[i]))
    requires forall i | 0 <= i < |ts| :: IsSentinel(ts[i]) || JoinedRun(ps, ts[i])
    ensures (ts == []) == (segs == [])
    ensures Join(segs, ParaSep) == Join(ts, ParaSep)
    ensures AllClean(segs) && forall i | 0 <= i < |segs| :: NoNewline(segs[i])
    ensures Count(segs, PageMarker) == Count(ts, PageMarker)
  {
    if ts == [] {
      segs := [];
    } else {
      var n := |ts| - 1;
      var pre := PartsSegments(ps, ts[..n]);
      var g := PartSegments(ps, ts[n]);
      segs := pre + g;
      assert Join(segs, ParaSep) == Join(ts, ParaSep) by {
        FrontLast(ts);
        if pre != [] {
          JoinAppend(pre, g, ParaSep);
          JoinSnoc(ts[..n], ts[n], ParaSep);
        } else {
          assert segs == g && ts == [ts[n]];
        }
      }
      assert Count(segs, PageMarker) == Count(ts, PageMarker) by {
        CountAppend(pre, g, PageMarker);
      }
      CleanSegmentsAppend(pre, g);
    }
  }

  lemma CleanSegmentsAppend(a: seq<string>, b: seq<string>)
    requires AllClean(a) && forall i | 0 <= i < |a| :: NoNewline(a[i])
    requires AllClean(b) && forall i | 0 <= i < |b| :: NoNewline(b[i])
    ensures AllClean(a + b) && forall i | 0 <= i < |a + b| :: NoNewline((a + b)[i])
  {
    assert forall i | 0 <= i < |a + b| :: (a + b)[i] == if i < |a| then a[i] else b[i - |a|];
  }

  /** Rebuilding such parts gives one page break per part that is the sentinel. */
  lemma RebuildBreaks(ps: seq<string>, ts: seq<string>)
    requires AllClean(ps) && (forall i | 0 <= i < |ps| :: NoNewline(ps[i]))
    requires forall i | 0 <= i < |ts| :: IsSentinel(ts[i]) || JoinedRun(ps, ts[i])
    ensures PageBreaks(Rebuild(ts)) == Count(ts, PageMarker)
  {
    var segs := PartsSegments(ps, ts);
    RebuildJoined(segs);
    EventsOfClean(segs);
  }

  /**
   * Under the identity translation the document has exactly one page break per
   * merged paragraph equal to the sentinel; the only other outcome is
   * EmptyContent.
   */
  lemma IdentityPageBreaks(pages: seq<Option<string>>)
    ensures var r := TranslatePdfSpec(pages, Identity);
      (r.Err? ==> r.error == EmptyContent)
      && (r.Ok? ==> PageBreaks(r.value) == Count(Merge(PageLines(pages)), PageMarker))
  {
    var lines := PageLines(pages);
    PageLinesShape(pages);
    var ps := Merge(lines);
    MergeBlankEntries(lines);
    MergeNewlineFree(lines);
    assert AllClean(ps);
    IdentityParts(ps);
    RebuildBreaks(ps, TranslateAll(Identity, Pack(ps)).value);
  }
}
