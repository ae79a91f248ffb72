/**
 * The last two stages of the PDF translation feature: the translation pass over
 * the packed pieces, and the rebuild of the document from the translated parts,
 * joined by "\n\n" and split again. The translator is a parameter: None stands
 * for the exception it raises. The document is the sequence of page breaks and
 * paragraphs added to it.
 */
module Reconstruct {
  import opened Wrappers
  import opened Text
  import opened Layout
  import opened Chunking

  /** The translator: the translated text, or None when the call fails. */
  type Translator = string -> Option<string>

  // ---------------------------------------------------------------------------
  // Translation pass
  // ---------------------------------------------------------------------------

  /** One piece: the sentinel and "" are copied, anything else is translated and stripped. */
  function TranslateChunk(tr: Translator, c: string): Option<string>
  {
    if c == PageMarker || c == "" then Some(c)
    else match tr(c)
      case None => None
      case Some(t) => Some(Strip(t))
  }

  /** The pass over all pieces; it stops at the first piece whose translation fails, and reports its index. */
  function TranslateAll(tr: Translator, cs: seq<string>): Result<seq<string>, nat>
  {
    if cs == [] then Ok([])
    else match TranslateAll(tr, cs[..|cs| - 1])
      case Err(i) => Err(i)
      case Ok(ts) =>
        match TranslateChunk(tr, cs[|cs| - 1])
        case None => Err(|cs| - 1)
        case Some(t) => Ok(ts + [t])
  }

  /** A failure in a prefix is the failure of the whole pass. */
  lemma {:induction false} TranslateErrExtends(tr: Translator, cs: seq<string>, n: nat)
    requires n <= |cs| && TranslateAll(tr, cs[..n]).Err?
    ensures TranslateAll(tr, cs) == TranslateAll(tr, cs[..n])
    decreases |cs| - n
  {
    if n < |cs| {
      var m := |cs| - 1;
      assert cs[..m][..n] == cs[..n];
      TranslateErrExtends(tr, cs[..m], n);
    } else {
      assert cs[..n] == cs;
    }
  }

  /** The translation loop as the source writes it, proved to compute TranslateAll. */
  method TranslateParts(tr: Translator, chunks: seq<string>) returns (r: Result<seq<string>, nat>)
    ensures r == TranslateAll(tr, chunks)
  {
    var parts: seq<string> := [];
    var i := 0;
    while i < |chunks|
      invariant 0 <= i <= |chunks|
      invariant TranslateAll(tr, chunks[..i]) == Ok(parts)
    {
      var chunk := chunks[i];
      assert chunks[..i + 1][..i] == chunks[..i];
      if chunk == PageMarker || chunk == "" {
        parts := parts + [chunk];
      } else {
        var translated := tr(chunk);
        if translated.None? {
          TranslateErrExtends(tr, chunks, i + 1);
          return Err(i);
        }
        parts := parts + [Strip(translated.value)];
      }
      i := i + 1;
    }
    assert chunks[..i] == chunks;
    return Ok(parts);
  }

  /**
   * The pass succeeds exactly when every piece does; then it keeps the number
   * of pieces and puts each piece's translation at the same index.
   */
  lemma {:induction false} TranslateAllOk(tr: Translator, cs: seq<string>)
    ensures TranslateAll(tr, cs).Ok? <==> forall i | 0 <= i < |cs| :: TranslateChunk(tr, cs[i]).Some?
    ensures TranslateAll(tr, cs).Ok? ==>
      var ts := TranslateAll(tr, cs).value;
      |ts| == |cs| && forall i | 0 <= i < |cs| :: ts[i] == TranslateChunk(tr, cs[i]).value
  {
    if cs != [] {
      var n := |cs| - 1;
      TranslateAllOk(tr, cs[..n]);
      assert forall i | 0 <= i < n :: cs[..n][i] == cs[i];
    }
  }

  /** On failure the reported index is the first piece whose translation fails. */
  lemma {:induction false} TranslateAllErr(tr: Translator, cs: seq<string>)
    requires TranslateAll(tr, cs).Err?
    ensures var e := TranslateAll(tr, cs).error;
      e < |cs| && TranslateChunk(tr, cs[e]).None?
      && forall i | 0 <= i < e :: TranslateChunk(tr, cs[i]).Some?
  {
    var n := |cs| - 1;
    var pre := TranslateAll(tr, cs[..n]);
    assert forall i | 0 <= i < n :: cs[..n][i] == cs[i];
    if pre.Err? {
      TranslateAllErr(tr, cs[..n]);
    } else {
      TranslateAllOk(tr, cs[..n]);
    }
  }

  /**
   * The sentinel and "" come out unchanged at their own index, and every other
   * translated part has no surrounding whitespace.
   */
  lemma TranslateKeepsSentinels(tr: Translator, cs: seq<string>)
    requires TranslateAll(tr, cs).Ok?
    ensures var ts := TranslateAll(tr, cs).value;
      |ts| == |cs|
      && (forall i | 0 <= i < |cs| && IsSentinel(cs[i]) :: ts[i] == cs[i])
      && (forall i | 0 <= i < |cs| && !IsSentinel(cs[i]) :: Stripped(ts[i]))
  {
    TranslateAllOk(tr, cs);
  }

  // ---------------------------------------------------------------------------
  // Rebuilding the document
  // ---------------------------------------------------------------------------

  /** What is added to the document. */
  datatype Event = PageBreak | Paragraph(text: string)

  /** One "\n\n"-separated segment, stripped: the sentinel is a page break, other text a paragraph, "" nothing. */
  function SegmentEvents(seg: string): seq<Event>
  {
    var t := Strip(seg);
    if t == PageMarker then [PageBreak]
    else if t != "" then [Paragraph(t)]
    else []
  }

  function EventsOf(segs: seq<string>): seq<Event>
  {
    if segs == [] then []
    else EventsOf(segs[..|segs| - 1]) + SegmentEvents(segs[|segs| - 1])
  }

  /** The document built from the translated parts. */
  function Rebuild(parts: seq<string>): seq<Event>
  {
    EventsOf(Split(Join(parts, ParaSep), ParaSep))
  }

  /** The rebuild loop as the source writes it, proved to compute Rebuild. */
  method BuildDocument(parts: seq<string>) returns (events: seq<Event>)
    ensures events == Rebuild(parts)
  {
    var combined := Join(parts, ParaSep);
    var items := Split(combined, ParaSep);
    events := [];
    var i := 0;
    while i < |items|
      invariant 0 <= i <= |items|
      invariant events == EventsOf(items[..i])
    {
      assert items[..i + 1][..i] == items[..i];
      var itemStripped := Strip(items[i]);
      if itemStripped == PageMarker {
        events := events + [PageBreak];
      } else if itemStripped != "" {
        events := events + [Paragraph(itemStripped)];
      }
      i := i + 1;
    }
    assert items[..i] == items;
  }

  lemma {:induction false} EventsAppend(xs: seq<string>, ys: seq<string>)
    ensures EventsOf(xs + ys) == EventsOf(xs) + EventsOf(ys)
    decreases |ys|
  {
    if ys == [] {
      assert xs + ys == xs;
    } else {
      var n := |ys| - 1;
      assert (xs + ys)[..|xs + ys| - 1] == xs + ys[..n];
      EventsAppend(xs, ys[..n]);
      AppendAssoc(EventsOf(xs), EventsOf(ys[..n]), SegmentEvents(ys[n]));
    }
  }

  /** A paragraph that may be added: non-empty, not the sentinel, no surrounding whitespace. */
  predicate GoodEvent(e: Event)
  {
    e.Paragraph? ==> e.text != "" && e.text != PageMarker && Stripped(e.text)
  }

  /** The rebuild never adds an empty or whitespace-padded paragraph, nor one holding the sentinel. */
  lemma {:induction false} EventsGood(segs: seq<string>)
    ensures forall i | 0 <= i < |EventsOf(segs)| :: GoodEvent(EventsOf(segs)[i])
    ensures |EventsOf(segs)| <= |segs|
  {
    if segs != [] {
      var n := |segs| - 1;
      EventsGood(segs[..n]);
      var pre, last := EventsOf(segs[..n]), SegmentEvents(segs[n]);
      assert forall i | |pre| <= i < |pre + last| :: (pre + last)[i] in last;
    }
  }

  lemma RebuildGood(parts: seq<string>)
    ensures forall i | 0 <= i < |Rebuild(parts)| :: GoodEvent(Rebuild(parts)[i])
  {
    EventsGood(Split(Join(parts, ParaSep), ParaSep));
  }

  /** How many page breaks a document has. */
  function PageBreaks(evs: seq<Event>): nat
  {
    if evs == [] then 0
    else PageBreaks(evs[..|evs| - 1]) + (if evs[|evs| - 1] == PageBreak then 1 else 0)
  }

  lemma {:induction false} PageBreaksAppend(xs: seq<Event>, ys: seq<Event>)
    ensures PageBreaks(xs + ys) == PageBreaks(xs) + PageBreaks(ys)
    decreases |ys|
  {
    if ys == [] {
      assert xs + ys == xs;
    } else {
      var n := |ys| - 1;
      assert (xs + ys)[..|xs + ys| - 1] == xs + ys[..n];
      PageBreaksAppend(xs, ys[..n]);
    }
  }

  /**
   * Clean segments (blank, or without surrounding whitespace) give one page
   * break per segment equal to the sentinel, and one paragraph per other
   * non-blank segment.
   */
  lemma {:induction false} EventsOfClean(segs: seq<string>)
    requires AllClean(segs)
    ensures PageBreaks(EventsOf(segs)) == Count(segs, PageMarker)
    ensures |EventsOf(segs)| == |segs| - Count(segs, "")
  {
    if segs != [] {
      var n := |segs| - 1;
      assert AllClean(segs[..n]);
      EventsOfClean(segs[..n]);
      var s := segs[n];
      assert CleanBlock(s);
      if s != "" {
        StripOfStripped(s);
      }
      var last := SegmentEvents(s);
      PageBreaksAppend(EventsOf(segs[..n]), last);
      assert last == [] || last[..0] == [];
    }
  }
}
