/**
 * Two places where the PDF translation feature does not do what it evidently
 * means to, each shown on the code as written and then corrected, with the
 * intended property proved about the correction:
 *
 *  1. The packer appends the stripped buffer after every text paragraph and
 *     keeps it, so a run of n paragraphs that fits in one piece comes back
 *     from the document as n(n+1)/2 paragraphs: p1, p1 p2, p1 p2 p3, ...
 *     Corrected: PackFixed, which appends a buffer only when it is flushed
 *     (sentinel, blank, overflow, end of input); under the identity
 *     translation the document then holds every paragraph exactly once.
 *
 *  2. The merger treats the page sentinel as an ordinary short line and glues
 *     it to its short neighbours, so page breaks are lost. Corrected:
 *     MergePages, which merges each page on its own and then emits the
 *     sentinel; no page break is lost.
 */
module Intended {
  import opened Wrappers
  import opened Text
  import opened Layout
  import opened Chunking
  import opened Reconstruct
  import opened PdfTranslate

  // ---------------------------------------------------------------------------
  // 1. As written: repeated paragraphs
  // ---------------------------------------------------------------------------

  /** ps[..1], then ps[..2], ..., then ps, one after the other. */
  function Triangle(ps: seq<string>): seq<string>
  {
    if ps == [] then [] else Triangle(ps[..|ps| - 1]) + ps
  }

  lemma {:induction false} TriangleLength(ps: seq<string>)
    ensures 2 * |Triangle(ps)| == |ps| * (|ps| + 1)
  {
    if ps != [] {
      TriangleLength(ps[..|ps| - 1]);
    }
  }

  /** Triangle(ps) is made of entries of ps, so it keeps what holds of all of them. */
  lemma {:induction false} TriangleOf(ps: seq<string>)
    requires AllClean(ps) && AllText(ps) && forall i | 0 <= i < |ps| :: NoNewline(ps[i])
    ensures AllClean(Triangle(ps)) && AllText(Triangle(ps))
    ensures forall i | 0 <= i < |Triangle(ps)| :: NoNewline(Triangle(ps)[i])
  {
    if ps != [] {
      var n := |ps| - 1;
      var pre := ps[..n];
      assert forall i | 0 <= i < n :: pre[i] == ps[i];
      TriangleOf(pre);
      var t := Triangle(pre);
      var all := t + ps;
      forall i | 0 <= i < |all|
        ensures CleanBlock(all[i]) && IsText(all[i]) && NoNewline(all[i])
      {
        if i < |t| {
          assert all[i] == t[i];
        } else {
          assert all[i] == ps[i - |t|];
        }
      }
    }
  }

  /** Clean fitting paragraphs: the identity translation keeps the growing pieces, which join like Triangle. */
  lemma {:induction false} GrowingJoin(ps: seq<string>)
    requires ps != [] && AllClean(ps) && AllText(ps)
    requires |Join(ps, ParaSep)| + 4 <= ChunkSize
    ensures Join(Pack(ps), ParaSep) == Join(Triangle(ps), ParaSep)
    ensures TranslateAll(Identity, Pack(ps)) == Ok(Pack(ps))
  {
    var n := |ps| - 1;
    var pre := ps[..n];
    PackGrowingSnoc(ps);
    GrowPrefix(ps);
    JoinTextStripped(ps);
    StripOfStripped(Join(ps, ParaSep));
    RunNotSentinel(ps);
    assert TranslateChunk(Identity, Join(ps, ParaSep)) == Some(Join(ps, ParaSep));
    if pre == [] {
      assert Pack(ps) == [Join(ps, ParaSep)] by {
        assert Pack(pre) == [];
      }
      assert Triangle(ps) == ps by {
        assert Triangle(pre) == [];
      }
      assert ps == [ps[0]];
    } else {
      GrowingJoin(pre);
      PackGrowing(pre);
      JoinSnoc(Pack(pre), Join(ps, ParaSep), ParaSep);
      assert Triangle(pre) != [] by {
        TriangleLength(pre);
      }
      JoinAppend(Triangle(pre), ps, ParaSep);
    }
  }

  /** The triangle of clean newline-free text paragraphs splits back into itself and holds no "". */
  lemma TriangleSegments(ps: seq<string>)
    requires ps != [] && AllClean(ps) && AllText(ps)
    requires forall i | 0 <= i < |ps| :: NoNewline(ps[i])
    ensures var t := Triangle(ps);
      Split(Join(t, ParaSep), ParaSep) == t && AllClean(t) && Count(t, "") == 0
  {
    var t := Triangle(ps);
    assert AllClean(t) && AllText(t) && forall i | 0 <= i < |t| :: NoNewline(t[i]) by {
      TriangleOf(ps);
    }
    assert t != [] by {
      TriangleLength(ps);
    }
    assert forall i | 0 <= i < |t| :: t[i] != "" by {
      forall i | 0 <= i < |t|
        ensures t[i] != ""
      {
        assert IsText(t[i]);
        StripEmpty(t[i]);
      }
    }
    SplitJoin(t, ParaSep);
    CountAbsent(t, "");
  }

  /**
   * As written: n clean, newline-free text paragraphs that fit in one piece
   * are rebuilt, under the identity translation, as n(n+1)/2 paragraphs,
   * p1, p1, p2, p1, p2, p3, ..., where n are meant.
   */
  lemma RepeatedParagraphs(ps: seq<string>)
    requires ps != [] && AllClean(ps) && AllText(ps)
    requires forall i | 0 <= i < |ps| :: NoNewline(ps[i])
    requires |Join(ps, ParaSep)| + 4 <= ChunkSize
    ensures TranslateAll(Identity, Pack(ps)).Ok?
    ensures var evs := Rebuild(TranslateAll(Identity, Pack(ps)).value);
      evs == EventsOf(Triangle(ps)) && 2 * |evs| == |ps| * (|ps| + 1)
  {
    GrowingJoin(ps);
    TriangleSegments(ps);
    EventsOfClean(Triangle(ps));
    TriangleLength(ps);
  }

  lemma HelloWorldTriangle()
    ensures Triangle(["Hello.", "World."]) == ["Hello.", "Hello.", "World."]
  {
    var ps := ["Hello.", "World."];
    assert ps[..1] == ["Hello."];
    assert ps[..1][..0] == [];
  }

  lemma HelloWorldEvents()
    ensures EventsOf(["Hello.", "Hello.", "World."])
         == [Paragraph("Hello."), Paragraph("Hello."), Paragraph("World.")]
  {
    var t := ["Hello.", "Hello.", "World."];
    StripOfStripped("Hello.");
    StripOfStripped("World.");
    var h, w := [Paragraph("Hello.")], [Paragraph("World.")];
    assert SegmentEvents("Hello.") == h;
    assert SegmentEvents("World.") == w;
    assert t[..2][..1] == ["Hello."] && t[..2][..1][..0] == [];
    assert EventsOf(["Hello."]) == h;
    assert t[..2] == ["Hello.", "Hello."];
    assert EventsOf(t[..2]) == h + h;
    assert EventsOf(t) == h + h + w;
  }

  /** Two short paragraphs: the document reads "Hello.", "Hello.", "World.". */
  lemma RepeatedParagraphsExample()
    ensures var r := TranslateAll(Identity, Pack(["Hello.", "World."]));
      r.Ok? && Rebuild(r.value) == [Paragraph("Hello."), Paragraph("Hello."), Paragraph("World.")]
  {
    var ps := ["Hello.", "World."];
    assert Join(ps, ParaSep) == "Hello." + ParaSep + "World." by {
      assert ps[1..] == ["World."];
    }
    assert NoNewline("Hello.") && NoNewline("World.");
    StripOfStripped("Hello.");
    StripOfStripped("World.");
    RepeatedParagraphs(ps);
    HelloWorldTriangle();
    HelloWorldEvents();
  }

  // ---------------------------------------------------------------------------
  // 1. Corrected: append a buffer only when it is flushed
  // ---------------------------------------------------------------------------

  /** The buffer, stripped, as a piece to append, if it holds anything. */
  function FlushStripped(current: string): seq<string>
  {
    if current != "" then [Strip(current)] else []
  }

  /** What the corrected loop appends for paragraph p: only flushed buffers and the sentinel or "". */
  function FixedEmitted(current: string, p: string): seq<string>
  {
    if p == PageMarker then FlushStripped(current) + [PageMarker]
    else if Strip(p) == "" then FlushStripped(current) + [""]
    else if Overflows(current, p) then FlushStripped(current)
    else []
  }

  function FixedStep(st: PackState, p: string): PackState
  {
    PackState(st.chunks + FixedEmitted(st.current, p), NextBuffer(st.current, p))
  }

  function FixedFrom(st: PackState, ps: seq<string>): PackState
  {
    if ps == [] then st
    else FixedStep(FixedFrom(st, ps[..|ps| - 1]), ps[|ps| - 1])
  }

  function FixedRun(ps: seq<string>): PackState
  {
    FixedFrom(PackStart, ps)
  }

  /** The pieces so far with the buffer flushed. */
  function Flushed(st: PackState): seq<string>
  {
    st.chunks + FlushStripped(st.current)
  }

  /** The corrected packer: the buffer left after the loop is flushed too. */
  function PackFixed(ps: seq<string>): seq<string>
  {
    Flushed(FixedRun(ps))
  }

  lemma FixedSnoc(ps: seq<string>, p: string)
    ensures FixedRun(ps + [p]) == FixedStep(FixedRun(ps), p)
  {
    assert (ps + [p])[..|ps|] == ps;
  }

  /** The buffer of the corrected loop has the same shape as the original's. */
  lemma {:induction false} FixedBuffer(ps: seq<string>) returns (k: nat)
    ensures k <= |ps| && BufferOf(ps, k, FixedRun(ps).current)
  {
    k := 0;
    if ps != [] {
      var n := |ps| - 1;
      var pre := ps[..n];
      assert pre + [ps[n]] == ps;
      FixedSnoc(pre, ps[n]);
      var k0 := FixedBuffer(pre);
      k := BufferStep(ps, k0, FixedRun(pre).current);
    }
  }

  lemma JoinLastExtend(xs: seq<string>, a: string, b: string, sep: string)
    ensures Join(xs + [a + b], sep) == Join(xs + [a], sep) + b
  {
    if xs != [] {
      JoinSnoc(xs, a + b, sep);
      JoinSnoc(xs, a, sep);
      AppendAssoc(Join(xs, sep) + sep, a, b);
    } else {
      assert [] + [a + b] == [a + b] && [] + [a] == [a];
    }
  }

  /** Appending p to the paragraphs appends it to the join of the flushed pieces. */
  lemma FlushedSnoc(out: seq<string>, ps: seq<string>, p: string)
    requires (out == []) == (ps == []) && Join(out, ParaSep) == Join(ps, ParaSep)
    ensures Join(out + [p], ParaSep) == Join(ps + [p], ParaSep)
  {
    if out != [] {
      JoinSnoc(out, p, ParaSep);
      JoinSnoc(ps, p, ParaSep);
    }
  }

  /** A text paragraph that extends a non-empty buffer extends its last flushed piece by "\n\n" + p. */
  lemma ExtendBuffer(ps: seq<string>, k: nat, cur: string)
    requires ps != [] && AllClean(ps) && k <= |ps| - 1
    requires BufferOf(ps[..|ps| - 1], k, cur) && cur != ""
    requires IsText(ps[|ps| - 1]) && !Overflows(cur, ps[|ps| - 1])
    ensures Strip(NextBuffer(cur, ps[|ps| - 1])) == Strip(cur) + ParaSep + ps[|ps| - 1]
  {
    var n := |ps| - 1;
    var p := ps[n];
    var r := ps[..n][k..];
    assert r + [p] == ps[k..];
    AllTextSnoc(r, p);
    AllCleanSuffix(ps, k);
    assert AllClean(r) by {
      assert forall i | 0 <= i < |r| :: r[i] == ps[k..][i];
    }
    StripBuffer(r);
    BufferSnoc(r, p);
    AppendAssoc(Join(r, ParaSep) + ParaSep, p, ParaSep);
    StripBuffer(r + [p]);
    JoinSnoc(r, p, ParaSep);
  }

  /** A sentinel, a blank, or a paragraph that starts a new buffer adds itself as a flushed piece. */
  lemma FixedStepAppends(st: PackState, p: string)
    requires CleanBlock(p)
    requires IsSentinel(p) || Strip(p) == "" || Overflows(st.current, p) || st.current == ""
    ensures Flushed(FixedStep(st, p)) == Flushed(st) + [p]
  {
    var cur := st.current;
    if p != "" {
      StripOfStripped(p);
    }
    if !IsSentinel(p) {
      SepIsSpace();
      StripAppendSpace(p, ParaSep);
      assert NextBuffer(cur, p) == p + ParaSep;
      AppendAssoc(st.chunks, FlushStripped(cur), [Strip(p + ParaSep)]);
    }
  }

  /** A paragraph that extends the buffer extends the last flushed piece. */
  lemma FixedStepExtends(ps: seq<string>, k: nat, st: PackState)
    requires ps != [] && AllClean(ps) && k <= |ps| - 1
    requires BufferOf(ps[..|ps| - 1], k, st.current) && st.current != ""
    requires IsText(ps[|ps| - 1]) && !Overflows(st.current, ps[|ps| - 1])
    ensures Flushed(st) == st.chunks + [Strip(st.current)]
    ensures Flushed(FixedStep(st, ps[|ps| - 1])) == st.chunks + [Strip(st.current) + (ParaSep + ps[|ps| - 1])]
  {
    ExtendBuffer(ps, k, st.current);
    AppendAssoc(Strip(st.current), ParaSep, ps[|ps| - 1]);
  }

  /** One corrected step keeps the flushed pieces joined equal to the paragraphs joined. */
  lemma FixedStepJoin(ps: seq<string>, k: nat, st: PackState)
    requires ps != [] && AllClean(ps) && k <= |ps| - 1
    requires BufferOf(ps[..|ps| - 1], k, st.current)
    requires (Flushed(st) == []) == (|ps| == 1)
    requires Join(Flushed(st), ParaSep) == Join(ps[..|ps| - 1], ParaSep)
    ensures Flushed(FixedStep(st, ps[|ps| - 1])) != []
    ensures Join(Flushed(FixedStep(st, ps[|ps| - 1])), ParaSep) == Join(ps, ParaSep)
  {
    var n := |ps| - 1;
    var p := ps[n];
    assert ps[..n] + [p] == ps;
    assert CleanBlock(p);
    if IsSentinel(p) || Strip(p) == "" || Overflows(st.current, p) || st.current == "" {
      FixedStepAppends(st, p);
      FlushedSnoc(Flushed(st), ps[..n], p);
    } else {
      FixedStepExtends(ps, k, st);
      JoinLastExtend(st.chunks, Strip(st.current), ParaSep + p, ParaSep);
      AppendAssoc(Join(ps[..n], ParaSep), ParaSep, p);
      JoinSnoc(ps[..n], p, ParaSep);
    }
  }

  /** The corrected packer loses and repeats nothing: its pieces join to the paragraphs joined. */
  lemma {:induction false} PackFixedJoin(ps: seq<string>)
    requires AllClean(ps)
    ensures (PackFixed(ps) == []) == (ps == [])
    ensures Join(PackFixed(ps), ParaSep) == Join(ps, ParaSep)
  {
    if ps != [] {
      var n := |ps| - 1;
      var pre := ps[..n];
      assert pre + [ps[n]] == ps;
      assert AllClean(pre);
      PackFixedJoin(pre);
      FixedSnoc(pre, ps[n]);
      var k := FixedBuffer(pre);
      FixedStepJoin(ps, k, FixedRun(pre));
    }
  }

  lemma PiecesOkAppend(a: seq<string>, b: seq<string>)
    requires PiecesOk(a) && PiecesOk(b)
    ensures PiecesOk(a + b)
  {
    assert forall i | 0 <= i < |a + b| :: (a + b)[i] == if i < |a| then a[i] else b[i - |a|];
  }

  /** The pieces the corrected loop appends are all the sentinel, "", or stripped. */
  lemma {:induction false} FixedChunksOk(ps: seq<string>)
    ensures PiecesOk(FixedRun(ps).chunks)
  {
    if ps != [] {
      var n := |ps| - 1;
      FixedChunksOk(ps[..n]);
      var st := FixedRun(ps[..n]);
      var cur, p := st.current, ps[n];
      assert PiecesOk(FlushStripped(cur));
      assert PiecesOk([PageMarker]) && PiecesOk([""]) && PiecesOk([]);
      PiecesOkAppend(FlushStripped(cur), [PageMarker]);
      PiecesOkAppend(FlushStripped(cur), [""]);
      PiecesOkAppend(st.chunks, FixedEmitted(cur, p));
    }
  }

  /** Every corrected piece is the sentinel, "", or stripped. */
  lemma PackFixedStripped(ps: seq<string>)
    ensures PiecesOk(PackFixed(ps))
  {
    FixedChunksOk(ps);
    var st := FixedRun(ps);
    assert PiecesOk(FlushStripped(st.current));
    PiecesOkAppend(st.chunks, FlushStripped(st.current));
  }

  /** Stripping a piece that fits gives a piece that fits. */
  lemma StripFits(ps: seq<string>, c: string)
    requires ChunkFits(ps, c)
    ensures ChunkFits(ps, Strip(c))
  {
    if |c| <= MaxBuffered || c == PageMarker || c == "" {
      assert |Strip(c)| <= |c|;
    } else {
      var j :| 0 <= j < |ps| && (c == ps[j] + ParaSep || c == Strip(ps[j] + ParaSep));
      if c == Strip(ps[j] + ParaSep) {
        StripOfStripped(c);
      }
    }
  }

  /** The buffer of the corrected loop fits, as the original's does. */
  lemma FixedCurrentFits(ps: seq<string>)
    ensures ChunkFits(ps, FixedRun(ps).current)
  {
    if ps != [] {
      var n := |ps| - 1;
      var cur := NextBuffer(FixedRun(ps[..n]).current, ps[n]);
      assert FixedRun(ps).current == cur by {
        FixedSnoc(ps[..n], ps[n]);
        assert ps[..n] + [ps[n]] == ps;
      }
      BufferFits(FixedRun(ps[..n]).current, ps[n]);
      if |cur| > MaxBuffered {
        assert cur == ps[n] + ParaSep;
      }
    }
  }

  /** Flushing a buffer that fits appends only pieces that fit. */
  lemma FlushFits(ps: seq<string>, current: string)
    requires ChunkFits(ps, current)
    ensures forall e | e in FlushStripped(current) :: ChunkFits(ps, e)
  {
    StripFits(ps, current);
  }

  /** The pieces one corrected step appends all fit, given that the buffer before it did. */
  lemma FixedEmittedFit(ps: seq<string>, current: string)
    requires ps != []
    requires ChunkFits(ps, current)
    ensures forall e | e in FixedEmitted(current, ps[|ps| - 1]) :: ChunkFits(ps, e)
  {
    FlushFits(ps, current);
  }

  lemma {:induction false} FixedChunksFit(ps: seq<string>)
    ensures forall t | 0 <= t < |FixedRun(ps).chunks| :: ChunkFits(ps, FixedRun(ps).chunks[t])
  {
    if ps != [] {
      var n := |ps| - 1;
      var pre := ps[..n];
      assert pre + [ps[n]] == ps;
      FixedChunksFit(pre);
      FixedCurrentFits(pre);
      var st := FixedRun(pre);
      FixedSnoc(pre, ps[n]);
      FitsPrefix(ps, n, st.current);
      FixedEmittedFit(ps, st.current);
      var out := FixedEmitted(st.current, ps[n]);
      assert FixedRun(ps).chunks == st.chunks + out;
      forall t | 0 <= t < |FixedRun(ps).chunks|
        ensures ChunkFits(ps, FixedRun(ps).chunks[t])
      {
        if t < |st.chunks| {
          FitsPrefix(ps, n, st.chunks[t]);
        } else {
          assert FixedRun(ps).chunks[t] in out;
        }
      }
    }
  }

  /**
   * Corrected, size bound: every piece of the corrected packer is the sentinel,
   * "", at most 4498 characters, or a single paragraph stripped, just as for
   * the packer as written.
   */
  lemma PackFixedFit(ps: seq<string>)
    ensures forall t | 0 <= t < |PackFixed(ps)| :: ChunkFits(ps, PackFixed(ps)[t])
  {
    FixedChunksFit(ps);
    var st := FixedRun(ps);
    FixedCurrentFits(ps);
    FlushFits(ps, st.current);
    forall t | 0 <= t < |PackFixed(ps)|
      ensures ChunkFits(ps, PackFixed(ps)[t])
    {
      if t >= |st.chunks| {
        assert PackFixed(ps)[t] in FlushStripped(st.current);
      }
    }
  }

  /**
   * Corrected: under the identity translation, clean newline-free paragraphs
   * are rebuilt as exactly their own events, each paragraph once and in order.
   */
  lemma PackFixedIdentity(ps: seq<string>)
    requires AllClean(ps) && forall i | 0 <= i < |ps| :: NoNewline(ps[i])
    ensures TranslateAll(Identity, PackFixed(ps)) == Ok(PackFixed(ps))
    ensures Rebuild(PackFixed(ps)) == EventsOf(ps)
  {
    PackFixedStripped(ps);
    IdentityOnStripped(PackFixed(ps));
    PackFixedJoin(ps);
    RebuildJoined(ps);
  }

  // ---------------------------------------------------------------------------
  // 2. As written: the sentinel is glued to its neighbours
  // ---------------------------------------------------------------------------

  lemma TwoPageLines()
    ensures PageLines([Some("a"), Some("b")]) == ["a", PageMarker, "b", PageMarker]
  {
    var pages := [Some("a"), Some("b")];
    SplitSingle("a", "\n");
    SplitSingle("b", "\n");
    assert pages[..1] == [Some("a")] && pages[..1][..0] == [];
  }

  /**
   * As written: two pages "a" and "b" give the lines a, sentinel, b, sentinel,
   * which glue into one paragraph; the document has no page break at all.
   */
  lemma PageBreaksLost()
    ensures var r := TranslatePdfSpec([Some("a"), Some("b")], Identity);
      r.Ok? && PageBreaks(r.value) == 0
  {
    var pages := [Some("a"), Some("b")];
    var lines := ["a", PageMarker, "b", PageMarker];
    TwoPageLines();
    MarkerIsShort();
    StripOfStripped("a");
    StripOfStripped("b");
    assert forall i | 0 <= i < |lines| :: IsShort(lines[i]);
    MarkerAbsorbedInRun(lines);
    GluedRunIsNotMarker(lines);
    MergeShortRun(lines);
    var ps := Merge(lines);
    assert ps[0] != "";
    assert ps == [ps[0]] && [ps[0]][..0] == [];
    assert Count(ps, PageMarker) == 0;
    TranslatePdfEmpty(pages, Identity);
    IdentityPageBreaks(pages);
  }

  // ---------------------------------------------------------------------------
  // 2. Corrected: merge page by page, then emit the sentinel
  // ---------------------------------------------------------------------------

  /** Each page merged on its own, followed by the sentinel. */
  function MergePages(pages: seq<Option<string>>): seq<string>
  {
    if pages == [] then []
    else MergePages(pages[..|pages| - 1]) + Merge(Split(PageText(pages[|pages| - 1]), "\n")) + [PageMarker]
  }

  /** The corrected merger's output is clean, newline-free, and has a sentinel per page. */
  lemma {:induction false} MergePagesShape(pages: seq<Option<string>>)
    ensures AllClean(MergePages(pages))
    ensures forall i | 0 <= i < |MergePages(pages)| :: NoNewline(MergePages(pages)[i])
    ensures Count(MergePages(pages), PageMarker) >= |pages|
  {
    if pages != [] {
      var n := |pages| - 1;
      MergePagesShape(pages[..n]);
      var pre := MergePages(pages[..n]);
      var lines := Split(PageText(pages[n]), "\n");
      forall i | 0 <= i < |lines|
        ensures NoNewline(lines[i])
      {
        SplitPiecesFree(PageText(pages[n]), "\n", i);
      }
      var mid := Merge(lines);
      MergeBlankEntries(lines);
      MergeNewlineFree(lines);
      MarkerIsShort();
      assert NoNewline(PageMarker);
      var all := pre + mid + [PageMarker];
      forall i | 0 <= i < |all|
        ensures CleanBlock(all[i]) && NoNewline(all[i])
      {
        if i < |pre| {
          assert all[i] == pre[i];
        } else if i < |pre| + |mid| {
          assert all[i] == mid[i - |pre|];
        }
      }
      CountAppend(pre + mid, [PageMarker], PageMarker);
      CountAppend(pre, mid, PageMarker);
      assert [PageMarker][..0] == [];
    }
  }

  /** The feature with both corrections. */
  function TranslatePdfFixed(pages: seq<Option<string>>, tr: Translator): Result<seq<Event>, Failure>
  {
    var ps := MergePages(pages);
    if Strip(FullTextClean(ps)) == "" then Err(EmptyContent)
    else match TranslateAll(tr, PackFixed(ps))
      case Err(i) => Err(TranslationFailed(i))
      case Ok(parts) => Ok(Rebuild(parts))
  }

  /**
   * Corrected: under the identity translation the document is exactly the
   * merged paragraphs, each once, with at least one page break per page.
   */
  lemma FixedPipelineIdentity(pages: seq<Option<string>>)
    ensures var r := TranslatePdfFixed(pages, Identity);
      (r.Err? ==> r.error == EmptyContent)
      && (r.Ok? ==> r.value == EventsOf(MergePages(pages)) && PageBreaks(r.value) >= |pages|)
  {
    var ps := MergePages(pages);
    MergePagesShape(pages);
    PackFixedIdentity(ps);
    EventsOfClean(ps);
    if Strip(FullTextClean(ps)) != "" {
      assert TranslatePdfFixed(pages, Identity) == Ok(Rebuild(PackFixed(ps)));
    }
  }
}
