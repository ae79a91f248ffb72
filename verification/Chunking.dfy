/**
 * The chunk packer of the PDF translation feature: the loop that walks the
 * merged paragraphs and builds the list of pieces sent to the translator.
 * The page sentinel and "" pass through as entries of their own; text
 * paragraphs are collected in a buffer, each followed by "\n\n".
 *
 * As written, the loop appends the stripped buffer after EVERY text paragraph
 * and keeps the buffer, so a run of paragraphs yields a growing series of
 * prefixes; on overflow or at a sentinel or blank it flushes the buffer
 * unstripped; and nothing is flushed after the loop.
 */
module Chunking {
  import opened Text
  import opened Layout

  /** CHUNK_SIZE */
  const ChunkSize: nat := 4500

  /** What follows every paragraph in the buffer. */
  const ParaSep: string := "\n\n"

  /** A paragraph that goes to the translator: neither the sentinel nor blank. */
  predicate IsText(p: string)
  {
    p != PageMarker && Strip(p) != ""
  }

  /** The loop state: the pieces appended so far and the buffer. */
  datatype PackState = PackState(chunks: seq<string>, current: string)

  const PackStart: PackState := PackState([], "")

  /** The buffer overflows when p is added: the test adds 4, though only 2 characters follow p. */
  predicate Overflows(current: string, p: string)
  {
    |current| + |p| + 4 > ChunkSize
  }

  /** The buffer after paragraph p: emptied at a sentinel or blank, restarted on overflow, else extended. */
  function NextBuffer(current: string, p: string): string
  {
    if p == PageMarker || Strip(p) == "" then ""
    else if Overflows(current, p) then p + ParaSep
    else current + p + ParaSep
  }

  /** What the loop appends for paragraph p, given the buffer before it. */
  function Emitted(current: string, p: string): seq<string>
  {
    if p == PageMarker then Pending(current) + [PageMarker]
    else if Strip(p) == "" then Pending(current) + [""]
    else
      var cur := NextBuffer(current, p);
      (if Overflows(current, p) then Pending(current) else [])
      + (if cur != "" then [Strip(cur)] else [])
  }

  /** One iteration of the loop. */
  function PackStep(st: PackState, p: string): PackState
  {
    PackState(st.chunks + Emitted(st.current, p), NextBuffer(st.current, p))
  }

  function PackFrom(st: PackState, ps: seq<string>): PackState
  {
    if ps == [] then st
    else PackStep(PackFrom(st, ps[..|ps| - 1]), ps[|ps| - 1])
  }

  function PackRun(ps: seq<string>): PackState
  {
    PackFrom(PackStart, ps)
  }

  /** The list handed to the translator; the buffer left after the loop is dropped. */
  function Pack(ps: seq<string>): seq<string>
  {
    PackRun(ps).chunks
  }

  lemma PackSnoc(ps: seq<string>, p: string)
    ensures PackRun(ps + [p]) == PackStep(PackRun(ps), p)
  {
    assert (ps + [p])[..|ps|] == ps;
  }

  /** One more paragraph: the state after it is the step applied to the state before it. */
  lemma PackAdvance(ps: seq<string>, i: nat, before: seq<string>, cur0: string, chunks: seq<string>, current: string)
    requires i < |ps| && PackState(before, cur0) == PackRun(ps[..i])
    requires chunks == before + Emitted(cur0, ps[i]) && current == NextBuffer(cur0, ps[i])
    ensures PackState(chunks, current) == PackRun(ps[..i + 1])
  {
    var xs := ps[..i + 1];
    assert xs[..i] == ps[..i] && xs[i] == ps[i];
    assert PackRun(xs) == PackStep(PackRun(xs[..i]), xs[i]);
  }

  /** The loop as the source writes it, proved to compute Pack. */
  method PackParagraphs(paragraphs: seq<string>) returns (chunks: seq<string>)
    ensures chunks == Pack(paragraphs)
  {
    var current: string := "";
    chunks := [];
    var i := 0;
    while i < |paragraphs|
      invariant 0 <= i <= |paragraphs|
      invariant PackState(chunks, current) == PackRun(paragraphs[..i])
    {
      var p := paragraphs[i];
      ghost var before, cur0 := chunks, current;
      if p == PageMarker {
        if current != "" {
          chunks := chunks + [current];
        }
        assert chunks == before + Pending(cur0);
        chunks := chunks + [PageMarker];
        current := "";
        AppendAssoc(before, Pending(cur0), [PageMarker]);
        assert chunks == before + Emitted(cur0, p) && current == NextBuffer(cur0, p);
      } else if Strip(p) == "" {
        if current != "" {
          chunks := chunks + [current];
        }
        assert chunks == before + Pending(cur0);
        chunks := chunks + [""];
        current := "";
        AppendAssoc(before, Pending(cur0), [""]);
        assert chunks == before + Emitted(cur0, p) && current == NextBuffer(cur0, p);
      } else {
        ghost var flushed := if Overflows(cur0, p) then Pending(cur0) else [];
        if |current| + |p| + 4 > ChunkSize {
          if current != "" {
            chunks := chunks + [current];
          }
          current := p + ParaSep;
        } else {
          current := current + p + ParaSep;
        }
        assert current == NextBuffer(cur0, p) && current != "";
        assert chunks == before + flushed;
        if current != "" {
          chunks := chunks + [Strip(current)];
        }
        AppendAssoc(before, flushed, [Strip(current)]);
        assert chunks == before + Emitted(cur0, p) && current == NextBuffer(cur0, p);
      }
      PackAdvance(paragraphs, i, before, cur0, chunks, current);
      i := i + 1;
    }
    assert paragraphs[..i] == paragraphs;
  }

  // ---------------------------------------------------------------------------
  // Size of the pieces
  // ---------------------------------------------------------------------------

  /** The most a buffer of several paragraphs can hold: the +4 test leaves 2 characters spare. */
  const MaxBuffered: nat := ChunkSize - |ParaSep|

  /**
   * A piece the loop may append: the sentinel, "", anything within MaxBuffered,
   * or one paragraph of ps on its own, with its "\n\n" or stripped.
   */
  predicate ChunkFits(ps: seq<string>, c: string)
  {
    || c == PageMarker || c == "" || |c| <= MaxBuffered
    || exists j | 0 <= j < |ps| :: c == ps[j] + ParaSep || c == Strip(ps[j] + ParaSep)
  }

  lemma FitsPrefix(ps: seq<string>, n: nat, c: string)
    requires n <= |ps| && ChunkFits(ps[..n], c)
    ensures ChunkFits(ps, c)
  {
    if exists j | 0 <= j < n :: c == ps[..n][j] + ParaSep || c == Strip(ps[..n][j] + ParaSep) {
      var j :| 0 <= j < n && (c == ps[..n][j] + ParaSep || c == Strip(ps[..n][j] + ParaSep));
      assert ps[..n][j] == ps[j];
    }
  }

  /** After a step the buffer is empty, within MaxBuffered, or the new paragraph alone. */
  lemma BufferFits(current: string, p: string)
    ensures var cur := NextBuffer(current, p);
      |cur| <= MaxBuffered || cur == p + ParaSep
  {
  }

  /** The buffer is always within MaxBuffered or one paragraph of the input with its "\n\n". */
  lemma PackCurrentFits(ps: seq<string>)
    ensures ChunkFits(ps, PackRun(ps).current)
  {
    if ps != [] {
      var n := |ps| - 1;
      var cur := NextBuffer(PackRun(ps[..n]).current, ps[n]);
      assert PackRun(ps).current == cur by {
        PackSnoc(ps[..n], ps[n]);
        assert ps[..n] + [ps[n]] == ps;
      }
      BufferFits(PackRun(ps[..n]).current, ps[n]);
      if |cur| > MaxBuffered {
        assert cur == ps[n] + ParaSep;
      }
    }
  }

  /** The pieces one step appends all fit, given that the buffer before it did. */
  lemma EmittedFit(ps: seq<string>, current: string)
    requires ps != []
    requires ChunkFits(ps, current)
    ensures forall e | e in Emitted(current, ps[|ps| - 1]) :: ChunkFits(ps, e)
  {
    var p := ps[|ps| - 1];
    if p != PageMarker && Strip(p) != "" {
      var cur := NextBuffer(current, p);
      BufferFits(current, p);
      assert |Strip(cur)| <= |cur|;
    }
  }

  /**
   * Every piece the packer appends is the sentinel, "", at most 4498 characters,
   * or a single paragraph (with its "\n\n", or stripped): paragraphs are never
   * cut, so only a paragraph that is itself long makes a long piece.
   */
  lemma {:induction false} PackChunksFit(ps: seq<string>)
    ensures forall t | 0 <= t < |Pack(ps)| :: ChunkFits(ps, Pack(ps)[t])
  {
    if ps != [] {
      var n := |ps| - 1;
      var pre := ps[..n];
      assert pre + [ps[n]] == ps;
      PackChunksFit(pre);
      PackCurrentFits(pre);
      var st := PackRun(pre);
      PackSnoc(pre, ps[n]);
      FitsPrefix(ps, n, st.current);
      EmittedFit(ps, st.current);
      var out := Emitted(st.current, ps[n]);
      assert Pack(ps) == st.chunks + out;
      forall t | 0 <= t < |Pack(ps)|
        ensures ChunkFits(ps, Pack(ps)[t])
      {
        if t < |st.chunks| {
          assert Pack(pre)[t] == st.chunks[t];
          FitsPrefix(ps, n, st.chunks[t]);
        } else {
          assert Pack(ps)[t] in out;
        }
      }
    }
  }

  // ---------------------------------------------------------------------------
  // Pieces are made of whole paragraphs
  // ---------------------------------------------------------------------------

  /** A paragraph as the merger leaves it: blank, or non-empty without surrounding whitespace. */
  predicate AllClean(ps: seq<string>)
  {
    forall i | 0 <= i < |ps| :: CleanBlock(ps[i])
  }

  predicate AllText(ps: seq<string>)
  {
    forall i | 0 <= i < |ps| :: IsText(ps[i])
  }

  lemma SepIsSpace()
    ensures AllSpace(ParaSep)
  {
  }

  /** Clean text paragraphs join into a non-empty string without surrounding whitespace. */
  lemma JoinTextStripped(xs: seq<string>)
    requires xs != [] && AllClean(xs) && AllText(xs)
    ensures Join(xs, ParaSep) != "" && Stripped(Join(xs, ParaSep))
  {
    assert forall i | 0 <= i < |xs| :: xs[i] != [];
    JoinEnds(xs, ParaSep);
  }

  /** The stripped buffer is the join of its paragraphs. */
  lemma StripBuffer(xs: seq<string>)
    requires xs != [] && AllClean(xs) && AllText(xs)
    ensures Strip(Join(xs, ParaSep) + ParaSep) == Join(xs, ParaSep)
  {
    JoinTextStripped(xs);
    SepIsSpace();
    StripAppendSpace(Join(xs, ParaSep), ParaSep);
  }

  /** Extending a buffered run by one more paragraph. */
  lemma BufferSnoc(xs: seq<string>, p: string)
    requires xs != []
    ensures Join(xs, ParaSep) + ParaSep + p + ParaSep == Join(xs + [p], ParaSep) + ParaSep
  {
    JoinSnoc(xs, p, ParaSep);
  }

  /** The buffer is empty, or holds the text paragraphs ps[k..j], each followed by "\n\n". */
  predicate BufferOf(ps: seq<string>, k: nat, cur: string)
    requires k <= |ps|
  {
    cur == "" || (k < |ps| && AllText(ps[k..]) && cur == Join(ps[k..], ParaSep) + ParaSep)
  }

  lemma AllTextSnoc(xs: seq<string>, p: string)
    requires AllText(xs) && IsText(p)
    ensures AllText(xs + [p])
  {
  }

  /** One step keeps the buffer a run of whole text paragraphs ending at the newest one. */
  lemma BufferStep(ps: seq<string>, k0: nat, cur0: string) returns (k: nat)
    requires ps != [] && k0 <= |ps| - 1
    requires BufferOf(ps[..|ps| - 1], k0, cur0)
    ensures k <= |ps| && BufferOf(ps, k, NextBuffer(cur0, ps[|ps| - 1]))
  {
    var n := |ps| - 1;
    var p := ps[n];
    k := 0;
    if IsText(p) {
      if Overflows(cur0, p) || cur0 == "" {
        k := n;
        assert ps[n..] == [p];
      } else {
        k := k0;
        var run := ps[..n][k0..];
        assert run + [p] == ps[k0..];
        AllTextSnoc(run, p);
        BufferSnoc(run, p);
        AppendAssoc(Join(run, ParaSep) + ParaSep, p, ParaSep);
      }
    }
  }

  /** The buffer is always a run of whole text paragraphs ending at the last one read. */
  lemma {:induction false} PackBuffer(ps: seq<string>) returns (k: nat)
    ensures k <= |ps| && BufferOf(ps, k, PackRun(ps).current)
  {
    k := 0;
    if ps != [] {
      var n := |ps| - 1;
      var pre := ps[..n];
      assert pre + [ps[n]] == ps;
      PackSnoc(pre, ps[n]);
      var k0 := PackBuffer(pre);
      k := BufferStep(ps, k0, PackRun(pre).current);
    }
  }

  // ---------------------------------------------------------------------------
  // The sentinel and "" pass through in order
  // ---------------------------------------------------------------------------

  /** An entry the packer and the translation pass copy as it is. */
  predicate IsSentinel(c: string)
  {
    c == PageMarker || c == ""
  }

  /** The entries of xs equal to the sentinel or "", in order. */
  function Sentinels(xs: seq<string>): seq<string>
  {
    if xs == [] then []
    else Sentinels(xs[..|xs| - 1]) + (if IsSentinel(xs[|xs| - 1]) then [xs[|xs| - 1]] else [])
  }

  lemma {:induction false} SentinelsAppend(xs: seq<string>, ys: seq<string>)
    ensures Sentinels(xs + ys) == Sentinels(xs) + Sentinels(ys)
    decreases |ys|
  {
    if ys == [] {
      assert xs + ys == xs;
    } else {
      var n := |ys| - 1;
      assert (xs + ys)[..|xs + ys| - 1] == xs + ys[..n];
      SentinelsAppend(xs, ys[..n]);
      AppendAssoc(Sentinels(xs), Sentinels(ys[..n]), if IsSentinel(ys[n]) then [ys[n]] else []);
    }
  }

  /** Filtering keeps every sentinel or "" entry, so it keeps their counts. */
  lemma {:induction false} CountSentinels(xs: seq<string>, x: string)
    requires IsSentinel(x)
    ensures Count(Sentinels(xs), x) == Count(xs, x)
  {
    if xs != [] {
      var n := |xs| - 1;
      CountSentinels(xs[..n], x);
      var last := if IsSentinel(xs[n]) then [xs[n]] else [];
      CountAppend(Sentinels(xs[..n]), last, x);
      assert last == [] || last[..0] == [];
    }
  }

  /** A buffer of whole paragraphs ends in "\n\n", so it is neither the sentinel nor "". */
  lemma BufferNotSentinel(xs: seq<string>)
    ensures !IsSentinel(Join(xs, ParaSep) + ParaSep)
  {
    var b := Join(xs, ParaSep) + ParaSep;
    assert b[|b| - 1] == '\n';
    assert PageMarker[|PageMarker| - 1] == '-';
  }

  /** A run of clean text paragraphs, joined, is neither the sentinel nor "". */
  lemma RunNotSentinel(xs: seq<string>)
    requires xs != [] && AllClean(xs) && AllText(xs)
    ensures !IsSentinel(Join(xs, ParaSep))
  {
    JoinTextStripped(xs);
    if |xs| > 1 {
      var n := |xs| - 1;
      assert xs[..n] + [xs[n]] == xs;
      JoinSnoc(xs[..n], xs[n], ParaSep);
      var j := Join(xs[..n], ParaSep);
      assert Join(xs, ParaSep)[|j|] == '\n';
      assert NoNewline(PageMarker);
    }
  }

  lemma AllCleanSuffix(ps: seq<string>, k: nat)
    requires AllClean(ps) && k <= |ps|
    ensures AllClean(ps[k..])
  {
    assert forall i | 0 <= i < |ps[k..]| :: ps[k..][i] == ps[k + i];
  }

  /** The stripped buffer after a text paragraph is a clean run, not a sentinel. */
  lemma StrippedBufferNotSentinel(ps: seq<string>, k: nat, cur: string)
    requires AllClean(ps) && k <= |ps| && BufferOf(ps, k, cur) && cur != ""
    ensures Strip(cur) == Join(ps[k..], ParaSep) && !IsSentinel(Strip(cur))
  {
    AllCleanSuffix(ps, k);
    StripBuffer(ps[k..]);
    RunNotSentinel(ps[k..]);
  }

  /** One step appends the sentinel or "" exactly when the paragraph is one (or blank). */
  lemma EmittedSentinels(ps: seq<string>, k: nat, cur: string)
    requires ps != [] && AllClean(ps) && k <= |ps| - 1
    requires BufferOf(ps[..|ps| - 1], k, cur)
    ensures Sentinels(Emitted(cur, ps[|ps| - 1])) == Sentinels([ps[|ps| - 1]])
  {
    var n := |ps| - 1;
    var p := ps[n];
    if cur != "" {
      BufferNotSentinel(ps[..n][k..]);
    }
    assert Sentinels(Pending(cur)) == [] by {
      if cur != "" {
        assert Pending(cur)[..0] == [];
      }
    }
    assert [p][..0] == [];
    if p == PageMarker || Strip(p) == "" {
      SentinelsAppend(Pending(cur), [p]);
      if p != PageMarker {
        SentinelsAppend(Pending(cur), [""]);
        assert CleanBlock(p);
      }
    } else {
      var flushed := if Overflows(cur, p) then Pending(cur) else [];
      var next := NextBuffer(cur, p);
      var k' := BufferStep(ps, k, cur);
      StrippedBufferNotSentinel(ps, k', next);
      assert [Strip(next)][..0] == [];
      SentinelsAppend(flushed, [Strip(next)]);
    }
  }

  /**
   * On clean paragraphs (the merger's output), the piece list holds exactly the
   * sentinel and "" entries of the paragraph list, in the same order.
   */
  lemma {:induction false} PackSentinels(ps: seq<string>)
    requires AllClean(ps)
    ensures Sentinels(Pack(ps)) == Sentinels(ps)
  {
    if ps != [] {
      var n := |ps| - 1;
      var pre := ps[..n];
      assert pre + [ps[n]] == ps;
      assert AllClean(pre);
      PackSentinels(pre);
      PackSnoc(pre, ps[n]);
      var k := PackBuffer(pre);
      var st := PackRun(pre);
      EmittedSentinels(ps, k, st.current);
      SentinelsAppend(st.chunks, Emitted(st.current, ps[n]));
    }
  }

  /** Corollary: as many sentinels and as many "" entries go out as came in. */
  lemma PackSentinelCounts(ps: seq<string>)
    requires AllClean(ps)
    ensures Count(Pack(ps), PageMarker) == Count(ps, PageMarker)
    ensures Count(Pack(ps), "") == Count(ps, "")
  {
    PackSentinels(ps);
    CountSentinels(Pack(ps), PageMarker);
    CountSentinels(ps, PageMarker);
    CountSentinels(Pack(ps), "");
    CountSentinels(ps, "");
  }

  // ---------------------------------------------------------------------------
  // A run without overflow: a growing series of prefixes
  // ---------------------------------------------------------------------------

  /** One paragraph more, without overflow: the buffer grows by it and is appended stripped. */
  lemma GrowStep(xs: seq<string>, cur: string)
    requires xs != [] && AllClean(xs) && AllText(xs)
    requires |Join(xs, ParaSep)| + 4 <= ChunkSize
    requires cur == if |xs| == 1 then "" else Join(xs[..|xs| - 1], ParaSep) + ParaSep
    ensures NextBuffer(cur, xs[|xs| - 1]) == Join(xs, ParaSep) + ParaSep
    ensures Emitted(cur, xs[|xs| - 1]) == [Join(xs, ParaSep)]
  {
    var n := |xs| - 1;
    var pre, p := xs[..n], xs[n];
    assert pre + [p] == xs;
    assert IsText(p);
    if pre != [] {
      JoinSnoc(pre, p, ParaSep);
      BufferSnoc(pre, p);
      AppendAssoc(Join(pre, ParaSep) + ParaSep, p, ParaSep);
    } else {
      assert cur + p + ParaSep == Join(xs, ParaSep) + ParaSep;
    }
    assert !Overflows(cur, p);
    StripBuffer(xs);
  }

  /** The prefix without the last paragraph meets the same conditions. */
  lemma GrowPrefix(ps: seq<string>)
    requires ps != [] && AllClean(ps) && AllText(ps)
    requires |Join(ps, ParaSep)| + 4 <= ChunkSize
    ensures var pre := ps[..|ps| - 1];
      && pre + [ps[|ps| - 1]] == ps && AllClean(pre) && AllText(pre)
      && (pre != [] ==> |Join(pre, ParaSep)| + 4 <= ChunkSize)
  {
    var n := |ps| - 1;
    assert ps[..n] + [ps[n]] == ps;
    if n > 0 {
      JoinSnoc(ps[..n], ps[n], ParaSep);
    }
  }

  /** The i-th piece is the first i+1 paragraphs joined by "\n\n". */
  predicate GrowingPieces(ps: seq<string>, out: seq<string>)
  {
    |out| == |ps| && forall i | 0 <= i < |ps| :: out[i] == Join(ps[..i + 1], ParaSep)
  }

  /** Images of the prefixes of xs: extending xs by one element extends them by the image of the whole. */
  lemma SnocPrefixImages<X, Y>(xs: seq<X>, prev: seq<Y>, f: seq<X> -> Y)
    requires xs != [] && |prev| == |xs| - 1
    requires forall i | 0 <= i < |prev| :: prev[i] == f(xs[..|xs| - 1][..i + 1])
    ensures forall i | 0 <= i < |xs| :: (prev + [f(xs)])[i] == f(xs[..i + 1])
  {
    var n := |xs| - 1;
    forall i | 0 <= i < |xs|
      ensures (prev + [f(xs)])[i] == f(xs[..i + 1])
    {
      if i < n {
        assert xs[..n][..i + 1] == xs[..i + 1];
      } else {
        assert xs[..i + 1] == xs;
      }
    }
  }

  lemma GrowingExtend(ps: seq<string>, prev: seq<string>)
    requires ps != [] && GrowingPieces(ps[..|ps| - 1], prev)
    ensures GrowingPieces(ps, prev + [Join(ps, ParaSep)])
  {
    var f := (xs: seq<string>) => Join(xs, ParaSep);
    assert forall i | 0 <= i < |prev| :: prev[i] == f(ps[..|ps| - 1][..i + 1]);
    SnocPrefixImages(ps, prev, f);
    assert f(ps) == Join(ps, ParaSep);
  }

  /**
   * Clean text paragraphs that fit together: the packer appends, after the i-th,
   * the first i+1 joined by "\n\n", and keeps the whole run in its buffer,
   * which is never flushed.
   */
  lemma {:induction false} PackGrowing(ps: seq<string>)
    requires AllClean(ps) && AllText(ps)
    requires ps != [] ==> |Join(ps, ParaSep)| + 4 <= ChunkSize
    ensures GrowingPieces(ps, Pack(ps))
    ensures PackRun(ps).current == if ps == [] then "" else Join(ps, ParaSep) + ParaSep
  {
    if ps != [] {
      var n := |ps| - 1;
      var pre := ps[..n];
      GrowPrefix(ps);
      PackGrowing(pre);
      PackSnoc(pre, ps[n]);
      GrowStep(ps, PackRun(pre).current);
      GrowingExtend(ps, Pack(pre));
    }
  }

  /** Under the same conditions the last paragraph adds exactly the whole run joined. */
  lemma PackGrowingSnoc(ps: seq<string>)
    requires ps != [] && AllClean(ps) && AllText(ps)
    requires |Join(ps, ParaSep)| + 4 <= ChunkSize
    ensures Pack(ps) == Pack(ps[..|ps| - 1]) + [Join(ps, ParaSep)]
  {
    var pre := ps[..|ps| - 1];
    GrowPrefix(ps);
    PackGrowing(pre);
    PackSnoc(pre, ps[|ps| - 1]);
    GrowStep(ps, PackRun(pre).current);
  }

  /** Two paragraphs p1, p2 that fit: the pieces are "p1" and then "p1\n\np2". */
  lemma PackTwo(p1: string, p2: string)
    requires IsText(p1) && IsText(p2) && Stripped(p1) && Stripped(p2)
    requires |p1| + |p2| + 6 <= ChunkSize
    ensures Pack([p1, p2]) == [p1, p1 + "\n\n" + p2]
  {
    var ps := [p1, p2];
    assert ps[..1] == [p1];
    assert ps[..2] == ps;
    assert Join(ps, ParaSep) == p1 + ParaSep + p2 by {
      assert ps[1..] == [p2];
    }
    PackGrowing(ps);
  }

  // ---------------------------------------------------------------------------
  // The shape of every piece
  // ---------------------------------------------------------------------------

  /** The text paragraphs ps[k..j] joined by "\n\n", with or without a final "\n\n". */
  predicate RunPiece(ps: seq<string>, c: string)
  {
    exists k: nat, j: nat | k < j <= |ps| ::
      AllText(ps[k..j]) && (c == Join(ps[k..j], ParaSep) || c == Join(ps[k..j], ParaSep) + ParaSep)
  }

  predicate PieceShape(ps: seq<string>, c: string)
  {
    IsSentinel(c) || RunPiece(ps, c)
  }

  lemma RunPiecePrefix(ps: seq<string>, n: nat, c: string)
    requires n <= |ps| && RunPiece(ps[..n], c)
    ensures RunPiece(ps, c)
  {
    var k: nat, j: nat :| k < j <= n && AllText(ps[..n][k..j])
      && (c == Join(ps[..n][k..j], ParaSep) || c == Join(ps[..n][k..j], ParaSep) + ParaSep);
    assert ps[..n][k..j] == ps[k..j];
  }

  lemma BufferPiece(ps: seq<string>, k: nat, cur: string)
    requires k <= |ps| && BufferOf(ps, k, cur) && cur != ""
    ensures RunPiece(ps, cur)
  {
    assert ps[k..|ps|] == ps[k..];
  }

  /** The stripped buffer after a text paragraph is a run of paragraphs ending at it. */
  lemma StrippedBufferPiece(ps: seq<string>, k: nat, cur: string)
    requires ps != [] && AllClean(ps) && k <= |ps| - 1
    requires BufferOf(ps[..|ps| - 1], k, cur)
    requires IsText(ps[|ps| - 1])
    ensures RunPiece(ps, Strip(NextBuffer(cur, ps[|ps| - 1])))
  {
    var next := NextBuffer(cur, ps[|ps| - 1]);
    var k' := BufferStep(ps, k, cur);
    StrippedBufferNotSentinel(ps, k', next);
    assert ps[k'..|ps|] == ps[k'..];
  }

  /** Everything one step appends is the sentinel, "", or a run of paragraphs. */
  lemma EmittedShape(ps: seq<string>, k: nat, cur: string)
    requires ps != [] && AllClean(ps) && k <= |ps| - 1
    requires BufferOf(ps[..|ps| - 1], k, cur)
    ensures forall e | e in Emitted(cur, ps[|ps| - 1]) :: PieceShape(ps, e)
  {
    var n := |ps| - 1;
    var p := ps[n];
    if cur != "" {
      BufferPiece(ps[..n], k, cur);
      RunPiecePrefix(ps, n, cur);
    }
    if p != PageMarker && Strip(p) != "" {
      StrippedBufferPiece(ps, k, cur);
    }
  }

  /**
   * On clean paragraphs every piece is the sentinel, "", or consecutive whole
   * text paragraphs joined by "\n\n" (the unstripped flushes keep a final "\n\n").
   */
  lemma {:induction false} PackShape(ps: seq<string>)
    requires AllClean(ps)
    ensures forall t | 0 <= t < |Pack(ps)| :: PieceShape(ps, Pack(ps)[t])
  {
    if ps != [] {
      var n := |ps| - 1;
      var pre := ps[..n];
      assert pre + [ps[n]] == ps;
      assert AllClean(pre);
      PackShape(pre);
      PackSnoc(pre, ps[n]);
      var k := PackBuffer(pre);
      var st := PackRun(pre);
      EmittedShape(ps, k, st.current);
      var out := Emitted(st.current, ps[n]);
      assert Pack(ps) == st.chunks + out;
      forall t | 0 <= t < |Pack(ps)|
        ensures PieceShape(ps, Pack(ps)[t])
      {
        if t < |st.chunks| {
          assert Pack(pre)[t] == st.chunks[t];
          if RunPiece(pre, st.chunks[t]) {
            RunPiecePrefix(ps, n, st.chunks[t]);
          }
        } else {
          assert Pack(ps)[t] in out;
        }
      }
    }
  }
}
