/**
 * The line merger of the PDF translation feature: preprocess_text_for_layout.
 * Short lines that do not end in a full stop are glued together with " | ";
 * blank lines, long lines and lines ending in a full stop end the glued run.
 * The page sentinel that the caller appends after every page is an ordinary
 * short line here.
 */
module Layout {
  import opened Text

  /** The sentinel appended after the lines of every page. */
  const PageMarker: string := "---HALAMAN BARU---"

  /** MAX_LINE_LENGTH: a stripped line shorter than this may be glued. */
  const MaxLineLength: nat := 100

  /** What glues the lines of a run together. */
  const Bar: string := " | "

  predicate IsBlank(line: string)
  {
    Strip(line) == ""
  }

  /** A probable list item or table cell: non-blank, short, not ending in a full stop. */
  predicate IsShort(line: string)
  {
    var s := Strip(line);
    s != "" && |s| < MaxLineLength && !EndsWith(s, ".")
  }

  /** A line that ends a run: blank, long, or ending in a full stop. */
  predicate IsBoundary(line: string)
  {
    !IsShort(line)
  }

  predicate NoNewline(s: string)
  {
    '\n' !in s
  }

  /** The loop state: the blocks emitted so far and the run being glued. */
  datatype MergeState = MergeState(blocks: seq<string>, current: string)

  const Start: MergeState := MergeState([], "")

  /** The run being glued, if any, as a block to emit. */
  function Pending(current: string): seq<string>
  {
    if current != "" then [current] else []
  }

  /** The emitted blocks followed by the pending run: what the loop leaves behind. */
  function Flush(st: MergeState): seq<string>
  {
    st.blocks + Pending(st.current)
  }

  /** One iteration of the loop over the input lines. */
  function MergeStep(st: MergeState, line: string): MergeState
  {
    var s := Strip(line);
    if s == "" then
      MergeState(Flush(st) + [""], "")
    else if |s| < MaxLineLength && !EndsWith(s, ".") then
      MergeState(st.blocks, if st.current != "" then st.current + Bar + s else s)
    else
      MergeState(Flush(st) + [s], "")
  }

  /** The loop run over lines from state st. */
  function MergeFrom(st: MergeState, lines: seq<string>): MergeState
  {
    if lines == [] then st
    else MergeStep(MergeFrom(st, lines[..|lines| - 1]), lines[|lines| - 1])
  }

  function MergeRun(lines: seq<string>): MergeState
  {
    MergeFrom(Start, lines)
  }

  /** The final clean-up of one block: replace("  ", " ") then strip(). */
  function Tidy(b: string): string
  {
    Strip(CollapseSpaces(b))
  }

  /** The closing list comprehension: keep blank and non-blank blocks, tidy each. */
  function TidyAll(bs: seq<string>): seq<string>
  {
    if bs == [] then []
    else (if Strip(bs[0]) != "" || bs[0] == "" then [Tidy(bs[0])] else []) + TidyAll(bs[1..])
  }

  /** preprocess_text_for_layout(lines) */
  function Merge(lines: seq<string>): seq<string>
  {
    TidyAll(Flush(MergeRun(lines)))
  }

  /** The loop as the source writes it, proved to compute Merge. */
  method PreprocessTextForLayout(textBlocks: seq<string>) returns (paragraphs: seq<string>)
    ensures paragraphs == Merge(textBlocks)
  {
    var processed: seq<string> := [];
    var current: string := "";
    var i := 0;
    while i < |textBlocks|
      invariant 0 <= i <= |textBlocks|
      invariant MergeState(processed, current) == MergeRun(textBlocks[..i])
    {
      var block := textBlocks[i];
      assert textBlocks[..i + 1] == textBlocks[..i] + [block];
      MergeSnoc(textBlocks[..i], block);
      if Strip(block) == "" {
        if current != "" {
          processed := processed + [current];
        }
        processed := processed + [""];
        current := "";
      } else if |Strip(block)| < MaxLineLength && !EndsWith(Strip(block), ".") {
        if current != "" {
          current := current + Bar + Strip(block);
        } else {
          current := Strip(block);
        }
      } else {
        if current != "" {
          processed := processed + [current];
        }
        current := Strip(block);
        processed := processed + [current];
        current := "";
      }
      i := i + 1;
    }
    assert textBlocks[..i] == textBlocks;
    if current != "" {
      processed := processed + [current];
    }
    assert processed == Flush(MergeRun(textBlocks));
    paragraphs := TidyAll(processed);
  }

  // ---------------------------------------------------------------------------
  // Facts about the clean-up
  // ---------------------------------------------------------------------------

  /** A block is blank ("") or non-empty with no surrounding whitespace. */
  predicate CleanBlock(b: string)
  {
    b == "" || Stripped(b)
  }

  lemma TidyClean(b: string)
    requires b != "" && Stripped(b)
    ensures Tidy(b) == CollapseSpaces(b)
    ensures Tidy(b) != "" && Stripped(Tidy(b))
  {
    CollapseEnds(b);
    StripOfStripped(CollapseSpaces(b));
  }

  lemma {:induction false} TidyAllAppend(a: seq<string>, b: seq<string>)
    ensures TidyAll(a + b) == TidyAll(a) + TidyAll(b)
  {
    if a == [] {
      assert a + b == b;
    } else {
      assert (a + b)[1..] == a[1..] + b;
      TidyAllAppend(a[1..], b);
    }
  }

  lemma TidyAllSingle(b: string)
    requires CleanBlock(b)
    ensures TidyAll([b]) == [Tidy(b)]
  {
    assert [b][1..] == [];
  }

  /** Tidying keeps blank blocks blank and clean blocks clean, one for one. */
  lemma {:induction false} TidyAllClean(bs: seq<string>)
    requires forall i | 0 <= i < |bs| :: CleanBlock(bs[i])
    ensures |TidyAll(bs)| == |bs|
    ensures Count(TidyAll(bs), "") == Count(bs, "")
    ensures forall i | 0 <= i < |bs| :: CleanBlock(TidyAll(bs)[i])
    decreases |bs|
  {
    if bs != [] {
      var n := |bs| - 1;
      var init, last := bs[..n], bs[n];
      assert bs == init + [last];
      TidyAllAppend(init, [last]);
      TidyAllClean(init);
      TidyAllSingle(last);
      var t0, e := TidyAll(init), Tidy(last);
      assert TidyAll(bs) == t0 + [e];
      if last != "" {
        TidyClean(last);
      } else {
        assert CollapseSpaces(last) == "";
      }
      assert e == "" <==> last == "";
      CountAppend(t0, [e], "");
      CountAppend(init, [last], "");
      assert Count([e], "") == Count([last], "");
    }
  }

  // ---------------------------------------------------------------------------
  // Folding the loop over concatenated inputs
  // ---------------------------------------------------------------------------

  lemma {:induction false} MergeFromAppend(st: MergeState, xs: seq<string>, ys: seq<string>)
    ensures MergeFrom(st, xs + ys) == MergeFrom(MergeFrom(st, xs), ys)
    decreases |ys|
  {
    if ys == [] {
      assert xs + ys == xs;
    } else {
      assert (xs + ys)[..|xs + ys| - 1] == xs + ys[..|ys| - 1];
      MergeFromAppend(st, xs, ys[..|ys| - 1]);
    }
  }

  lemma MergeStepShift(pre: seq<string>, st: MergeState, l: string)
    ensures MergeStep(MergeState(pre + st.blocks, st.current), l)
         == MergeState(pre + MergeStep(st, l).blocks, MergeStep(st, l).current)
  {
    var s := Strip(l);
    var p := Pending(st.current);
    if s == "" {
      assert pre + st.blocks + p + [""] == pre + (st.blocks + p + [""]);
    } else if |s| < MaxLineLength && !EndsWith(s, ".") {
    } else {
      assert pre + st.blocks + p + [s] == pre + (st.blocks + p + [s]);
    }
  }

  /** Starting with blocks already emitted and no run only puts those blocks in front. */
  lemma {:induction false} MergeFromShift(pre: seq<string>, ys: seq<string>)
    ensures MergeFrom(MergeState(pre, ""), ys)
         == MergeState(pre + MergeRun(ys).blocks, MergeRun(ys).current)
    decreases |ys|
  {
    if ys == [] {
      assert pre + [] == pre;
    } else {
      var ys' := ys[..|ys| - 1];
      MergeFromShift(pre, ys');
      MergeStepShift(pre, MergeRun(ys'), ys[|ys| - 1]);
    }
  }

  lemma MergeRunSingle(l: string)
    ensures MergeRun([l]) == MergeStep(Start, l)
  {
    assert [l][..0] == [];
    assert MergeFrom(Start, [l][..0]) == Start;
  }

  lemma MergeSnoc(xs: seq<string>, l: string)
    ensures MergeRun(xs + [l]) == MergeStep(MergeRun(xs), l)
  {
    assert (xs + [l])[..|xs|] == xs;
  }

  // ---------------------------------------------------------------------------
  // Properties of the merger
  // ---------------------------------------------------------------------------

  /** The number of input lines that are blank after stripping. */
  function CountBlank(lines: seq<string>): nat
  {
    if lines == [] then 0
    else CountBlank(lines[..|lines| - 1]) + (if IsBlank(lines[|lines| - 1]) then 1 else 0)
  }

  /** Every emitted block is "" or clean, and the run being glued is clean. */
  predicate CleanState(st: MergeState)
  {
    (forall i | 0 <= i < |st.blocks| :: CleanBlock(st.blocks[i])) && Stripped(st.current)
  }

  lemma CleanPending(st: MergeState)
    requires CleanState(st)
    ensures forall i | 0 <= i < |Flush(st)| :: CleanBlock(Flush(st)[i])
  {
  }

  /** One step keeps the state clean. */
  lemma MergeStepClean(st: MergeState, l: string)
    requires CleanState(st)
    ensures CleanState(MergeStep(st, l))
  {
    var s := Strip(l);
    CleanPending(st);
    if s == "" {
    } else if |s| < MaxLineLength && !EndsWith(s, ".") {
      if st.current != "" {
        var j := st.current + Bar + s;
        assert j[0] == st.current[0];
        assert j[|j| - 1] == s[|s| - 1];
      }
    } else {
    }
  }

  /** One step emits "" exactly when its line is blank. */
  lemma MergeStepCount(st: MergeState, l: string)
    ensures Count(MergeStep(st, l).blocks, "")
         == Count(st.blocks, "") + (if IsBlank(l) then 1 else 0)
  {
    var s := Strip(l);
    var pend := Pending(st.current);
    CountAppend(st.blocks, pend, "");
    assert Count(pend, "") == 0 by {
      if st.current != "" {
        assert pend == [st.current];
        assert pend[..0] == [];
      }
    }
    if s == "" {
      CountAppend(st.blocks + pend, [""], "");
      assert [""][..0] == [];
    } else if |s| < MaxLineLength && !EndsWith(s, ".") {
    } else {
      CountAppend(st.blocks + pend, [s], "");
      assert [s][..0] == [];
    }
  }

  /**
   * What the loop keeps true: every emitted block is "" or clean, "" is emitted
   * once per blank line and nowhere else, and no line produces more than one block.
   */
  lemma {:induction false} MergeRunInvariant(lines: seq<string>)
    ensures CleanState(MergeRun(lines))
    ensures Count(MergeRun(lines).blocks, "") == CountBlank(lines)
    ensures |Flush(MergeRun(lines))| <= |lines|
  {
    if lines != [] {
      var n := |lines| - 1;
      MergeRunInvariant(lines[..n]);
      var st := MergeRun(lines[..n]);
      assert MergeRun(lines) == MergeStep(st, lines[n]);
      MergeStepClean(st, lines[n]);
      MergeStepCount(st, lines[n]);
    }
  }

  /**
   * Exactly one "" per blank input line and "" nowhere else; every other entry
   * is non-empty with no leading or trailing whitespace.
   */
  lemma MergeBlankEntries(lines: seq<string>)
    ensures Count(Merge(lines), "") == CountBlank(lines)
    ensures forall i | 0 <= i < |Merge(lines)| ::
      Merge(lines)[i] == "" || (Merge(lines)[i] != "" && Stripped(Merge(lines)[i]))
  {
    MergeRunInvariant(lines);
    var st := MergeRun(lines);
    var bs := Flush(st);
    assert forall i | 0 <= i < |bs| :: CleanBlock(bs[i]);
    TidyAllClean(bs);
    CountAppend(st.blocks, Pending(st.current), "");
  }

  /** The merger never produces more entries than it was given lines. */
  lemma MergeNoLonger(lines: seq<string>)
    ensures |Merge(lines)| <= |lines|
  {
    MergeRunInvariant(lines);
    var st := MergeRun(lines);
    var bs := Flush(st);
    assert forall i | 0 <= i < |bs| :: CleanBlock(bs[i]);
    TidyAllClean(bs);
  }

  /** The state after a boundary line no longer depends on the run that was pending. */
  lemma BoundaryStep(st: MergeState, l: string)
    requires IsBoundary(l)
    ensures MergeStep(st, l) == MergeStep(MergeState(Flush(st), ""), l)
  {
  }

  /**
   * Just before a boundary line (blank, long, or ending in ".") the input
   * splits in two that are merged independently, in input order.
   */
  lemma MergeSplitBefore(xs: seq<string>, ys: seq<string>)
    requires ys != [] && IsBoundary(ys[0])
    ensures Merge(xs + ys) == Merge(xs) + Merge(ys)
  {
    var st := MergeRun(xs);
    var z := ys[1..];
    assert [ys[0]] + z == ys;
    assert [ys[0]][..0] == [];
    MergeFromAppend(Start, xs, ys);
    MergeFromAppend(st, [ys[0]], z);
    MergeFromAppend(MergeState(Flush(st), ""), [ys[0]], z);
    BoundaryStep(st, ys[0]);
    MergeFromShift(Flush(st), ys);
    var r := MergeRun(ys);
    AppendAssoc(Flush(st), r.blocks, Pending(r.current));
    TidyAllAppend(Flush(st), Flush(r));
  }

  /** Just after a boundary line the input splits in two that are merged independently. */
  lemma MergeSplitAfter(xs: seq<string>, ys: seq<string>)
    requires xs != [] && IsBoundary(xs[|xs| - 1])
    ensures Merge(xs + ys) == Merge(xs) + Merge(ys)
  {
    var n := |xs| - 1;
    MergeSnoc(xs[..n], xs[n]);
    assert xs[..n] + [xs[n]] == xs;
    var st := MergeRun(xs);
    assert st.current == "";
    assert Flush(st) == st.blocks;
    MergeFromAppend(Start, xs, ys);
    MergeFromShift(st.blocks, ys);
    var r := MergeRun(ys);
    AppendAssoc(st.blocks, r.blocks, Pending(r.current));
    TidyAllAppend(st.blocks, Flush(r));
  }

  /** A boundary line on its own becomes its tidied text ("" when it is blank). */
  lemma MergeSingleBoundary(l: string)
    requires IsBoundary(l)
    ensures Merge([l]) == [Tidy(Strip(l))]
  {
    MergeRunSingle(l);
    var st := MergeRun([l]);
    assert Flush(Start) == [];
    assert st == MergeState([Strip(l)], "");
    assert Flush(st) == [Strip(l)];
    TidyAllSingle(Strip(l));
  }

  /**
   * A boundary line flushes the pending run and then stands as its own entry
   * (its tidied text, or "" when blank): what comes before and after it is
   * merged independently, in input order.
   */
  lemma MergeAtBoundary(xs: seq<string>, l: string, ys: seq<string>)
    requires IsBoundary(l)
    ensures Merge(xs + [l] + ys) == Merge(xs) + [Tidy(Strip(l))] + Merge(ys)
  {
    var w := xs + [l];
    assert w[|w| - 1] == l;
    MergeSplitBefore(xs, [l]);
    MergeSingleBoundary(l);
    MergeSplitAfter(w, ys);
  }

  /** The stripped lines. */
  function Strips(lines: seq<string>): (r: seq<string>)
    ensures |r| == |lines|
    ensures forall i | 0 <= i < |lines| :: r[i] == Strip(lines[i])
  {
    seq(|lines|, i requires 0 <= i < |lines| => Strip(lines[i]))
  }

  /** The stripped short lines of a run, joined, are non-empty and clean. */
  lemma ShortJoinClean(run: seq<string>)
    requires run != []
    requires forall i | 0 <= i < |run| :: IsShort(run[i])
    ensures Join(Strips(run), Bar) != "" && Stripped(Join(Strips(run), Bar))
  {
    var ss := Strips(run);
    assert forall i | 0 <= i < |ss| :: ss[i] != [] && Stripped(ss[i]);
    JoinEnds(ss, Bar);
  }

  /** A short line extends the run being glued. */
  lemma ShortStep(xs: seq<string>, l: string, j: string)
    requires IsShort(l) && j != ""
    requires MergeRun(xs) == MergeState([], j)
    ensures MergeRun(xs + [l]) == MergeState([], j + Bar + Strip(l))
  {
    MergeSnoc(xs, l);
  }

  lemma StripsPrefix(lines: seq<string>, n: nat)
    requires n <= |lines|
    ensures Strips(lines[..n]) == Strips(lines)[..n]
  {
    assert forall i | 0 <= i < n :: lines[..n][i] == lines[i];
  }

  /** A run of short lines is glued, in order, into one block joined with " | ". */
  lemma {:induction false} MergeRunOfShort(run: seq<string>)
    requires run != []
    requires forall i | 0 <= i < |run| :: IsShort(run[i])
    ensures MergeRun(run) == MergeState([], Join(Strips(run), Bar))
  {
    var n := |run| - 1;
    var ss := Strips(run);
    if n == 0 {
      assert run == [run[0]];
      MergeRunSingle(run[0]);
    } else {
      var init := run[..n];
      assert run == init + [run[n]];
      StripsPrefix(run, n);
      MergeRunOfShort(init);
      ShortJoinClean(init);
      ShortStep(init, run[n], Join(ss[..n], Bar));
      JoinSnoc(ss[..n], ss[n], Bar);
      assert ss == ss[..n] + [ss[n]];
    }
  }

  lemma MergeShortRun(run: seq<string>)
    requires run != []
    requires forall i | 0 <= i < |run| :: IsShort(run[i])
    ensures Merge(run) == [Tidy(Join(Strips(run), Bar))]
  {
    MergeRunOfShort(run);
    ShortJoinClean(run);
    var j := Join(Strips(run), Bar);
    assert [] + Pending(j) == [j];
    TidyAllSingle(j);
  }

  /** Lines that are already clean glue to exactly their " | "-join. */
  lemma MergeCleanRun(run: seq<string>)
    requires run != []
    requires forall i | 0 <= i < |run| :: IsShort(run[i]) && Strip(run[i]) == run[i]
    requires NoDoubleSpace(Join(run, Bar))
    ensures Merge(run) == [Join(run, Bar)]
  {
    assert Strips(run) == run;
    MergeShortRun(run);
    ShortJoinClean(run);
    CollapseNoDoubleSpace(Join(run, Bar));
    StripOfStripped(Join(run, Bar));
  }

  lemma MergeEmpty()
    ensures Merge([]) == []
  {
  }

  lemma ExampleJoin()
    ensures Join(["Name:", "John", "Age:", "30"], Bar) == "Name: | John | Age: | 30"
  {
    var run := ["Name:", "John", "Age:", "30"];
    assert run[1..] == ["John", "Age:", "30"];
    assert run[1..][1..] == ["Age:", "30"];
    assert run[1..][1..][1..] == ["30"];
    assert Join(["Age:", "30"], Bar) == "Age:" + Bar + "30";
    assert Join(["John", "Age:", "30"], Bar) == "John" + Bar + ("Age:" + Bar + "30");
  }

  /** The label/value run of the worked example. */
  lemma ExampleRun()
    ensures Merge(["Name:", "John", "Age:", "30"]) == ["Name: | John | Age: | 30"]
  {
    ExampleJoin();
    assert NoDoubleSpace("Name: | John | Age: | 30");
    StripOfStripped("Name:");
    StripOfStripped("John");
    StripOfStripped("Age:");
    StripOfStripped("30");
    MergeCleanRun(["Name:", "John", "Age:", "30"]);
  }

  /** The worked example: a label/value table followed by a blank line and a sentence. */
  lemma MergeExample(sentence: string)
    requires sentence != "" && Stripped(sentence) && NoDoubleSpace(sentence)
    requires |sentence| >= MaxLineLength || EndsWith(sentence, ".")
    ensures Merge(["Name:", "John", "Age:", "30", "", sentence])
         == ["Name: | John | Age: | 30", "", sentence]
  {
    var run := ["Name:", "John", "Age:", "30"];
    var joined := "Name: | John | Age: | 30";
    assert run + [""] + [sentence] == ["Name:", "John", "Age:", "30", "", sentence];
    assert [joined] + [""] + [sentence] == [joined, "", sentence];
    assert Tidy(Strip("")) == "";
    ExampleRun();
    StripOfStripped(sentence);
    CollapseNoDoubleSpace(sentence);
    MergeSingleBoundary(sentence);
    MergeAtBoundary(run, "", [sentence]);
  }

  // ---------------------------------------------------------------------------
  // The page sentinel inside the merger
  // ---------------------------------------------------------------------------

  /** The sentinel is a short line that strip() leaves alone. */
  lemma MarkerIsShort()
    ensures Strip(PageMarker) == PageMarker
    ensures IsShort(PageMarker)
  {
    StripOfStripped(PageMarker);
  }

  /** The final clean-up leaves the sentinel alone. */
  lemma MarkerTidy()
    ensures Tidy(PageMarker) == PageMarker
  {
    assert CollapseSpaces(PageMarker) == PageMarker by {
      assert NoDoubleSpace(PageMarker);
      CollapseNoDoubleSpace(PageMarker);
    }
    MarkerIsShort();
  }

  /** The sentinel alone is kept as it is. */
  lemma MergeMarkerAlone()
    ensures Merge([PageMarker]) == [PageMarker]
  {
    MarkerIsShort();
    assert Join([PageMarker], Bar) == PageMarker;
    assert NoDoubleSpace(PageMarker);
    MergeCleanRun([PageMarker]);
  }

  lemma MarkerJoin()
    ensures Join(["a", PageMarker, "b"], Bar) == "a" + Bar + PageMarker + Bar + "b"
  {
    var run := ["a", PageMarker, "b"];
    var tail := [PageMarker, "b"];
    assert run[1..] == tail && tail[1..] == ["b"];
    assert Join(tail, Bar) == PageMarker + Bar + "b";
    AppendAssoc("a" + Bar, PageMarker + Bar, "b");
    AppendAssoc("a" + Bar, PageMarker, Bar);
  }

  lemma MarkerJoinNoDoubleSpace()
    ensures NoDoubleSpace("a" + Bar + PageMarker + Bar + "b")
  {
    assert NoDoubleSpace(PageMarker);
    assert NoDoubleSpace("a" + Bar);
    NoDoubleSpaceAppend("a" + Bar, PageMarker);
    NoDoubleSpaceAppend("a" + Bar + PageMarker, Bar);
    NoDoubleSpaceAppend("a" + Bar + PageMarker + Bar, "b");
  }

  /** The sentinel is glued to its short neighbours like any other short line. */
  lemma MarkerJoinedExample()
    ensures Merge(["a", PageMarker, "b"]) == ["a" + Bar + PageMarker + Bar + "b"]
  {
    MarkerIsShort();
    StripOfStripped("a");
    StripOfStripped("b");
    MarkerJoin();
    MarkerJoinNoDoubleSpace();
    MergeCleanRun(["a", PageMarker, "b"]);
  }

  /** Between boundaries (or the ends of the input) the sentinel survives as its own entry. */
  lemma MarkerAloneBetweenBoundaries(xs: seq<string>, ys: seq<string>)
    requires xs == [] || IsBoundary(xs[|xs| - 1])
    requires ys == [] || IsBoundary(ys[0])
    ensures Merge(xs + [PageMarker] + ys) == Merge(xs) + [PageMarker] + Merge(ys)
  {
    var m := [PageMarker];
    assert [] + (m + ys) == m + ys;
    assert m + [] == m;
    AppendAssoc(xs, m, ys);
    MergeMarkerAlone();
    MergeEmpty();
    if ys != [] {
      MergeSplitBefore(m, ys);
    }
    assert Merge(m + ys) == m + Merge(ys);
    if xs != [] {
      MergeSplitAfter(xs, m + ys);
    }
    AppendAssoc(Merge(xs), m, Merge(ys));
  }

  /** A glued run of two or more lines keeps its " | " and so is never the sentinel. */
  lemma GluedRunIsNotMarker(run: seq<string>)
    requires |run| >= 2
    requires forall i | 0 <= i < |run| :: IsShort(run[i])
    ensures '|' in Tidy(Join(Strips(run), Bar))
    ensures Tidy(Join(Strips(run), Bar)) != PageMarker
  {
    var ss := Strips(run);
    var j := Join(ss, Bar);
    assert j == ss[0] + Bar + Join(ss[1..], Bar);
    assert j[|ss[0]| + 1] == '|';
    CollapseKeeps(j, '|');
    StripKeepsNonSpace(CollapseSpaces(j), '|');
    assert '|' !in PageMarker;
  }

  /**
   * When the sentinel sits in a run of two or more short lines (a short line on
   * either side of it) the whole run becomes one entry, and that entry is not
   * the sentinel: the page boundary is lost.
   */
  lemma MarkerAbsorbedInRun(run: seq<string>)
    requires |run| >= 2 && PageMarker in run
    requires forall i | 0 <= i < |run| :: IsShort(run[i])
    ensures |Merge(run)| == 1 && Merge(run)[0] != PageMarker
  {
    MergeShortRun(run);
    GluedRunIsNotMarker(run);
  }

  /** Input lines without a newline give entries without a newline. */
  lemma {:induction false} MergeRunNewlineFree(lines: seq<string>)
    requires forall i | 0 <= i < |lines| :: NoNewline(lines[i])
    ensures var st := MergeRun(lines);
      (forall i | 0 <= i < |st.blocks| :: NoNewline(st.blocks[i])) && NoNewline(st.current)
  {
    if lines != [] {
      var n := |lines| - 1;
      MergeRunNewlineFree(lines[..n]);
      if '\n' in Strip(lines[n]) {
        StripFrom(lines[n], '\n');
      }
    }
  }

  lemma {:induction false} TidyAllNewlineFree(bs: seq<string>)
    requires forall i | 0 <= i < |bs| :: NoNewline(bs[i])
    ensures forall i | 0 <= i < |TidyAll(bs)| :: NoNewline(TidyAll(bs)[i])
  {
    if bs != [] {
      TidyAllNewlineFree(bs[1..]);
      if '\n' in Tidy(bs[0]) {
        StripFrom(CollapseSpaces(bs[0]), '\n');
        CollapseFrom(bs[0], '\n');
      }
    }
  }

  lemma MergeNewlineFree(lines: seq<string>)
    requires forall i | 0 <= i < |lines| :: NoNewline(lines[i])
    ensures forall i | 0 <= i < |Merge(lines)| :: NoNewline(Merge(lines)[i])
  {
    MergeRunNewlineFree(lines);
    var st := MergeRun(lines);
    TidyAllNewlineFree(Flush(st));
  }
}
