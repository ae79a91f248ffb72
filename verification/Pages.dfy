/**
 * The page tools: reordering (or dropping) pages by a typed comma-separated
 * list of 1-based page numbers, and deleting one page. Pages are opaque
 * values; the PDF reading and writing around them is not modelled.
 */
module Pages {
  import opened Wrappers
  import opened Text
  import opened Digits

  // ---------------------------------------------------------------------------
  // Reading the typed order
  // ---------------------------------------------------------------------------

  /** The numbers in the pieces: each piece stripped, kept when it is a digit string, read with int(). */
  function Numbers(pieces: seq<string>): seq<nat>
  {
    if pieces == [] then []
    else
      var p := Strip(pieces[0]);
      (if IsDigits(p) then [ValueOf(p)] else []) + Numbers(pieces[1..])
  }

  /** The page numbers typed by the user, in the order typed; anything that is not a number is skipped. */
  function ParsePageOrder(s: string): seq<nat>
  {
    Numbers(Split(s, ","))
  }

  /** 1, 2, ..., n */
  function Range1(n: nat): (r: seq<nat>)
    ensures |r| == n && forall i | 0 <= i < n :: r[i] == i + 1
  {
    seq(n, i requires 0 <= i < n => i + 1)
  }

  function DecimalList(ns: seq<nat>): (r: seq<string>)
    ensures |r| == |ns| && forall i | 0 <= i < |ns| :: r[i] == Decimal(ns[i])
  {
    seq(|ns|, i requires 0 <= i < |ns| => Decimal(ns[i]))
  }

  /** The text field's initial value: the page numbers 1..n joined by ", ". */
  function DefaultOrder(n: nat): string
  {
    Join(DecimalList(Range1(n)), ", ")
  }

  /** A number written with or without one space in front of it reads back as itself. */
  lemma NumberPiece(pad: string, n: nat)
    requires pad == "" || pad == " "
    ensures ',' !in pad + Decimal(n)
    ensures Strip(pad + Decimal(n)) == Decimal(n) && IsDigits(Decimal(n)) && ValueOf(Decimal(n)) == n
  {
    var d := Decimal(n);
    DecimalValue(n);
    assert forall i | 0 <= i < |pad + d| :: (pad + d)[i] == ' ' || IsDigit((pad + d)[i]);
    assert Stripped(d);
    StripOfStripped(d);
    if pad == " " {
      assert (pad + d)[1..] == d;
    } else {
      assert pad + d == d;
    }
  }

  /** Splitting at the first ", " of a joined list of at least two pieces. */
  lemma CommaStep(ds: seq<string>, pad: string)
    requires |ds| > 1 && ',' !in pad + ds[0]
    ensures Split(pad + Join(ds, ", "), ",") == [pad + ds[0]] + Split(" " + Join(ds[1..], ", "), ",")
  {
    var tail := Join(ds[1..], ", ");
    assert pad + Join(ds, ", ") == (pad + ds[0]) + "," + (" " + tail);
    SplitCons(pad + ds[0], " " + tail, ",");
  }

  lemma NumbersCons(a: string, rest: seq<string>)
    ensures Numbers([a] + rest) == Numbers([a]) + Numbers(rest)
  {
    assert ([a] + rest)[1..] == rest;
    assert [a][1..] == [];
  }

  /** Numbers joined by ", " (with or without a space in front) are read back as those numbers. */
  lemma {:induction false} ParseJoined(ns: seq<nat>, pad: string)
    requires ns != [] && (pad == "" || pad == " ")
    ensures Numbers(Split(pad + Join(DecimalList(ns), ", "), ",")) == ns
  {
    var ds := DecimalList(ns);
    var a := pad + ds[0];
    assert ',' !in a && Numbers([a]) == [ns[0]] by {
      NumberPiece(pad, ns[0]);
    }
    if |ns| == 1 {
      assert Join(ds, ", ") == ds[0];
      SplitSingle(a, ",");
    } else {
      var rest := Split(" " + Join(ds[1..], ", "), ",");
      assert Numbers(rest) == ns[1..] by {
        assert DecimalList(ns[1..]) == ds[1..];
        ParseJoined(ns[1..], " ");
      }
      CommaStep(ds, pad);
      NumbersCons(a, rest);
    }
  }

  /** The initial value of the field reads as every page once, in order. */
  lemma DefaultOrderParses(n: nat)
    ensures ParsePageOrder(DefaultOrder(n)) == Range1(n)
  {
    if n == 0 {
      assert DefaultOrder(0) == "";
      assert Split("", ",") == [""];
      assert Numbers([""]) == [];
    } else {
      ParseJoined(Range1(n), "");
      assert "" + DefaultOrder(n) == DefaultOrder(n);
    }
  }

  // ---------------------------------------------------------------------------
  // Reordering
  // ---------------------------------------------------------------------------

  /** Every number is a page of a document with numPages pages. */
  predicate InRange(ns: seq<nat>, numPages: nat)
  {
    forall i | 0 <= i < |ns| :: 1 <= ns[i] <= numPages
  }

  /**
   * The reorder tool: None (the range error) when a typed number is outside
   * 1..|pages|; otherwise the pages in the order typed, repeats included and
   * pages not named left out.
   */
  method ReorderPages<T>(pages: seq<T>, orderText: string) returns (r: Option<seq<T>>)
    ensures var ns := ParsePageOrder(orderText);
      && (r.None? <==> !InRange(ns, |pages|))
      && (r.Some? ==> |r.value| == |ns| && forall k | 0 <= k < |ns| :: r.value[k] == pages[ns[k] - 1])
  {
    var inputList := ParsePageOrder(orderText);
    if !InRange(inputList, |pages|) {
      return None;
    }
    var indices := seq(|inputList|, i requires 0 <= i < |inputList| && inputList[i] >= 1 => inputList[i] - 1);
    var out: seq<T> := [];
    var k := 0;
    while k < |indices|
      invariant 0 <= k <= |indices|
      invariant |out| == k && forall j | 0 <= j < k :: out[j] == pages[inputList[j] - 1]
    {
      out := out + [pages[indices[k]]];
      k := k + 1;
    }
    return Some(out);
  }

  /** With the initial value of the field the tool gives the document back unchanged. */
  lemma DefaultOrderInRange(n: nat)
    ensures var ns := ParsePageOrder(DefaultOrder(n));
      |ns| == n && InRange(ns, n) && forall k | 0 <= k < n :: ns[k] - 1 == k
  {
    DefaultOrderParses(n);
  }

  // ---------------------------------------------------------------------------
  // Deleting a page
  // ---------------------------------------------------------------------------

  /** The delete tool: every page except the pageNo-th (1-based); nothing is removed when no page has that number. */
  method DeletePage<T>(pages: seq<T>, pageNo: int) returns (kept: seq<T>)
    ensures kept == if 1 <= pageNo <= |pages| then pages[..pageNo - 1] + pages[pageNo..] else pages
  {
    kept := [];
    var i := 0;
    while i < |pages|
      invariant 0 <= i <= |pages|
      invariant kept == if 1 <= pageNo <= i then pages[..pageNo - 1] + pages[pageNo..i] else pages[..i]
    {
      if i + 1 != pageNo {
        kept := kept + [pages[i]];
      }
      i := i + 1;
    }
    assert pages[..i] == pages;
  }
}
