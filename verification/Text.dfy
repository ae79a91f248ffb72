/**
 * The string primitives the application leans on, stated as Python defines them:
 * str.strip(), str.replace("  ", " "), str.join, str.split(sep), str.lower(),
 * str.startswith/endswith and str.isdigit().
 */
module Text {

  // ---------------------------------------------------------------------------
  // Whitespace and strip()
  // ---------------------------------------------------------------------------

  /**
   * The ASCII characters str.strip() removes, those for which str.isspace()
   * holds: space, tab through carriage return, and the four separators
   * U+001C through U+001F.
   */
  predicate IsSpace(c: char)
  {
    c == ' ' || '\t' <= c <= '\r' || '\U{1C}' <= c <= '\U{1F}'
  }

  predicate AllSpace(s: string)
  {
    forall i | 0 <= i < |s| :: IsSpace(s[i])
  }

  /** s has no leading and no trailing whitespace. */
  predicate Stripped(s: string)
  {
    s == [] || (!IsSpace(s[0]) && !IsSpace(s[|s| - 1]))
  }

  /** str.strip(): whitespace is dropped from both ends. */
  function Strip(s: string): (r: string)
    ensures Stripped(r)
    ensures |r| <= |s|
  {
    if s == [] then s
    else if IsSpace(s[0]) then Strip(s[1..])
    else if IsSpace(s[|s| - 1]) then Strip(s[..|s| - 1])
    else s
  }

  /** strip() keeps a slice s[i..j] of s, and everything outside it is whitespace. */
  lemma {:induction false} StripBounds(s: string) returns (i: nat, j: nat)
    ensures i <= j <= |s| && Strip(s) == s[i..j]
    ensures forall k | 0 <= k < i :: IsSpace(s[k])
    ensures forall k | j <= k < |s| :: IsSpace(s[k])
    decreases |s|, 1
  {
    if s == [] {
      i, j := 0, 0;
    } else if IsSpace(s[0]) {
      i, j := StripBoundsFront(s);
    } else if IsSpace(s[|s| - 1]) {
      i, j := StripBoundsBack(s);
    } else {
      i, j := 0, |s|;
    }
  }

  lemma {:induction false} StripBoundsFront(s: string) returns (i: nat, j: nat)
    requires s != [] && IsSpace(s[0])
    ensures i <= j <= |s| && Strip(s) == s[i..j]
    ensures forall k | 0 <= k < i :: IsSpace(s[k])
    ensures forall k | j <= k < |s| :: IsSpace(s[k])
    decreases |s|, 0
  {
    var t := s[1..];
    var i', j' := StripBounds(t);
    i, j := i' + 1, j' + 1;
    assert t[i'..j'] == s[i..j];
    forall k | 1 <= k < i
      ensures IsSpace(s[k])
    {
      assert s[k] == t[k - 1];
    }
    forall k | j <= k < |s|
      ensures IsSpace(s[k])
    {
      assert s[k] == t[k - 1];
    }
  }

  lemma {:induction false} StripBoundsBack(s: string) returns (i: nat, j: nat)
    requires s != [] && !IsSpace(s[0]) && IsSpace(s[|s| - 1])
    ensures i <= j <= |s| && Strip(s) == s[i..j]
    ensures forall k | 0 <= k < i :: IsSpace(s[k])
    ensures forall k | j <= k < |s| :: IsSpace(s[k])
    decreases |s|, 0
  {
    var t := s[..|s| - 1];
    i, j := StripBounds(t);
    assert t[i..j] == s[i..j];
    forall k | j <= k < |s| - 1
      ensures IsSpace(s[k])
    {
      assert s[k] == t[k];
    }
  }

  /** strip() gives "" exactly when s is all whitespace. */
  lemma StripEmpty(s: string)
    ensures Strip(s) == [] <==> AllSpace(s)
  {
    var i, j := StripBounds(s);
    if Strip(s) != [] {
      assert !IsSpace(s[i]);
    }
  }

  lemma StripOfStripped(s: string)
    requires Stripped(s)
    ensures Strip(s) == s
  {
  }

  /** A character of s that is not whitespace survives strip(). */
  lemma StripKeepsNonSpace(s: string, c: char)
    requires c in s && !IsSpace(c)
    ensures c in Strip(s)
  {
    var i, j := StripBounds(s);
    var p :| 0 <= p < |s| && s[p] == c;
    assert Strip(s)[p - i] == c;
  }

  /** Every character of strip(s) comes from s. */
  lemma StripFrom(s: string, c: char)
    requires c in Strip(s)
    ensures c in s
  {
    var i, j := StripBounds(s);
    var q :| 0 <= q < |Strip(s)| && Strip(s)[q] == c;
    assert s[i + q] == c;
  }

  /** Appending whitespace to a stripped, non-empty string is undone by strip(). */
  lemma {:induction false} StripAppendSpace(x: string, w: string)
    requires x != [] && Stripped(x) && AllSpace(w)
    ensures Strip(x + w) == x
    decreases |w|
  {
    if w == [] {
      assert x + w == x;
    } else {
      var s := x + w;
      assert s[0] == x[0] && s[|s| - 1] == w[|w| - 1];
      assert s[..|s| - 1] == x + w[..|w| - 1];
      StripAppendSpace(x, w[..|w| - 1]);
    }
  }

  // ---------------------------------------------------------------------------
  // replace("  ", " ")
  // ---------------------------------------------------------------------------

  /** No two consecutive spaces. */
  predicate NoDoubleSpace(s: string)
  {
    forall i | 0 <= i < |s| - 1 :: !(s[i] == ' ' && s[i + 1] == ' ')
  }

  /** Two strings without a double space keep that when joined, unless spaces meet at the seam. */
  lemma NoDoubleSpaceAppend(a: string, b: string)
    requires NoDoubleSpace(a) && NoDoubleSpace(b)
    requires a == [] || b == [] || a[|a| - 1] != ' ' || b[0] != ' '
    ensures NoDoubleSpace(a + b)
  {
    var s := a + b;
    forall i | 0 <= i < |s| - 1
      ensures !(s[i] == ' ' && s[i + 1] == ' ')
    {
      if i + 1 < |a| {
        assert s[i] == a[i] && s[i + 1] == a[i + 1];
      } else if i >= |a| {
        assert s[i] == b[i - |a|] && s[i + 1] == b[i + 1 - |a|];
      }
    }
  }

  /**
   * s.replace("  ", " "): a single left-to-right pass that replaces each
   * non-overlapping pair of spaces by one space.
   */
  function CollapseSpaces(s: string): (r: string)
    ensures |r| <= |s|
  {
    if |s| >= 2 && s[0] == ' ' && s[1] == ' ' then " " + CollapseSpaces(s[2..])
    else if s == [] then []
    else [s[0]] + CollapseSpaces(s[1..])
  }

  lemma {:induction false} CollapseNoDoubleSpace(s: string)
    requires NoDoubleSpace(s)
    ensures CollapseSpaces(s) == s
  {
    if s != [] {
      assert NoDoubleSpace(s[1..]);
      CollapseNoDoubleSpace(s[1..]);
    }
  }

  /** Only spaces are ever removed: every other character is kept. */
  lemma {:induction false} CollapseKeeps(s: string, c: char)
    requires c != ' ' && c in s
    ensures c in CollapseSpaces(s)
  {
    if |s| >= 2 && s[0] == ' ' && s[1] == ' ' {
      assert c in s[2..];
      CollapseKeeps(s[2..], c);
    } else if s[0] != c {
      assert c in s[1..];
      CollapseKeeps(s[1..], c);
    }
  }

  /** Nothing new appears: every character of the result was in s. */
  lemma {:induction false} CollapseFrom(s: string, c: char)
    requires c in CollapseSpaces(s)
    ensures c in s
  {
    if |s| >= 2 && s[0] == ' ' && s[1] == ' ' {
      if c != ' ' {
        assert c in CollapseSpaces(s[2..]);
        CollapseFrom(s[2..], c);
      }
    } else if s != [] && c != s[0] {
      assert c in CollapseSpaces(s[1..]);
      CollapseFrom(s[1..], c);
    }
  }

  /** A string that neither starts nor ends with a space keeps its two end characters. */
  lemma {:induction false} CollapseEnds(s: string)
    requires s != [] && s[0] != ' ' && s[|s| - 1] != ' '
    ensures CollapseSpaces(s) != []
    ensures CollapseSpaces(s)[0] == s[0]
    ensures CollapseSpaces(s)[|CollapseSpaces(s)| - 1] == s[|s| - 1]
  {
    if |s| > 1 {
      CollapseLast(s[1..]);
    }
  }

  lemma {:induction false} CollapseLast(s: string)
    requires s != [] && s[|s| - 1] != ' '
    ensures CollapseSpaces(s) != []
    ensures CollapseSpaces(s)[|CollapseSpaces(s)| - 1] == s[|s| - 1]
    decreases |s|
  {
    if |s| >= 2 && s[0] == ' ' && s[1] == ' ' {
      CollapseLast(s[2..]);
    } else if |s| > 1 {
      CollapseLast(s[1..]);
    }
  }

  /** The pass restarts cleanly after a character that is not a space. */
  lemma {:induction false} CollapseAppend(a: string, b: string)
    requires a == [] || a[|a| - 1] != ' '
    ensures CollapseSpaces(a + b) == CollapseSpaces(a) + CollapseSpaces(b)
  {
    var s := a + b;
    if a == [] {
      assert s == b;
    } else if |a| >= 2 && a[0] == ' ' && a[1] == ' ' {
      assert s[0] == ' ' && s[1] == ' ';
      assert s[2..] == a[2..] + b;
      CollapseAppend(a[2..], b);
      assert CollapseSpaces(s) == " " + CollapseSpaces(s[2..]);
      assert CollapseSpaces(a) == " " + CollapseSpaces(a[2..]);
      AppendAssoc(" ", CollapseSpaces(a[2..]), CollapseSpaces(b));
    } else {
      assert !(|s| >= 2 && s[0] == ' ' && s[1] == ' ');
      assert s[0] == a[0];
      assert s[1..] == a[1..] + b;
      CollapseAppend(a[1..], b);
      assert CollapseSpaces(s) == [a[0]] + CollapseSpaces(s[1..]);
      assert CollapseSpaces(a) == [a[0]] + CollapseSpaces(a[1..]);
      AppendAssoc([a[0]], CollapseSpaces(a[1..]), CollapseSpaces(b));
    }
  }

  // ---------------------------------------------------------------------------
  // join and split
  // ---------------------------------------------------------------------------

  /** sep.join(parts) */
  function Join(parts: seq<string>, sep: string): string
  {
    if |parts| == 0 then ""
    else if |parts| == 1 then parts[0]
    else parts[0] + sep + Join(parts[1..], sep)
  }

  lemma {:induction false} JoinAppend(xs: seq<string>, ys: seq<string>, sep: string)
    requires xs != [] && ys != []
    ensures Join(xs + ys, sep) == Join(xs, sep) + sep + Join(ys, sep)
  {
    if |xs| == 1 {
      assert (xs + ys)[1..] == ys;
    } else {
      assert (xs + ys)[1..] == xs[1..] + ys;
      JoinAppend(xs[1..], ys, sep);
    }
  }

  lemma JoinSnoc(xs: seq<string>, x: string, sep: string)
    requires xs != []
    ensures Join(xs + [x], sep) == Join(xs, sep) + sep + x
  {
    JoinAppend(xs, [x], sep);
  }

  /** Joining non-empty, stripped parts gives a non-empty string with their outer ends. */
  lemma {:induction false} JoinEnds(parts: seq<string>, sep: string)
    requires parts != []
    requires forall i | 0 <= i < |parts| :: parts[i] != []
    ensures Join(parts, sep) != []
    ensures Join(parts, sep)[0] == parts[0][0]
    ensures var j := Join(parts, sep); j[|j| - 1] == parts[|parts| - 1][|parts[|parts| - 1]| - 1]
  {
    if |parts| > 1 {
      JoinEnds(parts[1..], sep);
    }
  }

  /** A character of a joined string comes from a part or from the separator. */
  lemma {:induction false} JoinFrom(parts: seq<string>, sep: string, c: char)
    requires c in Join(parts, sep)
    ensures c in sep || exists i | 0 <= i < |parts| :: c in parts[i]
  {
    if |parts| > 1 {
      var j := Join(parts[1..], sep);
      if c !in parts[0] && c !in sep {
        assert c in j;
        JoinFrom(parts[1..], sep, c);
        var i :| 0 <= i < |parts[1..]| && c in parts[1..][i];
        assert c in parts[i + 1];
      }
    }
  }

  /**
   * s.split(sep): the pieces of s between the non-overlapping occurrences of sep,
   * found from left to right.
   */
  function Split(s: string, sep: string): (r: seq<string>)
    requires |sep| > 0
    ensures |r| >= 1
    decreases |s|
  {
    if |sep| <= |s| && s[..|sep|] == sep then [""] + Split(s[|sep|..], sep)
    else if s == [] then [""]
    else
      var rest := Split(s[1..], sep);
      [[s[0]] + rest[0]] + rest[1..]
  }

  /** A prefix that cannot start the separator ends up in front of the first piece. */
  lemma {:induction false} SplitPrefix(a: string, b: string, sep: string)
    requires |sep| > 0 && sep[0] !in a
    ensures Split(a + b, sep) == [a + Split(b, sep)[0]] + Split(b, sep)[1..]
  {
    var r := Split(b, sep);
    if a != [] {
      var s := a + b;
      assert s[0] == a[0] != sep[0];
      assert s[1..] == a[1..] + b;
      SplitPrefix(a[1..], b, sep);
      assert [s[0]] + (a[1..] + r[0]) == a + r[0];
    } else {
      assert a + b == b;
      assert a + r[0] == r[0];
      assert [r[0]] + r[1..] == r;
    }
  }

  lemma SplitSingle(a: string, sep: string)
    requires |sep| > 0 && sep[0] !in a
    ensures Split(a, sep) == [a]
  {
    SplitPrefix(a, "", sep);
    assert a + "" == a;
  }

  lemma SplitAtSep(b: string, sep: string)
    requires |sep| > 0
    ensures Split(sep + b, sep) == [""] + Split(b, sep)
  {
    var s := sep + b;
    assert |sep| <= |s| && s[..|sep|] == sep;
    assert s[|sep|..] == b;
  }

  lemma SplitCons(a: string, b: string, sep: string)
    requires |sep| > 0 && sep[0] !in a
    ensures Split(a + sep + b, sep) == [a] + Split(b, sep)
  {
    SplitPrefix(a, sep + b, sep);
    assert a + sep + b == a + (sep + b);
    SplitAtSep(b, sep);
    var r := Split(sep + b, sep);
    assert r[0] == "" && r[1..] == Split(b, sep);
    assert a + r[0] == a;
  }

  /** Splitting undoes joining when no part contains the separator's first character. */
  lemma {:induction false} SplitJoin(parts: seq<string>, sep: string)
    requires |sep| > 0 && parts != []
    requires forall i | 0 <= i < |parts| :: sep[0] !in parts[i]
    ensures Split(Join(parts, sep), sep) == parts
  {
    if |parts| == 1 {
      SplitSingle(parts[0], sep);
    } else {
      SplitJoin(parts[1..], sep);
      SplitCons(parts[0], Join(parts[1..], sep), sep);
    }
  }

  lemma JoinGlue(x: string, rest: seq<string>, sep: string)
    requires rest != []
    ensures Join([x + rest[0]] + rest[1..], sep) == x + Join(rest, sep)
  {
    var r := [x + rest[0]] + rest[1..];
    if |rest| > 1 {
      assert r[1..] == rest[1..];
    }
  }

  /** Joining the pieces of a split gives the original string back. */
  lemma {:induction false} JoinSplit(s: string, sep: string)
    requires |sep| > 0
    ensures Join(Split(s, sep), sep) == s
    decreases |s|
  {
    if |sep| <= |s| && s[..|sep|] == sep {
      var t := s[|sep|..];
      JoinSplit(t, sep);
      assert s == sep + t;
      SplitAtSep(t, sep);
      var rest := Split(t, sep);
      assert ([""] + rest)[1..] == rest;
      assert Join([""] + rest, sep) == "" + sep + Join(rest, sep);
    } else if s != [] {
      var rest := Split(s[1..], sep);
      JoinSplit(s[1..], sep);
      JoinGlue([s[0]], rest, sep);
      assert s == [s[0]] + s[1..];
    }
  }

  /** With a one-character separator no piece contains that character. */
  lemma {:induction false} SplitPiecesFree(s: string, sep: string, i: nat)
    requires |sep| == 1 && i < |Split(s, sep)|
    ensures sep[0] !in Split(s, sep)[i]
    decreases |s|
  {
    if |sep| <= |s| && s[..|sep|] == sep {
      if i > 0 {
        SplitPiecesFree(s[1..], sep, i - 1);
      }
    } else if s != [] {
      var rest := Split(s[1..], sep);
      assert s[0] != sep[0] by { assert s[..1] == [s[0]]; }
      if i == 0 {
        SplitPiecesFree(s[1..], sep, 0);
      } else {
        SplitPiecesFree(s[1..], sep, i);
      }
    }
  }

  // ---------------------------------------------------------------------------
  // Prefixes, suffixes, lower case
  // ---------------------------------------------------------------------------

  predicate StartsWith(s: string, prefix: string)
  {
    |prefix| <= |s| && s[..|prefix|] == prefix
  }

  predicate EndsWith(s: string, suffix: string)
  {
    |suffix| <= |s| && s[|s| - |suffix|..] == suffix
  }

  /** str.lower() on ASCII letters; every other character is unchanged. */
  function LowerChar(c: char): char
  {
    if 'A' <= c <= 'Z' then (c as int + 32) as char else c
  }

  function Lower(s: string): (r: string)
    ensures |r| == |s|
    ensures forall i | 0 <= i < |s| :: r[i] == LowerChar(s[i])
  {
    seq(|s|, i requires 0 <= i < |s| => LowerChar(s[i]))
  }

  lemma LowerAppend(a: string, b: string)
    ensures Lower(a + b) == Lower(a) + Lower(b)
  {
  }

  // ---------------------------------------------------------------------------
  // Counting
  // ---------------------------------------------------------------------------

  /** How many entries of xs equal x. */
  function Count(xs: seq<string>, x: string): nat
  {
    if xs == [] then 0 else Count(xs[..|xs| - 1], x) + (if xs[|xs| - 1] == x then 1 else 0)
  }

  lemma {:induction false} CountAppend(xs: seq<string>, ys: seq<string>, x: string)
    ensures Count(xs + ys, x) == Count(xs, x) + Count(ys, x)
    decreases |ys|
  {
    if ys == [] {
      assert xs + ys == xs;
    } else {
      assert (xs + ys)[..|xs + ys| - 1] == xs + ys[..|ys| - 1];
      CountAppend(xs, ys[..|ys| - 1], x);
    }
  }

  /** A non-empty sequence is its front followed by its last element. */
  lemma FrontLast<T>(xs: seq<T>)
    requires xs != []
    ensures xs[..|xs| - 1] + [xs[|xs| - 1]] == xs
  {
  }

  /** Concatenation is associative; stated once so that proofs can cite it cheaply. */
  lemma AppendAssoc<T>(a: seq<T>, b: seq<T>, c: seq<T>)
    ensures a + b + c == a + (b + c)
  {
  }
}
