/**
 * The naming helpers: folder-name and column-name cleaning, splitting a file
 * name into root and extension (POSIX os.path.splitext), the sequential
 * names of the batch-rename tools, and the target names of the rename-by-table
 * tools.
 */
module Naming {
  import opened Wrappers
  import opened Text
  import opened Digits

  // ---------------------------------------------------------------------------
  // Folder names
  // ---------------------------------------------------------------------------

  /** s with every a replaced by b. */
  function ReplaceChar(s: string, a: char, b: char): (r: string)
    ensures |r| == |s|
    ensures forall i | 0 <= i < |s| :: r[i] == if s[i] == a then b else s[i]
  {
    seq(|s|, i requires 0 <= i < |s| => if s[i] == a then b else s[i])
  }

  /** A folder name: stripped, with both path separators turned into '_'. */
  function CleanFolderName(name: string): string
  {
    ReplaceChar(ReplaceChar(Strip(name), '/', '_'), '\\', '_')
  }

  /**
   * The cleaned name cannot open a sub-folder: it holds neither '/' nor '\',
   * has the length of the stripped name (empty exactly for a blank name), and
   * cleaning it again changes nothing.
   */
  lemma CleanFolderNameSafe(name: string)
    ensures var r := CleanFolderName(name);
      && '/' !in r && '\\' !in r
      && |r| == |Strip(name)|
      && (r == "" <==> AllSpace(name))
      && CleanFolderName(r) == r
  {
    var s := Strip(name);
    var r := CleanFolderName(name);
    StripEmpty(name);
    assert forall i | 0 <= i < |r| :: r[i] != '/' && r[i] != '\\' && (IsSpace(r[i]) ==> r[i] == s[i]);
    assert Stripped(r);
    StripOfStripped(r);
    assert ReplaceChar(r, '/', '_') == r;
    assert ReplaceChar(r, '\\', '_') == r;
  }

  // ---------------------------------------------------------------------------
  // Column names
  // ---------------------------------------------------------------------------

  /** The characters the column-name pattern keeps: A-Z, a-z, 0-9 and '_'. */
  predicate IsWordChar(c: char)
  {
    'A' <= c <= 'Z' || 'a' <= c <= 'z' || '0' <= c <= '9' || c == '_'
  }

  /** Removing every run of characters that are not word characters. */
  function KeepWordChars(s: string): string
  {
    if s == [] then []
    else KeepWordChars(s[..|s| - 1]) + (if IsWordChar(s[|s| - 1]) then [s[|s| - 1]] else [])
  }

  /** The cleaned column name: non-word characters removed, then lower-cased. */
  function CleanColumnName(c: string): string
  {
    Lower(KeepWordChars(c))
  }

  /** A column name made of lower-case word characters only. */
  predicate IsCleanColumn(s: string)
  {
    forall i | 0 <= i < |s| :: IsWordChar(s[i]) && !('A' <= s[i] <= 'Z')
  }

  /** The filter keeps only word characters and never lengthens the name. */
  lemma {:induction false} KeepWordCharsShape(s: string)
    ensures |KeepWordChars(s)| <= |s|
    ensures forall i | 0 <= i < |KeepWordChars(s)| :: IsWordChar(KeepWordChars(s)[i])
  {
    if s != [] {
      var n := |s| - 1;
      KeepWordCharsShape(s[..n]);
      var pre := KeepWordChars(s[..n]);
      var tail := if IsWordChar(s[n]) then [s[n]] else [];
      assert KeepWordChars(s) == pre + tail;
      assert forall i | 0 <= i < |pre + tail| :: (pre + tail)[i] == if i < |pre| then pre[i] else tail[i - |pre|];
    }
  }

  /** A name made of word characters only passes the filter unchanged. */
  lemma {:induction false} KeepWordCharsAll(s: string)
    requires forall i | 0 <= i < |s| :: IsWordChar(s[i])
    ensures KeepWordChars(s) == s
  {
    if s != [] {
      var n := |s| - 1;
      assert KeepWordChars(s[..n]) == s[..n] by {
        assert forall i | 0 <= i < n :: s[..n][i] == s[i];
        KeepWordCharsAll(s[..n]);
      }
      assert KeepWordChars(s) == KeepWordChars(s[..n]) + [s[n]];
      FrontLast(s);
    }
  }

  /** A cleaned column name holds only lower-case word characters and is no longer than the original. */
  lemma CleanColumnNameShape(c: string)
    ensures IsCleanColumn(CleanColumnName(c)) && |CleanColumnName(c)| <= |c|
  {
    var k := KeepWordChars(c);
    KeepWordCharsShape(c);
    var r := Lower(k);
    forall i | 0 <= i < |r|
      ensures IsWordChar(r[i]) && !('A' <= r[i] <= 'Z')
    {
      LowerWordChar(k[i]);
    }
  }

  lemma LowerWordChar(c: char)
    requires IsWordChar(c)
    ensures IsWordChar(LowerChar(c)) && !('A' <= LowerChar(c) <= 'Z')
  {
  }

  /** A name already made of lower-case word characters is left as it is; so cleaning twice is cleaning once. */
  lemma CleanColumnNameFixed(c: string)
    ensures IsCleanColumn(c) ==> CleanColumnName(c) == c
    ensures CleanColumnName(CleanColumnName(c)) == CleanColumnName(c)
  {
    forall s: string | IsCleanColumn(s)
      ensures CleanColumnName(s) == s
    {
      KeepWordCharsAll(s);
    }
    CleanColumnNameShape(c);
  }

  // ---------------------------------------------------------------------------
  // Extensions (POSIX os.path.splitext)
  // ---------------------------------------------------------------------------

  /** s.rfind(c): the index of the last c, or -1. */
  function LastIndex(s: string, c: char): (r: int)
    ensures -1 <= r < |s| && (r >= 0 ==> s[r] == c)
    ensures forall i | r < i < |s| :: s[i] != c
  {
    if s == [] then -1
    else if s[|s| - 1] == c then |s| - 1
    else LastIndex(s[..|s| - 1], c)
  }

  /**
   * (root, ext): ext starts at the last '.' when that dot lies in the last
   * path component and something other than a dot comes before it there;
   * otherwise ext is "".
   */
  function SplitExt(p: string): (string, string)
  {
    var sepIndex := LastIndex(p, '/');
    var dotIndex := LastIndex(p, '.');
    if dotIndex > sepIndex && exists i | sepIndex + 1 <= i < dotIndex :: p[i] != '.' then
      (p[..dotIndex], p[dotIndex..])
    else
      (p, "")
  }

  function Ext(p: string): string
  {
    SplitExt(p).1
  }

  /** An extension: a dot followed by characters that are neither '.' nor '/'. */
  predicate ValidExt(e: string)
  {
    |e| >= 1 && e[0] == '.' && forall i | 1 <= i < |e| :: e[i] != '.' && e[i] != '/'
  }

  /** root + ext gives the name back, and ext is "" or a valid extension. */
  lemma SplitExtParts(p: string)
    ensures SplitExt(p).0 + SplitExt(p).1 == p
    ensures SplitExt(p).1 == "" || ValidExt(SplitExt(p).1)
  {
    var sepIndex := LastIndex(p, '/');
    var dotIndex := LastIndex(p, '.');
    if dotIndex > sepIndex && exists i | sepIndex + 1 <= i < dotIndex :: p[i] != '.' {
      assert p[..dotIndex] + p[dotIndex..] == p;
    }
  }

  /** A valid extension put after a name that ends in an ordinary character is split off again. */
  lemma ExtOfAppend(root: string, e: string)
    requires ValidExt(e) && root != [] && root[|root| - 1] != '.' && root[|root| - 1] != '/'
    ensures SplitExt(root + e) == (root, e)
  {
    var p := root + e;
    assert p[|root|] == '.';
    assert forall i | |root| < i < |p| :: p[i] != '.' && p[i] != '/';
    assert LastIndex(p, '.') == |root|;
    assert LastIndex(p, '/') < |root| - 1 by {
      assert p[|root| - 1] != '/';
    }
    assert p[|root| - 1] != '.';
    assert p[..|root|] == root && p[|root|..] == e;
  }

  /** The image rename target: the new name, with the old extension added when the new name has none. */
  function ImageTarget(oldName: string, newName: string): string
  {
    if Ext(newName) == "" then newName + Ext(oldName) else newName
  }

  /**
   * A new name with an extension is kept; one without gets the old file's
   * extension, which it then carries as its own when it ends in an ordinary
   * character.
   */
  lemma ImageTargetExt(oldName: string, newName: string)
    ensures Ext(newName) != "" ==> ImageTarget(oldName, newName) == newName
    ensures Ext(newName) == "" && newName != [] && newName[|newName| - 1] != '.' && newName[|newName| - 1] != '/'
      ==> Ext(ImageTarget(oldName, newName)) == Ext(oldName)
  {
    if Ext(newName) == "" && newName != [] && newName[|newName| - 1] != '.' && newName[|newName| - 1] != '/' {
      SplitExtParts(oldName);
      if Ext(oldName) == "" {
        assert newName + "" == newName;
      } else {
        ExtOfAppend(newName, Ext(oldName));
      }
    }
  }

  /** The PDF rename target: ".pdf" is added unless the name already ends with it in any letter case. */
  function PdfTarget(newName: string): string
  {
    if EndsWith(Lower(newName), ".pdf") then newName else newName + ".pdf"
  }

  /** The target always ends with ".pdf" in some letter case, adds at most that suffix, and is its own target. */
  lemma PdfTargetEnds(newName: string)
    ensures var r := PdfTarget(newName);
      EndsWith(Lower(r), ".pdf") && (r == newName || r == newName + ".pdf") && PdfTarget(r) == r
  {
    if !EndsWith(Lower(newName), ".pdf") {
      LowerAppend(newName, ".pdf");
      assert Lower(".pdf") == ".pdf";
      var l := Lower(newName + ".pdf");
      assert l[|l| - 4..] == ".pdf";
    }
  }

  // ---------------------------------------------------------------------------
  // Sequential names
  // ---------------------------------------------------------------------------

  /** prefix_NNN followed by the extension, the number padded to three digits. */
  function SequentialName(prefix: string, i: nat, ext: string): string
  {
    prefix + "_" + Pad3(i) + ext
  }

  /** An extension as the sequential tools produce it: none, or one starting with a dot. */
  predicate ExtShape(e: string)
  {
    e == "" || e[0] == '.'
  }

  /** The number of digits at the start of s. */
  function LeadingDigits(s: string): nat
  {
    if s == [] || !IsDigit(s[0]) then 0 else 1 + LeadingDigits(s[1..])
  }

  lemma {:induction false} LeadingDigitsOf(d: string, e: string)
    requires AllDigits(d) && (e == "" || !IsDigit(e[0]))
    ensures LeadingDigits(d + e) == |d|
  {
    if d == [] {
      assert d + e == e;
    } else {
      assert (d + e)[1..] == d[1..] + e;
      LeadingDigitsOf(d[1..], e);
    }
  }

  /** A digit string followed by something that does not start with a digit splits in one way only. */
  lemma DigitsThenRest(d1: string, e1: string, d2: string, e2: string)
    requires AllDigits(d1) && AllDigits(d2)
    requires (e1 == "" || !IsDigit(e1[0])) && (e2 == "" || !IsDigit(e2[0]))
    requires d1 + e1 == d2 + e2
    ensures d1 == d2 && e1 == e2
  {
    var s := d1 + e1;
    LeadingDigitsOf(d1, e1);
    LeadingDigitsOf(d2, e2);
    assert d1 == s[..|d1|] == d2;
    assert e1 == s[|d1|..] == e2;
  }

  lemma SequentialNameEnds(prefix: string, i: nat, ext: string)
    ensures EndsWith(SequentialName(prefix, i, ext), ext)
  {
    var n := SequentialName(prefix, i, ext);
    assert n == (prefix + "_" + Pad3(i)) + ext;
    assert n[|n| - |ext|..] == ext;
  }

  /** Two sequential names with the same prefix are equal only for the same number and extension. */
  lemma SequentialNameInjective(prefix: string, i: nat, j: nat, e1: string, e2: string)
    requires ExtShape(e1) && ExtShape(e2)
    requires SequentialName(prefix, i, e1) == SequentialName(prefix, j, e2)
    ensures i == j && e1 == e2
  {
    var h := prefix + "_";
    Pad3Value(i);
    Pad3Value(j);
    assert SequentialName(prefix, i, e1) == h + (Pad3(i) + e1);
    assert SequentialName(prefix, j, e2) == h + (Pad3(j) + e2);
    assert Pad3(i) + e1 == (h + (Pad3(i) + e1))[|h|..];
    assert Pad3(j) + e2 == (h + (Pad3(j) + e2))[|h|..];
    DigitsThenRest(Pad3(i), e1, Pad3(j), e2);
    Pad3Injective(i, j);
  }

  /** The output extension of an image: its own (format kept) or "." and the chosen format in lower case. */
  function ImageOutputExt(fileName: string, format: Option<string>): (e: string)
  {
    match format
    case None => Ext(fileName)
    case Some(f) => "." + Lower(f)
  }

  lemma ImageOutputExtShape(fileName: string, format: Option<string>)
    ensures ExtShape(ImageOutputExt(fileName, format))
  {
    if format.None? {
      SplitExtParts(fileName);
    }
  }

  lemma ImageNamesDiffer(prefix: string, fa: string, fb: string, i: nat, j: nat, format: Option<string>)
    requires i != j
    ensures SequentialName(prefix, i, ImageOutputExt(fa, format)) != SequentialName(prefix, j, ImageOutputExt(fb, format))
  {
    var ea, eb := ImageOutputExt(fa, format), ImageOutputExt(fb, format);
    ImageOutputExtShape(fa, format);
    ImageOutputExtShape(fb, format);
    if SequentialName(prefix, i, ea) == SequentialName(prefix, j, eb) {
      SequentialNameInjective(prefix, i, j, ea, eb);
    }
  }

  /** The names of the sequential image tool, numbered from 1; an empty prefix is refused. */
  function SequentialImageNames(prefix: string, fileNames: seq<string>, format: Option<string>): Option<seq<string>>
  {
    if prefix == "" then None
    else Some(seq(|fileNames|, k requires 0 <= k < |fileNames| => SequentialName(prefix, k + 1, ImageOutputExt(fileNames[k], format))))
  }

  /** The names of the sequential PDF tool, numbered from start; an empty prefix is refused. */
  function SequentialPdfNames(prefix: string, start: nat, count: nat): Option<seq<string>>
  {
    if prefix == "" then None
    else Some(seq(count, k requires 0 <= k < count => SequentialName(prefix, start + k, ".pdf")))
  }

  /** No two uploaded images get the same name, so none overwrites another in the archive. */
  lemma SequentialImageNamesDistinct(prefix: string, fileNames: seq<string>, format: Option<string>)
    ensures SequentialImageNames(prefix, fileNames, format).None? <==> prefix == ""
    ensures SequentialImageNames(prefix, fileNames, format).Some? ==>
      var names := SequentialImageNames(prefix, fileNames, format).value;
      |names| == |fileNames|
      && forall a, b | 0 <= a < b < |names| :: names[a] != names[b]
  {
    if prefix != "" {
      var names := SequentialImageNames(prefix, fileNames, format).value;
      forall a, b | 0 <= a < b < |names|
        ensures names[a] != names[b]
      {
        ImageNamesDiffer(prefix, fileNames[a], fileNames[b], a + 1, b + 1, format);
      }
    }
  }

  /** The PDF names are distinct and each ends with ".pdf". */
  lemma SequentialPdfNamesDistinct(prefix: string, start: nat, count: nat)
    ensures SequentialPdfNames(prefix, start, count).None? <==> prefix == ""
    ensures SequentialPdfNames(prefix, start, count).Some? ==>
      var names := SequentialPdfNames(prefix, start, count).value;
      |names| == count
      && (forall a | 0 <= a < count :: EndsWith(names[a], ".pdf"))
      && forall a, b | 0 <= a < b < count :: names[a] != names[b]
  {
    if prefix != "" {
      var names := SequentialPdfNames(prefix, start, count).value;
      forall a | 0 <= a < count
        ensures EndsWith(names[a], ".pdf")
      {
        SequentialNameEnds(prefix, start + a, ".pdf");
      }
      forall a, b | 0 <= a < b < count
        ensures names[a] != names[b]
      {
        if names[a] == names[b] {
          SequentialNameInjective(prefix, start + a, start + b, ".pdf", ".pdf");
        }
      }
    }
  }

  /** The name of a locked copy. */
  function LockedName(key: string): (r: string)
  {
    "locked_" + key
  }
}
