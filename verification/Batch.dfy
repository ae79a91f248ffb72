/**
 * The table-driven batch tools: renaming uploads by an old-name/new-name
 * table, locking PDFs listed with a password, filing PDFs into folders, and
 * extracting an archive. Each walks the rows (or archive entries) in order,
 * writing files into an output map (a later write under the same name
 * replaces an earlier one) and listing the names it could not find. File
 * contents are opaque values of type B; encryption and archive I/O are not
 * modelled.
 */
module Batch {
  import opened Wrappers
  import opened Text
  import opened Naming

  // ---------------------------------------------------------------------------
  // Tables, uploads and outcomes
  // ---------------------------------------------------------------------------

  /** A spreadsheet cell: text, or blank (NaN), which str() renders as "nan". */
  datatype Cell = Value(s: string) | Blank

  function CellStr(c: Cell): string
  {
    match c
    case Value(s) => s
    case Blank => "nan"
  }

  /** A row: the cell under each column name. */
  type Row = map<string, Cell>

  function Get(row: Row, col: string): Cell
  {
    if col in row then row[col] else Blank
  }

  /** What one row (or archive entry) contributes: a file written under a name, a name not found, or nothing. */
  datatype Outcome<V> = Write(key: string, value: V) | NotFound(name: string) | Skip

  /** The output map after all outcomes, in order. */
  function OutMap<V>(os: seq<Outcome<V>>): map<string, V>
  {
    if os == [] then map[]
    else
      var m := OutMap(os[..|os| - 1]);
      var o := os[|os| - 1];
      if o.Write? then m[o.key := o.value] else m
  }

  /** The not-found list after all outcomes, in order. */
  function Missing<V>(os: seq<Outcome<V>>): seq<string>
  {
    if os == [] then []
    else
      var o := os[|os| - 1];
      Missing(os[..|os| - 1]) + (if o.NotFound? then [o.name] else [])
  }

  /** The output map holds exactly the names some outcome writes. */
  lemma {:induction false} OutMapKeys<V>(os: seq<Outcome<V>>)
    ensures forall k :: k in OutMap(os) <==> exists i | 0 <= i < |os| :: os[i].Write? && os[i].key == k
  {
    if os != [] {
      var n := |os| - 1;
      OutMapKeys(os[..n]);
      assert forall i | 0 <= i < n :: os[..n][i] == os[i];
    }
  }

  /** The value under a name is the one of the last outcome writing that name. */
  lemma {:induction false} LastWrite<V>(os: seq<Outcome<V>>, k: string) returns (j: nat)
    requires k in OutMap(os)
    ensures j < |os| && os[j] == Write(k, OutMap(os)[k])
    ensures forall i | j < i < |os| :: !(os[i].Write? && os[i].key == k)
  {
    var n := |os| - 1;
    if os[n].Write? && os[n].key == k {
      j := n;
    } else {
      j := LastWrite(os[..n], k);
      assert os[..n][j] == os[j];
    }
  }

  /** The not-found list holds exactly the names some outcome reports missing. */
  lemma {:induction false} MissingMembers<V>(os: seq<Outcome<V>>)
    ensures forall x :: x in Missing(os) <==> exists i | 0 <= i < |os| :: os[i] == NotFound(x)
  {
    if os != [] {
      var n := |os| - 1;
      MissingMembers(os[..n]);
      assert forall i | 0 <= i < n :: os[..n][i] == os[i];
    }
  }

  /** The uploads by name; a later upload with the same name replaces the earlier one. */
  function FileMap<B>(uploads: seq<(string, B)>): (r: map<string, B>)
    ensures forall i | 0 <= i < |uploads| :: uploads[i].0 in r
  {
    if uploads == [] then map[]
    else
      var n := |uploads| - 1;
      FileMap(uploads[..n])[uploads[n].0 := uploads[n].1]
  }

  /** The names of the uploads, in upload order. */
  function UploadNames<B>(uploads: seq<(string, B)>): (r: seq<string>)
    ensures |r| == |uploads| && forall i | 0 <= i < |uploads| :: r[i] == uploads[i].0
  {
    seq(|uploads|, i requires 0 <= i < |uploads| => uploads[i].0)
  }

  /** Every name in the file map is an upload's, and its content is that of the last upload with the name. */
  lemma {:induction false} FileMapLast<B>(uploads: seq<(string, B)>, k: string) returns (j: nat)
    requires k in FileMap(uploads)
    ensures j < |uploads| && uploads[j] == (k, FileMap(uploads)[k])
    ensures forall i | j < i < |uploads| :: uploads[i].0 != k
  {
    var n := |uploads| - 1;
    if uploads[n].0 == k {
      j := n;
    } else {
      j := FileMapLast(uploads[..n], k);
      assert uploads[..n][j] == uploads[j];
    }
  }

  /** One more outcome: the map and the list grow by what it contributes. */
  lemma OutcomeStep<V>(os: seq<Outcome<V>>, i: nat)
    requires i < |os|
    ensures OutMap(os[..i + 1]) == if os[i].Write? then OutMap(os[..i])[os[i].key := os[i].value] else OutMap(os[..i])
    ensures Missing(os[..i + 1]) == Missing(os[..i]) + if os[i].NotFound? then [os[i].name] else []
  {
    assert os[..i + 1][..i] == os[..i];
  }

  /** The index of the first element satisfying p. */
  function First<T>(xs: seq<T>, p: T -> bool): (r: Option<nat>)
    ensures r.Some? ==> r.value < |xs| && p(xs[r.value]) && forall i | 0 <= i < r.value :: !p(xs[i])
    ensures r.None? ==> forall i | 0 <= i < |xs| :: !p(xs[i])
  {
    if xs == [] then None
    else if p(xs[0]) then Some(0)
    else match First(xs[1..], p)
      case None => None
      case Some(j) => Some(j + 1)
  }

  // ---------------------------------------------------------------------------
  // Rename by table
  // ---------------------------------------------------------------------------

  datatype RenameKind = Images | Pdfs

  /** The name a renamed file is stored under. */
  function RenameTarget(kind: RenameKind, oldName: string, newName: string): string
  {
    match kind
    case Images => ImageTarget(oldName, newName)
    case Pdfs => PdfTarget(newName)
  }

  function OldName(row: Row): string
  {
    Strip(CellStr(Get(row, "nama_lama")))
  }

  function NewName(row: Row): string
  {
    Strip(CellStr(Get(row, "nama_baru")))
  }

  function RenameOutcome<B>(kind: RenameKind, files: map<string, B>, row: Row): Outcome<B>
  {
    if OldName(row) in files then Write(RenameTarget(kind, OldName(row), NewName(row)), files[OldName(row)])
    else NotFound(OldName(row))
  }

  function RenameOutcomes<B>(kind: RenameKind, files: map<string, B>, rows: seq<Row>): seq<Outcome<B>>
  {
    seq(|rows|, i requires 0 <= i < |rows| => RenameOutcome(kind, files, rows[i]))
  }

  /**
   * Both rename-by-table tools: None (the missing-column error) unless the
   * table has both name columns; otherwise the renamed files and the old
   * names not among the uploads.
   */
  method RenameByTable<B>(kind: RenameKind, columns: seq<string>, rows: seq<Row>, uploads: seq<(string, B)>)
    returns (r: Option<(map<string, B>, seq<string>)>)
    ensures r.None? <==> !("nama_lama" in columns && "nama_baru" in columns)
    ensures r.Some? ==>
      var os := RenameOutcomes(kind, FileMap(uploads), rows);
      r.value == (OutMap(os), Missing(os))
  {
    if !("nama_lama" in columns && "nama_baru" in columns) {
      return None;
    }
    var fileMap := FileMap(uploads);
    ghost var os := RenameOutcomes(kind, fileMap, rows);
    var outMap: map<string, B> := map[];
    var notFound: seq<string> := [];
    var i := 0;
    while i < |rows|
      invariant 0 <= i <= |rows|
      invariant outMap == OutMap(os[..i]) && notFound == Missing(os[..i])
    {
      OutcomeStep(os, i);
      assert os[i] == RenameOutcome(kind, fileMap, rows[i]);
      var oldName := Strip(CellStr(Get(rows[i], "nama_lama")));
      var newName := Strip(CellStr(Get(rows[i], "nama_baru")));
      if oldName in fileMap {
        if kind == Images {
          if Ext(newName) == "" {
            newName := newName + Ext(oldName);
          }
        } else if !EndsWith(Lower(newName), ".pdf") {
          newName := newName + ".pdf";
        }
        outMap := outMap[newName := fileMap[oldName]];
      } else {
        notFound := notFound + [oldName];
      }
      i := i + 1;
    }
    assert os[..i] == os;
    return Some((outMap, notFound));
  }

  /**
   * Each renamed file comes from the last row that names an uploaded file and
   * maps to its name: the file is that upload, stored under the row's target.
   */
  lemma RenameSource<B>(kind: RenameKind, files: map<string, B>, rows: seq<Row>, k: string) returns (j: nat)
    requires k in OutMap(RenameOutcomes(kind, files, rows))
    ensures j < |rows| && OldName(rows[j]) in files
    ensures k == RenameTarget(kind, OldName(rows[j]), NewName(rows[j]))
    ensures OutMap(RenameOutcomes(kind, files, rows))[k] == files[OldName(rows[j])]
    ensures forall i | j < i < |rows| :: !(OldName(rows[i]) in files && RenameTarget(kind, OldName(rows[i]), NewName(rows[i])) == k)
  {
    var os := RenameOutcomes(kind, files, rows);
    j := LastWrite(os, k);
    forall i | j < i < |rows|
      ensures !(OldName(rows[i]) in files && RenameTarget(kind, OldName(rows[i]), NewName(rows[i])) == k)
    {
      assert os[i] == RenameOutcome(kind, files, rows[i]);
    }
  }

  /** Every row naming an uploaded file is stored under its target; the others are exactly the not-found names. */
  lemma RenameComplete<B>(kind: RenameKind, files: map<string, B>, rows: seq<Row>)
    ensures var os := RenameOutcomes(kind, files, rows);
      && (forall j | 0 <= j < |rows| && OldName(rows[j]) in files ::
            RenameTarget(kind, OldName(rows[j]), NewName(rows[j])) in OutMap(os))
      && (forall x :: x in Missing(os) <==> exists j | 0 <= j < |rows| :: OldName(rows[j]) == x && x !in files)
  {
    var os := RenameOutcomes(kind, files, rows);
    OutMapKeys(os);
    MissingMembers(os);
    forall j | 0 <= j < |rows| && OldName(rows[j]) in files
      ensures RenameTarget(kind, OldName(rows[j]), NewName(rows[j])) in OutMap(os)
    {
      assert os[j].Write?;
    }
    forall x
      ensures x in Missing(os) <==> exists j | 0 <= j < |rows| :: OldName(rows[j]) == x && x !in files
    {
      if x in Missing(os) {
        var j :| 0 <= j < |os| && os[j] == NotFound(x);
        assert OldName(rows[j]) == x && x !in files;
      }
      if exists j | 0 <= j < |rows| :: OldName(rows[j]) == x && x !in files {
        var j :| 0 <= j < |rows| && OldName(rows[j]) == x && x !in files;
        assert os[j] == NotFound(x);
      }
    }
  }

  /** Every PDF stored by the PDF tool is named with a ".pdf" suffix in some letter case. */
  lemma RenamePdfNames<B>(files: map<string, B>, rows: seq<Row>)
    ensures forall k | k in OutMap(RenameOutcomes(Pdfs, files, rows)) :: EndsWith(Lower(k), ".pdf")
  {
    forall k | k in OutMap(RenameOutcomes(Pdfs, files, rows))
      ensures EndsWith(Lower(k), ".pdf")
    {
      var j := RenameSource(Pdfs, files, rows, k);
      PdfTargetEnds(NewName(rows[j]));
    }
  }

  // ---------------------------------------------------------------------------
  // Batch lock
  // ---------------------------------------------------------------------------

  /** The first column whose lower-cased name is one of the given names. */
  function FindColumn(columns: seq<string>, names: set<string>): Option<nat>
  {
    First(columns, (c: string) => Lower(c) in names)
  }

  /**
   * The file name and password of a row: from the named columns when both
   * exist, else from the first two columns; None when the table has fewer
   * than two columns (the lookup fails).
   */
  function LockFields(columns: seq<string>, row: Row): Option<(string, string)>
  {
    var t := FindColumn(columns, FileColumns);
    var p := FindColumn(columns, PasswordColumns);
    if t.Some? && p.Some? then
      Some((Strip(CellStr(Get(row, columns[t.value]))), Strip(CellStr(Get(row, columns[p.value])))))
    else if |columns| >= 2 then
      Some((Strip(CellStr(Get(row, columns[0]))), Strip(CellStr(Get(row, columns[1])))))
    else
      None
  }

  /** A row with a file name and a password locks that file, or reports it missing; other rows do nothing. */
  function LockOutcome<B>(files: map<string, B>, columns: seq<string>, row: Row): Outcome<(B, string)>
  {
    var f := LockFields(columns, row);
    if f.None? || f.value.0 == "" || f.value.1 == "" then Skip
    else if f.value.0 in files then Write(LockedName(f.value.0), (files[f.value.0], f.value.1))
    else NotFound(f.value.0)
  }

  function LockOutcomes<B>(files: map<string, B>, columns: seq<string>, rows: seq<Row>): seq<Outcome<(B, string)>>
  {
    seq(|rows|, i requires 0 <= i < |rows| => LockOutcome(files, columns, rows[i]))
  }

  /** The batch lock loop: each locked file is stored with the password it is locked with. */
  method BatchLock<B>(columns: seq<string>, rows: seq<Row>, uploads: seq<(string, B)>)
    returns (outMap: map<string, (B, string)>, notFound: seq<string>)
    ensures var os := LockOutcomes(FileMap(uploads), columns, rows);
      outMap == OutMap(os) && notFound == Missing(os)
  {
    var pdfMap := FileMap(uploads);
    ghost var os := LockOutcomes(pdfMap, columns, rows);
    outMap := map[];
    notFound := [];
    var idx := 0;
    while idx < |rows|
      invariant 0 <= idx <= |rows|
      invariant outMap == OutMap(os[..idx]) && notFound == Missing(os[..idx])
    {
      OutcomeStep(os, idx);
      // the row's file name and password, and what they decide
      var o := LockOutcome(pdfMap, columns, rows[idx]);
      assert os[idx] == o;
      if o.Write? {
        outMap := outMap[o.key := o.value];
      } else if o.NotFound? {
        notFound := notFound + [o.name];
      }
      idx := idx + 1;
    }
    assert os[..idx] == os;
  }

  /**
   * Every locked file is "locked_" and the name of an uploaded file, holds that
   * file, and carries a non-empty password; every name reported missing is
   * non-empty and not among the uploads.
   */
  lemma LockResult<B>(files: map<string, B>, columns: seq<string>, rows: seq<Row>)
    ensures var os := LockOutcomes(files, columns, rows);
      && (forall k | k in OutMap(os) ::
            StartsWith(k, "locked_") && k[7..] in files
            && OutMap(os)[k].0 == files[k[7..]] && OutMap(os)[k].1 != "")
      && (forall x | x in Missing(os) :: x != "" && x !in files)
  {
    var os := LockOutcomes(files, columns, rows);
    forall k | k in OutMap(os)
      ensures StartsWith(k, "locked_") && k[7..] in files
      ensures OutMap(os)[k].0 == files[k[7..]] && OutMap(os)[k].1 != ""
    {
      var j := LastWrite(os, k);
      assert os[j] == LockOutcome(files, columns, rows[j]);
      var target := LockFields(columns, rows[j]).value.0;
      assert k == "locked_" + target;
      assert k[7..] == target;
    }
    MissingMembers(os);
    forall x | x in Missing(os)
      ensures x != "" && x !in files
    {
      var j :| 0 <= j < |os| && os[j] == NotFound(x);
      assert os[j] == LockOutcome(files, columns, rows[j]);
    }
  }

  /** Column names (lower-cased) that hold the file name, and those that hold the password. */
  const FileColumns: set<string> := {"filename", "nama_file"}
  const PasswordColumns: set<string> := {"password", "kata_sandi"}

  /**
   * Every row with a non-empty file name and password is acted on: its file is
   * stored under the locked name when it was uploaded, and the name is reported
   * missing when it was not.
   */
  lemma LockComplete<B>(files: map<string, B>, columns: seq<string>, rows: seq<Row>)
    ensures var os := LockOutcomes(files, columns, rows);
      forall j, t, pw | 0 <= j < |rows| && LockFields(columns, rows[j]) == Some((t, pw)) && t != "" && pw != "" ::
        && (t in files ==> LockedName(t) in OutMap(os))
        && (t !in files ==> t in Missing(os))
  {
    var os := LockOutcomes(files, columns, rows);
    OutMapKeys(os);
    MissingMembers(os);
    forall j, t, pw | 0 <= j < |rows| && LockFields(columns, rows[j]) == Some((t, pw)) && t != "" && pw != ""
      ensures t in files ==> LockedName(t) in OutMap(os)
      ensures t !in files ==> t in Missing(os)
    {
      assert os[j] == LockOutcome(files, columns, rows[j]);
    }
  }

  /**
   * When both named columns exist, the row's fields are its stripped cells under
   * the first column (left to right) whose lower-cased name is a file-name
   * column and the first whose lower-cased name is a password column, wherever
   * those stand among the columns.
   */
  lemma LockFieldsNamed(columns: seq<string>, row: Row, t: nat, p: nat)
    requires t < |columns| && Lower(columns[t]) in FileColumns
    requires forall i | 0 <= i < t :: Lower(columns[i]) !in FileColumns
    requires p < |columns| && Lower(columns[p]) in PasswordColumns
    requires forall i | 0 <= i < p :: Lower(columns[i]) !in PasswordColumns
    ensures LockFields(columns, row) == Some((Strip(CellStr(Get(row, columns[t]))), Strip(CellStr(Get(row, columns[p])))))
  {
  }

  /**
   * When no column is named for the file name, or none for the password, the
   * first two columns are read by position; a table with fewer than two columns
   * gives no fields (the positional lookup fails).
   */
  lemma LockFieldsPositional(columns: seq<string>, row: Row)
    requires (forall i | 0 <= i < |columns| :: Lower(columns[i]) !in FileColumns)
          || (forall i | 0 <= i < |columns| :: Lower(columns[i]) !in PasswordColumns)
    ensures |columns| < 2 ==> LockFields(columns, row).None?
    ensures |columns| >= 2 ==>
      LockFields(columns, row) == Some((Strip(CellStr(Get(row, columns[0]))), Strip(CellStr(Get(row, columns[1])))))
  {
  }

  // ---------------------------------------------------------------------------
  // Organise by table
  // ---------------------------------------------------------------------------

  datatype Mode = ByMcu | ByFolder | Invalid

  /** The layout is chosen by the columns present: the check-up columns first, then file and folder. */
  function ModeOf(columns: seq<string>): Mode
  {
    if "No_MCU" in columns && "Nama" in columns && "Departemen" in columns && "JABATAN" in columns then ByMcu
    else if "filename" in columns && "target_folder" in columns then ByFolder
    else Invalid
  }

  /** A folder name from a cell, or the fallback for a blank cell. */
  function FolderOf(c: Cell, fallback: string): string
  {
    if c.Blank? then fallback else CleanFolderName(c.s)
  }

  function McuNumber(row: Row): string
  {
    Strip(CellStr(Get(row, "No_MCU")))
  }

  function McuFolder(row: Row): string
  {
    FolderOf(Get(row, "Departemen"), "Unknown_Dept") + "/" + FolderOf(Get(row, "JABATAN"), "Unknown_JABATAN")
  }

  /** The first uploaded file, in upload order, whose name starts with the number. */
  function FirstPrefixMatch(names: seq<string>, no: string): Option<nat>
  {
    First(names, (n: string) => StartsWith(n, no))
  }

  function OrganiseOutcome<B>(mode: Mode, uploads: seq<(string, B)>, row: Row): Outcome<B>
  {
    var files := FileMap(uploads);
    match mode
    case ByMcu =>
      var no := McuNumber(row);
      (match FirstPrefixMatch(UploadNames(uploads), no)
       case None => NotFound(no)
       case Some(i) => Write(McuFolder(row) + "/" + uploads[i].0, files[uploads[i].0]))
    case ByFolder =>
      var fn := Strip(CellStr(Get(row, "filename")));
      if fn in files then Write(CleanFolderName(CellStr(Get(row, "target_folder"))) + "/" + fn, files[fn])
      else NotFound(fn)
    case Invalid => Skip
  }

  function OrganiseOutcomes<B>(mode: Mode, uploads: seq<(string, B)>, rows: seq<Row>): seq<Outcome<B>>
  {
    seq(|rows|, i requires 0 <= i < |rows| => OrganiseOutcome(mode, uploads, rows[i]))
  }

  /**
   * Organise by table: None (the format error) when neither set of columns is
   * present; otherwise the files under their folder paths and the numbers or
   * names not matched.
   */
  method OrganiseByTable<B>(columns: seq<string>, rows: seq<Row>, uploads: seq<(string, B)>)
    returns (r: Option<(map<string, B>, seq<string>)>)
    ensures r.None? <==> ModeOf(columns) == Invalid
    ensures r.Some? ==>
      var os := OrganiseOutcomes(ModeOf(columns), uploads, rows);
      r.value == (OutMap(os), Missing(os))
  {
    var mode := ModeOf(columns);
    if mode == Invalid {
      return None;
    }
    var pdfMap := FileMap(uploads);
    var names := UploadNames(uploads);
    ghost var os := OrganiseOutcomes(mode, uploads, rows);
    var outMap: map<string, B> := map[];
    var notFound: seq<string> := [];
    var idx := 0;
    while idx < |rows|
      invariant 0 <= idx <= |rows|
      invariant outMap == OutMap(os[..idx]) && notFound == Missing(os[..idx])
    {
      OutcomeStep(os, idx);
      var row := rows[idx];
      assert os[idx] == OrganiseOutcome(mode, uploads, row);
      if mode == ByMcu {
        var no := Strip(CellStr(Get(row, "No_MCU")));
        var dept := FolderOf(Get(row, "Departemen"), "Unknown_Dept");
        var jab := FolderOf(Get(row, "JABATAN"), "Unknown_JABATAN");
        var m := FirstPrefixMatch(names, no);
        if m.Some? {
          var key := names[m.value];
          outMap := outMap[dept + "/" + jab + "/" + key := pdfMap[key]];
        } else {
          notFound := notFound + [no];
        }
      } else {
        var fn := Strip(CellStr(Get(row, "filename")));
        var tgt := CleanFolderName(CellStr(Get(row, "target_folder")));
        if fn in pdfMap {
          outMap := outMap[tgt + "/" + fn := pdfMap[fn]];
        } else {
          notFound := notFound + [fn];
        }
      }
      idx := idx + 1;
    }
    assert os[..idx] == os;
    return Some((outMap, notFound));
  }

  /**
   * In check-up mode a row files the first upload, in upload order, whose name
   * starts with its number, under department/position folders that contain
   * no path separator; a row whose number starts no upload name is reported.
   */
  lemma McuRow<B>(uploads: seq<(string, B)>, row: Row)
    ensures var o := OrganiseOutcome(ByMcu, uploads, row);
      var no := McuNumber(row);
      && (o.NotFound? <==> forall i | 0 <= i < |uploads| :: !StartsWith(uploads[i].0, no))
      && (o.NotFound? ==> o.name == no)
      && (o.Write? ==> exists i | 0 <= i < |uploads| ::
            && StartsWith(uploads[i].0, no)
            && (forall j | 0 <= j < i :: !StartsWith(uploads[j].0, no))
            && o == Write(McuFolder(row) + "/" + uploads[i].0, FileMap(uploads)[uploads[i].0]))
  {
    var names := UploadNames(uploads);
    var m := FirstPrefixMatch(names, McuNumber(row));
    if m.Some? {
      var i := m.value;
      assert forall j | 0 <= j < i :: names[j] == uploads[j].0;
    }
  }

  /** The department and position parts of a check-up path are single folder names. */
  lemma McuFolderParts(row: Row)
    ensures '/' !in FolderOf(Get(row, "Departemen"), "Unknown_Dept")
    ensures '/' !in FolderOf(Get(row, "JABATAN"), "Unknown_JABATAN")
  {
    var d, p := Get(row, "Departemen"), Get(row, "JABATAN");
    if d.Value? {
      CleanFolderNameSafe(d.s);
    }
    if p.Value? {
      CleanFolderNameSafe(p.s);
    }
  }

  /** A row whose number is blank after stripping matches the first upload, whatever its name. */
  lemma BlankNumberTakesFirst<B>(uploads: seq<(string, B)>, row: Row)
    requires uploads != [] && McuNumber(row) == ""
    ensures OrganiseOutcome(ByMcu, uploads, row) == Write(McuFolder(row) + "/" + uploads[0].0, FileMap(uploads)[uploads[0].0])
  {
    assert StartsWith(UploadNames(uploads)[0], "");
  }

  /** In folder mode a row files the upload it names under its cleaned folder, or reports the name. */
  lemma FolderRow<B>(uploads: seq<(string, B)>, row: Row)
    ensures var o := OrganiseOutcome(ByFolder, uploads, row);
      var fn := Strip(CellStr(Get(row, "filename")));
      var tgt := CleanFolderName(CellStr(Get(row, "target_folder")));
      && (o.Write? <==> exists i | 0 <= i < |uploads| :: uploads[i].0 == fn)
      && (o.Write? ==> o.key == tgt + "/" + fn && '/' !in tgt && o.value == FileMap(uploads)[fn])
      && (o.NotFound? ==> o.name == fn)
  {
    var fn := Strip(CellStr(Get(row, "filename")));
    CleanFolderNameSafe(CellStr(Get(row, "target_folder")));
    if fn in FileMap(uploads) {
      var j := FileMapLast(uploads, fn);
    }
  }

  // ---------------------------------------------------------------------------
  // Archive extraction
  // ---------------------------------------------------------------------------

  /** An archive entry is extracted unless its name ends with '/' (a directory). */
  function EntryOutcome<B>(read: string -> B, name: string): Outcome<B>
  {
    if EndsWith(name, "/") then Skip else Write(name, read(name))
  }

  function EntryOutcomes<B>(read: string -> B, names: seq<string>): seq<Outcome<B>>
  {
    seq(|names|, i requires 0 <= i < |names| => EntryOutcome(read, names[i]))
  }

  /** The extraction loop over the archive's names; read gives an entry's content by name. */
  method ExtractArchive<B>(names: seq<string>, read: string -> B) returns (extracted: map<string, B>)
    ensures extracted == OutMap(EntryOutcomes(read, names))
  {
    ghost var os := EntryOutcomes(read, names);
    extracted := map[];
    var i := 0;
    while i < |names|
      invariant 0 <= i <= |names|
      invariant extracted == OutMap(os[..i])
    {
      OutcomeStep(os, i);
      var name := names[i];
      assert os[i] == EntryOutcome(read, name);
      if !EndsWith(name, "/") {
        extracted := extracted[name := read(name)];
      }
      i := i + 1;
    }
    assert os[..i] == os;
  }

  /** Exactly the entries that are not directories are extracted, each with its own content. */
  lemma ExtractedFiles<B>(read: string -> B, names: seq<string>)
    ensures var m := OutMap(EntryOutcomes(read, names));
      && (forall k :: k in m <==> exists i | 0 <= i < |names| :: names[i] == k && !EndsWith(k, "/"))
      && (forall k | k in m :: m[k] == read(k))
  {
    var os := EntryOutcomes(read, names);
    OutMapKeys(os);
    forall k
      ensures k in OutMap(os) <==> exists i | 0 <= i < |names| :: names[i] == k && !EndsWith(k, "/")
    {
      if k in OutMap(os) {
        var i :| 0 <= i < |os| && os[i].Write? && os[i].key == k;
        assert names[i] == k && !EndsWith(k, "/");
      }
      if exists i | 0 <= i < |names| :: names[i] == k && !EndsWith(k, "/") {
        var i :| 0 <= i < |names| && names[i] == k && !EndsWith(k, "/");
        assert os[i].Write? && os[i].key == k;
      }
    }
    forall k | k in OutMap(os)
      ensures OutMap(os)[k] == read(k)
    {
      var j := LastWrite(os, k);
    }
  }
}
