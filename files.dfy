/**
 * The corpus cleaning of files.py (`convert_and_combine`): the text, CSV and
 * spreadsheet files of a folder are read in listing order, their contents
 * joined with "\n", and the result split into lines that are stripped,
 * freed of blanks and de-duplicated.
 */
module Files {
  import opened Wrappers
  import opened Text

  /**
   * One entry of the folder's listing: its name, whether `os.path.isfile`
   * holds of it, and what each reader would give for it, None meaning the
   * reader raises: `file.read()` for a .txt file, the rows of `csv.reader`
   * for a .csv file, and `pd.read_excel(...).to_csv(...)` for a .xlsx file.
   */
  datatype DirEntry = DirEntry(name: string, isFile: bool,
                               text: Option<string>, rows: Option<seq<seq<string>>>, sheet: Option<string>)

  datatype Kind = Txt | Csv | Xlsx | Unsupported

  /** The extension dispatch: a name matches at most one of the three suffixes. */
  function KindOf(name: string): (k: Kind)
    ensures k == Txt <==> EndsWith(name, ".txt")
    ensures k == Csv <==> EndsWith(name, ".csv")
    ensures k == Xlsx <==> EndsWith(name, ".xlsx")
    ensures k == Unsupported <==> !EndsWith(name, ".txt") && !EndsWith(name, ".csv") && !EndsWith(name, ".xlsx")
  {
    var n := |name|;
    assert EndsWith(name, ".txt") ==> name[n - 1] == 't';
    assert EndsWith(name, ".csv") ==> name[n - 1] == 'v';
    assert EndsWith(name, ".xlsx") ==> name[n - 1] == 'x';
    if EndsWith(name, ".txt") then Txt
    else if EndsWith(name, ".csv") then Csv
    else if EndsWith(name, ".xlsx") then Xlsx
    else Unsupported
  }

  predicate FieldsHaveNoLineBreak(rows: seq<seq<string>>) {
    forall i, j :: 0 <= i < |rows| && 0 <= j < |rows[i]| ==> NoLineBreak(rows[i][j])
  }

  /**
   * Each CSV row rendered as its fields joined by ", ": one line per row,
   * and when no field holds a line boundary, no rendered line does either.
   */
  function RenderRows(rows: seq<seq<string>>): (lines: seq<string>)
    ensures |lines| == |rows|
    ensures forall i :: 0 <= i < |rows| ==> lines[i] == Join(rows[i], ", ")
    ensures FieldsHaveNoLineBreak(rows) ==> forall l :: l in lines ==> NoLineBreak(l)
  {
    var lines := seq(|rows|, i requires 0 <= i < |rows| => Join(rows[i], ", "));
    assert FieldsHaveNoLineBreak(rows) ==> forall l :: l in lines ==> NoLineBreak(l) by {
      if FieldsHaveNoLineBreak(rows) {
        forall l | l in lines ensures NoLineBreak(l) {
          var i :| 0 <= i < |lines| && lines[i] == l;
          assert forall p :: p in rows[i] ==> NoLineBreak(p);
          JoinNoLineBreak(rows[i], ", ");
        }
      }
    }
    lines
  }

  /**
   * `'\n'.join([', '.join(row) for row in csv_content])`. When no field holds
   * a line boundary, the lines of the text are the rendered rows, less an
   * empty last one (a trailing "\n" opens no line); this covers an empty CSV
   * and one whose last row is blank.
   */
  function RenderCsv(rows: seq<seq<string>>): (text: string)
    ensures FieldsHaveNoLineBreak(rows) ==> SplitLines(text) == DropEmptyLast(RenderRows(rows))
    ensures FieldsHaveNoLineBreak(rows) && rows != [] && Join(rows[|rows| - 1], ", ") != []
            ==> SplitLines(text) == RenderRows(rows)
  {
    var lines := RenderRows(rows);
    assert FieldsHaveNoLineBreak(rows) ==> SplitLines(Join(lines, "\n")) == DropEmptyLast(lines) by {
      if FieldsHaveNoLineBreak(rows) {
        SplitLinesOfJoin(lines);
      }
    }
    Join(lines, "\n")
  }

  /**
   * A CSV of one row followed by a blank row renders with a trailing "\n",
   * which opens no line: the text holds that row's line alone.
   */
  lemma BlankLastRow(row: seq<string>)
    requires FieldsHaveNoLineBreak([row])
    ensures SplitLines(RenderCsv([row, []])) == [Join(row, ", ")]
  {
    var rows := [row, []];
    assert FieldsHaveNoLineBreak(rows) by {
      assert forall i, j :: 0 <= i < |rows| && 0 <= j < |rows[i]| ==> i == 0 && rows[i][j] == row[j];
    }
    var lines := RenderRows(rows);
    assert lines[1] == [];
    assert lines[..1] == [Join(row, ", ")];
    assert DropEmptyLast(lines) == [Join(row, ", ")];
  }

  /**
   * What one listing entry appends to the combined content: nothing exactly
   * for a non-file, an unsupported extension or a reader that raises.
   */
  function Contribution(e: DirEntry): (content: Option<string>)
    ensures content.None? <==> !e.isFile || KindOf(e.name) == Unsupported || ReadFails(e)
  {
    if !e.isFile then None
    else
      match KindOf(e.name)
      case Txt => e.text
      case Csv => if e.rows.Some? then Some(RenderCsv(e.rows.value)) else None
      case Xlsx => e.sheet
      case Unsupported => None
  }

  /** The contents collected over the listing, in listing order. */
  function Collected(entries: seq<DirEntry>): (contents: seq<string>)
    ensures |contents| <= |entries|
    ensures forall c :: c in contents ==> exists e :: e in entries && Contribution(e) == Some(c)
  {
    if entries == [] then []
    else
      assert forall e :: e in entries[1..] ==> e in entries;
      (if Contribution(entries[0]).Some? then [Contribution(entries[0]).value] else [])
      + Collected(entries[1..])
  }

  /** Collecting distributes over the listing: the files contribute in the order they are visited. */
  lemma {:induction false} CollectedAppend(a: seq<DirEntry>, b: seq<DirEntry>)
    ensures Collected(a + b) == Collected(a) + Collected(b)
  {
    if a == [] {
      assert a + b == b;
    } else {
      assert (a + b)[0] == a[0] && (a + b)[1..] == a[1..] + b;
      CollectedAppend(a[1..], b);
    }
  }

  /** Visiting one more entry appends its contribution, if any. */
  lemma CollectedSnoc(a: seq<DirEntry>, e: DirEntry)
    ensures Collected(a + [e]) == Collected(a) + (if Contribution(e).Some? then [Contribution(e).value] else [])
  {
    CollectedAppend(a, [e]);
    assert [e][1..] == [];
  }

  /** The reader chosen by the extension raises on this entry. */
  predicate ReadFails(e: DirEntry) {
    match KindOf(e.name)
    case Txt => e.text.None?
    case Csv => e.rows.None?
    case Xlsx => e.sheet.None?
    case Unsupported => false
  }

  /**
   * A non-file, a file of an unsupported type and a file whose reader raises
   * contribute nothing wherever they appear in the listing.
   */
  lemma SkippedEntryContributesNothing(a: seq<DirEntry>, e: DirEntry, b: seq<DirEntry>)
    requires !e.isFile || KindOf(e.name) == Unsupported || ReadFails(e)
    ensures Collected(a + [e] + b) == Collected(a + b)
  {
    CollectedAppend(a + [e], b);
    CollectedSnoc(a, e);
    CollectedAppend(a, b);
  }

  /**
   * A regular file whose reader succeeds contributes exactly what that reader
   * gives, wherever it appears in the listing: its text for .txt, its rendered
   * rows for .csv, its converted sheet for .xlsx.
   */
  lemma ReadEntryContributes(a: seq<DirEntry>, e: DirEntry, b: seq<DirEntry>)
    requires e.isFile
    ensures EndsWith(e.name, ".txt") && e.text.Some?
            ==> Collected(a + [e] + b) == Collected(a) + [e.text.value] + Collected(b)
    ensures EndsWith(e.name, ".csv") && e.rows.Some?
            ==> Collected(a + [e] + b) == Collected(a) + [RenderCsv(e.rows.value)] + Collected(b)
    ensures EndsWith(e.name, ".xlsx") && e.sheet.Some?
            ==> Collected(a + [e] + b) == Collected(a) + [e.sheet.value] + Collected(b)
  {
    CollectedAppend(a + [e], b);
    CollectedSnoc(a, e);
  }

  predicate NoDuplicates(s: seq<string>) {
    forall i, j :: 0 <= i < j < |s| ==> s[i] != s[j]
  }

  /**
   * `list(set(s))`: each distinct element once. Python leaves the order
   * unspecified; this one keeps the last occurrence of each element.
   */
  function Dedupe(s: seq<string>): (r: seq<string>)
    ensures NoDuplicates(r)
    ensures Elems(r) == Elems(s)
    ensures |r| <= |s|
  {
    if s == [] then []
    else
      var rest := Dedupe(s[1..]);
      assert Elems(s) == {s[0]} + Elems(s[1..]) by {
        assert forall x :: x in s <==> x == s[0] || x in s[1..];
      }
      if s[0] in rest then rest
      else
        ElemsCons(s[0], rest);
        [s[0]] + rest
  }

  /**
   * The cleaning of the combined text: split into lines, strip each, drop
   * the blank ones, keep each distinct password once.
   */
  function CleanPasswords(contents: seq<string>): (unique: seq<string>)
    ensures NoDuplicates(unique)
    ensures forall x :: x in unique ==> x != [] && Strip(x) == x
    ensures forall x :: x in unique <==> x in CleanSet(SplitLines(Join(contents, "\n")))
    ensures forall x :: x in unique <==> exists c :: c in contents && x in CleanSet(SplitLines(c))
  {
    var passwords := Cleaned(SplitLines(Join(contents, "\n")));
    var unique := Dedupe(passwords);
    CleanLinesOfJoin(contents);
    assert forall x :: x in unique <==> x in Elems(passwords) by {
      assert forall x :: x in unique <==> x in Elems(unique);
    }
    unique
  }

  /**
   * The body of the listing loop for one entry: a non-file is skipped, then
   * the extension chooses the reader; None when nothing is appended.
   */
  method ReadEntry(e: DirEntry) returns (content: Option<string>)
    ensures content == Contribution(e)
  {
    content := None;
    if !e.isFile {
      return;
    }
    if EndsWith(e.name, ".txt") {
      content := e.text;
    } else if EndsWith(e.name, ".csv") {
      if e.rows.Some? {
        content := Some(RenderCsv(e.rows.value));
      }
    } else if EndsWith(e.name, ".xlsx") {
      content := e.sheet;
    }
  }

  /**
   * `convert_and_combine`: the loop over the listing that appends each
   * supported file's content, then the cleaning of the joined text. None
   * means nothing was collected and no output file is written; otherwise
   * the result is the list of unique passwords written out, one per line.
   */
  method ConvertAndCombine(entries: seq<DirEntry>) returns (unique: Option<seq<string>>)
    ensures unique.None? <==> Collected(entries) == []
    ensures unique.Some? ==> unique.value == CleanPasswords(Collected(entries))
  {
    var combined: seq<string> := [];
    for i := 0 to |entries|
      invariant combined == Collected(entries[..i])
    {
      var e := entries[i];
      CollectedSnoc(entries[..i], e);
      assert entries[..i + 1] == entries[..i] + [e];
      var content := ReadEntry(e);
      if content.Some? {
        combined := combined + [content.value];
      }
    }
    assert entries[..|entries|] == entries;
    if combined == [] {
      return None;
    }
    unique := Some(CleanPasswords(combined));
  }

  /**
   * The output file, `'\n'.join(unique_passwords)`, reads back line by line
   * as exactly the unique passwords.
   */
  lemma OutputReadsBack(contents: seq<string>)
    ensures SplitLines(Join(CleanPasswords(contents), "\n")) == CleanPasswords(contents)
  {
    var unique := CleanPasswords(contents);
    if unique != [] {
      var text := Join(contents, "\n");
      forall x | x in unique ensures NoLineBreak(x) {
        var l :| l in SplitLines(text) && Strip(l) != [] && Strip(l) == x;
        StripNoLineBreak(l);
      }
      assert unique[|unique| - 1] in unique;
      SplitLinesOfJoin(unique);
    }
  }
}
