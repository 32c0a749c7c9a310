/** The bulk-import dialog (components/BulkImportModal.tsx): which files it
    accepts, how the rows of the first sheet become candidate students, which
    roll numbers it flags as duplicates, and which rows it hands on. */
module BulkImport {
  import opened Types
  import opened Text
  import opened Seqs

  /** A spreadsheet cell: a string, or another value (a number, a boolean)
      given by the text its `toString()` yields. */
  datatype Cell = Str(text: string) | Other(text: string)

  /** One row of the sheet; `None` is an empty cell. */
  type Row = seq<Option<Cell>>

  const ValidTypes: seq<string> := [
    "application/vnd.ms-excel",
    "application/vnd.openxmlformats-officedocument.spreadsheetml.sheet",
    "text/csv"
  ]

  /** The message shown after reading a file. */
  datatype ParseNotice = NoValidData | DuplicateWarning(count: nat) | NoNotice

  /** Why `handleImport` refuses. */
  datatype ImportError = NoClassSelected | NoStudents | AllDuplicates

  /** What `handleImport` passes on: the rows to create, and the number of
      skipped students its message announces. */
  datatype ImportPlan = ImportPlan(rows: seq<ParsedStudent>, announcedSkipped: nat)

  // ---------------------------------------------------------------------
  // File check (handleFileChange)

  /** `name.match(/\.(xlsx|xls|csv)$/i)` */
  predicate HasSpreadsheetExtension(fileName: string) {
    var n := Lower(fileName);
    EndsWith(n, ".xlsx") || EndsWith(n, ".xls") || EndsWith(n, ".csv")
  }

  /** A file is refused only when both its MIME type and its name are unknown. */
  function CheckFile(mimeType: string, fileName: string): (r: Result<(), string>)
    ensures r.Ok? <==> mimeType in ValidTypes || HasSpreadsheetExtension(fileName)
    ensures r.Err? ==> r.error == "Please upload a valid Excel file (.xlsx, .xls) or CSV file (.csv)"
  {
    if mimeType !in ValidTypes && !HasSpreadsheetExtension(fileName) then
      Err("Please upload a valid Excel file (.xlsx, .xls) or CSV file (.csv)")
    else Ok(())
  }

  // ---------------------------------------------------------------------
  // Reading the rows (parseFile)

  /** A string cell mentioning "roll", "number" or "name" in any case. */
  predicate IsHeaderCell(c: Option<Cell>) {
    c.Some? && c.value.Str? &&
    var t := Lower(c.value.text);
    Contains(t, "roll") || Contains(t, "number") || Contains(t, "name")
  }

  /** The first row is a header when one of its cells is a header cell. */
  predicate HasHeader(rows: seq<Row>) {
    |rows| > 0 && exists k | 0 <= k < |rows[0]| :: IsHeaderCell(rows[0][k])
  }

  function StartRow(rows: seq<Row>): (start: nat)
    ensures start <= |rows|
    ensures start == 1 <==> HasHeader(rows)
    ensures start == 0 <==> !HasHeader(rows)
  {
    if HasHeader(rows) then 1 else 0
  }

  /** `row[k]?.toString().trim()` */
  function CellText(row: Row, k: nat): Option<string> {
    if k < |row| && row[k].Some? then Some(Trim(row[k].value.text)) else None
  }

  /** One row: the trimmed first cell is the roll number and must not be
      empty; the trimmed second cell is the name, `''` when missing. */
  function ParseRow(row: Row): (r: Option<ParsedStudent>)
    ensures r.Some? <==> |row| > 0 && CellText(row, 0).Some? && CellText(row, 0).value != []
    ensures r.Some? ==> r.value.rollNumber == CellText(row, 0).value
    ensures r.Some? ==> r.value.name == if CellText(row, 1).Some? then CellText(row, 1).value else []
  {
    if |row| == 0 then None
    else match CellText(row, 0)
      case None => None
      case Some(roll) =>
        if roll == [] then None
        else Some(ParsedStudent(roll, match CellText(row, 1) case Some(n) => n case None => []))
  }

  /** The rows that parse, in file order. */
  function ParseAll(rows: seq<Row>): (r: seq<ParsedStudent>)
    ensures |r| <= |rows|
    ensures forall p | p in r :: exists row | row in rows :: ParseRow(row) == Some(p)
  {
    if rows == [] then []
    else
      var prev, last := rows[..|rows| - 1], rows[|rows| - 1];
      assert forall row | row in prev :: row in rows;
      ParseAll(prev) + ParsedOf(last)
  }

  /** The one-row list a good row contributes, or nothing. */
  function ParsedOf(row: Row): seq<ParsedStudent> {
    if ParseRow(row).Some? then [ParseRow(row).value] else []
  }

  /** A row as parseFile produces it: a roll number that is not empty, both fields trimmed. */
  predicate IsCleanRow(p: ParsedStudent) {
    p.rollNumber != [] && Trim(p.rollNumber) == p.rollNumber && Trim(p.name) == p.name
  }

  lemma ParseRowIsClean(row: Row)
    requires ParseRow(row).Some?
    ensures IsCleanRow(ParseRow(row).value)
  {
    RollIsTrimmed(row);
    NameIsTrimmed(row);
  }

  lemma RollIsTrimmed(row: Row)
    requires ParseRow(row).Some?
    ensures Trim(ParseRow(row).value.rollNumber) == ParseRow(row).value.rollNumber
  {
    var roll := row[0].value.text;
    assert ParseRow(row).value.rollNumber == Trim(roll);
    TrimIdempotent(roll);
  }

  lemma NameIsTrimmed(row: Row)
    requires ParseRow(row).Some?
    ensures Trim(ParseRow(row).value.name) == ParseRow(row).value.name
  {
    if CellText(row, 1).Some? {
      var name := row[1].value.text;
      assert ParseRow(row).value.name == Trim(name);
      TrimIdempotent(name);
    }
  }

  /** Every parsed row has a roll number that is not empty and already trimmed,
      and a trimmed name. */
  lemma {:induction false} ParsedRowsAreClean(rows: seq<Row>)
    ensures forall p | p in ParseAll(rows) :: IsCleanRow(p)
  {
    if rows != [] {
      var prev, last := rows[..|rows| - 1], rows[|rows| - 1];
      ParsedRowsAreClean(prev);
      assert ParseAll(rows) == ParseAll(prev) + ParsedOf(last);
      if ParseRow(last).Some? {
        ParseRowIsClean(last);
      }
    }
  }

  /** One more row adds what that row contributes on its own. */
  lemma ParseAllSnoc(rows: seq<Row>, row: Row)
    ensures ParseAll(rows + [row]) == ParseAll(rows) + ParsedOf(row)
  {
    assert (rows + [row])[..|rows|] == rows;
  }

  lemma ParsePrefixStep(rows: seq<Row>, i: nat)
    requires i < |rows|
    ensures ParseAll(rows[..i + 1]) == ParseAll(rows[..i]) + ParsedOf(rows[i])
  {
    assert rows[..i + 1] == rows[..i] + [rows[i]];
    ParseAllSnoc(rows[..i], rows[i]);
  }

  /** Parsing a file in two parts gives the two parts' rows one after the
      other: input order is kept and rows are read independently. */
  lemma {:induction false} ParseAllAppend(a: seq<Row>, b: seq<Row>)
    ensures ParseAll(a + b) == ParseAll(a) + ParseAll(b)
  {
    if b != [] {
      var b' := b[..|b| - 1];
      assert (a + b)[..|a + b| - 1] == a + b';
      ParseAllAppend(a, b');
    } else {
      assert a + b == a;
    }
  }

  // ---------------------------------------------------------------------
  // Duplicate detection

  /** `existingStudents.map(s => s.rollNumber.toLowerCase())` */
  function LowerRolls(existing: seq<Student>): (r: seq<string>)
    ensures forall s | s in existing :: Lower(s.rollNumber) in r
    ensures forall x | x in r :: exists s | s in existing :: Lower(s.rollNumber) == x
  {
    var r := seq(|existing|, k requires 0 <= k < |existing| => Lower(existing[k].rollNumber));
    assert forall k | 0 <= k < |existing| :: r[k] == Lower(existing[k].rollNumber);
    assert forall x | x in r :: exists k | 0 <= k < |existing| :: r[k] == x;
    r
  }

  /** Some earlier row has the same roll number up to case. */
  predicate SeenBefore(rows: seq<ParsedStudent>, i: int)
    requires 0 <= i < |rows|
  {
    exists k | 0 <= k < i :: Lower(rows[k].rollNumber) == Lower(rows[i].rollNumber)
  }

  /** Row `i` clashes, up to case, with an existing student or an earlier row. */
  predicate Flagged(existing: seq<Student>, rows: seq<ParsedStudent>, i: int)
    requires 0 <= i < |rows|
  {
    Lower(rows[i].rollNumber) in LowerRolls(existing) || SeenBefore(rows, i)
  }

  /** The roll numbers, as spelled in the file, of the flagged rows. */
  function FlaggedSpellings(existing: seq<Student>, rows: seq<ParsedStudent>): set<string> {
    set i | 0 <= i < |rows| && Flagged(existing, rows, i) :: rows[i].rollNumber
  }

  /** `[...new Set(s)]`: the elements of `s` without repeats, first occurrences first. */
  function Dedup(s: seq<string>): (r: seq<string>)
    ensures NoDuplicates(r)
    ensures forall x :: x in r <==> x in s
  {
    if s == [] then []
    else
      var d := Dedup(s[..|s| - 1]);
      assert forall x :: x in s <==> x in s[..|s| - 1] || x == s[|s| - 1];
      if s[|s| - 1] in d then d else d + [s[|s| - 1]]
  }

  /** `duplicateRollNumbers` after the first `n` rows: the spelling of each
      row matching an existing student, in file order. */
  function ExistingHits(existingRolls: seq<string>, rows: seq<ParsedStudent>, n: nat): seq<string>
    requires n <= |rows|
  {
    if n == 0 then []
    else ExistingHits(existingRolls, rows, n - 1)
         + (if Lower(rows[n - 1].rollNumber) in existingRolls then [rows[n - 1].rollNumber] else [])
  }

  /** `internalDuplicates` after the first `n` rows: the spelling of each row
      matching an earlier row, each spelling once, in order of first insertion. */
  function InternalHits(rows: seq<ParsedStudent>, n: nat): seq<string>
    requires n <= |rows|
  {
    if n == 0 then []
    else
      var prev := InternalHits(rows, n - 1);
      if SeenBefore(rows, n - 1) && rows[n - 1].rollNumber !in prev then prev + [rows[n - 1].rollNumber] else prev
  }

  /** Together the two lists hold exactly the spellings of the flagged rows. */
  lemma {:induction false} HitsAreFlagged(existing: seq<Student>, rows: seq<ParsedStudent>, n: nat)
    requires n <= |rows|
    ensures forall x :: x in ExistingHits(LowerRolls(existing), rows, n) + InternalHits(rows, n) <==>
      exists k | 0 <= k < n :: rows[k].rollNumber == x && Flagged(existing, rows, k)
  {
    if n > 0 {
      HitsAreFlagged(existing, rows, n - 1);
      var roll := rows[n - 1].rollNumber;
      forall x
        ensures x in ExistingHits(LowerRolls(existing), rows, n) + InternalHits(rows, n) <==>
          exists k | 0 <= k < n :: rows[k].rollNumber == x && Flagged(existing, rows, k)
      {
        assert x in ExistingHits(LowerRolls(existing), rows, n) + InternalHits(rows, n) <==>
          x in ExistingHits(LowerRolls(existing), rows, n - 1) + InternalHits(rows, n - 1)
          || (x == roll && Flagged(existing, rows, n - 1));
        if x == roll && Flagged(existing, rows, n - 1) {
          assert rows[n - 1].rollNumber == x;
        }
      }
    }
  }

  /** The `forEach` of parseFile with its lists and sets. The result holds,
      once each, the spelling of every row flagged against the existing
      students or an earlier row of the file, and nothing else. */
  method FindDuplicates(existing: seq<Student>, rows: seq<ParsedStudent>) returns (duplicates: seq<string>)
    ensures NoDuplicates(duplicates)
    ensures forall x :: x in duplicates <==> x in FlaggedSpellings(existing, rows)
  {
    var existingRolls := LowerRolls(existing);
    var duplicateRollNumbers: seq<string> := [];
    var internalDuplicates: seq<string> := [];
    var seenInFile: set<string> := {};
    for i := 0 to |rows|
      invariant seenInFile == set k | 0 <= k < i :: Lower(rows[k].rollNumber)
      invariant duplicateRollNumbers == ExistingHits(existingRolls, rows, i)
      invariant internalDuplicates == InternalHits(rows, i)
    {
      var roll := rows[i].rollNumber;
      var rollLower := Lower(roll);
      if rollLower in existingRolls {
        duplicateRollNumbers := duplicateRollNumbers + [roll];
      }
      assert rollLower in seenInFile <==> SeenBefore(rows, i);
      if rollLower in seenInFile {
        if roll !in internalDuplicates {
          internalDuplicates := internalDuplicates + [roll];
        }
      } else {
        seenInFile := seenInFile + {rollLower};
      }
      assert (set k | 0 <= k < i + 1 :: Lower(rows[k].rollNumber)) == (set k | 0 <= k < i :: Lower(rows[k].rollNumber)) + {rollLower};
    }
    duplicates := Dedup(duplicateRollNumbers + internalDuplicates);
    HitsAreFlagged(existing, rows, |rows|);
  }

  /** The parsing `for` loop of parseFile: every row from `startRow` on, in
      order, keeping the rows parseRow accepts. */
  method ParseRows(rows: seq<Row>, startRow: nat) returns (students: seq<ParsedStudent>)
    requires startRow <= |rows|
    ensures students == ParseAll(rows[startRow..])
  {
    var rest := rows[startRow..];
    students := [];
    for i := 0 to |rest|
      invariant students == ParseAll(rest[..i])
    {
      ParsePrefixStep(rest, i);
      var row := ParseRow(rest[i]);
      if row.Some? {
        students := students + [row.value];
      }
    }
    assert rest[..|rest|] == rest;
  }

  /** parseFile after the file was read: the rows below the header, and
      either the empty lists with an error or the rows with their duplicates. */
  method ParseFile(rows: seq<Row>, existing: seq<Student>)
    returns (parsed: seq<ParsedStudent>, duplicates: seq<string>, notice: ParseNotice)
    ensures parsed == [] <==> ParseAll(rows[StartRow(rows)..]) == []
    ensures parsed == [] ==> duplicates == [] && notice == NoValidData
    ensures parsed != [] ==> parsed == ParseAll(rows[StartRow(rows)..])
    ensures NoDuplicates(duplicates)
    ensures forall x :: x in duplicates <==> x in FlaggedSpellings(existing, parsed)
    ensures parsed != [] ==> notice == if duplicates == [] then NoNotice else DuplicateWarning(|duplicates|)
  {
    var students := ParseRows(rows, StartRow(rows));
    if students == [] {
      parsed, duplicates, notice := [], [], NoValidData;
    } else {
      duplicates := FindDuplicates(existing, students);
      parsed := students;
      notice := if duplicates == [] then NoNotice else DuplicateWarning(|duplicates|);
    }
  }

  // ---------------------------------------------------------------------
  // handleImport

  function NotListed(duplicates: seq<string>): ParsedStudent -> bool {
    (p: ParsedStudent) => p.rollNumber !in duplicates
  }

  /** `parsedStudents.filter(s => !duplicates.includes(s.rollNumber))`: the
      test is on the exact spelling. */
  function ValidRows(parsed: seq<ParsedStudent>, duplicates: seq<string>): (r: seq<ParsedStudent>)
    ensures SubList(r, parsed)
    ensures forall p :: p in r <==> p in parsed && p.rollNumber !in duplicates
  {
    FilterIsSubList(parsed, NotListed(duplicates));
    Filter(parsed, NotListed(duplicates))
  }

  /** handleImport: refused without a class, without rows, or when every row
      is a duplicate; otherwise the valid rows go to the application. The
      announced number of skipped students is the number of distinct
      duplicate spellings. */
  function HandleImport(selected: Option<int>, parsed: seq<ParsedStudent>, duplicates: seq<string>)
    : (r: Result<ImportPlan, ImportError>)
    ensures !Truthy(selected) ==> r == Err(NoClassSelected)
    ensures Truthy(selected) && parsed == [] ==> r == Err(NoStudents)
    ensures r.Ok? <==> Truthy(selected) && exists p | p in parsed :: p.rollNumber !in duplicates
    ensures r.Err? && Truthy(selected) && parsed != [] ==> r == Err(AllDuplicates)
    ensures r.Ok? ==> r.value.rows == ValidRows(parsed, duplicates) && r.value.rows != []
    ensures r.Ok? ==> r.value.announcedSkipped == |duplicates|
  {
    if !Truthy(selected) then Err(NoClassSelected)
    else if parsed == [] then Err(NoStudents)
    else
      var valid := ValidRows(parsed, duplicates);
      if valid == [] then Err(AllDuplicates)
      else
        assert valid[0] in valid;
        Ok(ImportPlan(valid, |duplicates|))
  }

  /** The rows committed from `parsed` with duplicates as found: none clashes,
      up to case, with an existing student, and no two clash with each other. */
  lemma CommittedRowsAreUnique(existing: seq<Student>, parsed: seq<ParsedStudent>, duplicates: seq<string>)
    requires forall x :: x in duplicates <==> x in FlaggedSpellings(existing, parsed)
    ensures var v := ValidRows(parsed, duplicates);
      && (forall p | p in v :: forall s | s in existing :: Lower(p.rollNumber) != Lower(s.rollNumber))
      && (forall i, j | 0 <= i < j < |v| :: Lower(v[i].rollNumber) != Lower(v[j].rollNumber))
  {
    var v := ValidRows(parsed, duplicates);
    forall p | p in v ensures forall s | s in existing :: Lower(p.rollNumber) != Lower(s.rollNumber) {
      var i :| 0 <= i < |parsed| && parsed[i] == p;
      assert !Flagged(existing, parsed, i);
    }
    assert forall i | 0 <= i < |parsed| && Flagged(existing, parsed, i) :: parsed[i].rollNumber in duplicates;
    CommittedPrefixDistinct(existing, parsed, duplicates, |parsed|);
    assert parsed[..|parsed|] == parsed;
  }

  lemma {:induction false} CommittedPrefixDistinct(existing: seq<Student>, parsed: seq<ParsedStudent>, duplicates: seq<string>, n: nat)
    requires n <= |parsed|
    requires forall i | 0 <= i < |parsed| && Flagged(existing, parsed, i) :: parsed[i].rollNumber in duplicates
    ensures var v := Filter(parsed[..n], NotListed(duplicates));
      && (forall i, j | 0 <= i < j < |v| :: Lower(v[i].rollNumber) != Lower(v[j].rollNumber))
      && (forall p | p in v :: exists k | 0 <= k < n :: Lower(parsed[k].rollNumber) == Lower(p.rollNumber))
  {
    if n > 0 {
      CommittedPrefixDistinct(existing, parsed, duplicates, n - 1);
      var prev := Filter(parsed[..n - 1], NotListed(duplicates));
      var p := parsed[n - 1];
      assert parsed[..n] == parsed[..n - 1] + [p];
      FilterAppend(parsed[..n - 1], [p], NotListed(duplicates));
      assert Filter([p], NotListed(duplicates)) == if p.rollNumber in duplicates then [] else [p];
      if p.rollNumber !in duplicates {
        assert !Flagged(existing, parsed, n - 1);
        forall q | q in prev ensures Lower(q.rollNumber) != Lower(p.rollNumber) {
          var k :| 0 <= k < n - 1 && Lower(parsed[k].rollNumber) == Lower(q.rollNumber);
        }
      }
    }
  }

  // ---------------------------------------------------------------------
  // The import under the first-occurrence rule: a roll number's first
  // occurrence in the file is kept, later occurrences and clashes with
  // existing students are skipped

  /** The rows among the first `n` that are not flagged, in file order: a row
      is kept exactly when neither an existing student nor an earlier row has
      its roll number up to case, so of several rows sharing a roll number
      the first one is kept. */
  function UnflaggedRows(existing: seq<Student>, parsed: seq<ParsedStudent>, n: nat): (r: seq<ParsedStudent>)
    requires n <= |parsed|
    ensures |r| <= n
    decreases n
  {
    if n == 0 then []
    else UnflaggedRows(existing, parsed, n - 1)
         + (if Flagged(existing, parsed, n - 1) then [] else [parsed[n - 1]])
  }

  /** Every kept row is an unflagged row of the file, and every unflagged row is kept. */
  lemma {:induction false} UnflaggedRowsMembers(existing: seq<Student>, parsed: seq<ParsedStudent>, n: nat)
    requires n <= |parsed|
    ensures forall p | p in UnflaggedRows(existing, parsed, n) ::
      exists k | 0 <= k < n :: parsed[k] == p && !Flagged(existing, parsed, k)
    ensures forall k | 0 <= k < n && !Flagged(existing, parsed, k) :: parsed[k] in UnflaggedRows(existing, parsed, n)
  {
    if n > 0 {
      UnflaggedRowsMembers(existing, parsed, n - 1);
    }
  }

  /** No two rows have the same roll number up to case. */
  predicate DistinctKeys(v: seq<ParsedStudent>) {
    forall i, j | 0 <= i < j < |v| :: Lower(v[i].rollNumber) != Lower(v[j].rollNumber)
  }

  /** No two kept rows have the same roll number up to case. */
  lemma {:induction false} UnflaggedRowsDistinct(existing: seq<Student>, parsed: seq<ParsedStudent>, n: nat)
    requires n <= |parsed|
    ensures DistinctKeys(UnflaggedRows(existing, parsed, n))
  {
    if n > 0 {
      UnflaggedRowsDistinct(existing, parsed, n - 1);
      var prev := UnflaggedRows(existing, parsed, n - 1);
      var v := UnflaggedRows(existing, parsed, n);
      var q := parsed[n - 1];
      if !Flagged(existing, parsed, n - 1) {
        UnflaggedRowsMembers(existing, parsed, n - 1);
        assert v == prev + [q];
        assert !SeenBefore(parsed, n - 1);
        forall i, j | 0 <= i < j < |v| ensures Lower(v[i].rollNumber) != Lower(v[j].rollNumber) {
          if j == |v| - 1 {
            assert v[i] in prev && v[j] == q;
            var k :| 0 <= k < n - 1 && parsed[k] == v[i] && !Flagged(existing, parsed, k);
            assert Lower(parsed[k].rollNumber) != Lower(parsed[n - 1].rollNumber);
          } else {
            assert v[i] == prev[i] && v[j] == prev[j];
          }
        }
      } else {
        assert v == prev;
      }
    }
  }

  /** Every roll number of the file that no existing student has is kept. */
  lemma {:induction false} UnflaggedRowsCover(existing: seq<Student>, parsed: seq<ParsedStudent>, n: nat)
    requires n <= |parsed|
    ensures forall k | 0 <= k < n && Lower(parsed[k].rollNumber) !in LowerRolls(existing) ::
      exists p | p in UnflaggedRows(existing, parsed, n) :: Lower(p.rollNumber) == Lower(parsed[k].rollNumber)
  {
    if n > 0 {
      UnflaggedRowsCover(existing, parsed, n - 1);
      var prev := UnflaggedRows(existing, parsed, n - 1);
      var v := UnflaggedRows(existing, parsed, n);
      assert v == prev + (if Flagged(existing, parsed, n - 1) then [] else [parsed[n - 1]]);
      forall k | 0 <= k < n && Lower(parsed[k].rollNumber) !in LowerRolls(existing)
        ensures exists p | p in v :: Lower(p.rollNumber) == Lower(parsed[k].rollNumber)
      {
        if k < n - 1 {
          var p :| p in prev && Lower(p.rollNumber) == Lower(parsed[k].rollNumber);
          assert p in v;
        } else if SeenBefore(parsed, n - 1) {
          var k' :| 0 <= k' < n - 1 && Lower(parsed[k'].rollNumber) == Lower(parsed[k].rollNumber);
          var p :| p in prev && Lower(p.rollNumber) == Lower(parsed[k'].rollNumber);
          assert p in v;
        } else {
          assert parsed[k] in v;
        }
      }
    }
  }

  /** The rows the first-occurrence rule keeps: none clashes, up to case,
      with an existing student, no two clash with each other, every roll
      number new to the class list is kept, and they keep file order. */
  lemma FirstWinsRowsAreUnique(existing: seq<Student>, parsed: seq<ParsedStudent>)
    ensures var v := UnflaggedRows(existing, parsed, |parsed|);
      && (forall p | p in v :: forall s | s in existing :: Lower(p.rollNumber) != Lower(s.rollNumber))
      && (forall i, j | 0 <= i < j < |v| :: Lower(v[i].rollNumber) != Lower(v[j].rollNumber))
      && (forall k | 0 <= k < |parsed| && Lower(parsed[k].rollNumber) !in LowerRolls(existing) ::
            exists p | p in v :: Lower(p.rollNumber) == Lower(parsed[k].rollNumber))
      && SubList(v, parsed)
  {
    var v := UnflaggedRows(existing, parsed, |parsed|);
    UnflaggedRowsMembers(existing, parsed, |parsed|);
    UnflaggedRowsDistinct(existing, parsed, |parsed|);
    UnflaggedRowsCover(existing, parsed, |parsed|);
    forall p | p in v ensures forall s | s in existing :: Lower(p.rollNumber) != Lower(s.rollNumber) {
      var k :| 0 <= k < |parsed| && parsed[k] == p && !Flagged(existing, parsed, k);
    }
    UnflaggedRowsInOrder(existing, parsed, |parsed|);
    assert parsed[..|parsed|] == parsed;
  }

  lemma {:induction false} UnflaggedRowsInOrder(existing: seq<Student>, parsed: seq<ParsedStudent>, n: nat)
    requires n <= |parsed|
    ensures SubList(UnflaggedRows(existing, parsed, n), parsed[..n])
  {
    if n > 0 {
      UnflaggedRowsInOrder(existing, parsed, n - 1);
      var prev := UnflaggedRows(existing, parsed, n - 1);
      assert parsed[..n] == parsed[..n - 1] + [parsed[n - 1]];
      if Flagged(existing, parsed, n - 1) {
        assert UnflaggedRows(existing, parsed, n) == prev;
        SubListExtend(prev, parsed[..n - 1], parsed[n - 1]);
      } else {
        assert UnflaggedRows(existing, parsed, n) == prev + [parsed[n - 1]];
        SubListSnoc(prev, parsed[..n - 1], parsed[n - 1]);
      }
    }
  }

  /** handleImport with the first-occurrence rule: the same guards, the
      unflagged rows committed, and the skipped count the number of rows
      left out. */
  function FirstWinsImport(selected: Option<int>, existing: seq<Student>, parsed: seq<ParsedStudent>)
    : (r: Result<ImportPlan, ImportError>)
    ensures !Truthy(selected) ==> r == Err(NoClassSelected)
    ensures Truthy(selected) && parsed == [] ==> r == Err(NoStudents)
    ensures r.Ok? <==> Truthy(selected) && exists i | 0 <= i < |parsed| :: !Flagged(existing, parsed, i)
    ensures r.Err? && Truthy(selected) && parsed != [] ==> r == Err(AllDuplicates)
    ensures r.Ok? ==> r.value.rows == UnflaggedRows(existing, parsed, |parsed|) && r.value.rows != []
    ensures r.Ok? ==> r.value.announcedSkipped == |parsed| - |r.value.rows|
  {
    if !Truthy(selected) then Err(NoClassSelected)
    else if parsed == [] then Err(NoStudents)
    else
      var valid := UnflaggedRows(existing, parsed, |parsed|);
      UnflaggedRowsMembers(existing, parsed, |parsed|);
      if valid == [] then Err(AllDuplicates)
      else
        assert valid[0] in valid;
        Ok(ImportPlan(valid, |parsed| - |valid|))
  }

  /** The number of skipped students `handleImport` announces is the number
      of distinct flagged spellings. */
  lemma AnnouncedCountIsDistinctSpellings(existing: seq<Student>, parsed: seq<ParsedStudent>, duplicates: seq<string>)
    requires NoDuplicates(duplicates)
    requires forall x :: x in duplicates <==> x in FlaggedSpellings(existing, parsed)
    ensures |duplicates| == |FlaggedSpellings(existing, parsed)|
  {
    DistinctCard(duplicates);
    assert (set x | x in duplicates) == FlaggedSpellings(existing, parsed);
  }

  // ---------------------------------------------------------------------
  // An example for the first-occurrence rule: existing roll number "S1", rows
  // ("s1","X"), ("S2","Y"), ("S2","Z")

  function ExampleExisting(): seq<Student> {
    [Student(1, "Ann", "S1", 1)]
  }

  function ExampleRows(): seq<ParsedStudent> {
    [ParsedStudent("s1", "X"), ParsedStudent("S2", "Y"), ParsedStudent("S2", "Z")]
  }

  /** As written, the exact-spelling filter also drops the first "S2" row,
      so the import is refused although ("S2","Y") is new. */
  lemma ExampleAsWrittenRefused(duplicates: seq<string>)
    requires forall x :: x in duplicates <==> x in FlaggedSpellings(ExampleExisting(), ExampleRows())
    ensures HandleImport(Some(1), ExampleRows(), duplicates) == Err(AllDuplicates)
  {
    var rows := ExampleRows();
    assert Lower("s1") == "s1" && Lower("S1") == "s1" && Lower("S2") == "s2";
    assert LowerRolls(ExampleExisting()) == ["s1"];
    assert Flagged(ExampleExisting(), rows, 0);
    assert Lower(rows[1].rollNumber) == Lower(rows[2].rollNumber);
    assert SeenBefore(rows, 2);
    assert rows[0].rollNumber in duplicates && rows[2].rollNumber in duplicates;
    assert forall p | p in rows :: p.rollNumber in duplicates;
  }

  function CountExampleRows(): seq<ParsedStudent> {
    [ParsedStudent("A", ""), ParsedStudent("B", ""), ParsedStudent("B", ""), ParsedStudent("B", "")]
  }

  /** As written, skipping three of four rows announces one skipped student:
      the count is of distinct duplicate spellings, not of rows. */
  lemma ExampleAsWrittenCount(duplicates: seq<string>)
    requires NoDuplicates(duplicates)
    requires forall x :: x in duplicates <==> x in FlaggedSpellings([], CountExampleRows())
    ensures HandleImport(Some(1), CountExampleRows(), duplicates) == Ok(ImportPlan([ParsedStudent("A", "")], 1))
  {
    var parsed := CountExampleRows();
    assert Lower("A") == "a" && Lower("B") == "b";
    assert LowerRolls([]) == [];
    assert !Flagged([], parsed, 0);
    assert Lower(parsed[1].rollNumber) == Lower(parsed[2].rollNumber);
    assert Flagged([], parsed, 2);
    assert FlaggedSpellings([], parsed) == {"B"} by {
      forall x | x in FlaggedSpellings([], parsed) ensures x == "B" {
        var i :| 0 <= i < |parsed| && Flagged([], parsed, i) && parsed[i].rollNumber == x;
      }
    }
    AnnouncedCountIsDistinctSpellings([], parsed, duplicates);
    assert "A" !in duplicates;
    assert ValidRows(parsed, duplicates) == [ParsedStudent("A", "")] by {
      assert Filter(parsed, NotListed(duplicates)) == [parsed[0]] + Filter(parsed[1..], NotListed(duplicates));
      FilterDropsAll(parsed[1..], NotListed(duplicates));
    }
  }

  /** With first-occurrence-wins, the example commits ("S2","Y") and reports
      two skipped rows. */
  lemma ExampleFirstWins()
    ensures FirstWinsImport(Some(1), ExampleExisting(), ExampleRows())
         == Ok(ImportPlan([ParsedStudent("S2", "Y")], 2))
  {
    var rows := ExampleRows();
    assert Lower("s1") == "s1" && Lower("S1") == "s1" && Lower("S2") == "s2";
    assert LowerRolls(ExampleExisting()) == ["s1"];
    assert Flagged(ExampleExisting(), rows, 0);
    assert !SeenBefore(rows, 1);
    assert !Flagged(ExampleExisting(), rows, 1);
    assert Lower(rows[1].rollNumber) == Lower(rows[2].rollNumber);
    assert SeenBefore(rows, 2);
    assert UnflaggedRows(ExampleExisting(), rows, 3) == [ParsedStudent("S2", "Y")];
  }
}
