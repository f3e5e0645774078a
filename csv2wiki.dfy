/** csv2wiki.py: one wiki page per data row of a CSV file, one section per
    non-empty cell, a table-of-contents page and one page per category.
    The wiki is replaced by the list of saves the script asks it for, in
    order. */
module CsvToWiki {
  import opened Sequences
  import Decimal

  /** One `page.save` call: a section of a proposal page, or a whole page. */
  datatype Save =
    | SectionSave(page: string, section: nat, heading: string, text: string)
    | PageSave(page: string, text: string)

  /** How the script ends: after saving the table of contents and the
      category pages, or with an IndexError after the saves made so far. */
  datatype Outcome = Completed(saves: seq<Save>) | Crashed(saves: seq<Save>)

  const TocPage: string := "List of Proposals"

  /** The page title of the data row at index `k` whose first cell is `first`. */
  function Title(k: nat, first: string): string
  {
    "Proposal_" + Decimal.FromNat(k) + ": " + first
  }

  /** The line that lists that page in the table of contents. */
  function TocLine(k: nat, first: string): string
  {
    "* [[" + Title(k, first) + "]] \n"
  }

  /** The text saved for a non-empty last cell. */
  function CategoryTag(c: string): string
  {
    "[[Category:" + c + "]]"
  }

  /** The text saved for cell `j`: a category tag in the last column, the
      cell itself elsewhere. */
  function CellText(row: seq<string>, j: nat): string
    requires j < |row|
  {
    if j == |row| - 1 then CategoryTag(row[j]) else row[j]
  }

  /** Cell `j` is non-empty but has no header, so looking up its section
      title raises IndexError. */
  predicate Faulty(header: seq<string>, row: seq<string>, j: nat)
  {
    j < |row| && row[j] != "" && |header| <= j
  }

  /** No cell before `n` is faulty. */
  predicate FitsUpTo(header: seq<string>, row: seq<string>, n: nat)
  {
    forall j :: 0 <= j < n ==> !Faulty(header, row, j)
  }

  /** No data row before `n` has a faulty cell. */
  predicate RowsFit(rows: seq<seq<string>>, n: nat)
  {
    forall k :: 1 <= k < n && k < |rows| ==> FitsUpTo(rows[0], rows[k], |rows[k]|)
  }

  /** A cell that is not faulty extends the fitting prefix. */
  lemma FitsUpToNext(header: seq<string>, row: seq<string>, n: nat)
    requires FitsUpTo(header, row, n) && !Faulty(header, row, n)
    ensures FitsUpTo(header, row, n + 1)
  {
  }

  /** The first faulty cell of the row, if any. */
  function FirstBadCell(header: seq<string>, row: seq<string>, from: nat): (r: Option<nat>)
    requires FitsUpTo(header, row, from)
    ensures r.None? ==> FitsUpTo(header, row, |row|)
    ensures r.Some? ==> from <= r.value && Faulty(header, row, r.value) && FitsUpTo(header, row, r.value)
    decreases |row| - from
  {
    if |row| <= from then None
    else if Faulty(header, row, from) then Some(from)
    else FirstBadCell(header, row, from + 1)
  }

  /** The search stops at the first faulty cell. */
  lemma {:induction false} FirstBadCellAt(header: seq<string>, row: seq<string>, from: nat, j: nat)
    requires from <= j && Faulty(header, row, j) && FitsUpTo(header, row, j)
    ensures FirstBadCell(header, row, from) == Some(j)
    decreases j - from
  {
    if from < j {
      FirstBadCellAt(header, row, from + 1, j);
    }
  }

  /** The first data row, from `from` on, holding a faulty cell. */
  function FirstBadRow(rows: seq<seq<string>>, from: nat): (r: Option<nat>)
    requires 1 <= from && RowsFit(rows, from)
    ensures r.None? ==> RowsFit(rows, |rows|)
    ensures r.Some? ==> from <= r.value < |rows| && RowsFit(rows, r.value) && FirstBadCell(rows[0], rows[r.value], 0).Some?
    decreases |rows| - from
  {
    if |rows| <= from then None
    else if FirstBadCell(rows[0], rows[from], 0).Some? then Some(from)
    else FirstBadRow(rows, from + 1)
  }

  /** A data row without faulty cells is passed over. */
  lemma FirstBadRowSkip(rows: seq<seq<string>>, from: nat)
    requires 1 <= from < |rows| && RowsFit(rows, from + 1)
    ensures FirstBadRow(rows, from) == FirstBadRow(rows, from + 1)
  {
    assert FitsUpTo(rows[0], rows[from], |rows[from]|);
  }

  /** The search finds the first data row with a faulty cell. */
  lemma {:induction false} FirstBadRowAt(rows: seq<seq<string>>, from: nat, k: nat)
    requires 1 <= from <= k < |rows| && RowsFit(rows, k)
    requires FirstBadCell(rows[0], rows[k], 0).Some?
    ensures FirstBadRow(rows, from) == Some(k)
    decreases k - from
  {
    if from < k {
      FirstBadRowSkip(rows, from);
      FirstBadRowAt(rows, from + 1, k);
    }
  }

  /** When no data row has a faulty cell, the search finds none. */
  lemma {:induction false} FirstBadRowNone(rows: seq<seq<string>>, from: nat)
    requires 1 <= from && RowsFit(rows, |rows|)
    ensures FirstBadRow(rows, from) == None
    decreases |rows| - from
  {
    if from < |rows| {
      FirstBadRowSkip(rows, from);
      FirstBadRowNone(rows, from + 1);
    }
  }

  /** The saves for the cells before `n` of the data row at index `k`. */
  function CellSaves(k: nat, row: seq<string>, header: seq<string>, n: nat): (saves: seq<Save>)
    requires n <= |row| && FitsUpTo(header, row, n)
    ensures |saves| <= n
  {
    if n == 0 then []
    else
      var j := n - 1;
      assert !Faulty(header, row, j);
      CellSaves(k, row, header, j)
        + (if row[j] != "" then [SectionSave(Title(k, row[0]), j, header[j], CellText(row, j))] else [])
  }

  /** The table-of-contents line of a data row: none for an empty row. */
  function RowToc(k: nat, row: seq<string>): string
  {
    if row != [] then TocLine(k, row[0]) else ""
  }

  /** The category a data row names: its last cell, when that is not empty. */
  function RowCategory(row: seq<string>): (c: Option<string>)
    ensures c.Some? <==> row != [] && row[|row| - 1] != ""
    ensures c.Some? ==> c.value == row[|row| - 1]
  {
    if row != [] && row[|row| - 1] != "" then Some(row[|row| - 1]) else None
  }

  /** The category list after a data row: its category appended unless
      the list holds it already. */
  function AddCategory(cats: seq<string>, row: seq<string>): (r: seq<string>)
    ensures |cats| <= |r| <= |cats| + 1 && r[..|cats|] == cats
    ensures NoDuplicates(cats) ==> NoDuplicates(r)
    ensures forall x :: x in r <==> x in cats || RowCategory(row) == Some(x)
  {
    match RowCategory(row)
    case Some(c) => if c in cats then cats else cats + [c]
    case None => cats
  }

  /** The script's `toc_text`, `categories` and saves so far. */
  datatype Progress = Progress(toc: string, categories: seq<string>, saves: seq<Save>)

  /** The progress after the rows before `n`, none of which crashes. */
  function AfterRows(rows: seq<seq<string>>, n: nat): Progress
    requires n <= |rows| && RowsFit(rows, n)
  {
    if n <= 1 then Progress("", [], [])
    else
      var p, k := AfterRows(rows, n - 1), n - 1;
      assert FitsUpTo(rows[0], rows[k], |rows[k]|);
      Progress(p.toc + RowToc(k, rows[k]), AddCategory(p.categories, rows[k]), p.saves + CellSaves(k, rows[k], rows[0], |rows[k]|))
  }

  /** The non-empty last cells of the data rows before `n`, in row order. */
  function LastCells(rows: seq<seq<string>>, n: nat): seq<string>
    requires n <= |rows|
  {
    if n <= 1 then []
    else
      LastCells(rows, n - 1) + match RowCategory(rows[n - 1]) case Some(c) => [c] case None => []
  }

  /** The category list is the non-empty last cells with repeats dropped. */
  lemma {:induction false} AfterRowsCategories(rows: seq<seq<string>>, n: nat)
    requires n <= |rows| && RowsFit(rows, n)
    ensures AfterRows(rows, n).categories == Dedup(LastCells(rows, n))
  {
    if n > 1 {
      AfterRowsCategories(rows, n - 1);
      var cells := LastCells(rows, n - 1);
      match RowCategory(rows[n - 1])
      case Some(c) =>
        DedupSnoc(cells, c);
        DedupMembers(cells, c);
      case None =>
        assert LastCells(rows, n) == cells + [] == cells;
    }
  }

  /** A data row without faulty cells keeps the rows fitting. */
  lemma RowsFitNext(rows: seq<seq<string>>, n: nat)
    requires 1 <= n < |rows| && RowsFit(rows, n)
    requires FirstBadCell(rows[0], rows[n], 0).None?
    ensures RowsFit(rows, n + 1)
  {
  }

  /** One empty page per category, in list order. */
  function CategoryPages(cats: seq<string>): seq<Save>
  {
    seq(|cats|, i requires 0 <= i < |cats| => PageSave("Category:" + cats[i], ""))
  }

  /** What the script does with the rows `rows` of the CSV file. */
  function Expected(rows: seq<seq<string>>): Outcome
  {
    match FirstBadRow(rows, 1)
    case None =>
      var p := AfterRows(rows, |rows|);
      Completed(p.saves + [PageSave(TocPage, p.toc)] + CategoryPages(p.categories))
    case Some(k) =>
      Crashed(AfterRows(rows, k).saves + CellSaves(k, rows[k], rows[0], FirstBadCell(rows[0], rows[k], 0).value))
  }

  /** A page title fixes both the row index and the first cell: the
      digits of the index end where ": " starts, so distinct data rows get
      distinct pages. */
  lemma TitleInjective(k: nat, a: string, m: nat, b: string)
    requires Title(k, a) == Title(m, b)
    ensures k == m && a == b
  {
    var p := "Proposal_";
    var dk, dm := Decimal.FromNat(k), Decimal.FromNat(m);
    var r := Title(k, a)[|p|..];
    assert r == dk + (": " + a) && r == dm + (": " + b);
    Decimal.DigitRunOf(dk, ": " + a);
    Decimal.DigitRunOf(dm, ": " + b);
    assert dk == r[..|dk|] == dm;
    Decimal.FromNatInjective(k, m);
    assert a == r[|dk| + 2..] == b;
  }

  /** `s` is the save of a non-empty cell before `n`: a section of the
      row's page numbered by the cell's column, titled by that column's
      header and holding the cell's text. */
  predicate IsCellSave(k: nat, row: seq<string>, header: seq<string>, n: nat, s: Save)
  {
    && s.SectionSave?
    && s.section < n <= |row|
    && s.page == Title(k, row[0])
    && row[s.section] != ""
    && s.section < |header|
    && s.heading == header[s.section]
    && s.text == CellText(row, s.section)
  }

  /** Every save of the cells before `n` is such a save. */
  lemma {:induction false} CellSavesEach(k: nat, row: seq<string>, header: seq<string>, n: nat)
    requires n <= |row| && FitsUpTo(header, row, n)
    ensures forall i :: 0 <= i < |CellSaves(k, row, header, n)| ==> IsCellSave(k, row, header, n, CellSaves(k, row, header, n)[i])
  {
    if n > 0 {
      CellSavesEach(k, row, header, n - 1);
      var prefix := CellSaves(k, row, header, n - 1);
      var saves := CellSaves(k, row, header, n);
      assert !Faulty(header, row, n - 1);
      forall i | 0 <= i < |saves|
        ensures IsCellSave(k, row, header, n, saves[i])
      {
        if i < |prefix| {
          assert saves[i] == prefix[i];
          assert IsCellSave(k, row, header, n - 1, prefix[i]);
        }
      }
    }
  }

  /** All of `saves` are section saves, in increasing section order. */
  predicate SectionsIncrease(saves: seq<Save>)
  {
    forall i, i' :: 0 <= i < i' < |saves| ==>
      saves[i].SectionSave? && saves[i'].SectionSave? && saves[i].section < saves[i'].section
  }

  /** The saves come in column order. */
  lemma {:induction false} CellSavesIncreasing(k: nat, row: seq<string>, header: seq<string>, n: nat)
    requires n <= |row| && FitsUpTo(header, row, n)
    ensures SectionsIncrease(CellSaves(k, row, header, n))
  {
    if n > 0 {
      CellSavesIncreasing(k, row, header, n - 1);
      CellSavesEach(k, row, header, n - 1);
      var prefix := CellSaves(k, row, header, n - 1);
      var saves := CellSaves(k, row, header, n);
      forall i, i' | 0 <= i < i' < |saves|
        ensures saves[i].SectionSave? && saves[i'].SectionSave? && saves[i].section < saves[i'].section
      {
        assert saves[i] == prefix[i];
        if i' < |prefix| {
          assert saves[i'] == prefix[i'];
        } else {
          assert IsCellSave(k, row, header, n - 1, prefix[i]);
          assert saves[i'].section == n - 1;
        }
      }
    }
  }

  /** Some save in `saves` is for section `j`. */
  predicate HasSectionSave(saves: seq<Save>, j: nat)
  {
    exists i :: 0 <= i < |saves| && saves[i].SectionSave? && saves[i].section == j
  }

  /** Every non-empty cell before `n` has a save for its column. */
  lemma {:induction false} CellSavesCover(k: nat, row: seq<string>, header: seq<string>, n: nat)
    requires n <= |row| && FitsUpTo(header, row, n)
    ensures forall j :: 0 <= j < n && row[j] != "" ==> HasSectionSave(CellSaves(k, row, header, n), j)
  {
    if n > 0 {
      CellSavesCover(k, row, header, n - 1);
      var prefix := CellSaves(k, row, header, n - 1);
      var saves := CellSaves(k, row, header, n);
      forall j | 0 <= j < n && row[j] != ""
        ensures HasSectionSave(saves, j)
      {
        if j < n - 1 {
          assert HasSectionSave(prefix, j);
          var i :| 0 <= i < |prefix| && prefix[i].SectionSave? && prefix[i].section == j;
          assert saves[i] == prefix[i];
        } else {
          assert saves[|prefix|].section == j;
        }
      }
    }
  }

  /** The rows at positions below `n` that name category `c`. */
  lemma {:induction false} LastCellsMembers(rows: seq<seq<string>>, n: nat, c: string)
    requires n <= |rows|
    ensures c in LastCells(rows, n) <==> exists k :: 1 <= k < n && RowCategory(rows[k]) == Some(c)
  {
    if n > 1 {
      LastCellsMembers(rows, n - 1, c);
      if RowCategory(rows[n - 1]) == Some(c) {
        assert c in LastCells(rows, n);
      }
    }
  }

  /** The category list holds each non-empty last cell of a data row once,
      and nothing else, in the order the cells first occur. */
  lemma CategoriesExact(rows: seq<seq<string>>, n: nat)
    requires n <= |rows| && RowsFit(rows, n)
    ensures AfterRows(rows, n).categories == Dedup(LastCells(rows, n))
    ensures NoDuplicates(AfterRows(rows, n).categories)
    ensures forall c :: c in AfterRows(rows, n).categories <==> exists k :: 1 <= k < n && RowCategory(rows[k]) == Some(c)
    ensures var cats := AfterRows(rows, n).categories;
            forall i, j :: 0 <= i < j < |cats| ==>
              FirstIndex(LastCells(rows, n), cats[i]) < FirstIndex(LastCells(rows, n), cats[j])
  {
    AfterRowsCategories(rows, n);
    forall c ensures c in AfterRows(rows, n).categories <==> exists k :: 1 <= k < n && RowCategory(rows[k]) == Some(c) {
      DedupMembers(LastCells(rows, n), c);
      LastCellsMembers(rows, n, c);
    }
    DedupFirstSeenOrder(LastCells(rows, n));
  }

  /** The script stops with an IndexError exactly when some data row has a
      non-empty cell beyond the header. */
  lemma CrashIff(rows: seq<seq<string>>)
    ensures Expected(rows).Crashed? <==> exists k, j :: 1 <= k < |rows| && Faulty(rows[0], rows[k], j)
  {
    match FirstBadRow(rows, 1)
    case Some(k) =>
      var j := FirstBadCell(rows[0], rows[k], 0).value;
      assert Faulty(rows[0], rows[k], j);
    case None =>
      forall k, j | 1 <= k < |rows| ensures !Faulty(rows[0], rows[k], j) {
        assert FitsUpTo(rows[0], rows[k], |rows[k]|);
      }
  }

  /** With no data rows, only the empty table of contents is saved. */
  lemma HeaderOnly(rows: seq<seq<string>>)
    requires |rows| <= 1
    ensures Expected(rows) == Completed([PageSave(TocPage, "")])
  {
  }

  /** A one-column data row: its only cell is also its last, so it is
      saved as a category tag and gets a category page. */
  lemma SingleColumn(name: string, x: string)
    requires x != ""
    ensures Expected([[name], [x]]) ==
              Completed([SectionSave(Title(1, x), 0, name, CategoryTag(x)),
                         PageSave(TocPage, TocLine(1, x)),
                         PageSave("Category:" + x, "")])
  {
    var rows := [[name], [x]];
    assert FirstBadCell(rows[0], rows[1], 1) == None;
    assert FirstBadCell(rows[0], rows[1], 0) == None;
    assert FirstBadRow(rows, 2) == None;
    assert FirstBadRow(rows, 1) == None;
    assert AfterRows(rows, 2) == Progress(TocLine(1, x), [x], [SectionSave(Title(1, x), 0, name, CategoryTag(x))]);
  }

  /** Copying the first row into `header_array`. */
  method ReadHeader(row: seq<string>) returns (headerArray: seq<string>)
    ensures headerArray == row
  {
    headerArray := [];
    var c := 0;
    while c < |row|
      invariant c <= |row| && headerArray == row[..c]
    {
      headerArray := headerArray + [row[c]];
      c := c + 1;
    }
  }

  /** The body of the cell loop for cell `cellNum`: the first cell sets
      the page title and adds the table-of-contents line; a non-empty cell
      becomes the text of one section (a category tag in the last column,
      which also joins the category list when new), and it crashes when
      the header has no column of that number. */
  method SaveCell(rowNum: nat, row: seq<string>, headerArray: seq<string>, cellNum: nat,
                  title0: string, toc0: string, cats0: seq<string>)
    returns (title: string, tocText: string, categories: seq<string>, save: seq<Save>, crashed: bool)
    requires cellNum < |row|
    ensures cellNum == 0 ==> title == Title(rowNum, row[0]) && tocText == toc0 + TocLine(rowNum, row[0])
    ensures cellNum > 0 ==> title == title0 && tocText == toc0
    ensures crashed <==> Faulty(headerArray, row, cellNum)
    ensures !crashed ==> save == if row[cellNum] != "" then [SectionSave(title, cellNum, headerArray[cellNum], CellText(row, cellNum))] else []
    ensures !crashed ==> categories == if cellNum < |row| - 1 then cats0 else AddCategory(cats0, row)
  {
    title, tocText, categories, save, crashed := title0, toc0, cats0, [], false;
    var cell := row[cellNum];
    if cellNum == 0 {
      title := Title(rowNum, cell);
      tocText := tocText + TocLine(rowNum, cell);
    }
    if cell != "" {
      var cellText;
      if cellNum == |row| - 1 {
        cellText := CategoryTag(cell);
        if cell !in categories {
          categories := categories + [cell];
        }
      } else {
        cellText := cell;
      }
      if |headerArray| <= cellNum {
        crashed := true;
        return;
      }
      save := [SectionSave(title, cellNum, headerArray[cellNum], cellText)];
    }
  }

  /** The cell loop for the data row at index `rowNum`: its title and table
      of contents line, one save per non-empty cell (returned in order in
      `rowSaves`), and its category; `crashed` when a non-empty cell has no
      header. */
  method SaveCells(rowNum: nat, row: seq<string>, headerArray: seq<string>, toc0: string, cats0: seq<string>)
    returns (tocText: string, categories: seq<string>, rowSaves: seq<Save>, crashed: bool)
    ensures crashed <==> FirstBadCell(headerArray, row, 0).Some?
    ensures crashed ==> rowSaves == CellSaves(rowNum, row, headerArray, FirstBadCell(headerArray, row, 0).value)
    ensures !crashed ==>
              && tocText == toc0 + RowToc(rowNum, row)
              && rowSaves == CellSaves(rowNum, row, headerArray, |row|)
              && categories == AddCategory(cats0, row)
  {
    tocText, categories, rowSaves, crashed := toc0, cats0, [], false;
    var cellNum := 0;
    var title := "";
    while cellNum < |row|
      invariant cellNum <= |row|
      invariant FitsUpTo(headerArray, row, cellNum)
      invariant cellNum > 0 ==> title == Title(rowNum, row[0])
      invariant tocText == toc0 + (if cellNum > 0 then TocLine(rowNum, row[0]) else "")
      invariant rowSaves == CellSaves(rowNum, row, headerArray, cellNum)
      invariant categories == if cellNum < |row| then cats0 else AddCategory(cats0, row)
    {
      var save;
      title, tocText, categories, save, crashed := SaveCell(rowNum, row, headerArray, cellNum, title, tocText, categories);
      if crashed {
        FirstBadCellAt(headerArray, row, 0, cellNum);
        return;
      }
      FitsUpToNext(headerArray, row, cellNum);
      rowSaves := rowSaves + save;
      cellNum := cellNum + 1;
    }
  }

  /** The category-page loop: one empty page per category, in list order. */
  method SaveCategoryPages(categories: seq<string>, saves0: seq<Save>) returns (saves: seq<Save>)
    ensures saves == saves0 + CategoryPages(categories)
  {
    saves := saves0;
    var i := 0;
    while i < |categories|
      invariant i <= |categories|
      invariant saves == saves0 + CategoryPages(categories[..i])
    {
      saves := saves + [PageSave("Category:" + categories[i], "")];
      i := i + 1;
    }
    assert categories[..i] == categories;
  }

  /** The script: the row loop, the table-of-contents save and the
      category-page loop. `rowNum` is both the loop position and the
      script's `row_num`, which counts every row, the header included. */
  method Run(rows: seq<seq<string>>) returns (out: Outcome)
    ensures out == Expected(rows)
  {
    var tocText := "";
    var categories: seq<string> := [];
    var saves: seq<Save> := [];
    var isHeader := true;
    var rowNum := 0;
    var headerArray: seq<string> := [];
    while rowNum < |rows|
      invariant rowNum <= |rows|
      invariant isHeader <==> rowNum == 0
      invariant rowNum > 0 ==> headerArray == rows[0]
      invariant RowsFit(rows, rowNum)
      invariant Progress(tocText, categories, saves) == AfterRows(rows, rowNum)
    {
      var row := rows[rowNum];
      if isHeader {
        headerArray := ReadHeader(row);
        isHeader := false;
      } else {
        var crashed, rowSaves;
        tocText, categories, rowSaves, crashed := SaveCells(rowNum, row, headerArray, tocText, categories);
        saves := saves + rowSaves;
        if crashed {
          FirstBadRowAt(rows, 1, rowNum);
          return Crashed(saves);
        }
        RowsFitNext(rows, rowNum);
      }
      rowNum := rowNum + 1;
    }
    FirstBadRowNone(rows, 1);
    saves := saves + [PageSave(TocPage, tocText)];
    saves := SaveCategoryPages(categories, saves);
    return Completed(saves);
  }
}
