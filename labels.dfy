/**
 * `_renaming_class_label` (temp.py, lines 30-36): three malformed attack
 * labels, each spelled with the byte 0x96 (an en dash in Windows-1252, read
 * as U+0096 under latin1), are rewritten to canonical spellings in the
 * `Label` column.  The source walks the dictionary's entries in order and,
 * for each, replaces in place, over the `Label` column, every cell exactly
 * equal to the entry's key by the entry's value.
 */
module Labels {
  import opened Wrappers
  import opened Table

  /** `df.Label` raises AttributeError when the frame has no such column. */
  datatype Error = MissingColumn(name: string)

  /** One dictionary entry: malformed spelling, canonical spelling. */
  type Entry = (string, string)

  /** The dictionary of lines 31-33, as its items in insertion order. */
  const LabelEntries: seq<Entry> := [
    ("Web Attack \U{96} Brute Force", "Web Attack-Brute Force"),
    ("Web Attack \U{96} XSS", "Web Attack-XSS"),
    ("Web Attack \U{96} Sql Injection", "Web Attack-Sql Injection")
  ]

  /** The dictionary an entry list denotes; as in a dict literal, a later key wins. */
  function ToMap(es: seq<Entry>): map<string, string> {
    if es == [] then map[] else ToMap(es[..|es| - 1])[es[|es| - 1].0 := es[|es| - 1].1]
  }

  /** The keys of an entry list. */
  function Keys(es: seq<Entry>): set<string> {
    set e | e in es :: e.0
  }

  const LabelMap: map<string, string> := ToMap(LabelEntries)

  /** No two entries share a malformed spelling. */
  ghost predicate KeysDistinct(es: seq<Entry>) {
    forall i, j :: 0 <= i < j < |es| ==> es[i].0 != es[j].0
  }

  /** No canonical spelling is itself a malformed spelling. */
  ghost predicate NoValueIsKey(es: seq<Entry>) {
    forall i, j :: 0 <= i < |es| && 0 <= j < |es| ==> es[i].1 != es[j].0
  }

  /** The pure per-cell lookup: a text cell that is a key becomes its value. */
  function Lookup(m: map<string, string>, v: Cell): Cell {
    match v
    case Some(Text(s)) => if s in m then Some(Text(m[s])) else v
    case _ => v
  }

  /** The canonical spelling of one `Label` cell. */
  function Canonical(v: Cell): Cell {
    Lookup(LabelMap, v)
  }

  /** The whole `Label` column, each cell looked up once. */
  function CanonicalLabels(col: seq<Cell>): (r: seq<Cell>)
    ensures |r| == |col|
  {
    seq(|col|, i requires 0 <= i < |col| => Canonical(col[i]))
  }

  /** What one `Series.replace(old, new)` does to a cell: exact match only. */
  function ReplaceCell(v: Cell, e: Entry): Cell {
    if v == Some(Text(e.0)) then Some(Text(e.1)) else v
  }

  /** One `Series.replace(old, new)` over the column. */
  function ReplaceAll(col: seq<Cell>, e: Entry): (r: seq<Cell>)
    ensures |r| == |col|
  {
    seq(|col|, i requires 0 <= i < |col| => ReplaceCell(col[i], e))
  }

  /** The replacements of the loop on line 35, one per entry, in order, on one cell. */
  function ApplyCell(v: Cell, es: seq<Entry>): Cell {
    if es == [] then v else ReplaceCell(ApplyCell(v, es[..|es| - 1]), es[|es| - 1])
  }

  /** The same replacements applied to the whole column. */
  function ApplyInOrder(col: seq<Cell>, es: seq<Entry>): seq<Cell> {
    if es == [] then col else ReplaceAll(ApplyInOrder(col, es[..|es| - 1]), es[|es| - 1])
  }

  // ---------------------------------------------------------------------
  // The in-place operations

  /** One in-place `Series.replace` on the column: every exact match rewritten at once. */
  method ReplaceInPlace(col: array<Cell>, e: Entry)
    modifies col
    ensures col[..] == ReplaceAll(old(col[..]), e)
  {
    forall i | 0 <= i < col.Length {
      col[i] := ReplaceCell(col[i], e);
    }
  }

  /**
   * The loop of lines 35-36 on the `Label` column: the column ends up equal
   * to the single per-cell lookup of every original cell.
   */
  method RenamingClassLabel(col: array<Cell>)
    modifies col
    ensures col[..] == CanonicalLabels(old(col[..]))
  {
    ghost var original := col[..];
    var k := 0;
    while k < |LabelEntries|
      invariant 0 <= k <= |LabelEntries|
      invariant col[..] == ApplyInOrder(original, LabelEntries[..k])
    {
      ReplaceInPlace(col, LabelEntries[k]);
      assert LabelEntries[..k + 1][..k] == LabelEntries[..k];
      k := k + 1;
    }
    assert LabelEntries[..k] == LabelEntries;
    LabelsWellFormed();
    SequentialIsLookup(original, LabelEntries);
  }

  /**
   * `_renaming_class_label` on a whole table.  `df.Label` raises when the
   * frame has no `Label` column; otherwise the `Label` cells are replaced by
   * their canonical spelling and every other cell, the header and the number
   * of rows stay as they were.
   */
  method RenameClassLabelInTable(t: Frame) returns (r: Result<Frame, Error>)
    requires t.WellFormed()
    ensures r.Failure? <==> "Label" !in t.columns
    ensures r.Failure? ==> r.error == MissingColumn("Label")
    ensures r.Success? ==>
      var j := IndexOf(t.columns, "Label");
      && r.value.columns == t.columns
      && r.value.WellFormed()
      && |r.value.rows| == |t.rows|
      && (forall i, c :: 0 <= i < |t.rows| && 0 <= c < |t.columns| ==>
            r.value.rows[i][c] == if c == j then Canonical(t.rows[i][c]) else t.rows[i][c])
  {
    if "Label" !in t.columns {
      return Failure(MissingColumn("Label"));
    }
    var j := IndexOf(t.columns, "Label");
    var col := new Cell[|t.rows|](i requires 0 <= i < |t.rows| => t.rows[i][j]);
    RenamingClassLabel(col);
    var fixed := col[..];
    var rows := seq(|t.rows|, i requires 0 <= i < |t.rows| => t.rows[i][j := fixed[i]]);
    r := Success(Frame(t.columns, rows));
  }

  /** The position of the first column called `name`, as the attribute `df.<name>` finds it. */
  function IndexOf(columns: seq<string>, name: string): (j: nat)
    requires name in columns
    ensures j < |columns| && columns[j] == name
    ensures name !in columns[..j]
  {
    if columns[0] == name then 0 else
      assert columns[1..][..IndexOf(columns[1..], name)] == columns[..IndexOf(columns[1..], name) + 1][1..];
      IndexOf(columns[1..], name) + 1
  }

  // ---------------------------------------------------------------------
  // Properties

  /** The dictionary of lines 31-33 has distinct keys and no value is a key. */
  lemma LabelsWellFormed()
    ensures KeysDistinct(LabelEntries)
    ensures NoValueIsKey(LabelEntries)
  {
  }

  /** The dictionary maps each malformed spelling to its canonical one, and has no other key. */
  lemma LabelsContents()
    ensures LabelMap == map[
      "Web Attack \U{96} Brute Force" := "Web Attack-Brute Force",
      "Web Attack \U{96} XSS" := "Web Attack-XSS",
      "Web Attack \U{96} Sql Injection" := "Web Attack-Sql Injection"]
  {
    var e := LabelEntries;
    assert e[..3] == e && e[..3][..2] == e[..2] && e[..2][..1] == e[..1] && e[..1][..0] == [];
    assert ToMap(e[..1]) == map[e[0].0 := e[0].1];
    assert ToMap(e[..2]) == map[e[0].0 := e[0].1, e[1].0 := e[1].1];
    assert ToMap(e) == map[e[0].0 := e[0].1, e[1].0 := e[1].1, e[2].0 := e[2].1];
  }

  /** A key of the denoted dictionary comes from some entry, and its value is that entry's. */
  lemma {:induction false} ToMapKeys(es: seq<Entry>)
    requires KeysDistinct(es)
    ensures ToMap(es).Keys == Keys(es)
    ensures forall i :: 0 <= i < |es| ==> ToMap(es)[es[i].0] == es[i].1
  {
    if es != [] {
      var init := es[..|es| - 1];
      ToMapKeys(init);
      assert es == init + [es[|es| - 1]];
      forall i | 0 <= i < |init| ensures init[i].0 != es[|es| - 1].0 {
      }
    }
  }

  /** On one cell, the replacements in entry order agree with one lookup in the dictionary. */
  lemma {:induction false} ApplyCellIsLookup(v: Cell, es: seq<Entry>)
    requires KeysDistinct(es) && NoValueIsKey(es)
    ensures ApplyCell(v, es) == Lookup(ToMap(es), v)
  {
    if es != [] {
      var init, last := es[..|es| - 1], es[|es| - 1];
      ApplyCellIsLookup(v, init);
      ToMapKeys(init);
      assert last.0 !in Keys(init);
      if Lookup(ToMap(init), v) == Some(Text(last.0)) {
        // last.0 is no value of init, so the cell already had this spelling
        forall s | s in ToMap(init) ensures ToMap(init)[s] != last.0 {
          var i :| 0 <= i < |init| && init[i].0 == s;
          assert es[i].1 != es[|es| - 1].0;
        }
      }
    }
  }

  /** The whole column: sequential replacement equals per-cell lookup. */
  lemma {:induction false} SequentialIsLookup(col: seq<Cell>, es: seq<Entry>)
    requires KeysDistinct(es) && NoValueIsKey(es)
    ensures ApplyInOrder(col, es) == seq(|col|, i requires 0 <= i < |col| => Lookup(ToMap(es), col[i]))
  {
    ApplyInOrderAt(col, es);
    forall i | 0 <= i < |col| ensures ApplyInOrder(col, es)[i] == Lookup(ToMap(es), col[i]) {
      ApplyCellIsLookup(col[i], es);
    }
  }

  /** The column-wide replacements act cell by cell. */
  lemma {:induction false} ApplyInOrderAt(col: seq<Cell>, es: seq<Entry>)
    ensures |ApplyInOrder(col, es)| == |col|
    ensures forall i :: 0 <= i < |col| ==> ApplyInOrder(col, es)[i] == ApplyCell(col[i], es)
  {
    if es != [] {
      ApplyInOrderAt(col, es[..|es| - 1]);
    }
  }

  /**
   * Whatever order the three entries are taken in, the loop produces the
   * per-cell lookup: any entry list holding exactly the dictionary's items
   * once each gives the same column.
   */
  lemma AnyOrderIsLookup(col: seq<Cell>, es: seq<Entry>)
    requires KeysDistinct(es)
    requires forall e :: e in es <==> e in LabelMap.Items
    ensures ApplyInOrder(col, es) == CanonicalLabels(col)
  {
    ToMapOfItems(es, LabelMap);
    LabelsContents();
    forall i, j | 0 <= i < |es| && 0 <= j < |es| ensures es[i].1 != es[j].0 {
      assert es[i] in LabelMap.Items && es[j] in LabelMap.Items;
    }
    SequentialIsLookup(col, es);
  }

  /** An entry list holding exactly the items of a dictionary, with distinct keys, denotes it. */
  lemma ToMapOfItems(es: seq<Entry>, m: map<string, string>)
    requires KeysDistinct(es)
    requires forall e :: e in es <==> e in m.Items
    ensures ToMap(es) == m
  {
    ToMapKeys(es);
    forall s | s in m ensures s in ToMap(es) && ToMap(es)[s] == m[s] {
      assert (s, m[s]) in m.Items;
      var i :| 0 <= i < |es| && es[i] == (s, m[s]);
    }
    forall s | s in ToMap(es) ensures s in m {
      var i :| 0 <= i < |es| && es[i].0 == s;
      assert es[i] in m.Items;
    }
  }

  /**
   * A malformed spelling becomes its canonical partner; every other cell
   * (another string, a near miss, a number, NaN) is left as it is.
   */
  lemma CanonicalCases(v: Cell)
    ensures v == Some(Text("Web Attack \U{96} Brute Force")) ==> Canonical(v) == Some(Text("Web Attack-Brute Force"))
    ensures v == Some(Text("Web Attack \U{96} XSS")) ==> Canonical(v) == Some(Text("Web Attack-XSS"))
    ensures v == Some(Text("Web Attack \U{96} Sql Injection")) ==> Canonical(v) == Some(Text("Web Attack-Sql Injection"))
    ensures !(v.Some? && v.value.Text? && v.value.s in LabelMap) ==> Canonical(v) == v
  {
    LabelsContents();
  }

  /** Running `_renaming_class_label` a second time changes nothing. */
  lemma CanonicalLabelsIdempotent(col: seq<Cell>)
    ensures CanonicalLabels(CanonicalLabels(col)) == CanonicalLabels(col)
  {
    LabelsContents();
  }
}
