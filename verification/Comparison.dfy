/** The summary table: the two stacks paired by size and rate. */
module Comparison {
  import opened Bytes
  import opened Sorting
  import opened Snapshot
  import SizeLabel

  datatype Slot = Slot(size: int, rate: string)

  /** A row the table takes up: its size is a number and its stack one of the two compared. */
  predicate Comparable(r: Row, parse: IntReader) {
    "size" in r && parse(r["size"]).Some? && Field(r, "stack", "") in ["covesa", "sgmenon"]
  }

  function SlotOf(r: Row, parse: IntReader): Slot
    requires Comparable(r, parse)
  {
    Slot(parse(r["size"]).value, Field(r, "rate_hz", ""))
  }

  predicate Matches(r: Row, parse: IntReader, slot: Slot, stack: string) {
    Comparable(r, parse) && SlotOf(r, parse) == slot && Field(r, "stack", "") == stack
  }

  /** The last of the first n rows for a slot and stack; -1 if none. */
  function LastMatch(rows: seq<Row>, parse: IntReader, n: nat, slot: Slot, stack: string): (k: int)
    requires n <= |rows|
    ensures -1 <= k < n && (k >= 0 ==> Matches(rows[k], parse, slot, stack))
    ensures forall j :: 0 <= j < n && k < j ==> !Matches(rows[j], parse, slot, stack)
    decreases n
  {
    if n == 0 then -1
    else if Matches(rows[n - 1], parse, slot, stack) then n - 1
    else LastMatch(rows, parse, n - 1, slot, stack)
  }

  function LastRow(rows: seq<Row>, parse: IntReader, n: nat, slot: Slot, stack: string): Option<Row>
    requires n <= |rows|
  {
    var k := LastMatch(rows, parse, n, slot, stack);
    if k < 0 then None else Some(rows[k])
  }

  /** One line of the table, without the improvement column. */
  datatype Line = Line(slot: Slot, sizeLabel: string, n: string,
                       covMean: string, sgmMean: string, covP99: string, sgmP99: string)

  function Cell(r: Option<Row>, name: string): string {
    if r.Some? then Field(r.value, name, "NA") else "NA"
  }

  function Compare(slot: Slot, cov: Option<Row>, sgm: Option<Row>): Line {
    var covN, sgmN := Cell(cov, "n"), Cell(sgm, "n");
    Line(slot, SizeLabel.Label(slot.size), if covN == sgmN then covN else covN + " / " + sgmN,
         Cell(cov, "mean_us"), Cell(sgm, "mean_us"), Cell(cov, "p99_us"), Cell(sgm, "p99_us"))
  }

  function LineOf(rows: seq<Row>, parse: IntReader, slot: Slot): Line {
    Compare(slot, LastRow(rows, parse, |rows|, slot, "covesa"), LastRow(rows, parse, |rows|, slot, "sgmenon"))
  }

  function SlotLeq(a: Slot, b: Slot): bool {
    a.size <= b.size && (a.size == b.size ==> TextLeq(a.rate, b.rate))
  }

  lemma SlotOrder()
    ensures Total(SlotLeq) && Transitive(SlotLeq)
  {
    forall x, y ensures SlotLeq(x, y) || SlotLeq(y, x) {
      TextTotal(x.rate, y.rate);
    }
    forall x, y, z | SlotLeq(x, y) && SlotLeq(y, z) ensures SlotLeq(x, z) {
      if x.size == z.size {
        TextTransitive(x.rate, y.rate, z.rate);
      }
    }
  }

  ghost predicate Occurs(rows: seq<Row>, parse: IntReader, n: nat, slot: Slot)
    requires n <= |rows|
  {
    exists j :: 0 <= j < n && Comparable(rows[j], parse) && SlotOf(rows[j], parse) == slot
  }

  ghost predicate Listed(out: seq<Line>, slot: Slot) {
    exists a :: 0 <= a < |out| && out[a].slot == slot
  }

  /** Every slot that occurs, once, ascending by size and then rate, with each stack's last row. */
  ghost predicate IsComparison(rows: seq<Row>, parse: IntReader, out: seq<Line>) {
    (forall a :: 0 <= a < |out| ==>
       Occurs(rows, parse, |rows|, out[a].slot) && out[a] == LineOf(rows, parse, out[a].slot))
    && (forall slot :: Occurs(rows, parse, |rows|, slot) ==> Listed(out, slot))
    && (forall a, b :: 0 <= a < b < |out| ==> SlotLeq(out[a].slot, out[b].slot) && out[a].slot != out[b].slot)
  }

  // ------------------------------------------------------------------ comparison_rows

  type Table = map<Slot, map<string, Row>>

  function Entry(table: Table, slot: Slot, stack: string): Option<Row> {
    if slot in table && stack in table[slot] then Some(table[slot][stack]) else None
  }

  ghost predicate Tabulates(table: Table, rows: seq<Row>, parse: IntReader, n: nat)
    requires n <= |rows|
  {
    (forall slot, stack :: Entry(table, slot, stack) == LastRow(rows, parse, n, slot, stack))
    && (forall slot :: slot in table <==> Occurs(rows, parse, n, slot))
  }

  ghost predicate Distinct(order: seq<Slot>) {
    forall a, b :: 0 <= a < b < |order| ==> order[a] != order[b]
  }

  ghost predicate ListsSlots(order: seq<Slot>, table: Table) {
    Distinct(order) && forall slot :: slot in table <==> slot in order
  }

  function Tabulated(table: Table, r: Row, parse: IntReader): Table {
    if !Comparable(r, parse) then table
    else
      var slot := SlotOf(r, parse);
      table[slot := (if slot in table then table[slot] else map[])[Field(r, "stack", "") := r]]
  }

  lemma TabulatedStep(table: Table, rows: seq<Row>, parse: IntReader, n: nat)
    requires n < |rows| && Tabulates(table, rows, parse, n)
    ensures Tabulates(Tabulated(table, rows[n], parse), rows, parse, n + 1)
  {
    var after := Tabulated(table, rows[n], parse);
    forall slot, stack ensures Entry(after, slot, stack) == LastRow(rows, parse, n + 1, slot, stack) {
      assert Entry(table, slot, stack) == LastRow(rows, parse, n, slot, stack);
      assert LastMatch(rows, parse, n + 1, slot, stack)
          == if Matches(rows[n], parse, slot, stack) then n else LastMatch(rows, parse, n, slot, stack);
    }
    forall slot ensures slot in after <==> Occurs(rows, parse, n + 1, slot) {
      assert slot in table <==> Occurs(rows, parse, n, slot);
    }
  }

  lemma ListsGrow(order: seq<Slot>, table: Table, slot: Slot, inner: map<string, Row>)
    requires ListsSlots(order, table)
    ensures ListsSlots(if slot in table then order else order + [slot], table[slot := inner])
  {
  }

  lemma TwoUpdates(table: Table, slot: Slot, first: map<string, Row>, second: map<string, Row>)
    ensures table[slot := first][slot := second] == table[slot := second]
  {
  }

  /** The nested dictionary, with the insertion order of its keys. */
  method Tabulate(rows: seq<Row>, parse: IntReader) returns (order: seq<Slot>, table: Table)
    ensures Tabulates(table, rows, parse, |rows|) && ListsSlots(order, table)
  {
    order, table := [], map[];
    for n := 0 to |rows|
      invariant Tabulates(table, rows, parse, n) && ListsSlots(order, table)
    {
      hide Tabulates, ListsSlots, Comparable, SlotOf, Field;
      TabulatedStep(table, rows, parse, n);
      if Comparable(rows[n], parse) {
        var slot := SlotOf(rows[n], parse);
        var stack := Field(rows[n], "stack", "");
        ListsGrow(order, table, slot, (if slot in table then table[slot] else map[])[stack := rows[n]]);
        TwoUpdates(table, slot, map[], map[][stack := rows[n]]);
        if slot !in table {
          order := order + [slot];
          table := table[slot := map[]];
        }
        table := table[slot := table[slot][stack := rows[n]]];
      }
    }
  }

  function TableLine(table: Table, slot: Slot): Line {
    Compare(slot, Entry(table, slot, "covesa"), Entry(table, slot, "sgmenon"))
  }

  lemma TableLineIsLine(table: Table, rows: seq<Row>, parse: IntReader, slot: Slot)
    requires Tabulates(table, rows, parse, |rows|)
    ensures TableLine(table, slot) == LineOf(rows, parse, slot) && TableLine(table, slot).slot == slot
  {
  }

  ghost predicate IsTableLine(table: Table, line: Line) {
    line == TableLine(table, line.slot)
  }

  lemma SortedComparison(rows: seq<Row>, parse: IntReader, order: seq<Slot>, table: Table, p: seq<nat>, out: seq<Line>)
    requires Tabulates(table, rows, parse, |rows|) && ListsSlots(order, table) && IsStableOrder(order, SlotLeq, p)
    requires |out| == |p|
    requires forall a :: 0 <= a < |p| ==> out[a].slot == order[p[a]] && IsTableLine(table, out[a])
    ensures IsComparison(rows, parse, out)
  {
    forall a | 0 <= a < |out|
      ensures Occurs(rows, parse, |rows|, out[a].slot) && out[a] == LineOf(rows, parse, out[a].slot)
    {
      assert IsTableLine(table, out[a]) && order[p[a]] in order;
      TableLineIsLine(table, rows, parse, out[a].slot);
    }
    forall slot | Occurs(rows, parse, |rows|, slot) ensures Listed(out, slot) {
      assert slot in order;
      var i :| 0 <= i < |order| && order[i] == slot;
      assert i in p;
      var a :| 0 <= a < |p| && p[a] == i;
      assert out[a].slot == slot;
    }
    forall a, b | 0 <= a < b < |out| ensures SlotLeq(out[a].slot, out[b].slot) && out[a].slot != out[b].slot {
      assert Goes(order, SlotLeq, p[a], p[b]);
    }
  }

  // ------------------------------------------------------------ the table, in the columns' own terms

  /** A row about that size, rate and stack. */
  ghost predicate RowFor(r: Row, parse: IntReader, slot: Slot, stack: string) {
    && "size" in r && parse(r["size"]) == Some(slot.size)
    && Field(r, "rate_hz", "") == slot.rate && Field(r, "stack", "") == stack
  }

  /** r is the last row about them, or None when there is none. */
  ghost predicate LastFor(rows: seq<Row>, parse: IntReader, slot: Slot, stack: string, r: Option<Row>) {
    match r
    case None => forall j :: 0 <= j < |rows| ==> !RowFor(rows[j], parse, slot, stack)
    case Some(x) => exists k: nat :: LastAt(rows, parse, slot, stack, x, k)
  }

  ghost predicate LastAt(rows: seq<Row>, parse: IntReader, slot: Slot, stack: string, x: Row, k: nat) {
    && k < |rows| && rows[k] == x && RowFor(x, parse, slot, stack)
    && forall j :: k < j < |rows| ==> !RowFor(rows[j], parse, slot, stack)
  }

  /** The text of that column, or "NA" when there is no row or no such column. */
  ghost predicate Shows(text: string, r: Option<Row>, column: string) {
    if r.Some? && column in r.value then text == r.value[column] else text == "NA"
  }

  /** Each stack's cells under its own heading; the sample counts once if they agree, else both. */
  ghost predicate LineShows(line: Line, cov: Option<Row>, sgm: Option<Row>) {
    && Shows(line.covMean, cov, "mean_us") && Shows(line.covP99, cov, "p99_us")
    && Shows(line.sgmMean, sgm, "mean_us") && Shows(line.sgmP99, sgm, "p99_us")
    && (forall c, g | Shows(c, cov, "n") && Shows(g, sgm, "n") ::
          line.n == if c == g then c else c + " / " + g)
    && line.sizeLabel == SizeLabel.Label(line.slot.size)
  }

  ghost predicate ShowsLast(rows: seq<Row>, parse: IntReader, line: Line) {
    exists cov, sgm :: LastFor(rows, parse, line.slot, "covesa", cov) && LastFor(rows, parse, line.slot, "sgmenon", sgm)
                       && (cov.Some? || sgm.Some?) && LineShows(line, cov, sgm)
  }

  /** By size, and within a size by rate in dictionary order; no two alike. */
  ghost predicate InOrder(x: Slot, y: Slot) {
    x.size < y.size || (x.size == y.size && TextLeq(x.rate, y.rate) && x.rate != y.rate)
  }

  /** Every (size, rate) of either stack, once, ascending, with each stack's last row in its own columns. */
  ghost predicate IsTable(rows: seq<Row>, parse: IntReader, out: seq<Line>) {
    && (forall a :: 0 <= a < |out| ==> ShowsLast(rows, parse, out[a]))
    && (forall j, slot, stack ::
          0 <= j < |rows| && RowFor(rows[j], parse, slot, stack) && stack in ["covesa", "sgmenon"] ==>
            Listed(out, slot))
    && (forall a, b :: 0 <= a < b < |out| ==> InOrder(out[a].slot, out[b].slot))
  }

  lemma MatchesIs(r: Row, parse: IntReader, slot: Slot, stack: string)
    requires stack in ["covesa", "sgmenon"]
    ensures Matches(r, parse, slot, stack) <==> RowFor(r, parse, slot, stack)
  {
  }

  lemma LastRowIs(rows: seq<Row>, parse: IntReader, slot: Slot, stack: string)
    requires stack in ["covesa", "sgmenon"]
    ensures LastFor(rows, parse, slot, stack, LastRow(rows, parse, |rows|, slot, stack))
  {
    forall j | 0 <= j < |rows| ensures Matches(rows[j], parse, slot, stack) <==> RowFor(rows[j], parse, slot, stack) {
      MatchesIs(rows[j], parse, slot, stack);
    }
    hide Matches, RowFor;
    var k := LastMatch(rows, parse, |rows|, slot, stack);
    if k >= 0 {
      assert LastAt(rows, parse, slot, stack, rows[k], k);
    }
  }

  lemma CellShows(r: Option<Row>, column: string)
    ensures forall text :: Shows(text, r, column) <==> text == Cell(r, column)
  {
  }

  lemma CompareShows(slot: Slot, cov: Option<Row>, sgm: Option<Row>)
    ensures LineShows(Compare(slot, cov, sgm), cov, sgm) && Compare(slot, cov, sgm).slot == slot
  {
    CellShows(cov, "mean_us");
    CellShows(cov, "p99_us");
    CellShows(sgm, "mean_us");
    CellShows(sgm, "p99_us");
    CellShows(cov, "n");
    CellShows(sgm, "n");
    hide Shows, Cell;
  }

  lemma OccursIs(rows: seq<Row>, parse: IntReader, slot: Slot)
    ensures Occurs(rows, parse, |rows|, slot)
       <==> Mentioned(rows, parse, slot)
  {
    forall j | 0 <= j < |rows|
      ensures Comparable(rows[j], parse) && SlotOf(rows[j], parse) == slot
         <==> RowFor(rows[j], parse, slot, "covesa") || RowFor(rows[j], parse, slot, "sgmenon")
    {
      ComparableIs(rows[j], parse, slot);
    }
    hide Comparable, SlotOf, RowFor;
  }

  lemma ComparableIs(r: Row, parse: IntReader, slot: Slot)
    ensures Comparable(r, parse) && SlotOf(r, parse) == slot
       <==> RowFor(r, parse, slot, "covesa") || RowFor(r, parse, slot, "sgmenon")
  {
  }

  lemma LineShowsLast(rows: seq<Row>, parse: IntReader, line: Line)
    requires Occurs(rows, parse, |rows|, line.slot) && line == LineOf(rows, parse, line.slot)
    ensures ShowsLast(rows, parse, line)
  {
    var cov := LastRow(rows, parse, |rows|, line.slot, "covesa");
    var sgm := LastRow(rows, parse, |rows|, line.slot, "sgmenon");
    LastRowIs(rows, parse, line.slot, "covesa");
    LastRowIs(rows, parse, line.slot, "sgmenon");
    CompareShows(line.slot, cov, sgm);
    OccursIs(rows, parse, line.slot);
    hide LineShows, RowFor, LastRow, Compare;
  }

  lemma ComparisonIsTable(rows: seq<Row>, parse: IntReader, out: seq<Line>)
    requires IsComparison(rows, parse, out)
    ensures IsTable(rows, parse, out)
  {
    hide ShowsLast, LineOf, RowFor;
    forall a | 0 <= a < |out| ensures ShowsLast(rows, parse, out[a]) {
      LineShowsLast(rows, parse, out[a]);
    }
    forall j, slot, stack | 0 <= j < |rows| && RowFor(rows[j], parse, slot, stack) && stack in ["covesa", "sgmenon"]
      ensures Listed(out, slot)
    {
      OccursIs(rows, parse, slot);
    }
    forall a, b | 0 <= a < b < |out| ensures InOrder(out[a].slot, out[b].slot) {
      assert SlotLeq(out[a].slot, out[b].slot) && out[a].slot != out[b].slot;
    }
  }

  method CompareStacks(rows: seq<Row>, parse: IntReader) returns (out: seq<Line>)
    ensures IsComparison(rows, parse, out)
    ensures IsTable(rows, parse, out)
  {
    hide IsComparison, IsTable, TableLine, Compare, LineOf;
    var order, table := Tabulate(rows, parse);
    SlotOrder();
    var p := StableOrder(order, SlotLeq);
    out := [];
    for a := 0 to |p|
      invariant |out| == a
      invariant forall b :: 0 <= b < a ==> out[b].slot == order[p[b]] && IsTableLine(table, out[b])
    {
      var line := TableLine(table, order[p[a]]);
      TableLineIsLine(table, rows, parse, order[p[a]]);
      out := out + [line];
    }
    SortedComparison(rows, parse, order, table, p, out);
    ComparisonIsTable(rows, parse, out);
  }

  // ----------------------------------------------- the table over the newest row per configuration

  /** Of all rows for a slot and stack, i is the last of those with the greatest timestamp. */
  ghost predicate IsNewest(rows: seq<Row>, parse: IntReader, i: nat, slot: Slot, stack: string) {
    i < |rows| && Matches(rows[i], parse, slot, stack)
    && forall j :: 0 <= j < |rows| && Matches(rows[j], parse, slot, stack) ==> Supersedes(rows, i, j)
  }

  /** No spelling of the same size (for that stack and rate) first appears after row i's. */
  ghost predicate SpelledLast(rows: seq<Row>, parse: IntReader, i: nat, slot: Slot, stack: string)
    requires i < |rows|
  {
    forall j :: 0 <= j < |rows| && Matches(rows[j], parse, slot, stack) ==>
      FirstSeen(rows, ConfigOf(rows[j])) <= FirstSeen(rows, ConfigOf(rows[i]))
  }

  lemma ConfigFixesMatch(x: Row, y: Row, parse: IntReader, slot: Slot, stack: string)
    requires PythonInt(parse) && ConfigOf(x) == ConfigOf(y)
    ensures Matches(x, parse, slot, stack) == Matches(y, parse, slot, stack)
  {
  }

  lemma MatchIsKept(rows: seq<Row>, parse: IntReader, kept: seq<Row>, slot: Slot, stack: string, j: nat)
    requires PythonInt(parse) && IsSelection(rows, parse, kept) && j < |rows| && Matches(rows[j], parse, slot, stack)
    ensures Present(kept, ConfigOf(rows[j])) && Matches(kept[Place(kept, ConfigOf(rows[j]))], parse, slot, stack)
  {
    assert Present(kept, ConfigOf(rows[j]));
    ConfigFixesMatch(rows[j], kept[Place(kept, ConfigOf(rows[j]))], parse, slot, stack);
  }

  lemma MatchesTie(x: Row, y: Row, parse: IntReader, slot: Slot, stack: string)
    requires PythonInt(parse) && Matches(x, parse, slot, stack) && Matches(y, parse, slot, stack)
    ensures SortSize(x, parse).Some? && SortSize(y, parse).Some? && SortKey(x, parse) == SortKey(y, parse)
  {
  }

  /** Kept rows of one slot and stack stand in the order their spellings were first seen. */
  lemma TieOrder(rows: seq<Row>, parse: IntReader, kept: seq<Row>, slot: Slot, stack: string, a: nat, b: nat)
    requires PythonInt(parse) && IsSelection(rows, parse, kept) && a < b < |kept|
    requires Matches(kept[a], parse, slot, stack) && Matches(kept[b], parse, slot, stack)
    ensures FirstSeen(rows, ConfigOf(kept[a])) < FirstSeen(rows, ConfigOf(kept[b]))
  {
    MatchesTie(kept[a], kept[b], parse, slot, stack);
    assert Precedes(rows, parse, kept[a], kept[b]);
    StackSizeOrder();
  }

  /** Of the kept rows for a slot and stack, the table shows the one whose spelling came last. */
  lemma ShownRow(rows: seq<Row>, parse: IntReader, kept: seq<Row>, slot: Slot, stack: string, i: nat)
    requires PythonInt(parse) && IsSelection(rows, parse, kept)
    requires i < |rows| && Matches(rows[i], parse, slot, stack) && IsLatest(rows, |rows|, i)
    ensures LastRow(kept, parse, |kept|, slot, stack) == Some(rows[i]) <==> SpelledLast(rows, parse, i, slot, stack)
  {
    MatchIsKept(rows, parse, kept, slot, stack, i);
    var a := Place(kept, ConfigOf(rows[i]));
    assert Picked(rows, |rows|, rows[i]);
    SameRow(rows, kept[a], rows[i]);
    var k := LastMatch(kept, parse, |kept|, slot, stack);
    if SpelledLast(rows, parse, i, slot, stack) {
      ShownIfLast(rows, parse, kept, slot, stack, i, a, k);
    } else if kept[k] == rows[i] {
      OnePlace(rows, parse, kept, a, k);
      LastIfShown(rows, parse, kept, slot, stack, i, a);
    }
  }

  lemma ShownIfLast(rows: seq<Row>, parse: IntReader, kept: seq<Row>, slot: Slot, stack: string, i: nat, a: nat, k: nat)
    requires PythonInt(parse) && IsSelection(rows, parse, kept) && a <= k < |kept| && i < |rows| && kept[a] == rows[i]
    requires Matches(kept[a], parse, slot, stack) && Matches(kept[k], parse, slot, stack)
    requires SpelledLast(rows, parse, i, slot, stack)
    ensures a == k
  {
    assert Picked(rows, |rows|, kept[k]);
    var j: nat :| IsLatest(rows, |rows|, j) && rows[j] == kept[k];
    if a < k {
      TieOrder(rows, parse, kept, slot, stack, a, k);
    }
  }

  lemma LastIfShown(rows: seq<Row>, parse: IntReader, kept: seq<Row>, slot: Slot, stack: string, i: nat, a: nat)
    requires PythonInt(parse) && IsSelection(rows, parse, kept) && a < |kept| && i < |rows| && kept[a] == rows[i]
    requires a == LastMatch(kept, parse, |kept|, slot, stack)
    ensures SpelledLast(rows, parse, i, slot, stack)
  {
    forall j | 0 <= j < |rows| && Matches(rows[j], parse, slot, stack)
      ensures FirstSeen(rows, ConfigOf(rows[j])) <= FirstSeen(rows, ConfigOf(rows[i]))
    {
      MatchIsKept(rows, parse, kept, slot, stack, j);
      var b := Place(kept, ConfigOf(rows[j]));
      assert b <= a;
      if b < a {
        TieOrder(rows, parse, kept, slot, stack, b, a);
      }
    }
  }

  /** A slot and stack has a row in the table exactly when it has one in the history. */
  lemma ShownIffPresent(rows: seq<Row>, parse: IntReader, kept: seq<Row>, slot: Slot, stack: string)
    requires PythonInt(parse) && IsSelection(rows, parse, kept)
    ensures (exists j :: 0 <= j < |rows| && Matches(rows[j], parse, slot, stack))
       <==> LastMatch(kept, parse, |kept|, slot, stack) >= 0
  {
    if j: nat :| j < |rows| && Matches(rows[j], parse, slot, stack) {
      MatchIsKept(rows, parse, kept, slot, stack, j);
    }
    var k := LastMatch(kept, parse, |kept|, slot, stack);
    if k >= 0 {
      assert Picked(rows, |rows|, kept[k]);
    }
  }

  lemma NewestIsLatest(rows: seq<Row>, parse: IntReader, m: nat, slot: Slot, stack: string)
    requires PythonInt(parse) && IsNewest(rows, parse, m, slot, stack)
    ensures IsLatest(rows, |rows|, m)
  {
    forall j | 0 <= j < |rows| && ConfigOf(rows[j]) == ConfigOf(rows[m]) ensures Supersedes(rows, m, j) {
      ConfigFixesMatch(rows[m], rows[j], parse, slot, stack);
    }
  }

  /** The table shows the newest row of a slot and stack if and only if its spelling of the size came last. */
  lemma NewestShownIff(rows: seq<Row>, parse: IntReader, kept: seq<Row>, slot: Slot, stack: string, m: nat)
    requires PythonInt(parse) && IsSelection(rows, parse, kept) && IsNewest(rows, parse, m, slot, stack)
    ensures LastRow(kept, parse, |kept|, slot, stack) == Some(rows[m]) <==> SpelledLast(rows, parse, m, slot, stack)
  {
    NewestIsLatest(rows, parse, m, slot, stack);
    ShownRow(rows, parse, kept, slot, stack, m);
  }

  ghost predicate OneSpelling(rows: seq<Row>, parse: IntReader) {
    forall i, j :: 0 <= i < |rows| && 0 <= j < |rows| ==> SpellAlike(rows[i], rows[j], parse)
  }

  predicate SpellAlike(x: Row, y: Row, parse: IntReader) {
    Comparable(x, parse) && Comparable(y, parse) && parse(x["size"]) == parse(y["size"]) ==> x["size"] == y["size"]
  }

  /** r is the newest row for a slot and stack, or None when there is none. */
  ghost predicate IsNewestRow(rows: seq<Row>, parse: IntReader, slot: Slot, stack: string, r: Option<Row>) {
    match r
    case None => forall j :: 0 <= j < |rows| ==> !Matches(rows[j], parse, slot, stack)
    case Some(x) => exists m: nat :: IsNewest(rows, parse, m, slot, stack) && rows[m] == x
  }

  lemma ShownIsNewest(rows: seq<Row>, parse: IntReader, kept: seq<Row>, slot: Slot, stack: string)
    requires PythonInt(parse) && IsSelection(rows, parse, kept) && OneSpelling(rows, parse)
    ensures IsNewestRow(rows, parse, slot, stack, LastRow(kept, parse, |kept|, slot, stack))
  {
    ShownIffPresent(rows, parse, kept, slot, stack);
    var k := LastMatch(kept, parse, |kept|, slot, stack);
    if k >= 0 {
      assert Picked(rows, |rows|, kept[k]);
      var m: nat :| IsLatest(rows, |rows|, m) && rows[m] == kept[k];
      forall j | 0 <= j < |rows| && Matches(rows[j], parse, slot, stack) ensures Supersedes(rows, m, j) {
        assert SpellAlike(rows[j], rows[m], parse);
        assert ConfigOf(rows[j]) == ConfigOf(rows[m]);
      }
      assert IsNewest(rows, parse, m, slot, stack);
    }
  }

  /** r is the newest row about that size, rate and stack, or None when there is none. */
  ghost predicate NewestFor(rows: seq<Row>, parse: IntReader, slot: Slot, stack: string, r: Option<Row>) {
    match r
    case None => forall j :: 0 <= j < |rows| ==> !RowFor(rows[j], parse, slot, stack)
    case Some(x) => exists m: nat :: NewestForAt(rows, parse, slot, stack, x, m)
  }

  ghost predicate NewestForAt(rows: seq<Row>, parse: IntReader, slot: Slot, stack: string, x: Row, m: nat) {
    && m < |rows| && rows[m] == x && RowFor(x, parse, slot, stack)
    && forall j :: 0 <= j < |rows| && RowFor(rows[j], parse, slot, stack) ==>
         NoNewer(rows[j], x) && (j > m ==> !NoNewer(x, rows[j]))
  }

  lemma NewestForIs(rows: seq<Row>, parse: IntReader, slot: Slot, stack: string, r: Option<Row>)
    requires stack in ["covesa", "sgmenon"] && IsNewestRow(rows, parse, slot, stack, r)
    ensures NewestFor(rows, parse, slot, stack, r)
  {
    forall j | 0 <= j < |rows| ensures Matches(rows[j], parse, slot, stack) <==> RowFor(rows[j], parse, slot, stack) {
      MatchesIs(rows[j], parse, slot, stack);
    }
    hide Matches, RowFor;
    if r.Some? {
      var m: nat :| IsNewest(rows, parse, m, slot, stack) && rows[m] == r.value;
      forall j | 0 <= j < |rows| && RowFor(rows[j], parse, slot, stack)
        ensures NoNewer(rows[j], rows[m]) && (j > m ==> !NoNewer(rows[m], rows[j]))
      {
        assert Supersedes(rows, m, j);
      }
      assert NewestForAt(rows, parse, slot, stack, r.value, m);
    }
  }

  /** The line shows both stacks' newest rows, each in its own columns. */
  ghost predicate PairsNewest(rows: seq<Row>, parse: IntReader, line: Line) {
    exists cov, sgm ::
      && NewestFor(rows, parse, line.slot, "covesa", cov)
      && NewestFor(rows, parse, line.slot, "sgmenon", sgm)
      && LineShows(line, cov, sgm)
  }

  ghost predicate Mentioned(rows: seq<Row>, parse: IntReader, slot: Slot) {
    exists j :: 0 <= j < |rows| && (RowFor(rows[j], parse, slot, "covesa") || RowFor(rows[j], parse, slot, "sgmenon"))
  }

  lemma SlotsSurvive(rows: seq<Row>, parse: IntReader, kept: seq<Row>, slot: Slot)
    requires PythonInt(parse) && IsSelection(rows, parse, kept)
    ensures Occurs(rows, parse, |rows|, slot) <==> Occurs(kept, parse, |kept|, slot)
  {
    if j: nat :| j < |rows| && Comparable(rows[j], parse) && SlotOf(rows[j], parse) == slot {
      MatchIsKept(rows, parse, kept, slot, Field(rows[j], "stack", ""), j);
    }
    if a: nat :| a < |kept| && Comparable(kept[a], parse) && SlotOf(kept[a], parse) == slot {
      assert Picked(rows, |rows|, kept[a]);
    }
  }

  lemma LinePairsNewest(rows: seq<Row>, parse: IntReader, kept: seq<Row>, line: Line)
    requires PythonInt(parse) && IsSelection(rows, parse, kept) && OneSpelling(rows, parse)
    requires line == LineOf(kept, parse, line.slot)
    ensures PairsNewest(rows, parse, line)
  {
    var cov := LastRow(kept, parse, |kept|, line.slot, "covesa");
    var sgm := LastRow(kept, parse, |kept|, line.slot, "sgmenon");
    ShownIsNewest(rows, parse, kept, line.slot, "covesa");
    ShownIsNewest(rows, parse, kept, line.slot, "sgmenon");
    NewestForIs(rows, parse, line.slot, "covesa", cov);
    NewestForIs(rows, parse, line.slot, "sgmenon", sgm);
    CompareShows(line.slot, cov, sgm);
    hide NewestFor, LineShows, Compare, LastRow, OneSpelling, IsSelection, IsNewestRow;
  }

  /** Keep the newest, then pair: every (size, rate) of the history once, each with its stacks'
      newest rows in their own columns. */
  lemma SnapshotPairsNewest(rows: seq<Row>, parse: IntReader, kept: seq<Row>, out: seq<Line>)
    requires PythonInt(parse) && IsSelection(rows, parse, kept)
    requires IsComparison(kept, parse, out) && OneSpelling(rows, parse)
    ensures forall slot :: Mentioned(rows, parse, slot) <==> Listed(out, slot)
    ensures forall a, b :: 0 <= a < b < |out| ==> InOrder(out[a].slot, out[b].slot)
    ensures forall a :: 0 <= a < |out| ==> PairsNewest(rows, parse, out[a])
  {
    hide LineOf, PairsNewest, IsSelection, OneSpelling, RowFor;
    ComparisonIsTable(kept, parse, out);
    forall slot ensures Mentioned(rows, parse, slot) <==> Listed(out, slot) {
      SlotsSurvive(rows, parse, kept, slot);
      OccursIs(rows, parse, slot);
    }
    forall a | 0 <= a < |out| ensures PairsNewest(rows, parse, out[a]) {
      LinePairsNewest(rows, parse, kept, out[a]);
    }
  }

  const MIXED_SPELLINGS: seq<Row> :=
    [map["stack" := "covesa", "size" := "64", "recorded_utc" := "2"],
     map["stack" := "covesa", "size" := "064", "recorded_utc" := "1"]]

  lemma MixedNewest(parse: IntReader)
    requires parse("64") == parse("064") == Some(64)
    ensures IsNewest(MIXED_SPELLINGS, parse, 0, Slot(64, ""), "covesa")
  {
    var rows := MIXED_SPELLINGS;
    assert Recorded(rows[0]) == "2" && Recorded(rows[1]) == "1";
    assert Supersedes(rows, 0, 0) && Supersedes(rows, 0, 1);
  }

  lemma MixedSecond(parse: IntReader)
    requires parse("064") == Some(64)
    ensures Matches(MIXED_SPELLINGS[1], parse, Slot(64, ""), "covesa") && IsLatest(MIXED_SPELLINGS, 2, 1)
    ensures SpelledLast(MIXED_SPELLINGS, parse, 1, Slot(64, ""), "covesa")
  {
    var rows := MIXED_SPELLINGS;
    assert ConfigOf(rows[0]) == Config("covesa", "64", "") && ConfigOf(rows[1]) == Config("covesa", "064", "");
    assert FirstSeen(rows, ConfigOf(rows[1])) == 1;
    FirstRowIsLatest(rows, 1);
  }

  /** Without one spelling per size it can fail: row 0 is newer, yet row 1 is shown. */
  lemma OlderRowHidesNewer(parse: IntReader, kept: seq<Row>)
    requires PythonInt(parse) && parse("64") == parse("064") == Some(64) && IsSelection(MIXED_SPELLINGS, parse, kept)
    ensures IsNewest(MIXED_SPELLINGS, parse, 0, Slot(64, ""), "covesa")
    ensures LastRow(kept, parse, |kept|, Slot(64, ""), "covesa") == Some(MIXED_SPELLINGS[1])
  {
    MixedNewest(parse);
    MixedSecond(parse);
    hide IsSelection, Matches, IsLatest, IsNewest, SpelledLast, LastRow;
    ShownRow(MIXED_SPELLINGS, parse, kept, Slot(64, ""), "covesa", 1);
  }
}
