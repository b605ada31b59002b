/** The result snapshot: newest row per configuration, then the two stacks paired by size and rate. */
module Snapshot {
  import opened Bytes
  import opened Sorting
  import SizeLabel

  /** A CSV row; a column may be missing. */
  type Row = map<string, string>

  /** Python's int(text); None stands for ValueError. */
  type IntReader = string -> Option<int>

  ghost predicate PythonInt(parse: IntReader) {
    parse("") == None && parse("0") == Some(0)
  }

  function Field(r: Row, name: string, absent: string): (v: string)
    ensures name in r ==> v == r[name]
    ensures name !in r ==> v == absent
  {
    if name in r then r[name] else absent
  }

  datatype Config = Config(stack: string, size: string, rate: string)

  function ConfigOf(r: Row): Config {
    Config(Field(r, "stack", ""), Field(r, "size", ""), Field(r, "rate_hz", ""))
  }

  function Recorded(r: Row): string {
    Field(r, "recorded_utc", "")
  }

  /** Among the first n rows, i is the last of those with the greatest timestamp of its configuration. */
  ghost predicate IsLatest(rows: seq<Row>, n: nat, i: nat)
    requires n <= |rows|
  {
    i < n && forall j :: 0 <= j < n && ConfigOf(rows[j]) == ConfigOf(rows[i]) ==> Supersedes(rows, i, j)
  }

  ghost predicate Supersedes(rows: seq<Row>, i: nat, j: nat)
    requires i < |rows| && j < |rows|
  {
    TextLeq(Recorded(rows[j]), Recorded(rows[i])) && (j > i ==> !TextLeq(Recorded(rows[i]), Recorded(rows[j])))
  }

  function SeenFrom(rows: seq<Row>, c: Config, n: nat): (k: nat)
    requires n <= |rows|
    ensures n <= k <= |rows| && (k < |rows| ==> ConfigOf(rows[k]) == c)
    ensures forall j :: n <= j < k ==> ConfigOf(rows[j]) != c
    decreases |rows| - n
  {
    if n == |rows| || ConfigOf(rows[n]) == c then n else SeenFrom(rows, c, n + 1)
  }

  /** Where a configuration first appears; |rows| if nowhere. */
  function FirstSeen(rows: seq<Row>, c: Config): (k: nat)
    ensures k <= |rows| && (k < |rows| ==> ConfigOf(rows[k]) == c)
    ensures forall j :: 0 <= j < k ==> ConfigOf(rows[j]) != c
  {
    SeenFrom(rows, c, 0)
  }

  // ---------------------------------------------------------------- latest_per_config

  /** The sort key's size; a missing size reads as "0" and an empty one as 0. */
  function SortSize(r: Row, parse: IntReader): Option<int> {
    var text := Field(r, "size", "0");
    if text == "" then Some(0) else parse(text)
  }

  function StackSizeLeq(a: (string, int), b: (string, int)): bool {
    TextLeq(a.0, b.0) && (a.0 == b.0 ==> a.1 <= b.1)
  }

  lemma StackSizeOrder()
    ensures Total(StackSizeLeq) && Transitive(StackSizeLeq)
  {
    forall x, y ensures StackSizeLeq(x, y) || StackSizeLeq(y, x) {
      TextTotal(x.0, y.0);
    }
    forall x, y, z | StackSizeLeq(x, y) && StackSizeLeq(y, z) ensures StackSizeLeq(x, z) {
      TextTransitive(x.0, y.0, z.0);
      if x.0 == z.0 {
        TextAntisymmetric(x.0, y.0);
      }
    }
  }

  ghost predicate Sizable(r: Row, parse: IntReader) {
    SortSize(r, parse).Some?
  }

  function SortKey(r: Row, parse: IntReader): (string, int)
    requires SortSize(r, parse).Some?
  {
    (Field(r, "stack", ""), SortSize(r, parse).value)
  }

  /** By stack and size; equals keep the order in which their configurations were first seen. */
  ghost predicate Precedes(rows: seq<Row>, parse: IntReader, x: Row, y: Row)
    requires Sizable(x, parse) && Sizable(y, parse)
  {
    StackSizeLeq(SortKey(x, parse), SortKey(y, parse))
    && (StackSizeLeq(SortKey(y, parse), SortKey(x, parse)) ==>
          FirstSeen(rows, ConfigOf(x)) < FirstSeen(rows, ConfigOf(y)))
  }

  /** out holds the latest row of every configuration of rows, exactly one each, in sorted order. */
  ghost predicate IsSelection(rows: seq<Row>, parse: IntReader, out: seq<Row>) {
    (forall a :: 0 <= a < |out| ==> Sizable(out[a], parse) && Picked(rows, |rows|, out[a]))
    && (forall i :: 0 <= i < |rows| ==> Present(out, ConfigOf(rows[i])))
    && (forall a, b :: 0 <= a < b < |out| ==> Precedes(rows, parse, out[a], out[b]))
  }

  ghost predicate Picked(rows: seq<Row>, n: nat, r: Row)
    requires n <= |rows|
  {
    exists i: nat :: IsLatest(rows, n, i) && rows[i] == r
  }

  ghost predicate Present(out: seq<Row>, c: Config) {
    exists a :: 0 <= a < |out| && ConfigOf(out[a]) == c
  }

  /** Taking a further row: it replaces the kept one unless that is strictly newer. */
  lemma LatestStep(rows: seq<Row>, n: nat, i: nat)
    requires n < |rows| && IsLatest(rows, n, i)
    ensures ConfigOf(rows[i]) != ConfigOf(rows[n]) ==> IsLatest(rows, n + 1, i)
    ensures ConfigOf(rows[i]) == ConfigOf(rows[n]) ==>
              IsLatest(rows, n + 1, if TextLeq(Recorded(rows[i]), Recorded(rows[n])) then n else i)
  {
    if ConfigOf(rows[i]) == ConfigOf(rows[n]) {
      TextTotal(Recorded(rows[i]), Recorded(rows[n]));
      if TextLeq(Recorded(rows[i]), Recorded(rows[n])) {
        TextTotal(Recorded(rows[n]), Recorded(rows[n]));
        forall j | 0 <= j < n && ConfigOf(rows[j]) == ConfigOf(rows[i]) ensures Supersedes(rows, n, j) {
          assert Supersedes(rows, i, j);
          TextTransitive(Recorded(rows[j]), Recorded(rows[i]), Recorded(rows[n]));
        }
      }
    }
  }

  lemma FirstRowIsLatest(rows: seq<Row>, n: nat)
    requires n < |rows| && FirstSeen(rows, ConfigOf(rows[n])) == n
    ensures IsLatest(rows, n + 1, n)
  {
    TextTotal(Recorded(rows[n]), Recorded(rows[n]));
  }

  ghost predicate InFirstSeenOrder(rows: seq<Row>, order: seq<Config>, n: nat) {
    (forall a :: 0 <= a < |order| ==> FirstSeen(rows, order[a]) < n)
    && (forall a, b :: 0 <= a < b < |order| ==> FirstSeen(rows, order[a]) < FirstSeen(rows, order[b]))
    && (forall j :: 0 <= j < n && j < |rows| ==> ConfigOf(rows[j]) in order)
  }

  ghost predicate Kept(rows: seq<Row>, best: map<Config, Row>, n: nat)
    requires n <= |rows|
  {
    forall c :: c in best ==> ConfigOf(best[c]) == c && Picked(rows, n, best[c])
  }

  lemma NotSeenBefore(rows: seq<Row>, order: seq<Config>, n: nat)
    requires n < |rows| && InFirstSeenOrder(rows, order, n) && ConfigOf(rows[n]) !in order
    ensures FirstSeen(rows, ConfigOf(rows[n])) == n && IsLatest(rows, n + 1, n)
  {
    FirstRowIsLatest(rows, n);
  }

  lemma OrderGrows(rows: seq<Row>, order: seq<Config>, n: nat)
    requires n < |rows| && InFirstSeenOrder(rows, order, n) && FirstSeen(rows, ConfigOf(rows[n])) == n
    ensures InFirstSeenOrder(rows, order + [ConfigOf(rows[n])], n + 1)
  {
    hide ConfigOf, FirstSeen;
    var more := order + [ConfigOf(rows[n])];
    forall j | 0 <= j < n + 1 ensures ConfigOf(rows[j]) in more {
      if j < n {
        assert ConfigOf(rows[j]) in order;
      } else {
        assert more[|order|] == ConfigOf(rows[n]);
      }
    }
  }

  lemma OrderStep(rows: seq<Row>, order: seq<Config>, n: nat)
    requires n < |rows| && InFirstSeenOrder(rows, order, n)
    ensures var key := ConfigOf(rows[n]);
      InFirstSeenOrder(rows, if key in order then order else order + [key], n + 1)
  {
    hide ConfigOf;
    if ConfigOf(rows[n]) !in order {
      NotSeenBefore(rows, order, n);
      OrderGrows(rows, order, n);
    }
  }

  ghost predicate ListsKeys(order: seq<Config>, best: map<Config, Row>) {
    forall c :: c in best <==> c in order
  }

  function Taken(best: map<Config, Row>, r: Row): map<Config, Row> {
    var key := ConfigOf(r);
    if key !in best || TextLeq(Recorded(best[key]), Recorded(r)) then best[key := r] else best
  }

  lemma KeptStep(rows: seq<Row>, order: seq<Config>, best: map<Config, Row>, n: nat)
    requires n < |rows| && Kept(rows, best, n) && InFirstSeenOrder(rows, order, n) && ListsKeys(order, best)
    ensures Kept(rows, Taken(best, rows[n]), n + 1)
  {
    var after := Taken(best, rows[n]);
    if ConfigOf(rows[n]) !in best {
      NotSeenBefore(rows, order, n);
    }
    forall c | c in after ensures ConfigOf(after[c]) == c && Picked(rows, n + 1, after[c]) {
      if c in best {
        assert Picked(rows, n, best[c]);
        var i: nat :| IsLatest(rows, n, i) && rows[i] == best[c];
        LatestStep(rows, n, i);
      }
    }
  }

  /** The dictionary, as insertion order and contents, after all the rows. */
  method KeepNewest(rows: seq<Row>) returns (order: seq<Config>, best: map<Config, Row>)
    ensures InFirstSeenOrder(rows, order, |rows|) && Kept(rows, best, |rows|) && ListsKeys(order, best)
  {
    order, best := [], map[];
    for n := 0 to |rows|
      invariant InFirstSeenOrder(rows, order, n) && Kept(rows, best, n) && ListsKeys(order, best)
    {
      var key := ConfigOf(rows[n]);
      KeptStep(rows, order, best, n);
      OrderStep(rows, order, n);
      if key !in best {
        order := order + [key];
        best := best[key := rows[n]];
      } else if TextLeq(Recorded(best[key]), Recorded(rows[n])) {
        best := best[key := rows[n]];
      }
    }
  }

  ghost predicate AllSizable(rows: seq<Row>, parse: IntReader) {
    forall i :: 0 <= i < |rows| ==> Sizable(rows[i], parse)
  }

  method SortKeys(rows: seq<Row>, parse: IntReader) returns (keys: Option<seq<(string, int)>>)
    ensures keys.Some? <==> AllSizable(rows, parse)
    ensures keys.Some? ==>
              |keys.value| == |rows| && forall a :: 0 <= a < |rows| ==> keys.value[a] == SortKey(rows[a], parse)
  {
    var ks := [];
    for a := 0 to |rows|
      invariant |ks| == a
      invariant forall b :: 0 <= b < a ==> Sizable(rows[b], parse) && ks[b] == SortKey(rows[b], parse)
    {
      match SortSize(rows[a], parse)
      case None => return None;
      case Some(size) => ks := ks + [(Field(rows[a], "stack", ""), size)];
    }
    return Some(ks);
  }

  /** Configurations fix the size text, so a row's size is readable when its configuration's is. */
  lemma ConfigFixesSize(x: Row, y: Row, parse: IntReader)
    requires PythonInt(parse) && ConfigOf(x) == ConfigOf(y)
    ensures SortSize(x, parse) == SortSize(y, parse)
  {
  }

  lemma SomeRowOf(rows: seq<Row>, order: seq<Config>, c: Config)
    requires InFirstSeenOrder(rows, order, |rows|) && c in order
    ensures exists j :: 0 <= j < |rows| && ConfigOf(rows[j]) == c
  {
    var a :| 0 <= a < |order| && order[a] == c;
    assert ConfigOf(rows[FirstSeen(rows, c)]) == c;
  }

  /** All kept rows have readable sizes exactly when all rows do. */
  lemma KeptSizable(rows: seq<Row>, order: seq<Config>, values: seq<Row>, parse: IntReader)
    requires PythonInt(parse) && InFirstSeenOrder(rows, order, |rows|) && |values| == |order|
    requires forall a :: 0 <= a < |order| ==> ConfigOf(values[a]) == order[a]
    ensures AllSizable(values, parse) <==> AllSizable(rows, parse)
  {
    forall a | 0 <= a < |values| && AllSizable(rows, parse) ensures Sizable(values[a], parse) {
      SomeRowOf(rows, order, order[a]);
      var j :| 0 <= j < |rows| && ConfigOf(rows[j]) == order[a];
      ConfigFixesSize(values[a], rows[j], parse);
    }
    forall j | 0 <= j < |rows| && AllSizable(values, parse) ensures Sizable(rows[j], parse) {
      var a :| 0 <= a < |order| && order[a] == ConfigOf(rows[j]);
      ConfigFixesSize(values[a], rows[j], parse);
    }
  }

  lemma SortedSelection(rows: seq<Row>, order: seq<Config>, values: seq<Row>, keys: seq<(string, int)>,
                        p: seq<nat>, parse: IntReader, out: seq<Row>)
    requires InFirstSeenOrder(rows, order, |rows|) && |values| == |order| == |keys| && AllSizable(values, parse)
    requires forall a :: 0 <= a < |order| ==> ConfigOf(values[a]) == order[a] && Picked(rows, |rows|, values[a])
    requires forall a :: 0 <= a < |order| ==> keys[a] == SortKey(values[a], parse)
    requires IsStableOrder(keys, StackSizeLeq, p)
    requires |out| == |p| && forall a :: 0 <= a < |p| ==> out[a] == values[p[a]]
    ensures IsSelection(rows, parse, out)
  {
    forall i | 0 <= i < |rows| ensures Present(out, ConfigOf(rows[i])) {
      var a :| 0 <= a < |order| && order[a] == ConfigOf(rows[i]);
      assert a in p;
      var b :| 0 <= b < |p| && p[b] == a;
      assert ConfigOf(out[b]) == ConfigOf(rows[i]);
    }
    forall a, b | 0 <= a < b < |out| ensures Precedes(rows, parse, out[a], out[b]) {
      assert Goes(keys, StackSizeLeq, p[a], p[b]);
    }
  }

  // ------------------------------------------------------- the selection, in the columns' own terms

  ghost predicate SameConfig(x: Row, y: Row) {
    && Field(x, "stack", "") == Field(y, "stack", "")
    && Field(x, "size", "") == Field(y, "size", "")
    && Field(x, "rate_hz", "") == Field(y, "rate_hz", "")
  }

  /** x was recorded no later than y. */
  ghost predicate NoNewer(x: Row, y: Row) {
    TextLeq(Field(x, "recorded_utc", ""), Field(y, "recorded_utc", ""))
  }

  /** r stands at i, nothing of its configuration is newer, and nothing after i is as new. */
  ghost predicate NewestAt(rows: seq<Row>, r: Row, i: nat) {
    && i < |rows| && rows[i] == r
    && forall j :: 0 <= j < |rows| && SameConfig(rows[j], r) ==>
         NoNewer(rows[j], r) && (j > i ==> !NoNewer(r, rows[j]))
  }

  ghost predicate NewestInItsConfig(rows: seq<Row>, r: Row) {
    exists i: nat :: NewestAt(rows, r, i)
  }

  ghost predicate HasLike(out: seq<Row>, r: Row) {
    exists a :: 0 <= a < |out| && SameConfig(out[a], r)
  }

  /** The row has a size that is not a number. */
  ghost predicate BadSize(r: Row, parse: IntReader) {
    "size" in r && r["size"] != "" && parse(r["size"]) == None
  }

  ghost predicate SomeBadSize(rows: seq<Row>, parse: IntReader) {
    exists i :: 0 <= i < |rows| && BadSize(rows[i], parse)
  }

  ghost predicate AllAscend(out: seq<Row>, parse: IntReader) {
    forall a, b :: 0 <= a < b < |out| ==> Ascends(out[a], out[b], parse)
  }

  /** The row's size as a number; missing and empty count as 0. */
  ghost predicate SizeIs(r: Row, parse: IntReader, n: int) {
    if "size" in r && r["size"] != "" then parse(r["size"]) == Some(n) else n == 0
  }

  /** By stack in dictionary order, and within a stack by size. */
  ghost predicate Ascends(x: Row, y: Row, parse: IntReader) {
    var a, b := Field(x, "stack", ""), Field(y, "stack", "");
    && TextLeq(a, b)
    && (a == b ==> forall m, n :: SizeIs(x, parse, m) && SizeIs(y, parse, n) ==> m <= n)
  }

  /** The newest row of every configuration, exactly one each. */
  ghost predicate NewestOfEach(rows: seq<Row>, out: seq<Row>) {
    && (forall a :: 0 <= a < |out| ==> NewestInItsConfig(rows, out[a]))
    && (forall i :: 0 <= i < |rows| ==> HasLike(out, rows[i]))
    && (forall a, b :: 0 <= a < b < |out| ==> !SameConfig(out[a], out[b]))
  }

  lemma SameConfigIs(x: Row, y: Row)
    ensures SameConfig(x, y) <==> ConfigOf(x) == ConfigOf(y)
  {
  }

  lemma SizeIsSortSize(r: Row, parse: IntReader, n: int)
    requires PythonInt(parse)
    ensures SizeIs(r, parse, n) <==> SortSize(r, parse) == Some(n)
  {
  }

  lemma PickedIsNewest(rows: seq<Row>, r: Row)
    requires Picked(rows, |rows|, r)
    ensures NewestInItsConfig(rows, r)
  {
    var i: nat :| IsLatest(rows, |rows|, i) && rows[i] == r;
    forall j | 0 <= j < |rows| && SameConfig(rows[j], r)
      ensures NoNewer(rows[j], r) && (j > i ==> !NoNewer(r, rows[j]))
    {
      assert Supersedes(rows, i, j);
    }
    assert NewestAt(rows, r, i);
  }

  lemma SelectionHas(rows: seq<Row>, parse: IntReader, out: seq<Row>, r: Row)
    requires IsSelection(rows, parse, out) && r in rows
    ensures HasLike(out, r)
  {
    hide ConfigOf, SameConfig, Precedes, Picked, Sizable;
    var i :| 0 <= i < |rows| && rows[i] == r;
    assert Present(out, ConfigOf(rows[i]));
    var a :| 0 <= a < |out| && ConfigOf(out[a]) == ConfigOf(r);
    SameConfigIs(out[a], r);
    assert SameConfig(out[a], r);
  }

  lemma SelectionDiffers(rows: seq<Row>, parse: IntReader, out: seq<Row>, a: nat, b: nat)
    requires IsSelection(rows, parse, out) && a < b < |out|
    ensures !SameConfig(out[a], out[b])
  {
    hide ConfigOf, SameConfig, IsSelection;
    SameConfigIs(out[a], out[b]);
    if ConfigOf(out[a]) == ConfigOf(out[b]) {
      DistinctConfigs(rows, parse, out, a, b);
    }
  }

  lemma SelectionPicks(rows: seq<Row>, parse: IntReader, out: seq<Row>, a: nat)
    requires IsSelection(rows, parse, out) && a < |out|
    ensures NewestInItsConfig(rows, out[a])
  {
    hide Picked, NewestInItsConfig, Precedes, Present, Sizable;
    PickedIsNewest(rows, out[a]);
  }

  lemma SelectionIsNewest(rows: seq<Row>, parse: IntReader, out: seq<Row>)
    requires IsSelection(rows, parse, out)
    ensures NewestOfEach(rows, out)
  {
    hide SameConfig, IsSelection, NewestInItsConfig, HasLike;
    forall a | 0 <= a < |out| ensures NewestInItsConfig(rows, out[a]) {
      SelectionPicks(rows, parse, out, a);
    }
    forall i | 0 <= i < |rows| ensures HasLike(out, rows[i]) {
      SelectionHas(rows, parse, out, rows[i]);
    }
    forall a, b | 0 <= a < b < |out| ensures !SameConfig(out[a], out[b]) {
      SelectionDiffers(rows, parse, out, a, b);
    }
  }

  lemma PrecedingAscends(rows: seq<Row>, parse: IntReader, x: Row, y: Row)
    requires PythonInt(parse) && Sizable(x, parse) && Sizable(y, parse) && Precedes(rows, parse, x, y)
    ensures Ascends(x, y, parse)
  {
    forall m, n | SizeIs(x, parse, m) && SizeIs(y, parse, n) && Field(x, "stack", "") == Field(y, "stack", "")
      ensures m <= n
    {
      SizeIsSortSize(x, parse, m);
      SizeIsSortSize(y, parse, n);
    }
  }

  lemma SelectionAscends(rows: seq<Row>, parse: IntReader, out: seq<Row>)
    requires PythonInt(parse) && IsSelection(rows, parse, out)
    ensures AllAscend(out, parse)
  {
    hide Ascends, Precedes, Sizable;
    forall a, b | 0 <= a < b < |out| ensures Ascends(out[a], out[b], parse) {
      PrecedingAscends(rows, parse, out[a], out[b]);
    }
  }

  lemma BadSizeIs(rows: seq<Row>, parse: IntReader)
    requires PythonInt(parse)
    ensures SomeBadSize(rows, parse) <==> !AllSizable(rows, parse)
  {
    forall i | 0 <= i < |rows| ensures BadSize(rows[i], parse) <==> !Sizable(rows[i], parse) {
      BadSizeAt(rows[i], parse);
    }
    hide BadSize, Sizable;
  }

  lemma BadSizeAt(r: Row, parse: IntReader)
    requires PythonInt(parse)
    ensures BadSize(r, parse) <==> !Sizable(r, parse)
  {
  }

  /** None when some row's size is not a number, as the sort then raises. */
  method LatestPerConfig(rows: seq<Row>, parse: IntReader) returns (out: Option<seq<Row>>)
    requires PythonInt(parse)
    ensures out.Some? <==> AllSizable(rows, parse)
    ensures out.Some? ==> IsSelection(rows, parse, out.value)
    ensures out.None? <==> SomeBadSize(rows, parse)
    ensures out.Some? ==> NewestOfEach(rows, out.value) && AllAscend(out.value, parse)
  {
    hide NewestOfEach, AllAscend, SomeBadSize, IsSelection;
    BadSizeIs(rows, parse);
    var order, best := KeepNewest(rows);
    var values := seq(|order|, a requires 0 <= a < |order| && order[a] in best => best[order[a]]);
    KeptSizable(rows, order, values, parse);
    var keys := SortKeys(values, parse);
    if keys.None? {
      return None;
    }
    StackSizeOrder();
    var p := StableOrder(keys.value, StackSizeLeq);
    var sorted := seq(|p|, a requires 0 <= a < |p| && p[a] < |values| => values[p[a]]);
    SortedSelection(rows, order, values, keys.value, p, parse, sorted);
    SelectionIsNewest(rows, parse, sorted);
    SelectionAscends(rows, parse, sorted);
    return Some(sorted);
  }

  // ------------------------------------------------- the selection is unique, and idempotent

  lemma LatestUnique(rows: seq<Row>, n: nat, i: nat, j: nat)
    requires n <= |rows| && IsLatest(rows, n, i) && IsLatest(rows, n, j) && ConfigOf(rows[i]) == ConfigOf(rows[j])
    ensures i == j
  {
    assert Supersedes(rows, i, j) && Supersedes(rows, j, i);
  }

  lemma SameRow(rows: seq<Row>, x: Row, y: Row)
    requires Picked(rows, |rows|, x) && Picked(rows, |rows|, y) && ConfigOf(x) == ConfigOf(y)
    ensures x == y
  {
    var i: nat :| IsLatest(rows, |rows|, i) && rows[i] == x;
    var j: nat :| IsLatest(rows, |rows|, j) && rows[j] == y;
    LatestUnique(rows, |rows|, i, j);
  }

  ghost function Place(out: seq<Row>, c: Config): (a: nat)
    requires Present(out, c)
    ensures a < |out| && ConfigOf(out[a]) == c
  {
    var a :| 0 <= a < |out| && ConfigOf(out[a]) == c;
    a
  }

  lemma PlaceOf(rows: seq<Row>, parse: IntReader, x: seq<Row>, y: seq<Row>, a: nat)
    requires IsSelection(rows, parse, x) && IsSelection(rows, parse, y) && a < |x|
    ensures Present(y, ConfigOf(x[a])) && y[Place(y, ConfigOf(x[a]))] == x[a]
  {
    assert Picked(rows, |rows|, x[a]);
    var i: nat :| IsLatest(rows, |rows|, i) && rows[i] == x[a];
    assert Present(y, ConfigOf(rows[i]));
    SameRow(rows, y[Place(y, ConfigOf(x[a]))], x[a]);
  }

  lemma PrecedingPlaces(rows: seq<Row>, parse: IntReader, y: seq<Row>, b: nat, c: nat)
    requires IsSelection(rows, parse, y) && b < |y| && c < |y| && Precedes(rows, parse, y[b], y[c])
    ensures b < c
  {
  }

  lemma NextPlace(rows: seq<Row>, parse: IntReader, x: seq<Row>, y: seq<Row>, a: nat)
    requires IsSelection(rows, parse, x) && IsSelection(rows, parse, y) && 0 < a < |x|
    ensures Present(y, ConfigOf(x[a - 1])) && Present(y, ConfigOf(x[a]))
    ensures Place(y, ConfigOf(x[a - 1])) < Place(y, ConfigOf(x[a]))
  {
    hide Picked, Present;
    PlaceOf(rows, parse, x, y, a - 1);
    PlaceOf(rows, parse, x, y, a);
    PrecedingPlaces(rows, parse, y, Place(y, ConfigOf(x[a - 1])), Place(y, ConfigOf(x[a])));
  }

  lemma {:induction false} PlaceAtLeast(rows: seq<Row>, parse: IntReader, x: seq<Row>, y: seq<Row>, a: nat)
    requires IsSelection(rows, parse, x) && IsSelection(rows, parse, y) && a < |x|
    ensures Present(y, ConfigOf(x[a])) && a <= Place(y, ConfigOf(x[a]))
    decreases a
  {
    hide IsSelection;
    PlaceOf(rows, parse, x, y, a);
    if a > 0 {
      PlaceAtLeast(rows, parse, x, y, a - 1);
      NextPlace(rows, parse, x, y, a);
    }
  }

  lemma SelectionNoLonger(rows: seq<Row>, parse: IntReader, x: seq<Row>, y: seq<Row>)
    requires IsSelection(rows, parse, x) && IsSelection(rows, parse, y)
    ensures |x| <= |y|
  {
    if x != [] {
      PlaceAtLeast(rows, parse, x, y, |x| - 1);
    }
  }

  lemma OnePlace(rows: seq<Row>, parse: IntReader, x: seq<Row>, a: nat, b: nat)
    requires IsSelection(rows, parse, x) && a < |x| && b < |x| && x[a] == x[b]
    ensures a == b
  {
    assert a < b ==> Precedes(rows, parse, x[a], x[b]);
    assert b < a ==> Precedes(rows, parse, x[b], x[a]);
  }

  /** The rows determine the selection. */
  lemma SelectionUnique(rows: seq<Row>, parse: IntReader, x: seq<Row>, y: seq<Row>)
    requires IsSelection(rows, parse, x) && IsSelection(rows, parse, y)
    ensures x == y
  {
    SelectionNoLonger(rows, parse, x, y);
    SelectionNoLonger(rows, parse, y, x);
    forall a | 0 <= a < |x| ensures x[a] == y[a] {
      PlaceOf(rows, parse, x, y, a);
      PlaceAtLeast(rows, parse, x, y, a);
      var b := Place(y, ConfigOf(x[a]));
      PlaceOf(rows, parse, y, x, b);
      PlaceAtLeast(rows, parse, y, x, b);
      OnePlace(rows, parse, x, a, Place(x, ConfigOf(y[b])));
    }
  }

  lemma DistinctConfigs(rows: seq<Row>, parse: IntReader, out: seq<Row>, a: nat, b: nat)
    requires IsSelection(rows, parse, out) && a < |out| && b < |out| && ConfigOf(out[a]) == ConfigOf(out[b])
    ensures a == b
  {
    SameRow(rows, out[a], out[b]);
    OnePlace(rows, parse, out, a, b);
  }

  lemma SelectionOfSelection(rows: seq<Row>, parse: IntReader, out: seq<Row>)
    requires IsSelection(rows, parse, out)
    ensures IsSelection(out, parse, out)
  {
    forall a | 0 <= a < |out| ensures IsLatest(out, |out|, a) && FirstSeen(out, ConfigOf(out[a])) == a {
      DistinctConfigs(rows, parse, out, a, FirstSeen(out, ConfigOf(out[a])));
      forall b | 0 <= b < |out| && ConfigOf(out[b]) == ConfigOf(out[a]) ensures Supersedes(out, a, b) {
        DistinctConfigs(rows, parse, out, a, b);
        TextTotal(Recorded(out[a]), Recorded(out[a]));
      }
    }
    forall a, b | 0 <= a < b < |out| ensures Precedes(out, parse, out[a], out[b]) {
      assert Precedes(rows, parse, out[a], out[b]);
    }
    assert forall a :: 0 <= a < |out| ==> Picked(out, |out|, out[a]);
    assert forall a :: 0 <= a < |out| ==> Present(out, ConfigOf(out[a]));
  }

  /** Selecting again changes nothing. */
  lemma LatestIdempotent(rows: seq<Row>, parse: IntReader, once: seq<Row>, twice: seq<Row>)
    requires IsSelection(rows, parse, once) && IsSelection(once, parse, twice)
    ensures twice == once
  {
    SelectionOfSelection(rows, parse, once);
    SelectionUnique(once, parse, twice, once);
  }
}
