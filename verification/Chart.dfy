/** The chart series of the snapshot: drawn per stack, then aligned by size label. */
module Chart {
  import opened Bytes
  import opened Snapshot
  import opened SizeLabel

  const CANONICAL_SIZES: seq<int> := [64, 1024, 16384, 65536, 262144, 1048576, 4194304, 10485760]

  /** Python's float(text), rounding aside; None stands for ValueError. */
  type RealReader = string -> Option<real>

  predicate RowOk(r: Row) {
    Field(r, "mean_us", "") !in ["", "NA"] && Field(r, "n", "0") !in ["", "0"]
  }

  predicate Plots(r: Row, parse: IntReader, stack: string, size: int) {
    "stack" in r && r["stack"] == stack && "size" in r && parse(r["size"]) == Some(size) && RowOk(r)
  }

  /** The last of the first n rows to plot for a stack and size; -1 if none. */
  function LastPlot(rows: seq<Row>, parse: IntReader, n: nat, stack: string, size: int): (k: int)
    requires n <= |rows|
    ensures -1 <= k < n && (k >= 0 ==> Plots(rows[k], parse, stack, size))
    ensures forall j :: 0 <= j < n && k < j ==> !Plots(rows[j], parse, stack, size)
    decreases n
  {
    if n == 0 then -1
    else if Plots(rows[n - 1], parse, stack, size) then n - 1
    else LastPlot(rows, parse, n - 1, stack, size)
  }

  function ReadCell(r: Row, name: string, float: RealReader): Option<real> {
    if name in r then float(r[name]) else None
  }

  datatype Point = Absent | Unreadable | At(mean: real, p99: real)

  function PointOf(r: Row, float: RealReader): Point {
    match (ReadCell(r, "mean_us", float), ReadCell(r, "p99_us", float))
    case (Some(mean), Some(p99)) => At(mean, p99)
    case _ => Unreadable
  }

  /** What the rows give for a stack at a size: its last usable row's values. */
  function PointAt(rows: seq<Row>, parse: IntReader, float: RealReader, stack: string, size: int): Point {
    var k := LastPlot(rows, parse, |rows|, stack, size);
    if k < 0 then Absent else PointOf(rows[k], float)
  }

  datatype Series = Series(labels: seq<string>, means: seq<real>, p99s: seq<real>)

  /** The sizes at which a stack has a point, in ladder order. */
  function Drawn(at: int -> Point, sizes: seq<int>, n: nat): (zs: seq<int>)
    requires n <= |sizes|
    decreases n
  {
    if n == 0 then []
    else Drawn(at, sizes, n - 1) + (if at(sizes[n - 1]) == Absent then [] else [sizes[n - 1]])
  }

  lemma {:induction false} InDrawn(at: int -> Point, sizes: seq<int>, n: nat, z: int)
    requires n <= |sizes|
    ensures z in Drawn(at, sizes, n) <==> at(z) != Absent && exists i :: 0 <= i < n && sizes[i] == z
    decreases n
  {
    if n > 0 {
      InDrawn(at, sizes, n - 1, z);
    }
  }

  lemma DrawnNone(at: int -> Point, sizes: seq<int>)
    ensures Drawn(at, sizes, 0) == []
  {
  }

  lemma DrawnOneMore(at: int -> Point, sizes: seq<int>, n: nat)
    requires n < |sizes|
    ensures Drawn(at, sizes, n + 1)
         == if at(sizes[n]) == Absent then Drawn(at, sizes, n) else Drawn(at, sizes, n) + [sizes[n]]
  {
  }

  ghost predicate Readable(at: int -> Point, sizes: seq<int>, n: nat)
    requires n <= |sizes|
  {
    forall i :: 0 <= i < n ==> at(sizes[i]) != Unreadable
  }

  ghost predicate Draws(s: Series, at: int -> Point, zs: seq<int>) {
    AreLabels(s.labels, zs) && |s.means| == |s.p99s| == |zs|
    && forall k :: 0 <= k < |zs| ==> at(zs[k]) == At(s.means[k], s.p99s[k])
  }

  function Points(rows: seq<Row>, parse: IntReader, float: RealReader, stack: string): int -> Point {
    z => PointAt(rows, parse, float, stack, z)
  }

  ghost predicate Indexes(bySize: map<int, Row>, rows: seq<Row>, parse: IntReader, n: nat, stack: string)
    requires n <= |rows|
  {
    forall z ::
      var k := LastPlot(rows, parse, n, stack, z);
      (z in bySize <==> k >= 0) && (k >= 0 ==> bySize[z] == rows[k])
  }

  method IndexBySize(rows: seq<Row>, stack: string, parse: IntReader) returns (bySize: map<int, Row>)
    ensures Indexes(bySize, rows, parse, |rows|, stack)
  {
    bySize := map[];
    for n := 0 to |rows|
      invariant Indexes(bySize, rows, parse, n, stack)
    {
      var r := rows[n];
      if "stack" in r && r["stack"] == stack && "size" in r {
        var size := parse(r["size"]);
        if size.Some? && RowOk(r) {
          bySize := bySize[size.value := r];
        }
      }
    }
  }

  lemma PointIndexed(bySize: map<int, Row>, rows: seq<Row>, parse: IntReader, float: RealReader, stack: string, z: int)
    requires Indexes(bySize, rows, parse, |rows|, stack)
    ensures Points(rows, parse, float, stack)(z) == if z in bySize then PointOf(bySize[z], float) else Absent
  {
  }

  lemma DrawsNone(at: int -> Point)
    ensures Draws(Series([], [], []), at, [])
  {
  }

  lemma DrawsOneMore(s: Series, at: int -> Point, zs: seq<int>, z: int, mean: real, p99: real)
    requires Draws(s, at, zs) && at(z) == At(mean, p99)
    ensures Draws(Series(s.labels + [Label(z)], s.means + [mean], s.p99s + [p99]), at, zs + [z])
  {
    hide Label;
  }

  // -------------------------------------------------------- what is drawn, in the columns' own terms

  /** A usable row of the stack at the size: it has a mean and counts at least one sample. */
  ghost predicate PlotRow(r: Row, parse: IntReader, stack: string, size: int) {
    && "stack" in r && r["stack"] == stack && "size" in r && parse(r["size"]) == Some(size)
    && "mean_us" in r && r["mean_us"] != "" && r["mean_us"] != "NA"
    && "n" in r && r["n"] != "" && r["n"] != "0"
  }

  ghost predicate NothingToPlot(rows: seq<Row>, parse: IntReader, stack: string, size: int) {
    forall j :: 0 <= j < |rows| ==> !PlotRow(rows[j], parse, stack, size)
  }

  /** Row k is the last usable one. */
  ghost predicate PlotsRow(rows: seq<Row>, parse: IntReader, stack: string, size: int, k: nat) {
    && k < |rows| && PlotRow(rows[k], parse, stack, size)
    && forall j :: k < j < |rows| ==> !PlotRow(rows[j], parse, stack, size)
  }

  ghost predicate Reads(r: Row, column: string, float: RealReader, x: real) {
    column in r && float(r[column]) == Some(x)
  }

  /** The last usable row gives that mean and that p99. */
  ghost predicate DrawnAt(rows: seq<Row>, parse: IntReader, float: RealReader, stack: string, size: int,
                          mean: real, p99: real) {
    exists k: nat :: PlotsRow(rows, parse, stack, size, k)
                && Reads(rows[k], "mean_us", float, mean) && Reads(rows[k], "p99_us", float, p99)
  }

  /** The last usable row's mean or p99 is missing or not a number. */
  ghost predicate BrokenAt(rows: seq<Row>, parse: IntReader, float: RealReader, stack: string, size: int) {
    exists k: nat :: PlotsRow(rows, parse, stack, size, k)
                && forall m, p :: !(Reads(rows[k], "mean_us", float, m) && Reads(rows[k], "p99_us", float, p))
  }

  lemma PlotsIs(r: Row, parse: IntReader, stack: string, size: int)
    ensures Plots(r, parse, stack, size) <==> PlotRow(r, parse, stack, size)
  {
  }

  lemma LastPlotIs(rows: seq<Row>, parse: IntReader, stack: string, size: int)
    ensures var k := LastPlot(rows, parse, |rows|, stack, size);
            if k < 0 then NothingToPlot(rows, parse, stack, size) else PlotsRow(rows, parse, stack, size, k)
  {
    forall j | 0 <= j < |rows| ensures Plots(rows[j], parse, stack, size) <==> PlotRow(rows[j], parse, stack, size) {
      PlotsIs(rows[j], parse, stack, size);
    }
    hide Plots, PlotRow;
  }

  lemma PointOfIs(r: Row, float: RealReader)
    ensures match PointOf(r, float)
            case Absent => false
            case Unreadable => forall m, p :: !(Reads(r, "mean_us", float, m) && Reads(r, "p99_us", float, p))
            case At(mean, p99) => Reads(r, "mean_us", float, mean) && Reads(r, "p99_us", float, p99)
  {
  }

  lemma PointAtIs(rows: seq<Row>, parse: IntReader, float: RealReader, stack: string, size: int)
    ensures match PointAt(rows, parse, float, stack, size)
            case Absent => NothingToPlot(rows, parse, stack, size)
            case Unreadable => BrokenAt(rows, parse, float, stack, size)
            case At(mean, p99) => DrawnAt(rows, parse, float, stack, size, mean, p99)
  {
    hide PlotsRow, Reads, PointOf, NothingToPlot;
    LastPlotIs(rows, parse, stack, size);
    var k := LastPlot(rows, parse, |rows|, stack, size);
    if k >= 0 {
      PointOfIs(rows[k], float);
    }
  }

  /** Label, mean and p99 stand side by side, each triple from one size of the ladder. */
  ghost predicate SeriesShows(s: Series, rows: seq<Row>, parse: IntReader, float: RealReader, stack: string,
                              sizes: seq<int>)
  {
    && |s.labels| == |s.means| == |s.p99s|
    && forall k :: 0 <= k < |s.labels| ==>
         TripleShows(s.labels[k], s.means[k], s.p99s[k], rows, parse, float, stack, sizes)
  }

  ghost predicate TripleShows(name: string, mean: real, p99: real, rows: seq<Row>, parse: IntReader, float: RealReader,
                              stack: string, sizes: seq<int>) {
    exists z :: z in sizes && name == Label(z) && DrawnAt(rows, parse, float, stack, z, mean, p99)
  }

  lemma DrawsShows(s: Series, rows: seq<Row>, parse: IntReader, float: RealReader, stack: string, sizes: seq<int>)
    requires var at := Points(rows, parse, float, stack); Draws(s, at, Drawn(at, sizes, |sizes|))
    ensures SeriesShows(s, rows, parse, float, stack, sizes)
  {
    hide TripleShows, Label, Points;
    var at := Points(rows, parse, float, stack);
    var zs := Drawn(at, sizes, |sizes|);
    forall k | 0 <= k < |zs| ensures TripleShows(s.labels[k], s.means[k], s.p99s[k], rows, parse, float, stack, sizes) {
      TripleDrawn(s, rows, parse, float, stack, sizes, k);
    }
  }

  lemma DrawnMember(at: int -> Point, sizes: seq<int>, k: nat)
    requires k < |Drawn(at, sizes, |sizes|)|
    ensures Drawn(at, sizes, |sizes|)[k] in sizes
  {
    InDrawn(at, sizes, |sizes|, Drawn(at, sizes, |sizes|)[k]);
  }

  lemma TripleAt(name: string, mean: real, p99: real, rows: seq<Row>, parse: IntReader, float: RealReader,
                 stack: string, sizes: seq<int>, z: int)
    requires z in sizes && name == Label(z) && PointAt(rows, parse, float, stack, z) == At(mean, p99)
    ensures TripleShows(name, mean, p99, rows, parse, float, stack, sizes)
  {
    hide DrawnAt, PointAt, Label;
    PointAtIs(rows, parse, float, stack, z);
  }

  lemma TripleDrawn(s: Series, rows: seq<Row>, parse: IntReader, float: RealReader, stack: string,
                    sizes: seq<int>, k: nat)
    requires var at := Points(rows, parse, float, stack); Draws(s, at, Drawn(at, sizes, |sizes|))
    requires k < |s.labels|
    ensures TripleShows(s.labels[k], s.means[k], s.p99s[k], rows, parse, float, stack, sizes)
  {
    hide TripleShows, PointAt, Label, Drawn;
    var at := Points(rows, parse, float, stack);
    DrawnMember(at, sizes, k);
    var z := Drawn(at, sizes, |sizes|)[k];
    assert at(z) == PointAt(rows, parse, float, stack, z);
    TripleAt(s.labels[k], s.means[k], s.p99s[k], rows, parse, float, stack, sizes, z);
  }

  /** Some point of the ladder cannot be read. */
  ghost predicate SomeBroken(rows: seq<Row>, parse: IntReader, float: RealReader, stack: string, sizes: seq<int>) {
    exists i :: 0 <= i < |sizes| && BrokenAt(rows, parse, float, stack, sizes[i])
  }

  lemma OnePlotRow(rows: seq<Row>, parse: IntReader, stack: string, size: int, k: nat)
    requires PlotsRow(rows, parse, stack, size, k)
    ensures LastPlot(rows, parse, |rows|, stack, size) == k
  {
    LastPlotIs(rows, parse, stack, size);
    hide PlotRow;
  }

  lemma BrokenAtIs(rows: seq<Row>, parse: IntReader, float: RealReader, stack: string, size: int)
    ensures BrokenAt(rows, parse, float, stack, size) <==> PointAt(rows, parse, float, stack, size) == Unreadable
  {
    PointAtIs(rows, parse, float, stack, size);
    if BrokenAt(rows, parse, float, stack, size) {
      var k: nat :| PlotsRow(rows, parse, stack, size, k)
                    && forall m, p :: !(Reads(rows[k], "mean_us", float, m) && Reads(rows[k], "p99_us", float, p));
      OnePlotRow(rows, parse, stack, size, k);
      PointOfIs(rows[k], float);
    }
  }

  lemma SomeBrokenIs(rows: seq<Row>, parse: IntReader, float: RealReader, stack: string, sizes: seq<int>)
    ensures SomeBroken(rows, parse, float, stack, sizes)
       <==> !Readable(Points(rows, parse, float, stack), sizes, |sizes|)
  {
    forall i | 0 <= i < |sizes|
      ensures BrokenAt(rows, parse, float, stack, sizes[i])
         <==> PointAt(rows, parse, float, stack, sizes[i]) == Unreadable
    {
      BrokenAtIs(rows, parse, float, stack, sizes[i]);
    }
    hide BrokenAt, PointAt;
  }

  /** None when a point to draw has an unreadable mean or p99, as float() then raises. */
  method SeriesForStack(rows: seq<Row>, stack: string, parse: IntReader, float: RealReader, sizes: seq<int>)
    returns (s: Option<Series>)
    ensures var at := Points(rows, parse, float, stack);
      (s.Some? <==> Readable(at, sizes, |sizes|)) && (s.Some? ==> Draws(s.value, at, Drawn(at, sizes, |sizes|)))
    ensures s.None? <==> SomeBroken(rows, parse, float, stack, sizes)
    ensures s.Some? ==> SeriesShows(s.value, rows, parse, float, stack, sizes)
  {
    var bySize := IndexBySize(rows, stack, parse);
    ghost var at := Points(rows, parse, float, stack);
    hide Indexes, LastPlot, Label, Points, Draws, Drawn, SomeBroken, SeriesShows;
    SomeBrokenIs(rows, parse, float, stack, sizes);
    var drawn := Series([], [], []);
    DrawnNone(at, sizes);
    DrawsNone(at);
    for n := 0 to |sizes|
      invariant Readable(at, sizes, n) && Draws(drawn, at, Drawn(at, sizes, n))
    {
      DrawnOneMore(at, sizes, n);
      var size := sizes[n];
      PointIndexed(bySize, rows, parse, float, stack, size);
      if size in bySize {
        match PointOf(bySize[size], float)
        case At(mean, p99) =>
          DrawsOneMore(drawn, at, Drawn(at, sizes, n), size, mean, p99);
          drawn := Series(drawn.labels + [Label(size)], drawn.means + [mean], drawn.p99s + [p99]);
        case _ =>
          return None;
      }
    }
    DrawsShows(drawn, rows, parse, float, stack, sizes);
    return Some(drawn);
  }

  // --------------------------------------------------------------------- alignment

  function MeanOf(p: Point): Option<real> {
    match p
    case At(mean, _) => Some(mean)
    case _ => None
  }

  /** The label dictionary of a drawn series: by label is by size. */
  ghost predicate ByLabel(dict: map<string, real>, at: int -> Point, zs: seq<int>, n: nat)
    requires n <= |zs|
  {
    forall z :: (Label(z) in dict <==> z in zs[..n]) && (Label(z) in dict ==> at(z).At? && dict[Label(z)] == at(z).mean)
  }

  lemma ByLabelStep(dict: map<string, real>, at: int -> Point, zs: seq<int>, n: nat, s: Series)
    requires n < |zs| && Draws(s, at, zs) && ByLabel(dict, at, zs, n)
    ensures ByLabel(dict[s.labels[n] := s.means[n]], at, zs, n + 1)
  {
    hide Label;
    assert zs[..n + 1] == zs[..n] + [zs[n]];
    forall z ensures Label(z) == s.labels[n] <==> z == zs[n] {
      LabelInjective(z, zs[n]);
    }
  }

  method Zip(s: Series, ghost at: int -> Point, ghost zs: seq<int>) returns (dict: map<string, real>)
    requires Draws(s, at, zs)
    ensures ByLabel(dict, at, zs, |zs|)
  {
    dict := map[];
    for n := 0 to |s.labels|
      invariant ByLabel(dict, at, zs, n)
    {
      ByLabelStep(dict, at, zs, n, s);
      dict := dict[s.labels[n] := s.means[n]];
    }
  }

  ghost predicate AreLabels(labels: seq<string>, zs: seq<int>) {
    |labels| == |zs| && forall k :: 0 <= k < |zs| ==> labels[k] == Label(zs[k])
  }

  ghost predicate AreMeans(line: seq<Option<real>>, at: int -> Point, zs: seq<int>) {
    |line| == |zs| && forall k :: 0 <= k < |zs| ==> line[k] == MeanOf(at(zs[k]))
  }

  ghost predicate HoldsPoints(zs: seq<int>, at: int -> Point, plotted: seq<int>) {
    forall k :: 0 <= k < |plotted| ==> (plotted[k] in zs <==> at(plotted[k]) != Absent)
  }

  lemma DrawnHoldsPoints(at: int -> Point, shown: int -> Point, sizes: seq<int>)
    ensures HoldsPoints(Drawn(at, sizes, |sizes|), at, Drawn(shown, sizes, |sizes|))
  {
    var plotted := Drawn(shown, sizes, |sizes|);
    forall k | 0 <= k < |plotted| ensures plotted[k] in Drawn(at, sizes, |sizes|) <==> at(plotted[k]) != Absent {
      assert plotted[k] in plotted;
      InDrawn(shown, sizes, |sizes|, plotted[k]);
      InDrawn(at, sizes, |sizes|, plotted[k]);
    }
  }

  /** One value per plotted label, or nothing where the series has no point. */
  method Align(s: Series, sizeLabels: seq<string>, ghost at: int -> Point, ghost zs: seq<int>, ghost plotted: seq<int>)
    returns (line: seq<Option<real>>)
    requires Draws(s, at, zs) && AreLabels(sizeLabels, plotted) && HoldsPoints(zs, at, plotted)
    ensures AreMeans(line, at, plotted)
  {
    var dict := Zip(s, at, zs);
    assert zs[..|zs|] == zs;
    line := [];
    for k := 0 to |sizeLabels|
      invariant |line| == k && forall i :: 0 <= i < k ==> line[i] == MeanOf(at(plotted[i]))
    {
      assert Label(plotted[k]) in dict <==> plotted[k] in zs;
      line := line + [if sizeLabels[k] in dict then Some(dict[sizeLabels[k]]) else None];
    }
  }

  function Either(cov: int -> Point, sgm: int -> Point): int -> Point {
    z => if cov(z) == Absent then sgm(z) else cov(z)
  }

  lemma LabelIn(labels: seq<string>, zs: seq<int>, z: int)
    requires AreLabels(labels, zs)
    ensures Label(z) in labels <==> z in zs
  {
    forall k | 0 <= k < |zs| ensures labels[k] == Label(z) <==> zs[k] == z {
      LabelInjective(z, zs[k]);
    }
    hide Label;
    if z in zs {
      var k :| 0 <= k < |zs| && zs[k] == z;
      assert labels[k] == Label(z);
    }
  }

  lemma LabelDrawn(s: Series, at: int -> Point, sizes: seq<int>, i: nat)
    requires Draws(s, at, Drawn(at, sizes, |sizes|)) && i < |sizes|
    ensures Label(sizes[i]) in s.labels <==> at(sizes[i]) != Absent
  {
    LabelIn(s.labels, Drawn(at, sizes, |sizes|), sizes[i]);
    InDrawn(at, sizes, |sizes|, sizes[i]);
  }

  datatype Lines = Lines(sizeLabels: seq<string>, covesa: seq<Option<real>>, sgmenon: seq<Option<real>>)

  /** Every ladder size where either stack has a point, in order, and at each the means of that very size. */
  ghost predicate IsChart(c: Lines, cov: int -> Point, sgm: int -> Point, sizes: seq<int>) {
    var plotted := Drawn(Either(cov, sgm), sizes, |sizes|);
    AreLabels(c.sizeLabels, plotted) && AreMeans(c.covesa, cov, plotted) && AreMeans(c.sgmenon, sgm, plotted)
  }

  lemma PlottedIff(cs: Series, ss: Series, sizes: seq<int>, cov: int -> Point, sgm: int -> Point, i: nat)
    requires Draws(cs, cov, Drawn(cov, sizes, |sizes|)) && Draws(ss, sgm, Drawn(sgm, sizes, |sizes|)) && i < |sizes|
    ensures Label(sizes[i]) in cs.labels || Label(sizes[i]) in ss.labels <==> Either(cov, sgm)(sizes[i]) != Absent
  {
    hide Label, Draws;
    LabelDrawn(cs, cov, sizes, i);
    LabelDrawn(ss, sgm, sizes, i);
  }

  method PlottedLabels(cs: Series, ss: Series, sizes: seq<int>, ghost cov: int -> Point, ghost sgm: int -> Point)
    returns (sizeLabels: seq<string>)
    requires Draws(cs, cov, Drawn(cov, sizes, |sizes|)) && Draws(ss, sgm, Drawn(sgm, sizes, |sizes|))
    ensures AreLabels(sizeLabels, Drawn(Either(cov, sgm), sizes, |sizes|))
  {
    hide Label, Draws, Drawn, Either;
    sizeLabels := [];
    DrawnNone(Either(cov, sgm), sizes);
    for n := 0 to |sizes|
      invariant AreLabels(sizeLabels, Drawn(Either(cov, sgm), sizes, n))
    {
      PlottedIff(cs, ss, sizes, cov, sgm, n);
      DrawnOneMore(Either(cov, sgm), sizes, n);
      if Label(sizes[n]) in cs.labels || Label(sizes[n]) in ss.labels {
        sizeLabels := sizeLabels + [Label(sizes[n])];
      }
    }
  }

  /** The plotted value is the mean of that very size, or nothing where the stack has no usable row. */
  ghost predicate ValueShows(x: Option<real>, rows: seq<Row>, parse: IntReader, float: RealReader, stack: string,
                             size: int)
  {
    match x
    case None => NothingToPlot(rows, parse, stack, size)
    case Some(mean) => exists p99 :: DrawnAt(rows, parse, float, stack, size, mean, p99)
  }

  ghost predicate PositionShows(c: Lines, k: nat, rows: seq<Row>, parse: IntReader, float: RealReader, size: int)
    requires k < |c.sizeLabels| == |c.covesa| == |c.sgmenon|
  {
    && c.sizeLabels[k] == Label(size)
    && ValueShows(c.covesa[k], rows, parse, float, "covesa", size)
    && ValueShows(c.sgmenon[k], rows, parse, float, "sgmenon", size)
  }

  /** At every position one ladder size, its label and both stacks' values for it. */
  ghost predicate ChartShows(c: Lines, rows: seq<Row>, parse: IntReader, float: RealReader, sizes: seq<int>) {
    && |c.sizeLabels| == |c.covesa| == |c.sgmenon|
    && forall k :: 0 <= k < |c.sizeLabels| ==> PositionIn(c, k, rows, parse, float, sizes)
  }

  ghost predicate PositionIn(c: Lines, k: nat, rows: seq<Row>, parse: IntReader, float: RealReader, sizes: seq<int>)
    requires k < |c.sizeLabels| == |c.covesa| == |c.sgmenon|
  {
    exists z :: z in sizes && PositionShows(c, k, rows, parse, float, z)
  }

  lemma MeanShows(rows: seq<Row>, parse: IntReader, float: RealReader, stack: string, size: int)
    requires PointAt(rows, parse, float, stack, size) != Unreadable
    ensures ValueShows(MeanOf(PointAt(rows, parse, float, stack, size)), rows, parse, float, stack, size)
  {
    hide NothingToPlot, DrawnAt, BrokenAt, PointAt;
    PointAtIs(rows, parse, float, stack, size);
  }

  lemma ChartIsShown(c: Lines, rows: seq<Row>, parse: IntReader, float: RealReader, sizes: seq<int>)
    requires var cov, sgm := Points(rows, parse, float, "covesa"), Points(rows, parse, float, "sgmenon");
      IsChart(c, cov, sgm, sizes) && Readable(cov, sizes, |sizes|) && Readable(sgm, sizes, |sizes|)
    ensures ChartShows(c, rows, parse, float, sizes)
  {
    hide ValueShows, PointAt, Label, MeanOf;
    var cov, sgm := Points(rows, parse, float, "covesa"), Points(rows, parse, float, "sgmenon");
    var zs := Drawn(Either(cov, sgm), sizes, |sizes|);
    forall k | 0 <= k < |zs| ensures PositionIn(c, k, rows, parse, float, sizes) {
      assert zs[k] in zs;
      InDrawn(Either(cov, sgm), sizes, |sizes|, zs[k]);
      MeanShows(rows, parse, float, "covesa", zs[k]);
      MeanShows(rows, parse, float, "sgmenon", zs[k]);
      assert PositionShows(c, k, rows, parse, float, zs[k]);
    }
  }

  method ChartLines(rows: seq<Row>, parse: IntReader, float: RealReader, sizes: seq<int>) returns (c: Option<Lines>)
    ensures var cov, sgm := Points(rows, parse, float, "covesa"), Points(rows, parse, float, "sgmenon");
      (c.Some? <==> Readable(cov, sizes, |sizes|) && Readable(sgm, sizes, |sizes|))
      && (c.Some? ==> IsChart(c.value, cov, sgm, sizes))
    ensures c.Some? ==> ChartShows(c.value, rows, parse, float, sizes)
  {
    ghost var cov, sgm := Points(rows, parse, float, "covesa"), Points(rows, parse, float, "sgmenon");
    var cs := SeriesForStack(rows, "covesa", parse, float, sizes);
    if cs.None? {
      return None;
    }
    var ss := SeriesForStack(rows, "sgmenon", parse, float, sizes);
    if ss.None? {
      return None;
    }
    var sizeLabels := PlottedLabels(cs.value, ss.value, sizes, cov, sgm);
    ghost var plotted := Drawn(Either(cov, sgm), sizes, |sizes|);
    DrawnHoldsPoints(cov, Either(cov, sgm), sizes);
    DrawnHoldsPoints(sgm, Either(cov, sgm), sizes);
    var covLine := Align(cs.value, sizeLabels, cov, Drawn(cov, sizes, |sizes|), plotted);
    var sgmLine := Align(ss.value, sizeLabels, sgm, Drawn(sgm, sizes, |sizes|), plotted);
    ChartIsShown(Lines(sizeLabels, covLine, sgmLine), rows, parse, float, sizes);
    return Some(Lines(sizeLabels, covLine, sgmLine));
  }

  /** make_dataset's chart, over the snapshot's own ladder. */
  method SnapshotChart(rows: seq<Row>, parse: IntReader, float: RealReader) returns (c: Option<Lines>)
    ensures var cov, sgm := Points(rows, parse, float, "covesa"), Points(rows, parse, float, "sgmenon");
      (c.Some? <==> Readable(cov, CANONICAL_SIZES, 8) && Readable(sgm, CANONICAL_SIZES, 8))
      && (c.Some? ==> IsChart(c.value, cov, sgm, CANONICAL_SIZES))
    ensures c.Some? ==> ChartShows(c.value, rows, parse, float, CANONICAL_SIZES)
  {
    c := ChartLines(rows, parse, float, CANONICAL_SIZES);
  }

  /** No point at a ladder size is dropped, and no size without one is plotted. */
  lemma NoPointDropped(c: Lines, cov: int -> Point, sgm: int -> Point, sizes: seq<int>, i: nat)
    requires IsChart(c, cov, sgm, sizes) && i < |sizes|
    ensures Label(sizes[i]) in c.sizeLabels <==> cov(sizes[i]) != Absent || sgm(sizes[i]) != Absent
  {
    LabelIn(c.sizeLabels, Drawn(Either(cov, sgm), sizes, |sizes|), sizes[i]);
    InDrawn(Either(cov, sgm), sizes, |sizes|, sizes[i]);
  }

  lemma AbsentIs(rows: seq<Row>, parse: IntReader, float: RealReader, stack: string, size: int)
    ensures NothingToPlot(rows, parse, stack, size) <==> PointAt(rows, parse, float, stack, size) == Absent
  {
    LastPlotIs(rows, parse, stack, size);
    var k := LastPlot(rows, parse, |rows|, stack, size);
    hide PlotRow;
    if k >= 0 {
      PointOfIs(rows[k], float);
    }
  }

  /** The same in the columns' terms: a ladder size is plotted if and only if a stack has a usable row there. */
  lemma NoRowDropped(c: Lines, rows: seq<Row>, parse: IntReader, float: RealReader, sizes: seq<int>, i: nat)
    requires IsChart(c, Points(rows, parse, float, "covesa"), Points(rows, parse, float, "sgmenon"), sizes)
    requires i < |sizes|
    ensures Label(sizes[i]) in c.sizeLabels
       <==> !NothingToPlot(rows, parse, "covesa", sizes[i]) || !NothingToPlot(rows, parse, "sgmenon", sizes[i])
  {
    hide IsChart, Label, NothingToPlot, PointAt;
    NoPointDropped(c, Points(rows, parse, float, "covesa"), Points(rows, parse, float, "sgmenon"), sizes, i);
    AbsentIs(rows, parse, float, "covesa", sizes[i]);
    AbsentIs(rows, parse, float, "sgmenon", sizes[i]);
  }

  /** The ladder as the results table prints it. */
  lemma LadderLabels()
    ensures |CANONICAL_SIZES| == 8
    ensures Label(CANONICAL_SIZES[0]) == "64B" && Label(CANONICAL_SIZES[1]) == "1KiB"
    ensures Label(CANONICAL_SIZES[2]) == "16KiB" && Label(CANONICAL_SIZES[3]) == "64KiB"
    ensures Label(CANONICAL_SIZES[4]) == "256KiB" && Label(CANONICAL_SIZES[5]) == "1MiB"
    ensures Label(CANONICAL_SIZES[6]) == "4MiB" && Label(CANONICAL_SIZES[7]) == "10MiB"
  {
    assert CANONICAL_SIZES == [64, 1024, 16384, 65536, 262144, 1048576, 4194304, 10485760];
    assert CANONICAL_SIZES[4] == 262144 && CANONICAL_SIZES[5] == 1048576;
    assert CANONICAL_SIZES[6] == 4194304 && CANONICAL_SIZES[7] == 10485760;
    hide Label;
    LabelTexts();
  }

  predicate Ascending(zs: seq<int>) {
    forall a, b :: 0 <= a < b < |zs| ==> zs[a] < zs[b]
  }

  lemma AscendingOneMore(zs: seq<int>, z: int)
    requires Ascending(zs) && forall a :: 0 <= a < |zs| ==> zs[a] < z
    ensures Ascending(zs + [z])
  {
  }

  /** Over an ascending ladder the points are drawn in ascending order. */
  lemma {:induction false} DrawnAscending(at: int -> Point, sizes: seq<int>, n: nat)
    requires n <= |sizes| && Ascending(sizes)
    ensures Ascending(Drawn(at, sizes, n))
    decreases n
  {
    if n > 0 {
      var zs, z := Drawn(at, sizes, n - 1), sizes[n - 1];
      DrawnAscending(at, sizes, n - 1);
      DrawnOneMore(at, sizes, n - 1);
      forall a | 0 <= a < |zs| ensures zs[a] < z {
        InDrawn(at, sizes, n - 1, zs[a]);
      }
      AscendingOneMore(zs, z);
    }
  }
}
