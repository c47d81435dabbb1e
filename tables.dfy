/** The data pipeline of the statistics page `docs/tables.js`: coercion of
    CSV text to numbers, the league-average row, the delta rows, the row
    normalisation after parsing, the cell formatters and the team filter.
    Numbers are `real`; JavaScript's `null` and `undefined` are `None`. */
module Tables {
  import opened Options
  import opened JsString
  import opened JsNumber

  /** The seven numeric statistics a row carries besides `played`. */
  datatype Stat = Goals | Xg | GoalsVsXg | Shots | Sot | XgPerShot | SotPerShot {
    /** The CSV header the statistic is read from. */
    function Key(): string {
      match this
      case Goals => "goals"
      case Xg => "xg"
      case GoalsVsXg => "goals_vs_xg"
      case Shots => "shots"
      case Sot => "sot"
      case XgPerShot => "xg_per_shot"
      case SotPerShot => "SOT_per_shot"
    }
  }

  /** The seven statistics of one row. */
  datatype Stats = Stats(
    goals: Option<real>,
    xg: Option<real>,
    goalsVsXg: Option<real>,
    shots: Option<real>,
    sot: Option<real>,
    xgPerShot: Option<real>,
    sotPerShot: Option<real>)
  {
    function Get(s: Stat): Option<real> {
      match s
      case Goals => goals
      case Xg => xg
      case GoalsVsXg => goalsVsXg
      case Shots => shots
      case Sot => sot
      case XgPerShot => xgPerShot
      case SotPerShot => sotPerShot
    }
  }

  /** The statistics whose value for each `s` is `f(s)`. */
  function StatsOf(f: Stat -> Option<real>): (r: Stats)
    ensures forall s: Stat :: r.Get(s) == f(s)
  {
    Stats(f(Goals), f(Xg), f(GoalsVsXg), f(Shots), f(Sot), f(XgPerShot), f(SotPerShot))
  }

  /** One table row: a team's statistics, the league-average row
      (`isAvg`) or a team's differences from it (`isDelta`). */
  datatype Row = Row(
    team: string,
    played: Option<real>,
    stats: Stats,
    conv: string,
    isAvg: bool,
    isDelta: bool,
    sortKey: int)

  // ---------------------------------------------------------------------
  // Field coercion

  /** `toNumberOrNull(v)`: trim, treat blank as null, drop the first `%`,
      and keep the result only when it is a finite number. */
  function ToNumberOrNull(v: Option<string>): (r: Option<real>)
    ensures v.None? ==> r.None?
    ensures v.Some? && Trim(v.value) == "" ==> r.None?
    ensures v.Some? && Trim(v.value) != "" ==> r == NumberOf(RemoveFirst(Trim(v.value), '%'))
  {
    match v
    case None => None
    case Some(s) =>
      var t := Trim(s);
      if t == "" then None else NumberOf(RemoveFirst(t, '%'))
  }

  /** `convToNum`: the conversion percentage `"13.16%"` read as `13.16`.
      Blank text is null; other text is `Number` of it trimmed, without
      its first `%`. */
  function ConvToNum(conv: string): (r: Option<real>)
    ensures Trim(conv) == "" ==> r.None?
    ensures Trim(conv) != "" ==> r == NumberOf(RemoveFirst(Trim(conv), '%'))
  {
    ToNumberOrNull(Some(conv))
  }

  /** A number written without white space, followed by one `%`, reads
      back as that number. */
  lemma PercentReadsBack(f: string)
    requires |f| > 0 && NoSpace(f) && '%' !in f
    ensures ConvToNum(f + "%") == NumberOf(f)
  {
    var s := f + "%";
    assert Trim(s) == s by {
      assert !IsSpace(f[0]);
      PercentSuffixTrimmed(f);
    }
    assert RemoveFirst(s, '%') == f by {
      RemoveFirstOfSuffix(f, '%');
    }
    ConvToNumTrimmed(s, f);
  }

  lemma ConvToNumTrimmed(s: string, f: string)
    requires s != "" && Trim(s) == s && RemoveFirst(s, '%') == f
    ensures ConvToNum(s) == NumberOf(f)
  {
  }

  lemma PercentSuffixTrimmed(f: string)
    requires |f| > 0 && !IsSpace(f[0])
    ensures Trim(f + "%") == f + "%"
  {
    var s := f + "%";
    assert s[0] == f[0] && s[|s| - 1] == '%';
    TrimOfTrimmed(s);
  }

  /** Only the first `%` is removed: text whose trimmed form holds two of
      them is not a number. */
  lemma TwoPercentsRejected(s: string, i: nat, j: nat)
    requires i < j < |Trim(s)| && Trim(s)[i] == '%' && Trim(s)[j] == '%'
    ensures ToNumberOrNull(Some(s)) == None
  {
    RemoveFirstKeepsSecond(Trim(s), '%', i, j);
    NumberOfRejects(RemoveFirst(Trim(s), '%'), '%');
  }

  lemma DoublePercentIsNull()
    ensures ConvToNum("1%%") == None
  {
    TrimOfTrimmed("1%%");
    TwoPercentsRejected("1%%", 1, 2);
  }

  lemma PercentTextIsNumber()
    ensures ConvToNum("13.16%") == Some(13.16)
  {
    var f := "13.16";
    calc {
      ConvToNum("13.16%");
      { assert f + "%" == "13.16%"; }
      ConvToNum(f + "%");
      { SampleChars(); NumericCharsFacts(f); PercentReadsBack(f); }
      NumberOf(f);
      { SampleDecimal(); ReadPlain(f, 13.16); }
      Some(13.16);
    }
  }

  lemma SampleDecimal()
    ensures UnsignedDecimal("13.16") == Some(13.16)
  {
    var f := "13.16";
    assert IndexOf(f, '.') == 2 by {
      assert f[0] != '.' && f[1] != '.' && f[2] == '.';
    }
    assert f[..2] == "13" && f[3..] == "16" && "13" + "16" == "1316";
    assert DigitsValue("1316") == 1316 by {
      assert "1316"[..3] == "131" && "131"[..2] == "13" && "13"[..1] == "1" && "1"[..0] == "";
    }
    assert Shifted(1316, 2) == 13.16;
  }

  lemma SampleChars()
    ensures NumericChars("13.16") && IsDigit("13.16"[0]) && IsDigit("13.16"[4])
  {
    var f := "13.16";
    assert f[0] == '1' && f[1] == '3' && f[2] == '.' && f[3] == '1' && f[4] == '6';
  }

  /** A lone `%` becomes the empty string, which `Number` reads as 0. */
  lemma LonePercentIsZero()
    ensures ConvToNum("%") == Some(0.0)
  {
    TrimOfTrimmed("%");
    RemoveFirstOfSuffix("", '%');
    assert "" + "%" == "%";
    ConvToNumTrimmed("%", "");
  }

  // ---------------------------------------------------------------------
  // Mean over present values

  /** The values that are numbers, in order. */
  function Present(vs: seq<Option<real>>): (r: seq<real>)
    ensures |r| <= |vs|
  {
    if vs == [] then []
    else
      var rest := Present(vs[1..]);
      if vs[0].Some? then [vs[0].value] + rest else rest
  }

  /** No value is present exactly when every entry is null. */
  lemma {:induction false} PresentEmpty(vs: seq<Option<real>>)
    ensures |Present(vs)| == 0 <==> forall i :: 0 <= i < |vs| ==> vs[i].None?
  {
    if vs != [] {
      PresentEmpty(vs[1..]);
      assert forall i :: 1 <= i < |vs| ==> vs[i] == vs[1..][i - 1];
    }
  }

  /** When every entry is a number, all of them are present. */
  lemma {:induction false} PresentAll(vs: seq<Option<real>>)
    requires forall i :: 0 <= i < |vs| ==> vs[i].Some?
    ensures |Present(vs)| == |vs|
  {
    if vs != [] {
      PresentAll(vs[1..]);
    }
  }

  /** Every present value is one of the inputs. */
  lemma {:induction false} PresentFrom(vs: seq<Option<real>>, k: nat)
    requires k < |Present(vs)|
    ensures Some(Present(vs)[k]) in vs
  {
    if vs[0].Some? && k == 0 {
    } else {
      var j := if vs[0].Some? then k - 1 else k;
      PresentFrom(vs[1..], j);
      assert Present(vs)[k] == Present(vs[1..])[j];
    }
  }

  function Sum(xs: seq<real>): real {
    if xs == [] then 0.0 else xs[0] + Sum(xs[1..])
  }

  lemma SumCons(x: real, xs: seq<real>)
    ensures Sum([x] + xs) == x + Sum(xs)
  {
    assert ([x] + xs)[1..] == xs;
  }

  /** `mean(values)`: the average of the values that are numbers, or null
      when there is none. */
  function Mean(vs: seq<Option<real>>): (r: Option<real>)
    ensures r.None? <==> forall i :: 0 <= i < |vs| ==> vs[i].None?
  {
    PresentEmpty(vs);
    var p := Present(vs);
    if |p| == 0 then None else Some(Sum(p) / |p| as real)
  }

  lemma {:induction false} PresentAppend(a: seq<Option<real>>, b: seq<Option<real>>)
    ensures Present(a + b) == Present(a) + Present(b)
  {
    if a != [] {
      assert (a + b)[0] == a[0];
      assert (a + b)[1..] == a[1..] + b;
      PresentAppend(a[1..], b);
      if a[0].Some? {
        calc {
          Present(a + b);
          [a[0].value] + Present(a[1..] + b);
          [a[0].value] + (Present(a[1..]) + Present(b));
          ([a[0].value] + Present(a[1..])) + Present(b);
        }
      }
    } else {
      assert a + b == b;
    }
  }

  /** Nulls are ignored: inserting one anywhere leaves the mean unchanged. */
  lemma MeanIgnoresNull(a: seq<Option<real>>, b: seq<Option<real>>)
    ensures Mean(a + [None] + b) == Mean(a + b)
  {
    PresentAppend(a, [None]);
    PresentAppend(a + [None], b);
    PresentAppend(a, b);
    assert Present([None]) == [];
    assert Present(a + [None] + b) == Present(a + b);
  }

  lemma {:induction false} SumBounds(xs: seq<real>, lo: real, hi: real)
    requires forall i :: 0 <= i < |xs| ==> lo <= xs[i] <= hi
    ensures |xs| as real * lo <= Sum(xs) <= |xs| as real * hi
  {
    if xs != [] {
      SumBounds(xs[1..], lo, hi);
    }
  }

  lemma DivBounds(s: real, n: real, lo: real, hi: real)
    requires n > 0.0 && n * lo <= s <= n * hi
    ensures lo <= s / n <= hi
  {
    var q := s / n;
    assert q * n == s;
    assert (q - lo) * n >= 0.0;
    assert (hi - q) * n >= 0.0;
  }

  /** The mean lies within any bounds of the values it averages; in
      particular between their minimum and their maximum. */
  lemma MeanBounds(vs: seq<Option<real>>, lo: real, hi: real)
    requires forall i :: 0 <= i < |vs| && vs[i].Some? ==> lo <= vs[i].value <= hi
    ensures Mean(vs).Some? ==> lo <= Mean(vs).value <= hi
  {
    var p := Present(vs);
    forall k | 0 <= k < |p|
      ensures lo <= p[k] <= hi
    {
      PresentFrom(vs, k);
    }
    SumBounds(p, lo, hi);
    if |p| > 0 {
      DivBounds(Sum(p), |p| as real, lo, hi);
    }
  }

  // ---------------------------------------------------------------------
  // The league-average row

  /** The values of statistic `s` down the rows. */
  function Column(rows: seq<Row>, s: Stat): (c: seq<Option<real>>)
    ensures |c| == |rows| && forall i :: 0 <= i < |rows| ==> c[i] == rows[i].stats.Get(s)
  {
    Map(rows, (r: Row) => r.stats.Get(s))
  }

  /** The conversion percentages down the rows, parsed. */
  function ConvColumn(rows: seq<Row>): (c: seq<Option<real>>)
    ensures |c| == |rows| && forall i :: 0 <= i < |rows| ==> c[i] == ConvToNum(rows[i].conv)
  {
    Map(rows, (r: Row) => ConvToNum(r.conv))
  }

  /** The average's `conv`: the mean percentage to two decimals and `%`,
      or empty when no row's percentage parses. */
  function AvgConv(rows: seq<Row>): (r: string)
    ensures r == "" <==> forall i :: 0 <= i < |rows| ==> ConvToNum(rows[i].conv).None?
    ensures r != "" ==> r[|r| - 1] == '%'
  {
    match Mean(ConvColumn(rows))
    case None => ""
    case Some(m) => ToFixed(m, 2) + "%"
  }

  /** `computeLeagueAvg(rows)`: each statistic is its mean over the rows. */
  function ComputeLeagueAvg(rows: seq<Row>): (avg: Row)
    ensures avg.team == "League Average" && avg.played.None?
    ensures avg.isAvg && !avg.isDelta && avg.sortKey == 0
    ensures forall s: Stat :: avg.stats.Get(s) == Mean(Column(rows, s))
    ensures avg.conv == AvgConv(rows)
  {
    Row(
      team := "League Average",
      played := None,
      stats := StatsOf(s => Mean(Column(rows, s))),
      conv := AvgConv(rows),
      isAvg := true,
      isDelta := false,
      sortKey := 0)
  }

  /** A statistic of the average is null exactly when no row has it, and
      otherwise lies within any bounds of that statistic over the rows (so
      between its minimum and maximum). */
  lemma AvgStatBounds(rows: seq<Row>, s: Stat, lo: real, hi: real)
    requires forall i :: 0 <= i < |rows| && rows[i].stats.Get(s).Some? ==> lo <= rows[i].stats.Get(s).value <= hi
    ensures var a := ComputeLeagueAvg(rows).stats.Get(s);
      && (a.None? <==> forall i :: 0 <= i < |rows| ==> rows[i].stats.Get(s).None?)
      && (a.Some? ==> lo <= a.value <= hi)
  {
    var col := Column(rows, s);
    assert ComputeLeagueAvg(rows).stats.Get(s) == Mean(col);
    MeanBounds(col, lo, hi);
  }

  /** With no rows every statistic of the average is null and `conv` is
      empty. */
  lemma EmptyAverage()
    ensures forall s: Stat :: ComputeLeagueAvg([]).stats.Get(s).None?
    ensures ComputeLeagueAvg([]).conv == ""
  {
  }

  /** The average's `conv` reads back as the mean percentage rounded to two
      decimals. */
  lemma AvgConvReadsBack(rows: seq<Row>)
    requires AvgConv(rows) != ""
    ensures Mean(ConvColumn(rows)).Some?
    ensures ConvToNum(AvgConv(rows)) == Some(Rounded(Mean(ConvColumn(rows)).value, 2))
  {
    var m := Mean(ConvColumn(rows)).value;
    var f := ToFixed(m, 2);
    ToFixedChars(m, 2);
    PercentReadsBack(f);
    ToFixedRoundTrip(m, 2);
  }

  /** The average's `conv` is the mean percentage written by `toFixed(2)`,
      then `%`. */
  lemma AvgConvIsFixed(rows: seq<Row>)
    requires AvgConv(rows) != ""
    ensures Mean(ConvColumn(rows)).Some?
    ensures AvgConv(rows) == ToFixed(Mean(ConvColumn(rows)).value, 2) + "%"
  {
  }

  // ---------------------------------------------------------------------
  // Delta rows

  /** A percent-point difference as `withDeltas` writes it: a `+` when it
      is zero or more, the value to two decimals, then `%`. */
  function SignedPercent(d: real): (r: string)
    ensures |r| >= 2 && r[|r| - 1] == '%'
  {
    SignedFixed(d) + "%"
  }

  /** The difference to two decimals, with a `+` when it is zero or more. */
  function SignedFixed(d: real): (f: string)
    ensures |f| > 0
  {
    (if d >= 0.0 then "+" else "") + ToFixed(d, 2)
  }

  /** A delta row's `conv`: the signed difference of the two percentages,
      or empty when either does not parse. */
  function DeltaConv(rowConv: string, avgConv: string): (r: string)
    ensures r == "" <==> ConvToNum(rowConv).None? || ConvToNum(avgConv).None?
  {
    var rc, ac := ConvToNum(rowConv), ConvToNum(avgConv);
    if rc.Some? && ac.Some? then SignedPercent(rc.value - ac.value) else ""
  }

  /** When both percentages parse, a delta row's `conv` is their signed
      difference written by `SignedPercent`. */
  lemma DeltaConvIsSigned(rowConv: string, avgConv: string)
    requires ConvToNum(rowConv).Some? && ConvToNum(avgConv).Some?
    ensures DeltaConv(rowConv, avgConv) == SignedPercent(ConvToNum(rowConv).value - ConvToNum(avgConv).value)
  {
  }

  /** The sign rule for `conv` deltas: a `+` exactly when the difference is
      zero or more, a `-` exactly when it is negative; and the text reads
      back as the difference rounded to two decimals. */
  lemma SignedPercentReadsBack(d: real)
    ensures var r := SignedPercent(d);
      && (r[0] == '+' <==> d >= 0.0)
      && (r[0] == '-' <==> d < 0.0)
      && ConvToNum(r) == Some(Rounded(d, 2))
  {
    var f := SignedFixed(d);
    SignedFixedFacts(d);
    PercentReadsBack(f);
    assert SignedPercent(d)[0] == f[0];
  }

  lemma SignedFixedFacts(d: real)
    ensures var f := SignedFixed(d);
      && NoSpace(f) && '%' !in f
      && (f[0] == '+' <==> d >= 0.0)
      && (f[0] == '-' <==> d < 0.0)
      && FixedShape(f[1..], 2)
      && NumberOf(f) == Some(Rounded(d, 2))
  {
    if d >= 0.0 {
      PlusFixedFacts(d);
    } else {
      MinusFixedFacts(d);
    }
  }

  lemma PlusFixedFacts(d: real)
    requires d >= 0.0
    ensures var f := SignedFixed(d);
      && NoSpace(f) && '%' !in f && f[0] == '+' && FixedShape(f[1..], 2)
      && NumberOf(f) == Some(Rounded(d, 2))
  {
    var t := ToFixed(d, 2);
    var f := "+" + t;
    ToFixedChars(d, 2);
    NoSpaceAppend("+", t);
    assert '%' !in f by {
      assert forall i :: 1 <= i < |f| ==> f[i] == t[i - 1];
    }
    PlusToFixedRoundTrip(d, 2);
    assert SignedFixed(d) == f;
    assert f[1..] == t;
  }

  lemma MinusFixedFacts(d: real)
    requires d < 0.0
    ensures var f := SignedFixed(d);
      && NoSpace(f) && '%' !in f && f[0] == '-' && FixedShape(f[1..], 2)
      && NumberOf(f) == Some(Rounded(d, 2))
  {
    ToFixedChars(d, 2);
    ToFixedRoundTrip(d, 2);
    assert SignedFixed(d) == ToFixed(d, 2);
  }

  /** `(x ?? 0) - (y ?? 0)`: adding `y` (null as 0) back gives `x` (null
      as 0). */
  function Diff(x: Option<real>, y: Option<real>): (d: real)
    ensures d + y.GetOr(0.0) == x.GetOr(0.0)
  {
    x.GetOr(0.0) - y.GetOr(0.0)
  }

  /** The statistics of a delta row: each one present, and the row's value
      minus the average's. */
  function DeltaStats(r: Stats, avg: Stats): (d: Stats)
    ensures forall s: Stat :: d.Get(s) == Some(Diff(r.Get(s), avg.Get(s)))
  {
    StatsOf(s => Some(Diff(r.Get(s), avg.Get(s))))
  }

  /** The row `withDeltas` makes from a non-average row: the spread keeps
      every field the delta does not replace. */
  function DeltaRow(r: Row, avg: Row): (d: Row)
    ensures d.isDelta && d.isAvg == r.isAvg
    ensures d.team == r.team && d.played == r.played && d.sortKey == r.sortKey
    ensures d.stats == DeltaStats(r.stats, avg.stats)
    ensures d.conv == DeltaConv(r.conv, avg.conv)
  {
    r.(stats := DeltaStats(r.stats, avg.stats), conv := DeltaConv(r.conv, avg.conv), isDelta := true)
  }

  /** `withDeltas(rows, avg)`: average rows pass through, every other row
      becomes its difference from `avg`, in the same order. */
  function WithDeltas(rows: seq<Row>, avg: Row): (ds: seq<Row>)
    ensures |ds| == |rows|
    ensures forall i :: 0 <= i < |rows| ==> ds[i] == if rows[i].isAvg then rows[i] else DeltaRow(rows[i], avg)
  {
    seq(|rows|, i requires 0 <= i < |rows| => if rows[i].isAvg then rows[i] else DeltaRow(rows[i], avg))
  }

  /** Every value of a column moved down by `a`, null counted as 0. */
  function Offset(col: seq<Option<real>>, a: Option<real>): (r: seq<Option<real>>)
    ensures |r| == |col|
    ensures forall i :: 0 <= i < |col| ==> r[i].Some? && r[i].value + a.GetOr(0.0) == col[i].GetOr(0.0)
  {
    Map(col, (v: Option<real>) => Some(Diff(v, a)))
  }

  /** Every number moved down by `b`. */
  function Subtract(xs: seq<real>, b: real): (r: seq<real>)
    ensures |r| == |xs|
  {
    if xs == [] then [] else [xs[0] - b] + Subtract(xs[1..], b)
  }

  /** `n` copies of `b` added up: `n * b` written without a product. */
  function Times(n: nat, b: real): real {
    if n == 0 then 0.0 else b + Times(n - 1, b)
  }

  lemma {:induction false} TimesIsProduct(n: nat, b: real)
    ensures Times(n, b) == n as real * b
  {
    if n > 0 {
      TimesIsProduct(n - 1, b);
    }
  }

  /** `n` copies of the mean of a total `t` over `n` give back `t`. */
  lemma TimesMean(n: nat, t: real)
    requires n > 0
    ensures Times(n, t / n as real) == t
  {
    TimesIsProduct(n, t / n as real);
  }

  lemma {:induction false} SumSubtract(xs: seq<real>, b: real)
    ensures Sum(Subtract(xs, b)) == Sum(xs) - Times(|xs|, b)
  {
    if xs != [] {
      SumSubtract(xs[1..], b);
      SumCons(xs[0] - b, Subtract(xs[1..], b));
    }
  }

  lemma {:induction false} PresentOffset(col: seq<Option<real>>, a: Option<real>)
    requires forall i :: 0 <= i < |col| ==> col[i].Some?
    ensures Present(Offset(col, a)) == Subtract(Present(col), a.GetOr(0.0))
  {
    var o := Offset(col, a);
    if col != [] {
      PresentOffset(col[1..], a);
      assert o[1..] == Offset(col[1..], a);
      assert o[0] == Some(col[0].value - a.GetOr(0.0));
    } else {
      assert o == [];
    }
  }

  lemma OffsetSum(col: seq<Option<real>>, a: Option<real>)
    requires forall i :: 0 <= i < |col| ==> col[i].Some?
    ensures Sum(Present(Offset(col, a))) == Sum(Present(col)) - Times(|col|, a.GetOr(0.0))
  {
    PresentOffset(col, a);
    SumSubtract(Present(col), a.GetOr(0.0));
    PresentAll(col);
  }

  /** Over non-average rows, a column of the delta rows is the column of
      the rows moved down by the average. */
  lemma DeltaColumn(rows: seq<Row>, avg: Row, s: Stat)
    requires forall i :: 0 <= i < |rows| ==> !rows[i].isAvg
    ensures Column(WithDeltas(rows, avg), s) == Offset(Column(rows, s), avg.stats.Get(s))
  {
    var ds, col, a := WithDeltas(rows, avg), Column(rows, s), avg.stats.Get(s);
    forall i | 0 <= i < |rows|
      ensures Column(ds, s)[i] == Offset(col, a)[i]
    {
      var st := DeltaStats(rows[i].stats, avg.stats);
      assert ds[i].stats == st;
      assert col[i] == rows[i].stats.Get(s);
    }
  }

  /** Adding the average back to a delta row's statistic restores the
      row's own value (null read as 0). */
  lemma DeltaRestores(rows: seq<Row>, avg: Row, i: nat, s: Stat)
    requires i < |rows| && !rows[i].isAvg
    ensures WithDeltas(rows, avg)[i].stats.Get(s).Some?
    ensures WithDeltas(rows, avg)[i].stats.Get(s).value + avg.stats.Get(s).GetOr(0.0) == rows[i].stats.Get(s).GetOr(0.0)
  {
    assert WithDeltas(rows, avg)[i].stats == DeltaStats(rows[i].stats, avg.stats);
  }

  /** Over teams that all have statistic `s`, the deltas from their own
      average sum to zero. */
  lemma DeltasSumToZero(rows: seq<Row>, s: Stat)
    requires |rows| > 0
    requires forall i :: 0 <= i < |rows| ==> !rows[i].isAvg && rows[i].stats.Get(s).Some?
    ensures Sum(Present(Column(WithDeltas(rows, ComputeLeagueAvg(rows)), s))) == 0.0
  {
    var avg := ComputeLeagueAvg(rows);
    var col := Column(rows, s);
    assert avg.stats.Get(s) == Mean(col);
    DeltaColumn(rows, avg, s);
    OffsetSum(col, Mean(col));
    FullMeanTimes(col);
  }

  /** Over a column with no nulls, `n` copies of the mean add up to the
      column's sum. */
  lemma FullMeanTimes(col: seq<Option<real>>)
    requires |col| > 0 && forall i :: 0 <= i < |col| ==> col[i].Some?
    ensures Times(|col|, Mean(col).GetOr(0.0)) == Sum(Present(col))
  {
    var p := Present(col);
    PresentAll(col);
    assert Mean(col) == Some(Sum(p) / |p| as real);
    TimesMean(|p|, Sum(p));
  }

  // ---------------------------------------------------------------------
  // Cell formatting

  /** `fmtDelta` on a numeric cell of a row whose `_isDelta` is
      `rowIsDelta`: empty for null, otherwise the number to the row's
      number of decimals, with a `+` on a positive delta when
      `forceSignInDelta` is on. */
  function FmtDelta(v: Option<real>, rowIsDelta: bool, normalDecimals: nat, deltaDecimals: nat,
                    forceSign: bool): (r: string)
    ensures r == "" <==> v.None?
  {
    match v
    case None => ""
    case Some(n) =>
      var s := ToFixed(n, if rowIsDelta then deltaDecimals else normalDecimals);
      if rowIsDelta && forceSign && n > 0.0 then "+" + s else s
  }

  /** What `fmtDelta` shows for a number: a `+` exactly on a positive
      delta with the sign forced (so never for zero), a `-` exactly for a
      negative number, then the magnitude with `deltaDecimals` decimals on
      a delta row and `normalDecimals` otherwise; the text reads back as
      the number rounded to that many decimals. */
  lemma FmtDeltaOfNumber(n: real, rowIsDelta: bool, normalDecimals: nat, deltaDecimals: nat,
                         forceSign: bool)
    ensures var r := FmtDelta(Some(n), rowIsDelta, normalDecimals, deltaDecimals, forceSign);
      var dec := if rowIsDelta then deltaDecimals else normalDecimals;
      && (r[0] == '+' <==> rowIsDelta && forceSign && n > 0.0)
      && (r[0] == '-' <==> n < 0.0)
      && FixedShape(if r[0] == '+' || r[0] == '-' then r[1..] else r, dec)
      && NumberOf(r) == Some(Rounded(n, dec))
  {
    var dec := if rowIsDelta then deltaDecimals else normalDecimals;
    if rowIsDelta && forceSign && n > 0.0 {
      ForcedSign(n, dec);
    } else {
      ToFixedRoundTrip(n, dec);
      ToFixedChars(n, dec);
    }
  }

  lemma ForcedSign(n: real, dec: nat)
    requires n > 0.0
    ensures var r := "+" + ToFixed(n, dec);
      && r[0] == '+' && FixedShape(r[1..], dec) && NumberOf(r) == Some(Rounded(n, dec))
  {
    assert ("+" + ToFixed(n, dec))[1..] == ToFixed(n, dec);
    PlusToFixedRoundTrip(n, dec);
  }

  /** The Conv% cell formatter: blank text shows nothing, text holding a
      `%` shows trimmed, and anything else is read as a number and shown
      with two decimals and `%` (a bare `%` when it is not a number). */
  function ConvCell(value: string): (r: string)
    ensures r == "" <==> Trim(value) == ""
    ensures r != "" ==> '%' in r
  {
    var raw := Trim(value);
    if raw == "" then ""
    else if '%' in raw then raw
    else
      match ConvToNum(raw)
      case Some(n) => ToFixed(n, 2) + "%"
      case None => "%"
  }

  /** Text with a `%` is shown trimmed, and so keeps its value. */
  lemma ConvCellPercentText(value: string)
    requires '%' in Trim(value)
    ensures ConvCell(value) == Trim(value)
    ensures ConvToNum(ConvCell(value)) == ConvToNum(value)
  {
    TrimIdempotent(value);
  }

  /** A bare number is shown as its value to two decimals with `%`, which
      reads back as that rounded value; text that is not a number shows
      as `%`. */
  lemma ConvCellNumberText(value: string)
    requires Trim(value) != "" && '%' !in Trim(value)
    ensures ConvToNum(value).Some? ==> ConvCell(value) == ToFixed(ConvToNum(value).value, 2) + "%"
    ensures ConvToNum(value).Some? ==> ConvToNum(ConvCell(value)) == Some(Rounded(ConvToNum(value).value, 2))
    ensures ConvToNum(value).None? ==> ConvCell(value) == "%"
  {
    var raw := Trim(value);
    TrimIdempotent(value);
    assert ConvToNum(raw) == ConvToNum(value);
    if ConvToNum(value).Some? {
      var n := ConvToNum(value).value;
      ToFixedChars(n, 2);
      PercentReadsBack(ToFixed(n, 2));
      ToFixedRoundTrip(n, 2);
    }
  }

  /** A non-blank text without white space that ends in `%` is shown as
      it is. */
  lemma ConvCellKeeps(f: string)
    requires |f| > 0 && NoSpace(f)
    ensures ConvCell(f + "%") == f + "%"
  {
    PercentSuffixTrimmed(f);
    assert (f + "%")[|f|] == '%';
  }

  /** Formatting a shown value again changes nothing. */
  lemma ConvCellIdempotent(value: string)
    ensures ConvCell(ConvCell(value)) == ConvCell(value)
  {
    var raw := Trim(value);
    if raw == "" {
      assert Trim("") == "";
    } else if '%' in raw {
      TrimIdempotent(value);
    } else {
      NumberCellIdempotent(value);
    }
  }

  lemma NumberCellIdempotent(value: string)
    requires Trim(value) != "" && '%' !in Trim(value)
    ensures ConvCell(ConvCell(value)) == ConvCell(value)
  {
    ConvCellNumberText(value);
    if ConvToNum(value).Some? {
      FixedCellKept(ConvToNum(value).value);
    } else {
      LonePercentCellKept();
    }
  }

  /** A number shown to two decimals with `%` is shown as it is. */
  lemma FixedCellKept(n: real)
    ensures ConvCell(ToFixed(n, 2) + "%") == ToFixed(n, 2) + "%"
  {
    ToFixedChars(n, 2);
    ConvCellKeeps(ToFixed(n, 2));
  }

  /** A lone `%` is shown as it is. */
  lemma LonePercentCellKept()
    ensures ConvCell("%") == "%"
  {
    TrimOfTrimmed("%");
  }

  /** The average row's `conv` text is shown as it is. */
  lemma AvgConvShown(rows: seq<Row>)
    ensures ConvCell(AvgConv(rows)) == AvgConv(rows)
  {
    var m := Mean(ConvColumn(rows));
    if m.Some? {
      ToFixedChars(m.value, 2);
      ConvCellKeeps(ToFixed(m.value, 2));
    }
  }

  /** A delta row's non-empty `conv` text is shown as it is. */
  lemma SignedPercentKept(d: real)
    ensures ConvCell(SignedPercent(d)) == SignedPercent(d)
  {
    SignedFixedFacts(d);
    ConvCellKeeps(SignedFixed(d));
  }

  // ---------------------------------------------------------------------
  // Row normalisation after parsing

  /** A parsed CSV record: header name to cell text. A header the record
      lacks reads as `undefined`. */
  type RawRecord = map<string, string>

  /** `r[key]`: the cell text, or `undefined` when the record has no such
      header. */
  function Field(rec: RawRecord, key: string): (v: Option<string>)
    ensures v.Some? <==> key in rec
    ensures v.Some? ==> v.value == rec[key]
  {
    if key in rec then Some(rec[key]) else None
  }

  /** `(r[key] ?? "").toString().trim()`. */
  function TextField(rec: RawRecord, key: string): string {
    Trim(Field(rec, key).GetOr(""))
  }

  /** The record mapping of `loadCsv`: team and `conv` as trimmed text,
      every number through `toNumberOrNull`, sort key 1. */
  function NormalizeRecord(rec: RawRecord): (r: Row)
    ensures r.team == TextField(rec, "team") && r.conv == TextField(rec, "conv")
    ensures r.played == ToNumberOrNull(Field(rec, "played"))
    ensures forall s: Stat :: r.stats.Get(s) == ToNumberOrNull(Field(rec, s.Key()))
    ensures r.sortKey == 1 && !r.isAvg && !r.isDelta
  {
    Row(
      team := TextField(rec, "team"),
      played := ToNumberOrNull(Field(rec, "played")),
      stats := StatsOf((s: Stat) => ToNumberOrNull(Field(rec, s.Key()))),
      conv := TextField(rec, "conv"),
      isAvg := false,
      isDelta := false,
      sortKey := 1)
  }

  /** The shape of every row `loadCsv` keeps: a non-empty team and a
      `conv` without white space at either end, sort key 1, and neither an
      average nor a delta row. */
  predicate Loaded(r: Row) {
    && r.team != "" && Trim(r.team) == r.team && Trim(r.conv) == r.conv
    && r.sortKey == 1 && !r.isAvg && !r.isDelta
  }

  lemma NormalizedTrimmed(rec: RawRecord)
    ensures var r := NormalizeRecord(rec);
      Trim(r.team) == r.team && Trim(r.conv) == r.conv
  {
    TrimIdempotent(Field(rec, "team").GetOr(""));
    TrimIdempotent(Field(rec, "conv").GetOr(""));
  }

  /** The elements of `xs` that satisfy `p`, in order (`Array.prototype.filter`). */
  function Select<T>(xs: seq<T>, p: T -> bool): (r: seq<T>)
    ensures |r| <= |xs|
  {
    if xs == [] then [] else (if p(xs[0]) then [xs[0]] else []) + Select(xs[1..], p)
  }

  /** An element is selected exactly when it is in `xs` and satisfies `p`. */
  lemma {:induction false} SelectMembers<T>(xs: seq<T>, p: T -> bool, x: T)
    ensures x in Select(xs, p) <==> x in xs && p(x)
  {
    if xs != [] {
      SelectMembers(xs[1..], p, x);
      assert xs == [xs[0]] + xs[1..];
    }
  }

  /** Selecting from a concatenation selects from each part in turn: the
      order is kept. */
  lemma {:induction false} SelectAppend<T>(a: seq<T>, b: seq<T>, p: T -> bool)
    ensures Select(a + b, p) == Select(a, p) + Select(b, p)
  {
    if a == [] {
      assert a + b == b;
    } else {
      var head := if p(a[0]) then [a[0]] else [];
      assert (a + b)[0] == a[0];
      assert (a + b)[1..] == a[1..] + b;
      SelectAppend(a[1..], b, p);
      calc {
        Select(a + b, p);
        head + Select(a[1..] + b, p);
        head + (Select(a[1..], p) + Select(b, p));
        (head + Select(a[1..], p)) + Select(b, p);
      }
    }
  }

  /** `f` applied to each element (`Array.prototype.map`). */
  function Map<A, B>(xs: seq<A>, f: A -> B): (r: seq<B>)
    ensures |r| == |xs| && forall i :: 0 <= i < |xs| ==> r[i] == f(xs[i])
  {
    seq(|xs|, i requires 0 <= i < |xs| => f(xs[i]))
  }

  lemma MapAppend<A, B>(a: seq<A>, b: seq<A>, f: A -> B)
    ensures Map(a + b, f) == Map(a, f) + Map(b, f)
  {
    assert forall i :: 0 <= i < |a + b| ==> (a + b)[i] == if i < |a| then a[i] else b[i - |a|];
  }

  predicate HasTeam(r: Row) {
    r.team != ""
  }

  /** `parsed.data.map(...).filter(r => r.team)`: the normalised records
      whose team is not empty, in order. */
  function LoadRows(recs: seq<RawRecord>): (rows: seq<Row>)
    ensures |rows| <= |recs|
  {
    Select(Map(recs, NormalizeRecord), HasTeam)
  }

  /** A row is loaded exactly when it is the normalisation of some record
      with a non-empty team. */
  lemma LoadRowsMembers(recs: seq<RawRecord>, r: Row)
    ensures r in LoadRows(recs) <==>
      exists k :: 0 <= k < |recs| && r == NormalizeRecord(recs[k]) && r.team != ""
  {
    SelectMembers(Map(recs, NormalizeRecord), HasTeam, r);
  }

  /** Every loaded row has the shape `Loaded` describes. */
  lemma LoadRowsLoaded(recs: seq<RawRecord>)
    ensures forall r :: r in LoadRows(recs) ==> Loaded(r)
  {
    forall r | r in LoadRows(recs)
      ensures Loaded(r)
    {
      LoadRowsMembers(recs, r);
      var k :| 0 <= k < |recs| && r == NormalizeRecord(recs[k]) && r.team != "";
      NormalizedTrimmed(recs[k]);
    }
  }

  /** Loading a concatenation loads each part in turn: the order of the
      records is kept. */
  lemma LoadRowsAppend(a: seq<RawRecord>, b: seq<RawRecord>)
    ensures LoadRows(a + b) == LoadRows(a) + LoadRows(b)
  {
    MapAppend(a, b, NormalizeRecord);
    SelectAppend(Map(a, NormalizeRecord), Map(b, NormalizeRecord), HasTeam);
  }

  // ---------------------------------------------------------------------
  // Team filter

  /** The query the filter box sets: its text trimmed and lower-cased, or
      none (the filter is cleared) when that is empty. */
  function FilterQuery(input: string): (q: Option<string>)
    ensures q.None? <==> Trim(input) == ""
    ensures q.Some? ==> q.value == ToLower(Trim(input))
    ensures q.Some? ==> |q.value| == |Trim(input)| && ToLower(q.value) == q.value
  {
    var t := Trim(input);
    if t == "" then None else LowerTwice(t); Some(ToLower(t))
  }

  /** The predicate given to `setFilter`: the average row always, any
      other row when its lower-cased team contains the query. */
  predicate Matches(row: Row, q: string)
    ensures row.isAvg ==> Matches(row, q)
    ensures !row.isAvg && Matches(row, q) ==> |q| <= |row.team|
  {
    row.isAvg || Contains(ToLower(row.team), q)
  }

  /** The rows the table shows under query `q`: all of them when the
      filter is cleared, else those that match, in order. */
  function Filtered(rows: seq<Row>, q: Option<string>): (r: seq<Row>)
    ensures |r| <= |rows|
    ensures q.None? ==> r == rows
  {
    match q
    case None => rows
    case Some(text) => Select(rows, row => Matches(row, text))
  }

  /** A row is shown exactly when it is one of the rows and either the
      filter is cleared or the row matches; the average row always is. */
  lemma FilteredMembers(rows: seq<Row>, q: Option<string>, x: Row)
    ensures x in Filtered(rows, q) <==> x in rows && (q.None? || Matches(x, q.value))
    ensures x in rows && x.isAvg ==> x in Filtered(rows, q)
  {
    if q.Some? {
      SelectMembers(rows, row => Matches(row, q.value), x);
    }
  }

  /** The filter keeps the order of the rows. */
  lemma FilteredAppend(a: seq<Row>, b: seq<Row>, q: Option<string>)
    ensures Filtered(a + b, q) == Filtered(a, q) + Filtered(b, q)
  {
    if q.Some? {
      SelectAppend(a, b, row => Matches(row, q.value));
    }
  }

  /** The typed query is trimmed and lower-cased: " A " filters by "a". */
  lemma SpacedCapitalQuery()
    ensures FilterQuery(" A ") == Some("a")
  {
    assert TrimStart(" A ") == "A ";
    assert TrimEnd("A ") == "A";
    assert LowerChar('A') == 'a';
    assert ToLower("A") == "a";
  }

  /** The query "a" keeps the Chelsea row, whose lower-cased name holds an
      "a". */
  lemma ChelseaMatches()
    ensures Matches(Row("Chelsea", None, StatsOf((s: Stat) => None), "", false, false, 1), "a")
  {
    var t := ToLower("Chelsea");
    assert t[6] == 'a' && t[6..7] == "a";
    assert OccursAt(t, "a", 6);
  }
}
