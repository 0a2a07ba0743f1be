/**
 * `create_csv_reports`: one table for many samples. The header row starts
 * with the seven fixed column names and grows as analyses with new column
 * keys are met; each sample yields one row holding its seven fixed values,
 * padded with empty cells up to the current header length before each
 * analysis is written into its column. Rows written earlier are never
 * widened when later samples add columns.
 */
module CsvReports {
  import opened Wrappers
  import opened Records
  import opened Strings
  import opened Grouping

  /** The one failure of the builder: with no sample, the CSV writer is
      never created, so writing the header row fails. */
  datatype ReportError = UnboundWriter

  /** The column key of an analysis: its title, followed by its unit in
      parentheses when the unit is not empty. */
  function ColumnKey(title: string, unit: string): (key: string)
    ensures title <= key
    ensures key == title <==> unit == ""
    ensures unit != "" ==> key[|title|..] == " (" + unit + ")"
  {
    if unit == "" then title else title + " (" + unit + ")"
  }

  function Key(a: Analysis): string {
    ColumnKey(a.title, a.unit)
  }

  /** The column keys of `ys`, in order. */
  function Keys(ys: seq<Analysis>): seq<string> {
    if ys == [] then [] else [Key(ys[0])] + Keys(ys[1..])
  }

  /** The header row under construction and the row of the current sample. */
  datatype Progress = Progress(headers: seq<string>, line: seq<string>)

  /** `n` empty cells. */
  function Blanks(n: nat): (r: seq<string>)
    ensures |r| == n && forall j :: 0 <= j < n ==> r[j] == ""
  {
    if n == 0 then [] else Blanks(n - 1) + [""]
  }

  /** `line` extended with empty cells up to `width` cells (left as it is
      when already that long). */
  function Pad(line: seq<string>, width: nat): (r: seq<string>)
    ensures |r| == if |line| < width then width else |line|
    ensures line <= r
    ensures forall j :: |line| <= j < |r| ==> r[j] == ""
  {
    if |line| < width then line + Blanks(width - |line|) else line
  }

  /** `headers.index(x)`: the first position of `x`. */
  function IndexOf(xs: seq<string>, x: string): (i: nat)
    requires x in xs
    ensures i < |xs| && xs[i] == x && x !in xs[..i]
  {
    if xs[0] == x then 0 else 1 + IndexOf(xs[1..], x)
  }

  /** Writing one analysis: pad the row to the header length, then either
      open a new column for its key or overwrite the cell of the existing one. */
  function Place(p: Progress, a: Analysis): Progress {
    var line := Pad(p.line, |p.headers|);
    var key := Key(a);
    if key !in p.headers then Progress(p.headers + [key], line + [a.result])
    else Progress(p.headers, line[IndexOf(p.headers, key) := a.result])
  }

  /** Writing the analyses `ys` one after another. */
  function Fill(p: Progress, ys: seq<Analysis>): Progress
    decreases |ys|
  {
    if ys == [] then p else Fill(Place(p, ys[0]), ys[1..])
  }

  /** The result of the last analysis in `ys` whose column key is `key`. */
  function LastResult(ys: seq<Analysis>, key: string): Option<string> {
    if ys == [] then None
    else
      var later := LastResult(ys[1..], key);
      if later.Some? then later
      else if Key(ys[0]) == key then Some(ys[0].result)
      else None
  }

  /** The cell in column `j` after writing: the last result written to it
      if any, otherwise the cell as it was, or empty if the row was shorter. */
  function Written(v: Option<string>, base: seq<string>, j: nat): string {
    match v
    case Some(x) => x
    case None => if j < |base| then base[j] else ""
  }

  /** The states the builder can be in: distinct column names and a row
      no longer than the header. */
  ghost predicate WellFormed(p: Progress) {
    Distinct(p.headers) && |p.line| <= |p.headers|
  }

  /** Two analyses with different titles and units can share a column:
      a unit-less title that already ends in a parenthesised word. */
  lemma KeysCollide()
    ensures Key(Analysis("Ca (total)", "Metals", "1", "")) == Key(Analysis("Ca", "Metals", "2", "total"))
  {
  }

  lemma {:induction false} KeysMembers(ys: seq<Analysis>)
    ensures forall k :: k in Keys(ys) <==> exists a :: a in ys && Key(a) == k
    decreases |ys|
  {
    if ys != [] {
      KeysMembers(ys[1..]);
      assert ys == [ys[0]] + ys[1..];
    }
  }

  /** LastResult finds the last analysis with the key: it is present
      exactly when some analysis has that key, and then it is the result
      of an analysis with that key after which none has it. */
  lemma {:induction false} LastResultSpec(ys: seq<Analysis>, key: string)
    ensures LastResult(ys, key).Some? <==> key in Keys(ys)
    ensures LastResult(ys, key).Some? ==>
      exists n :: 0 <= n < |ys| && Key(ys[n]) == key && LastResult(ys, key).value == ys[n].result
        && forall m :: n < m < |ys| ==> Key(ys[m]) != key
    decreases |ys|
  {
    if ys != [] {
      LastResultSpec(ys[1..], key);
      var later := LastResult(ys[1..], key);
      if later.Some? {
        var n :| 0 <= n < |ys| - 1 && Key(ys[1..][n]) == key && later.value == ys[1..][n].result
          && forall m :: n < m < |ys| - 1 ==> Key(ys[1..][m]) != key;
        assert Key(ys[n + 1]) == key && later.value == ys[n + 1].result;
        forall m | n + 1 < m < |ys| ensures Key(ys[m]) != key {
          assert ys[m] == ys[1..][m - 1];
        }
      } else if Key(ys[0]) == key {
        forall m | 0 < m < |ys| ensures Key(ys[m]) != key {
          assert ys[m] == ys[1..][m - 1];
          assert Key(ys[1..][m - 1]) in Keys(ys[1..]) by { KeysMembers(ys[1..]); }
        }
      }
    }
  }

  /** One step keeps the state well formed: the header grows by the new key
      only, the row reaches the header length, the analysis's column holds
      its result and every other cell is the old one or a padding cell. */
  lemma PlaceFacts(p: Progress, a: Analysis)
    requires WellFormed(p)
    ensures Place(p, a).headers == p.headers + (if Key(a) in p.headers then [] else [Key(a)])
    ensures WellFormed(Place(p, a))
    ensures |Place(p, a).line| == |Place(p, a).headers|
    ensures forall j :: 0 <= j < |Place(p, a).line| ==>
      Place(p, a).line[j] == if Place(p, a).headers[j] == Key(a) then a.result
                             else if j < |p.line| then p.line[j] else ""
  {
    var q := Place(p, a);
    if Key(a) in p.headers {
      var i := IndexOf(p.headers, Key(a));
      forall j | 0 <= j < |q.line| && j != i ensures q.headers[j] != Key(a) {
        if j < i {
          assert p.headers[..i][j] == p.headers[j];
        }
      }
    } else {
      assert Distinct(q.headers) by {
        forall j | 0 <= j < |p.headers| ensures q.headers[j] != Key(a) {
          assert p.headers[j] in p.headers;
        }
      }
    }
  }

  /** The header only grows, by appending: the old header is a prefix of
      the new one, names stay distinct, and the new names are exactly the
      keys of the written analyses not there before. The state stays well
      formed, and the row has reached the header length once anything was
      written. */
  lemma {:induction false} FillHeaders(p: Progress, ys: seq<Analysis>)
    requires WellFormed(p)
    ensures p.headers <= Fill(p, ys).headers
    ensures WellFormed(Fill(p, ys))
    ensures forall k :: k in Fill(p, ys).headers <==> k in p.headers || k in Keys(ys)
    ensures ys != [] ==> |Fill(p, ys).line| == |Fill(p, ys).headers|
    decreases |ys|
  {
    if ys != [] {
      var q := Place(p, ys[0]);
      PlaceFacts(p, ys[0]);
      FillHeaders(q, ys[1..]);
      if ys[1..] == [] {
        assert Fill(q, ys[1..]) == q;
      }
    }
  }

  /** Cells after writing `ys`: for every column, the result of the last
      analysis in `ys` with that column's key (last write wins); where no
      analysis has that key, the cell as it was, or empty when the row did
      not reach that column. */
  lemma {:induction false} FillCells(p: Progress, ys: seq<Analysis>)
    requires WellFormed(p)
    ensures |Fill(p, ys).line| <= |Fill(p, ys).headers|
    ensures forall j :: 0 <= j < |Fill(p, ys).line| ==>
      Fill(p, ys).line[j] == Written(LastResult(ys, Fill(p, ys).headers[j]), p.line, j)
    decreases |ys|
  {
    if ys != [] {
      var q := Place(p, ys[0]);
      var r := Fill(q, ys[1..]);
      PlaceFacts(p, ys[0]);
      FillCells(q, ys[1..]);
      FillHeaders(q, ys[1..]);
      forall j | 0 <= j < |r.line|
        ensures r.line[j] == Written(LastResult(ys, r.headers[j]), p.line, j)
      {
        FillCellStep(p, ys[0], q, r, ys[1..], j);
        assert ys == [ys[0]] + ys[1..];
      }
    }
  }

  /** The cell of column `j` after writing `y` and then `rest`, from what
      writing `y` does (state `q`) and what writing `rest` does from there
      (state `r`). */
  lemma FillCellStep(p: Progress, y: Analysis, q: Progress, r: Progress, rest: seq<Analysis>, j: nat)
    requires WellFormed(p)
    requires q.headers == p.headers + (if Key(y) in p.headers then [] else [Key(y)])
    requires |q.line| == |q.headers|
    requires j < |q.line| ==>
      q.line[j] == if q.headers[j] == Key(y) then y.result else if j < |p.line| then p.line[j] else ""
    requires q.headers <= r.headers && Distinct(r.headers) && j < |r.line| <= |r.headers|
    requires r.line[j] == Written(LastResult(rest, r.headers[j]), q.line, j)
    ensures r.line[j] == Written(LastResult([y] + rest, r.headers[j]), p.line, j)
  {
    var key := r.headers[j];
    assert ([y] + rest)[1..] == rest;
    if LastResult(rest, key).None? && j >= |q.line| {
      var t := IndexOf(q.headers, Key(y));
      assert r.headers[t] == Key(y);
    }
  }

  lemma {:induction false} FillAppend(p: Progress, ys: seq<Analysis>, zs: seq<Analysis>)
    ensures Fill(p, ys + zs) == Fill(Fill(p, ys), zs)
    decreases |ys|
  {
    if ys == [] {
      assert ys + zs == zs;
    } else {
      assert (ys + zs)[1..] == ys[1..] + zs;
      FillAppend(Place(p, ys[0]), ys[1..], zs);
    }
  }

  /** One more turn of the inner loop. */
  lemma FillSnoc(p: Progress, ys: seq<Analysis>, m: nat)
    requires m < |ys|
    ensures Fill(p, ys[..m + 1]) == Place(Fill(p, ys[..m]), ys[m])
  {
    assert ys[..m + 1] == ys[..m] + [ys[m]];
    FillAppend(p, ys[..m], [ys[m]]);
    assert [ys[m]][1..] == [];
  }

  /** The row of one sample, starting from the header `h` built so far:
      its seven fixed values, then its analyses written in grouped order. */
  ghost function SampleRow(h: seq<string>, s: Sample): Progress {
    Fill(Progress(h, FixedCells(s)), Ordered(s.analyses))
  }

  /** The header row and the rows of the samples written so far. */
  datatype Sheet = Sheet(headers: seq<string>, body: seq<seq<string>>)

  ghost function AddSample(sh: Sheet, s: Sample): Sheet {
    var p := SampleRow(sh.headers, s);
    Sheet(p.headers, sh.body + [p.line])
  }

  /** The sheet after the samples `ss`, taken in order. */
  ghost function Accumulate(ss: seq<Sample>): (sh: Sheet)
    ensures |sh.body| == |ss|
  {
    if ss == [] then Sheet(FixedHeaders, [])
    else AddSample(Accumulate(ss[..|ss| - 1]), ss[|ss| - 1])
  }

  /** The rows written: the header row, then one row per sample; an error
      when there is no sample. */
  ghost function Table(ss: seq<Sample>): Result<seq<seq<string>>, ReportError> {
    if ss == [] then Failure(UnboundWriter)
    else Success([Accumulate(ss).headers] + Accumulate(ss).body)
  }

  /** What writing one sample's analyses does to the header and the row. */
  lemma SampleRowFacts(h: seq<string>, s: Sample)
    requires Distinct(h) && |FixedHeaders| <= |h|
    ensures h <= SampleRow(h, s).headers
    ensures WellFormed(SampleRow(h, s))
    ensures forall k :: k in SampleRow(h, s).headers <==> k in h || exists a :: a in s.analyses && Key(a) == k
    ensures s.analyses == [] ==> SampleRow(h, s) == Progress(h, FixedCells(s))
    ensures s.analyses != [] ==> |SampleRow(h, s).line| == |SampleRow(h, s).headers|
    ensures forall j :: 0 <= j < |SampleRow(h, s).line| ==>
      SampleRow(h, s).line[j] == Written(LastResult(Ordered(s.analyses), SampleRow(h, s).headers[j]), FixedCells(s), j)
  {
    var ys := Ordered(s.analyses);
    var start := Progress(h, FixedCells(s));
    OrderedPermutation(s.analyses);
    KeysMembers(ys);
    forall a ensures a in ys <==> a in s.analyses {
      assert a in ys <==> a in multiset(ys);
    }
    FillHeaders(start, ys);
    FillCells(start, ys);
  }

  /** Every sheet reached keeps distinct column names led by the seven fixed
      ones, and has one row per sample. */
  lemma {:induction false} AccumulateShape(ss: seq<Sample>)
    ensures Distinct(Accumulate(ss).headers)
    ensures FixedHeaders <= Accumulate(ss).headers
    decreases |ss|
  {
    if ss != [] {
      var sh := Accumulate(ss[..|ss| - 1]);
      AccumulateShape(ss[..|ss| - 1]);
      SampleRowFacts(sh.headers, ss[|ss| - 1]);
    }
  }

  /** Writing later samples only appends columns and rows: the header and
      rows after the first `i` samples are prefixes of the final ones. */
  lemma {:induction false} AccumulatePrefix(ss: seq<Sample>, i: nat)
    requires i <= |ss|
    ensures Accumulate(ss[..i]).headers <= Accumulate(ss).headers
    ensures Accumulate(ss[..i]).body <= Accumulate(ss).body
    decreases |ss|
  {
    if i < |ss| {
      var init := ss[..|ss| - 1];
      assert init[..i] == ss[..i];
      AccumulatePrefix(init, i);
      AccumulateShape(init);
      SampleRowFacts(Accumulate(init).headers, ss[|ss| - 1]);
    } else {
      assert ss[..i] == ss;
    }
  }

  lemma AccumulateSnoc(ss: seq<Sample>, i: nat)
    requires i < |ss|
    ensures Accumulate(ss[..i + 1]) == AddSample(Accumulate(ss[..i]), ss[i])
  {
    assert ss[..i + 1][..i] == ss[..i];
  }

  /** Some analysis of the samples `ss` has column key `k`. */
  ghost predicate Named(ss: seq<Sample>, k: string) {
    exists i, a :: 0 <= i < |ss| && a in ss[i].analyses && Key(a) == k
  }

  lemma NamedSnoc(ss: seq<Sample>, k: string)
    requires ss != []
    ensures Named(ss, k) <==> Named(ss[..|ss| - 1], k) || exists a :: a in ss[|ss| - 1].analyses && Key(a) == k
  {
    var init := ss[..|ss| - 1];
    if Named(ss, k) {
      var i, a :| 0 <= i < |ss| && a in ss[i].analyses && Key(a) == k;
      if i < |init| {
        assert init[i] == ss[i];
      }
    }
    if Named(init, k) {
      var i, a :| 0 <= i < |init| && a in init[i].analyses && Key(a) == k;
      assert ss[i] == init[i];
    }
  }

  /** The columns of the table: the seven fixed names and the keys of the
      analyses of the samples, and nothing else. */
  lemma {:induction false} HeaderColumns(ss: seq<Sample>)
    ensures forall k :: k in Accumulate(ss).headers <==> k in FixedHeaders || Named(ss, k)
    decreases |ss|
  {
    if ss != [] {
      var init := ss[..|ss| - 1];
      HeaderColumns(init);
      AccumulateShape(init);
      SampleRowFacts(Accumulate(init).headers, ss[|ss| - 1]);
      forall k ensures Named(ss, k) <==> Named(init, k) || exists a :: a in ss[|ss| - 1].analyses && Key(a) == k {
        NamedSnoc(ss, k);
      }
    }
  }

  /** The row of sample `i` is the one it got when it was written, from the
      header as the earlier samples had left it. */
  lemma SampleRowAt(ss: seq<Sample>, i: nat)
    requires i < |ss|
    ensures Accumulate(ss).body[i] == SampleRow(Accumulate(ss[..i]).headers, ss[i]).line
    ensures Accumulate(ss[..i + 1]).headers == SampleRow(Accumulate(ss[..i]).headers, ss[i]).headers
  {
    AccumulateSnoc(ss, i);
    RowKept(ss, i);
  }

  lemma RowKept(ss: seq<Sample>, i: nat)
    requires i < |ss|
    ensures Accumulate(ss).body[i] == Accumulate(ss[..i + 1]).body[i]
  {
    AccumulatePrefix(ss, i + 1);
    PrefixIndex(Accumulate(ss[..i + 1]).body, Accumulate(ss).body, i);
  }

  /** Row widths: a sample without analyses has its seven fixed cells only;
      otherwise its row is as long as the header was once it was written.
      No row is longer than the final header, and a row is shorter than the
      final header whenever a later sample added a column: earlier rows are
      never widened. */
  lemma RowWidth(ss: seq<Sample>, i: nat)
    requires i < |ss|
    ensures ss[i].analyses == [] ==> Accumulate(ss).body[i] == FixedCells(ss[i])
    ensures ss[i].analyses != [] ==> |Accumulate(ss).body[i]| == |Accumulate(ss[..i + 1]).headers|
    ensures |Accumulate(ss).body[i]| <= |Accumulate(ss[..i + 1]).headers| <= |Accumulate(ss).headers|
    ensures |Accumulate(ss[..i + 1]).headers| < |Accumulate(ss).headers| ==>
              |Accumulate(ss).body[i]| < |Accumulate(ss).headers|
  {
    SampleRowAt(ss, i);
    AccumulateShape(ss[..i]);
    SampleRowFacts(Accumulate(ss[..i]).headers, ss[i]);
    AccumulatePrefix(ss, i + 1);
  }

  /** The cells of sample `i`'s row, against the final header: a column
      holds the result of the sample's last analysis (in grouped order) with
      that column's key; a fixed column no analysis names holds the
      sample's own value; any other column holds an empty padding cell. */
  lemma RowCells(ss: seq<Sample>, i: nat, j: nat)
    requires i < |ss| && j < |Accumulate(ss).body[i]|
    ensures j < |Accumulate(ss).headers|
    ensures var h := Accumulate(ss).headers[j];
      Accumulate(ss).body[i][j] == Written(LastResult(Ordered(ss[i].analyses), h), FixedCells(ss[i]), j)
  {
    var before := Accumulate(ss[..i]).headers;
    var p := SampleRow(before, ss[i]);
    RowWidth(ss, i);
    SampleRowAt(ss, i);
    AccumulateShape(ss[..i]);
    SampleRowFacts(before, ss[i]);
    AccumulatePrefix(ss, i + 1);
    PrefixIndex(p.headers, Accumulate(ss).headers, j);
  }

  /** A column that existed before sample `i` was written, and that none of
      its analyses names, holds an empty padding cell in its row, provided
      the sample has analyses (a sample without any is never padded). */
  lemma LaterRowsPadded(ss: seq<Sample>, i: nat, j: nat)
    requires i < |ss| && ss[i].analyses != []
    requires |FixedHeaders| <= j < |Accumulate(ss[..i]).headers|
    requires forall a :: a in ss[i].analyses ==> Key(a) != Accumulate(ss[..i]).headers[j]
    ensures j < |Accumulate(ss).body[i]| && Accumulate(ss).body[i][j] == ""
  {
    var before := Accumulate(ss[..i]).headers;
    var ys := Ordered(ss[i].analyses);
    RowWidth(ss, i);
    SampleRowAt(ss, i);
    AccumulateShape(ss[..i]);
    SampleRowFacts(before, ss[i]);
    assert j < |Accumulate(ss).body[i]|;
    RowCells(ss, i, j);
    AccumulatePrefix(ss, i);
    PrefixIndex(before, Accumulate(ss).headers, j);
    var key := before[j];
    LastResultSpec(ys, key);
    KeysMembers(ys);
    OrderedPermutation(ss[i].analyses);
    forall a | a in ys ensures Key(a) != key {
      assert a in multiset(ys);
    }
  }

  lemma PrefixIndex<T>(a: seq<T>, b: seq<T>, j: nat)
    requires a <= b && j < |a|
    ensures a[j] == b[j]
  {
    assert a == b[..|a|];
  }

  /** The table: an error exactly when there is no sample; otherwise the
      final header row, led by the seven fixed names, then one row per
      sample in input order. */
  lemma TableShape(ss: seq<Sample>)
    ensures Table(ss).Failure? <==> ss == []
    ensures Table(ss).Failure? ==> Table(ss).error == UnboundWriter
    ensures Table(ss).Success? ==>
      && |Table(ss).value| == |ss| + 1
      && FixedHeaders <= Table(ss).value[0]
      && Distinct(Table(ss).value[0])
      && forall i :: 0 <= i < |ss| ==> Table(ss).value[i + 1] == Accumulate(ss).body[i]
  {
    AccumulateShape(ss);
  }

  /** A sample with a single analysis writes just that analysis. */
  lemma OrderedSingle(a: Analysis)
    ensures Ordered([a]) == [a]
  {
    var c := a.category;
    assert [a][1..] == [] && [c][1..] == [];
    assert CategoryList([a]) == [c];
    assert SortStrings([c]) == [c];
    assert SortedCategories([a]) == [c];
    assert Filter([a], c) == [a];
    assert ConcatGroups([a], [c]) == [a];
  }

  /** A sample with one analysis whose key is new opens one column. */
  lemma SingleNewColumn(h: seq<string>, s: Sample)
    requires |s.analyses| == 1 && Key(s.analyses[0]) !in h
    ensures SampleRow(h, s) == Progress(h + [Key(s.analyses[0])], Pad(FixedCells(s), |h|) + [s.analyses[0].result])
  {
    var a := s.analyses[0];
    var start := Progress(h, FixedCells(s));
    assert s.analyses == [a];
    OrderedSingle(a);
    assert [a][1..] == [];
    assert Fill(start, [a]) == Place(start, a);
  }

  /** Ragged rows: two samples with one analysis each, under two new
      column keys. The second sample opens a column after the first row was
      written; that row is not widened and stays one cell shorter than the
      header, while the second row has an empty cell under the first
      sample's column. */
  lemma RaggedRows(a: Sample, b: Sample)
    requires |a.analyses| == 1 && |b.analyses| == 1
    requires Key(a.analyses[0]) !in FixedHeaders
    requires Key(b.analyses[0]) !in FixedHeaders + [Key(a.analyses[0])]
    ensures var ka, kb := Key(a.analyses[0]), Key(b.analyses[0]);
            Table([a, b]) == Success([FixedHeaders + [ka, kb],
                                      FixedCells(a) + [a.analyses[0].result],
                                      FixedCells(b) + ["", b.analyses[0].result]])
    ensures |Table([a, b]).value[1]| < |Table([a, b]).value[0]|
  {
    var ka, kb := Key(a.analyses[0]), Key(b.analyses[0]);
    var rows := [FixedCells(a) + [a.analyses[0].result], FixedCells(b) + ["", b.analyses[0].result]];
    SecondSample(a, b);
    assert [FixedHeaders + [ka, kb]] + rows == [FixedHeaders + [ka, kb], rows[0], rows[1]];
  }

  lemma SecondSample(a: Sample, b: Sample)
    requires |a.analyses| == 1 && |b.analyses| == 1
    requires Key(a.analyses[0]) !in FixedHeaders
    requires Key(b.analyses[0]) !in FixedHeaders + [Key(a.analyses[0])]
    ensures Accumulate([a, b]) == Sheet(FixedHeaders + [Key(a.analyses[0]), Key(b.analyses[0])],
                                        [FixedCells(a) + [a.analyses[0].result],
                                         FixedCells(b) + ["", b.analyses[0].result]])
  {
    var ka, kb := Key(a.analyses[0]), Key(b.analyses[0]);
    FirstSample(a);
    assert [a, b][..1] == [a];
    assert Accumulate([a, b]) == AddSample(Accumulate([a]), b);
    SingleNewColumn(FixedHeaders + [ka], b);
    assert Pad(FixedCells(b), 8) == FixedCells(b) + [""] by {
      assert Blanks(1) == [""];
    }
    assert FixedHeaders + [ka] + [kb] == FixedHeaders + [ka, kb];
    assert FixedCells(b) + [""] + [b.analyses[0].result] == FixedCells(b) + ["", b.analyses[0].result];
  }

  lemma FirstSample(a: Sample)
    requires |a.analyses| == 1 && Key(a.analyses[0]) !in FixedHeaders
    ensures Accumulate([a]) == Sheet(FixedHeaders + [Key(a.analyses[0])], [FixedCells(a) + [a.analyses[0].result]])
  {
    SingleNewColumn(FixedHeaders, a);
    assert [a][..0] == [];
  }

  /** The fixed columns of every row: the column keeps its name, and its
      cell holds the result of the sample's last analysis whose column key
      is that fixed name, if any, which overwrites the sample's own value;
      otherwise the sample's own value stays. */
  lemma FixedColumnOverwritten(ss: seq<Sample>, i: nat, j: nat)
    requires i < |ss| && j < |FixedHeaders|
    ensures j < |Accumulate(ss).body[i]|
    ensures j < |Accumulate(ss).headers| && Accumulate(ss).headers[j] == FixedHeaders[j]
    ensures Accumulate(ss).body[i][j]
              == Written(LastResult(Ordered(ss[i].analyses), FixedHeaders[j]), FixedCells(ss[i]), j)
    ensures (forall a :: a in ss[i].analyses ==> Key(a) != FixedHeaders[j]) ==>
              Accumulate(ss).body[i][j] == FixedCells(ss[i])[j]
  {
    RowWidth(ss, i);
    AccumulateShape(ss[..i + 1]);
    AccumulateShape(ss);
    PrefixIndex(FixedHeaders, Accumulate(ss).headers, j);
    RowCells(ss, i, j);
    var ys := Ordered(ss[i].analyses);
    LastResultSpec(ys, FixedHeaders[j]);
    KeysMembers(ys);
    OrderedPermutation(ss[i].analyses);
    forall a | a in ys ensures a in ss[i].analyses {
      assert a in multiset(ys);
    }
  }

  /** For instance, a lone analysis titled `Sample Type` without a unit
      writes its result over the sample type of the first row. */
  lemma SampleTypeOverwritten(s: Sample, category: string, result: string)
    requires s.analyses == [Analysis("Sample Type", category, result, "")]
    ensures SampleRow(FixedHeaders, s) == Progress(FixedHeaders, FixedCells(s)[2 := result])
  {
    var a := s.analyses[0];
    var start := Progress(FixedHeaders, FixedCells(s));
    OrderedSingle(a);
    assert [a][1..] == [];
    assert Fill(start, [a]) == Place(start, a);
    assert Key(a) == "Sample Type" == FixedHeaders[2];
    assert IndexOf(FixedHeaders, "Sample Type") == 2;
  }

  /** Writing one analysis, as the inner loop of the source does: build its
      column key, pad the row with empty cells up to the header length, then
      append a new column or overwrite the existing column's cell. */
  method PlaceAnalysis(headers: seq<string>, line: seq<string>, a: Analysis)
    returns (headers': seq<string>, line': seq<string>)
    ensures Progress(headers', line') == Place(Progress(headers, line), a)
  {
    var titleUnit := a.title;
    if a.unit != "" {
      titleUnit := a.title + " (" + a.unit + ")";
    }
    line' := line;
    if |line'| != |headers| {
      var n := |line|;
      while n < |headers|
        invariant |line| <= n
        invariant if |line| < |headers| then n <= |headers| else n == |line|
        invariant line' == line + Blanks(n - |line|)
      {
        line' := line' + [""];
        n := n + 1;
      }
    }
    if |line| < |headers| {
      assert line' == line + Blanks(|headers| - |line|);
    } else {
      assert line + Blanks(0) == line;
    }
    assert titleUnit == Key(a);
    if titleUnit !in headers {
      headers' := headers + [titleUnit];
      line' := line' + [a.result];
    } else {
      headers' := headers;
      line' := line'[IndexOf(headers, titleUnit) := a.result];
    }
  }

  /** One turn of the category loop: the group of the k-th category follows
      the groups of the categories before it. */
  lemma FillStep(start: Progress, xs: seq<Analysis>, cs: seq<string>, k: nat, pk: Progress)
    requires k < |cs|
    requires pk == Fill(start, ConcatGroups(xs, cs[..k]))
    ensures Fill(pk, Filter(xs, cs[k])) == Fill(start, ConcatGroups(xs, cs[..k + 1]))
  {
    ConcatGroupsSnoc(xs, cs, k);
    FillAppend(start, ConcatGroups(xs, cs[..k]), Filter(xs, cs[k]));
  }

  /** Writes the analyses of one group, in order. */
  method FillGroup(headers: seq<string>, line: seq<string>, group: seq<Analysis>)
    returns (headers': seq<string>, line': seq<string>)
    ensures Progress(headers', line') == Fill(Progress(headers, line), group)
  {
    headers', line' := headers, line;
    var m := 0;
    while m < |group|
      invariant 0 <= m <= |group|
      invariant Progress(headers', line') == Fill(Progress(headers, line), group[..m])
    {
      headers', line' := PlaceAnalysis(headers', line', group[m]);
      FillSnoc(Progress(headers, line), group, m);
      m := m + 1;
    }
    assert group[..m] == group;
  }

  /** The row of one sample, extending `headers` as its analyses require. */
  method SampleLine(headers: seq<string>, sample: Sample) returns (headers': seq<string>, line: seq<string>)
    ensures Progress(headers', line) == SampleRow(headers, sample)
  {
    line := [sample.id, sample.clientSampleId, sample.sampleType, sample.samplePoint,
             DateCell(sample.dateSampled), DateCell(sample.dateReceived), DateCell(sample.dateVerified)];
    headers' := headers;
    ghost var xs := sample.analyses;
    ghost var start := Progress(headers, line);
    assert start == Progress(headers, FixedCells(sample));
    var sorted, groups := SortedGroups(sample.analyses);
    var k := 0;
    assert sorted[..0] == [];
    while k < |sorted|
      invariant 0 <= k <= |sorted|
      invariant Progress(headers', line) == Fill(start, ConcatGroups(xs, sorted[..k]))
    {
      var category := sorted[k];
      ghost var pk := Progress(headers', line);
      headers', line := FillGroup(headers', line, groups[category]);
      FillStep(start, xs, sorted, k, pk);
      k := k + 1;
    }
    assert sorted[..k] == sorted;
  }

  /** Builds the multi-sample table: one row per sample in input order,
      then the header row in front of them. */
  method CreateCsvReports(samples: seq<Sample>) returns (r: Result<seq<seq<string>>, ReportError>)
    ensures r == Table(samples)
  {
    var headers := ["Sample ID", "Client Sample ID", "Sample Type", "Sample Point",
                    "Date Sampled", "Date Received", "Date Verified"];
    var body: seq<seq<string>> := [];
    var writerBound := false;
    var i := 0;
    assert samples[..0] == [];
    while i < |samples|
      invariant 0 <= i <= |samples|
      invariant Sheet(headers, body) == Accumulate(samples[..i])
      invariant writerBound <==> i > 0
    {
      var line;
      headers, line := SampleLine(headers, samples[i]);
      writerBound := true;
      body := body + [line];
      AccumulateSnoc(samples, i);
      i := i + 1;
    }
    if !writerBound {
      return Failure(UnboundWriter);
    }
    assert samples[..i] == samples;
    r := Success([headers] + body);
  }
}
