/**
 * `create_csv_report`: the table for one sample. Seven label/value rows and
 * a blank row, then, for each category in ascending order, a row holding the
 * category title, the column header row, and one row per analysis of that
 * category in retrieval order.
 */
module CsvReport {
  import opened Records
  import opened Strings
  import opened Grouping

  const AnalysisHeader: seq<string> := ["Analysis", "Result", "Unit"]

  /** The row of one analysis: title, formatted result, unit. */
  function AnalysisRow(a: Analysis): seq<string> {
    [a.title, a.result, a.unit]
  }

  /** One row per analysis, in the order given. */
  function AnalysisRows(group: seq<Analysis>): seq<seq<string>> {
    if group == [] then [] else [AnalysisRow(group[0])] + AnalysisRows(group[1..])
  }

  /** The block of category `c`: its title row, the header row, its analyses. */
  function Block(xs: seq<Analysis>, c: string): seq<seq<string>> {
    [[c], AnalysisHeader] + AnalysisRows(Filter(xs, c))
  }

  /** The blocks of the categories `cs`, one after another. */
  function Blocks(xs: seq<Analysis>, cs: seq<string>): seq<seq<string>> {
    if cs == [] then [] else Block(xs, cs[0]) + Blocks(xs, cs[1..])
  }

  /** The seven label/value rows and the blank row. */
  function Preamble(s: Sample): seq<seq<string>> {
    [["Sample ID", s.id],
     ["Client Sample ID", s.clientSampleId],
     ["Sample Type", s.sampleType],
     ["Sample Point", s.samplePoint],
     ["Date Sampled", DateCell(s.dateSampled)],
     ["Date Received", DateCell(s.dateReceived)],
     ["Date Verified", DateCell(s.dateVerified)],
     []]
  }

  /** The whole table of one sample. */
  ghost function ReportRows(s: Sample): seq<seq<string>> {
    Preamble(s) + Blocks(s.analyses, SortedCategories(s.analyses))
  }

  /** The analysis rows are the analyses, one row each, in order. */
  lemma {:induction false} AnalysisRowsAt(group: seq<Analysis>)
    ensures |AnalysisRows(group)| == |group|
    ensures forall m :: 0 <= m < |group| ==> AnalysisRows(group)[m] == AnalysisRow(group[m])
    decreases |group|
  {
    if group != [] {
      AnalysisRowsAt(group[1..]);
      forall m | 0 < m < |group| ensures AnalysisRows(group)[m] == AnalysisRow(group[m]) {
        assert AnalysisRows(group)[m] == AnalysisRows(group[1..])[m - 1];
      }
    }
  }

  lemma {:induction false} AnalysisRowsAppend(g: seq<Analysis>, h: seq<Analysis>)
    ensures AnalysisRows(g + h) == AnalysisRows(g) + AnalysisRows(h)
    decreases |g|
  {
    if g == [] {
      assert g + h == h;
    } else {
      assert (g + h)[1..] == g[1..] + h;
      AnalysisRowsAppend(g[1..], h);
    }
  }

  lemma AnalysisRowsSnoc(group: seq<Analysis>, m: nat)
    requires m < |group|
    ensures AnalysisRows(group[..m + 1]) == AnalysisRows(group[..m]) + [AnalysisRow(group[m])]
  {
    assert group[..m + 1] == group[..m] + [group[m]];
    AnalysisRowsAppend(group[..m], [group[m]]);
    assert [group[m]][1..] == [];
  }

  lemma {:induction false} BlocksAppend(xs: seq<Analysis>, cs: seq<string>, ds: seq<string>)
    ensures Blocks(xs, cs + ds) == Blocks(xs, cs) + Blocks(xs, ds)
    decreases |cs|
  {
    if cs == [] {
      assert cs + ds == ds;
    } else {
      assert (cs + ds)[1..] == cs[1..] + ds;
      BlocksAppend(xs, cs[1..], ds);
    }
  }

  lemma BlocksSnoc(xs: seq<Analysis>, cs: seq<string>, k: nat)
    requires k < |cs|
    ensures Blocks(xs, cs[..k + 1]) == Blocks(xs, cs[..k]) + Block(xs, cs[k])
  {
    assert cs[..k + 1] == cs[..k] + [cs[k]];
    BlocksAppend(xs, cs[..k], [cs[k]]);
    assert [cs[k]][1..] == [];
  }

  /** One turn of the outer loop: the block of the k-th category follows
      the blocks before it. */
  lemma BlockStep(front: seq<seq<string>>, xs: seq<Analysis>, cs: seq<string>, k: nat,
                  done: seq<seq<string>>, rows: seq<seq<string>>)
    requires k < |cs|
    requires done == front + Blocks(xs, cs[..k])
    requires rows == done + Block(xs, cs[k])
    ensures rows == front + Blocks(xs, cs[..k + 1])
  {
    BlocksSnoc(xs, cs, k);
  }

  /** Writes the seven label/value rows and the blank row. */
  method WritePreamble(sample: Sample) returns (rows: seq<seq<string>>)
    ensures rows == Preamble(sample)
  {
    rows := [];
    rows := rows + [["Sample ID", sample.id]];
    rows := rows + [["Client Sample ID", sample.clientSampleId]];
    rows := rows + [["Sample Type", sample.sampleType]];
    rows := rows + [["Sample Point", sample.samplePoint]];
    rows := rows + [["Date Sampled", DateCell(sample.dateSampled)]];
    rows := rows + [["Date Received", DateCell(sample.dateReceived)]];
    rows := rows + [["Date Verified", DateCell(sample.dateVerified)]];
    rows := rows + [[]];
  }

  /** Writes the block of one category: its title row, the header row and
      one row per analysis of the group. */
  method WriteBlock(rows: seq<seq<string>>, category: string, group: seq<Analysis>)
    returns (rows': seq<seq<string>>)
    ensures rows' == rows + ([[category], AnalysisHeader] + AnalysisRows(group))
  {
    rows' := rows + [[category]];
    rows' := rows' + [AnalysisHeader];
    ghost var before := rows';
    var m := 0;
    while m < |group|
      invariant 0 <= m <= |group|
      invariant rows' == before + AnalysisRows(group[..m])
    {
      var a := group[m];
      rows' := rows' + [[a.title, a.result, a.unit]];
      AnalysisRowsSnoc(group, m);
      m := m + 1;
    }
    assert group[..m] == group;
    assert before == rows + [[category], AnalysisHeader];
  }

  /** Builds the table row by row, as the source writes it. */
  method CreateCsvReport(sample: Sample) returns (rows: seq<seq<string>>)
    ensures rows == ReportRows(sample)
  {
    rows := WritePreamble(sample);
    ghost var xs := sample.analyses;
    var sorted, groups := SortedGroups(sample.analyses);
    var k := 0;
    assert sorted[..0] == [];
    while k < |sorted|
      invariant 0 <= k <= |sorted|
      invariant rows == Preamble(sample) + Blocks(xs, sorted[..k])
    {
      var category := sorted[k];
      ghost var done := rows;
      rows := WriteBlock(rows, category, groups[category]);
      BlockStep(Preamble(sample), xs, sorted, k, done, rows);
      k := k + 1;
    }
    assert sorted[..k] == sorted;
  }

  /** The blocks take two rows per category plus one row per analysis. */
  lemma {:induction false} BlocksLength(xs: seq<Analysis>, cs: seq<string>)
    ensures |Blocks(xs, cs)| == 2 * |cs| + |ConcatGroups(xs, cs)|
    decreases |cs|
  {
    if cs != [] {
      AnalysisRowsAt(Filter(xs, cs[0]));
      BlocksLength(xs, cs[1..]);
    }
  }

  lemma PreambleLayout(s: Sample)
    ensures |Preamble(s)| == 8
    ensures forall i :: 0 <= i < 7 ==> Preamble(s)[i] == [FixedHeaders[i], FixedCells(s)[i]]
    ensures Preamble(s)[7] == []
  {
  }

  lemma IndexAfter<T>(a: seq<T>, b: seq<T>, j: nat)
    requires j < |b|
    ensures (a + b)[|a| + j] == b[j]
  {
  }

  /** The table opens with the seven label/value rows, labelled exactly as
      the columns of the multi-sample table, and a blank row; it has
      8 + 2 * (number of distinct categories) + (number of analyses) rows,
      so a sample without analyses yields the eight leading rows only. */
  lemma ReportLayout(s: Sample)
    ensures |ReportRows(s)| == 8 + 2 * |CategorySet(s.analyses)| + |s.analyses|
    ensures forall i :: 0 <= i < 7 ==> ReportRows(s)[i] == [FixedHeaders[i], FixedCells(s)[i]]
    ensures ReportRows(s)[7] == []
    ensures s.analyses == [] ==> |ReportRows(s)| == 8
  {
    var xs := s.analyses;
    PreambleLayout(s);
    BlocksLength(xs, SortedCategories(xs));
    OrderedPermutation(xs);
    SortedCategoriesCount(xs);
    if xs == [] {
      assert CategorySet(xs) == {};
    }
  }

  /** A block: the category title row, the header row, then one row per
      analysis of the category. */
  lemma BlockLayout(xs: seq<Analysis>, c: string)
    ensures |Block(xs, c)| == 2 + |Filter(xs, c)|
    ensures Block(xs, c)[0] == [c] && Block(xs, c)[1] == AnalysisHeader
    ensures forall m :: 0 <= m < |Filter(xs, c)| ==> Block(xs, c)[2 + m] == AnalysisRow(Filter(xs, c)[m])
  {
    AnalysisRowsAt(Filter(xs, c));
    forall m | 0 <= m < |Filter(xs, c)| ensures Block(xs, c)[2 + m] == AnalysisRow(Filter(xs, c)[m]) {
      IndexAfter([[c], AnalysisHeader], AnalysisRows(Filter(xs, c)), m);
    }
  }

  /** The blocks of `cs` split around the k-th one. */
  lemma {:induction false} BlocksSplit(xs: seq<Analysis>, cs: seq<string>, k: nat)
    requires k < |cs|
    ensures Blocks(xs, cs) == Blocks(xs, cs[..k]) + Block(xs, cs[k]) + Blocks(xs, cs[k + 1..])
    decreases k
  {
    if k > 0 {
      BlocksSplit(xs, cs[1..], k - 1);
      assert cs[..k][1..] == cs[1..][..k - 1];
      assert cs[1..][k..] == cs[k + 1..];
    } else {
      assert cs[..0] == [];
    }
  }

  lemma SliceOf<T>(a: seq<T>, b: seq<T>, c: seq<T>)
    ensures |a| + |b| <= |a + b + c|
    ensures (a + b + c)[|a|..|a| + |b|] == b
  {
  }

  /** The k-th block of `cs` sits after a leading part `front`, two rows per
      earlier category and one row per analysis of an earlier category. */
  lemma BlockSlice(front: seq<seq<string>>, xs: seq<Analysis>, cs: seq<string>, k: nat)
    requires k < |cs|
    ensures var at := |front| + 2 * k + |ConcatGroups(xs, cs[..k])|;
            && at + |Block(xs, cs[k])| <= |front + Blocks(xs, cs)|
            && (front + Blocks(xs, cs))[at..at + |Block(xs, cs[k])|] == Block(xs, cs[k])
  {
    BlocksSplit(xs, cs, k);
    BlocksLength(xs, cs[..k]);
    assert front + Blocks(xs, cs) == (front + Blocks(xs, cs[..k])) + Block(xs, cs[k]) + Blocks(xs, cs[k + 1..]);
    SliceOf(front + Blocks(xs, cs[..k]), Block(xs, cs[k]), Blocks(xs, cs[k + 1..]));
  }

  /** The block of the k-th category (categories taken in strictly
      ascending order) sits right after the blocks of the categories before
      it, that is after two rows per earlier category and one row per
      analysis of an earlier category. */
  lemma ReportBlockAt(s: Sample, cs: seq<string>, k: nat)
    requires cs == SortedCategories(s.analyses) && k < |cs|
    ensures var at := 8 + 2 * k + |ConcatGroups(s.analyses, cs[..k])|;
            && at + |Block(s.analyses, cs[k])| <= |ReportRows(s)|
            && ReportRows(s)[at..at + |Block(s.analyses, cs[k])|] == Block(s.analyses, cs[k])
  {
    PreambleLayout(s);
    BlockSlice(Preamble(s), s.analyses, cs, k);
  }

  /** The analysis rows of the blocks of `cs`: each block without its
      category row and header row, one after another. */
  ghost function BlockBodies(xs: seq<Analysis>, cs: seq<string>): seq<seq<string>> {
    if cs == [] then [] else Block(xs, cs[0])[2..] + BlockBodies(xs, cs[1..])
  }

  lemma {:induction false} BlockBodiesRows(xs: seq<Analysis>, cs: seq<string>)
    ensures BlockBodies(xs, cs) == AnalysisRows(ConcatGroups(xs, cs))
    decreases |cs|
  {
    if cs != [] {
      BlockBodiesRows(xs, cs[1..]);
      assert Block(xs, cs[0])[2..] == AnalysisRows(Filter(xs, cs[0]));
      AnalysisRowsAppend(Filter(xs, cs[0]), ConcatGroups(xs, cs[1..]));
    }
  }

  /** Read block by block, the analysis rows of the table are the rows of
      the sample's analyses, each analysis exactly once: in the order
      `Ordered`, a permutation of the retrieval order. Each block's rows
      are those of the analyses of its own category, and only those. */
  lemma BlocksPartitionAnalyses(s: Sample)
    ensures BlockBodies(s.analyses, SortedCategories(s.analyses)) == AnalysisRows(Ordered(s.analyses))
    ensures multiset(Ordered(s.analyses)) == multiset(s.analyses)
    ensures forall c :: Block(s.analyses, c)[2..] == AnalysisRows(Filter(s.analyses, c))
    ensures forall c, a :: a in Filter(s.analyses, c) <==> a in s.analyses && a.category == c
  {
    BlockBodiesRows(s.analyses, SortedCategories(s.analyses));
    OrderedPermutation(s.analyses);
    forall c ensures Block(s.analyses, c)[2..] == AnalysisRows(Filter(s.analyses, c)) {
      assert Block(s.analyses, c) == [[c], AnalysisHeader] + AnalysisRows(Filter(s.analyses, c));
    }
    forall c ensures forall a :: a in Filter(s.analyses, c) <==> a in s.analyses && a.category == c {
      FilterMembers(s.analyses, c);
    }
  }
}
