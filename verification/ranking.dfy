/** The "Top Student Performance" bar chart: every record becomes a bar whose
    height is the student's average score; the bars are ranked from the highest
    average to the lowest and only the first `topN` are drawn. */
module Ranking {
  import opened StableSort
  import opened Students

  /** A bar of the chart: the record's id, its average and the record itself. */
  datatype Entry = Entry(id: string, avgScore: real, details: Student)

  /** What `parseInt` made of the text typed into the "top number" box. */
  datatype ParsedInt = NaN | Int(value: int)

  /** Number of bars drawn when no count has been typed in. */
  const DefaultTopN := 10

  function ToEntry(d: Student): (r: Entry) {
    Entry(d.studentId, Average(d), d)
  }

  /** The sort key of the bar chart's comparator `(a, b) => b.avgScore - a.avgScore`. */
  function Score(e: Entry): (r: real) {
    e.avgScore
  }

  function Entries(data: seq<Student>): (r: seq<Entry>) {
    MapSeq(data, ToEntry)
  }

  /** The bars of the chart for `data` and a requested count `topN`. */
  function TopStudents(data: seq<Student>, topN: int): (r: seq<Entry>)
    ensures topN > 0 ==> |r| == if topN < |data| then topN else |data|
    ensures SortedDesc(r, Score)
    ensures forall i :: 0 <= i < |r| ==> r[i] == ToEntry(r[i].details) && r[i].details in data
  {
    var sorted := SortDesc(Entries(data), Score);
    var r := SliceTo(sorted, topN);
    PrefixOfRanking(data, |r|);
    assert r == sorted[..|r|];
    r
  }

  /** What every prefix of the full ranking holds. */
  lemma PrefixOfRanking(data: seq<Student>, n: nat)
    requires n <= |data|
    ensures var r := SortDesc(Entries(data), Score)[..n];
            && SortedDesc(r, Score)
            && (forall i :: 0 <= i < |r| ==> r[i] == ToEntry(r[i].details) && r[i].details in data)
            && multiset(r) <= multiset(Entries(data))
  {
    var sorted := SortDesc(Entries(data), Score);
    var r := sorted[..n];
    SortPermutes(Entries(data), Score);
    PrefixMultiset(r, sorted);
    PrefixSorted(r, sorted, Score);
    forall i | 0 <= i < |r| ensures r[i] == ToEntry(r[i].details) && r[i].details in data {
      assert r[i] in multiset(r);
      EntryOfRecord(data, r[i]);
    }
  }

  /** No bar is drawn more often than its record occurs in the input. */
  lemma TopStudentsFromInput(data: seq<Student>, topN: int)
    ensures multiset(TopStudents(data, topN)) <= multiset(Entries(data))
  {
    var sorted := SortDesc(Entries(data), Score);
    var r := TopStudents(data, topN);
    assert r == SliceTo(sorted, topN);
    assert r == sorted[..|r|];
    PrefixOfRanking(data, |r|);
  }

  lemma EntryOfRecord(data: seq<Student>, e: Entry)
    requires e in multiset(Entries(data))
    ensures e == ToEntry(e.details) && e.details in data
  {
    var m :| 0 <= m < |data| && Entries(data)[m] == e;
  }

  /** Every student left off the chart averages no more than every student on it. */
  lemma TopStudentsDominate(data: seq<Student>, topN: int)
    ensures forall d, e :: d in data && ToEntry(d) !in TopStudents(data, topN) && e in TopStudents(data, topN)
                          ==> Average(d) <= e.avgScore
  {
    var sorted := SortDesc(Entries(data), Score);
    var r := TopStudents(data, topN);
    SortPermutes(Entries(data), Score);
    assert r == sorted[..|r|];
    PrefixDominates(sorted, |r|, Score);
    forall d | d in data ensures ToEntry(d) in sorted {
      var i :| 0 <= i < |data| && data[i] == d;
      assert Entries(data)[i] == ToEntry(d);
      assert ToEntry(d) in multiset(Entries(data));
      assert ToEntry(d) in multiset(sorted);
    }
  }

  /** Students with equal averages appear in the chart in their input order:
      for every average, the bars with that average are the first students of
      the input with that average. */
  lemma {:induction false} TopStudentsKeepTieOrder(data: seq<Student>, topN: int, k: real)
    ensures WithKey(TopStudents(data, topN), Score, k) <= WithKey(Entries(data), Score, k)
  {
    var sorted := SortDesc(Entries(data), Score);
    SortKeepsTies(Entries(data), Score);
    WithKeyPrefix(TopStudents(data, topN), sorted, Score, k);
  }

  /** The chart is determined by the ranking rule alone: whichever stable
      descending sort is used, the bars are its first `topN` entries. */
  lemma TopStudentsOfAnyStableSort(data: seq<Student>, topN: int, ranked: seq<Entry>)
    requires SortedDesc(ranked, Score)
    requires SameTies(ranked, Entries(data), Score)
    ensures TopStudents(data, topN) == SliceTo(ranked, topN)
  {
    var sorted := SortDesc(Entries(data), Score);
    SortKeepsTies(Entries(data), Score);
    SortedTiesUnique(sorted, ranked, Score);
  }

  /** `getTopPerformers` sorts the shared record array in place by average;
      drawing the bar chart from the reordered array gives the same bars. */
  lemma TopStudentsIgnoreResort(data: seq<Student>, topN: int)
    ensures TopStudents(SortDesc(data, Average), topN) == TopStudents(data, topN)
  {
    MapCommutesWithSort(data, ToEntry, Average, Score);
    SortIdempotent(Entries(data), Score);
  }

  /** The "Update" handler: redraw with the typed count when it is a positive
      integer, otherwise leave the chart as it is. */
  function RedrawTopStudents(data: seq<Student>, typed: ParsedInt, shown: seq<Entry>): (r: seq<Entry>)
    ensures typed.Int? && typed.value > 0 ==>
              && |r| == (if typed.value < |data| then typed.value else |data|)
              && SortedDesc(r, Score)
              && (forall i :: 0 <= i < |r| ==> r[i] == ToEntry(r[i].details) && r[i].details in data)
              && r == TopStudents(data, typed.value)
    ensures !(typed.Int? && typed.value > 0) ==> r == shown
  {
    if typed.Int? && typed.value > 0 then TopStudents(data, typed.value) else shown
  }

  /** A redraw with a positive count is a ranking of `data`: no record left off
      averages more than a bar that is drawn. */
  lemma RedrawDominates(data: seq<Student>, typed: ParsedInt, shown: seq<Entry>)
    requires typed.Int? && typed.value > 0
    ensures forall d, e :: d in data && ToEntry(d) !in RedrawTopStudents(data, typed, shown)
                          && e in RedrawTopStudents(data, typed, shown)
                          ==> Average(d) <= e.avgScore
  {
    TopStudentsDominate(data, typed.value);
  }

  /** The chart slide 2 draws when it opens: `drawBarChart` with its default
      count, so at most ten bars. */
  function InitialChart(data: seq<Student>): (r: seq<Entry>)
    ensures |r| == if DefaultTopN < |data| then DefaultTopN else |data|
    ensures SortedDesc(r, Score)
    ensures forall i :: 0 <= i < |r| ==> r[i] == ToEntry(r[i].details) && r[i].details in data
  {
    TopStudents(data, DefaultTopN)
  }

  /** With more than ten records the opening chart leaves some out, and none of
      them averages more than a bar that is drawn. */
  lemma InitialChartDominates(data: seq<Student>)
    ensures |data| > DefaultTopN ==> |InitialChart(data)| == DefaultTopN
    ensures forall d, e :: d in data && ToEntry(d) !in InitialChart(data) && e in InitialChart(data)
                          ==> Average(d) <= e.avgScore
  {
    TopStudentsDominate(data, DefaultTopN);
  }

  /** The two-student scenario: asking for one bar keeps the student averaging 90. */
  lemma TopOneOfTwo()
    ensures var first := Student("1", "male", "group A", 90, 85, 95);
            var second := Student("2", "female", "group B", 40, 50, 45);
            TopStudents([first, second], 1) == [Entry("1", 90.0, first)]
  {
    var first := Student("1", "male", "group A", 90, 85, 95);
    var second := Student("2", "female", "group B", 40, 50, 45);
    var data := [first, second];
    assert Entries(data) == [ToEntry(first), ToEntry(second)];
    assert Entries(data)[1..] == [ToEntry(second)];
    assert SortDesc([ToEntry(second)], Score) == [ToEntry(second)];
    assert SortDesc(Entries(data), Score) == [ToEntry(first), ToEntry(second)];
  }
}
