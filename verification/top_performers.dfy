/** The "top performers" table of the gender slide: the three best male and
    the three best female students by average score, males first; and the same
    table restricted to the gender of a clicked pie slice. */
module TopPerformers {
  import opened StableSort
  import opened Students

  /** Rows the table lists per gender. */
  const RowsPerGender := 3

  /** The table rows of gender `g` taken from records already ranked by average. */
  function TopOfGender(ranked: seq<Student>, g: string): (r: seq<Student>) {
    SliceTo(Filter(ranked, HasGender(g)), RowsPerGender)
  }

  /** The rows of the table: the best males, then the best females. */
  function GetTopPerformers(data: seq<Student>): (r: seq<Student>)
    ensures |r| <= 2 * RowsPerGender
    ensures forall i :: 0 <= i < |r| ==> r[i] in data && (r[i].gender == "male" || r[i].gender == "female")
    ensures forall i, j :: 0 <= i < j < |r| && r[i].gender == "female" ==> r[j].gender == "female"
  {
    var ranked := SortDesc(data, Average);
    var males := TopOfGender(ranked, "male");
    var females := TopOfGender(ranked, "female");
    SortPermutes(data, Average);
    RowsOfGender(data, ranked, "male");
    RowsOfGender(data, ranked, "female");
    males + females
  }

  lemma RowsOfGender(data: seq<Student>, ranked: seq<Student>, g: string)
    requires multiset(ranked) == multiset(data)
    ensures forall i :: 0 <= i < |TopOfGender(ranked, g)| ==>
              TopOfGender(ranked, g)[i] in data && TopOfGender(ranked, g)[i].gender == g
  {
    var rows := TopOfGender(ranked, g);
    var all := Filter(ranked, HasGender(g));
    forall i | 0 <= i < |rows| ensures rows[i] in data && rows[i].gender == g {
      assert rows[i] == all[i];
      assert rows[i] in multiset(ranked);
    }
  }

  /** Split of the table into its male half and its female half. */
  lemma TableHalves(data: seq<Student>)
    ensures var ranked := SortDesc(data, Average);
            GetTopPerformers(data) == TopOfGender(ranked, "male") + TopOfGender(ranked, "female")
  {
  }

  /** The rows of one gender are the top three of that gender: the records of
      gender `g` ranked on their own, cut after three. */
  lemma TopPerformersOfGender(data: seq<Student>, g: string)
    requires g == "male" || g == "female"
    ensures Filter(GetTopPerformers(data), HasGender(g))
            == SliceTo(SortDesc(Filter(data, HasGender(g)), Average), RowsPerGender)
  {
    var ranked := SortDesc(data, Average);
    var males := TopOfGender(ranked, "male");
    var females := TopOfGender(ranked, "female");
    SortPermutes(data, Average);
    RowsOfGender(data, ranked, "male");
    RowsOfGender(data, ranked, "female");
    FilterConcat(males, females, HasGender(g));
    FilterCommutesWithSort(data, HasGender(g), Average);
    if g == "male" {
      FilterAll(males, HasGender(g));
      FilterNone(females, HasGender(g));
    } else {
      FilterNone(males, HasGender(g));
      FilterAll(females, HasGender(g));
    }
  }

  /** What the table promises about each gender: as many rows as the gender
      has records up to three, in order of average, each at least as good as
      every record of that gender left out, and all of them when there are no
      more than three. */
  lemma TopPerformersPerGender(data: seq<Student>, g: string)
    requires g == "male" || g == "female"
    ensures var rows := Filter(GetTopPerformers(data), HasGender(g));
            var candidates := Filter(data, HasGender(g));
            && |rows| == (if |candidates| < RowsPerGender then |candidates| else RowsPerGender)
            && SortedDesc(rows, Average)
            && (|candidates| <= RowsPerGender ==> multiset(rows) == multiset(candidates))
            && (forall x, y :: x in rows && y in candidates && y !in rows ==> Average(y) <= Average(x))
  {
    TopPerformersOfGender(data, g);
    TopOfSort(Filter(data, HasGender(g)), Average, RowsPerGender);
  }

  /** The table after a click on the pie slice labelled `selected`: the records
      are first narrowed to those whose gender equals the label ignoring case. */
  function UpdateTopPerformersTable(data: seq<Student>, selected: string): (r: seq<Student>)
    ensures |r| <= RowsPerGender
    ensures forall i :: 0 <= i < |r| ==> r[i] in data && Lower(r[i].gender) == Lower(selected)
  {
    var narrowed := Filter(data, GenderMatches(selected));
    var ranked := SortDesc(narrowed, Average);
    SortPermutes(narrowed, Average);
    SameLengthAsSelection(narrowed, ranked, selected);
    GetTopPerformers(narrowed)
  }

  /** A record whose gender matches `selected` ignoring case has a gender of
      the label's length, so a label never selects both "male" and "female". */
  lemma SameLengthAsSelection(narrowed: seq<Student>, ranked: seq<Student>, selected: string)
    requires forall i :: 0 <= i < |narrowed| ==> Lower(narrowed[i].gender) == Lower(selected)
    requires multiset(ranked) == multiset(narrowed)
    ensures |selected| != 4 ==> TopOfGender(ranked, "male") == []
    ensures |selected| != 6 ==> TopOfGender(ranked, "female") == []
  {
    forall i | 0 <= i < |ranked| ensures |ranked[i].gender| == |selected| {
      assert ranked[i] in multiset(narrowed);
      var m :| 0 <= m < |narrowed| && narrowed[m] == ranked[i];
      assert |Lower(ranked[i].gender)| == |Lower(selected)|;
    }
    if |selected| != 4 {
      FilterNone(ranked, HasGender("male"));
    }
    if |selected| != 6 {
      FilterNone(ranked, HasGender("female"));
    }
  }

  /** Clicking a pie slice lists the top three records of exactly that gender:
      "Male" selects the records whose gender is "male", "Female" those whose
      gender is "female". */
  lemma PieSliceTable(data: seq<Student>, selected: string, g: string)
    requires (selected, g) == ("Male", "male") || (selected, g) == ("Female", "female")
    ensures UpdateTopPerformersTable(data, selected)
            == SliceTo(SortDesc(Filter(data, HasGender(g)), Average), RowsPerGender)
  {
    LowerLabels();
    var narrowed := Filter(data, GenderMatches(selected));
    var ranked := SortDesc(narrowed, Average);
    TableHalves(narrowed);
    SortPermutes(narrowed, Average);
    SameLengthAsSelection(narrowed, ranked, selected);
    assert UpdateTopPerformersTable(data, selected) == TopOfGender(ranked, g);
    FilterCommutesWithSort(narrowed, HasGender(g), Average);
    assert forall x :: HasGender(g)(x) ==> GenderMatches(selected)(x);
    FilterOfFilter(data, GenderMatches(selected), HasGender(g));
  }

  lemma LowerLabels()
    ensures Lower("Male") == Lower("male") == "male"
    ensures Lower("Female") == Lower("female") == "female"
  {
  }
}
