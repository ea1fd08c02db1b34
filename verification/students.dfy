/** One parsed row of StudentsPerformance.csv and the values the charts derive
    from it. */
module Students {

  /** The columns of a row that the charts and tables read.  The CSV loader
      hands the scores over as strings that the charts pass to `parseFloat`;
      here they are already numbers. */
  datatype Student = Student(
    studentId: string,
    gender: string,
    raceEthnicity: string,
    mathScore: int,
    readingScore: int,
    writingScore: int)

  /** The mean of the three exam scores, computed exactly. */
  function Average(d: Student): (r: real) {
    (d.mathScore + d.readingScore + d.writingScore) as real / 3.0
  }

  /** `String.prototype.toLowerCase` on the ASCII letters. */
  function LowerChar(c: char): (r: char) {
    if 'A' <= c <= 'Z' then (c as int + 32) as char else c
  }

  function Lower(s: string): (r: string)
    ensures |r| == |s|
    ensures forall i :: 0 <= i < |s| ==> r[i] == LowerChar(s[i])
  {
    if |s| == 0 then [] else [LowerChar(s[0])] + Lower(s[1..])
  }

  /** The filter callback `d => d.gender === g`. */
  function HasGender(g: string): (p: Student -> bool)
    ensures forall d :: p(d) <==> d.gender == g
  {
    (d: Student) => d.gender == g
  }

  /** The filter callback `d => d.gender.toLowerCase() === selected.toLowerCase()`. */
  function GenderMatches(selected: string): (p: Student -> bool)
    ensures forall d :: p(d) <==> Lower(d.gender) == Lower(selected)
  {
    (d: Student) => Lower(d.gender) == Lower(selected)
  }
}
