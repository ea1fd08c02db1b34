/** Counting records per category, as `d3.rollups(data, v => v.length, key)`
    does for the gender pie chart and the race/ethnicity bubble chart: one
    bucket per distinct key, in the order the keys are first met, holding the
    number of records with that key. */
module Rollups {
  import opened StableSort
  import opened Students

  /** One `[key, count]` pair of the rollup. */
  datatype Bucket<K> = Bucket(key: K, count: nat)

  /** Number of elements of `s` whose key is `k`. */
  function Occurrences<T, K(==)>(s: seq<T>, key: T -> K, k: K): (r: nat) {
    if |s| == 0 then 0
    else Occurrences(s[..|s| - 1], key, k) + (if key(s[|s| - 1]) == k then 1 else 0)
  }

  predicate DistinctKeys<K(==)>(b: seq<Bucket<K>>) {
    forall i, j :: 0 <= i < j < |b| ==> b[i].key != b[j].key
  }

  function KeysOf<K>(b: seq<Bucket<K>>): (r: set<K>) {
    set i | 0 <= i < |b| :: b[i].key
  }

  /** The sum of the counts of the buckets. */
  function Total<K>(b: seq<Bucket<K>>): (r: nat) {
    if |b| == 0 then 0 else b[0].count + Total(b[1..])
  }

  /** Position of the bucket of `k`. */
  function IndexOf<K(==)>(b: seq<Bucket<K>>, k: K): (i: nat)
    requires k in KeysOf(b)
    ensures i < |b| && b[i].key == k
  {
    if b[0].key == k then 0
    else
      assert k in KeysOf(b[1..]) by { KeysOfCons(b); }
      1 + IndexOf(b[1..], k)
  }

  /** Counts one more record with key `k`: the bucket of `k` grows by one, or
      a bucket for `k` is appended when it is the first such record. */
  function Bump<K(==)>(b: seq<Bucket<K>>, k: K): (r: seq<Bucket<K>>)
    requires DistinctKeys(b)
    ensures DistinctKeys(r)
    ensures KeysOf(r) == KeysOf(b) + {k}
    ensures Total(r) == Total(b) + 1
    ensures |r| == |b| || (|r| == |b| + 1 && k !in KeysOf(b) && r[|b|] == Bucket(k, 1))
    ensures forall i :: 0 <= i < |b| ==> r[i].key == b[i].key
    ensures forall i :: 0 <= i < |b| ==> r[i].count == b[i].count + (if b[i].key == k then 1 else 0)
  {
    if k in KeysOf(b) then
      var i := IndexOf(b, k);
      var r := b[i := Bucket(k, b[i].count + 1)];
      TotalUpdate(b, i, Bucket(k, b[i].count + 1));
      assert KeysOf(r) == KeysOf(b) by {
        forall x | x in KeysOf(b) ensures x in KeysOf(r) {
          var j :| 0 <= j < |b| && b[j].key == x;
          assert r[j].key == x;
        }
      }
      r
    else
      var r := b + [Bucket(k, 1)];
      TotalAppend(b, Bucket(k, 1));
      assert KeysOf(r) == KeysOf(b) + {k} by {
        assert r[|b|].key == k;
        forall x | x in KeysOf(b) ensures x in KeysOf(r) {
          var j :| 0 <= j < |b| && b[j].key == x;
          assert r[j].key == x;
        }
      }
      r
  }

  lemma {:induction false} TotalUpdate<K>(b: seq<Bucket<K>>, i: nat, x: Bucket<K>)
    requires i < |b|
    ensures Total(b[i := x]) == Total(b) - b[i].count + x.count
  {
    if i > 0 {
      TotalUpdate(b[1..], i - 1, x);
      assert b[i := x][1..] == b[1..][i - 1 := x];
    } else {
      assert b[i := x][1..] == b[1..];
    }
  }

  lemma {:induction false} TotalAppend<K>(b: seq<Bucket<K>>, x: Bucket<K>)
    ensures Total(b + [x]) == Total(b) + x.count
  {
    if |b| > 0 {
      TotalAppend(b[1..], x);
      assert (b + [x])[1..] == b[1..] + [x];
    } else {
      assert (b + [x])[1..] == [];
    }
  }

  lemma KeysOfCons<K>(b: seq<Bucket<K>>)
    requires |b| > 0
    ensures KeysOf(b) == {b[0].key} + KeysOf(b[1..])
  {
    forall x | x in KeysOf(b) ensures x in {b[0].key} + KeysOf(b[1..]) {
      var i :| 0 <= i < |b| && b[i].key == x;
      if i > 0 {
        assert b[1..][i - 1].key == x;
      }
    }
    forall x | x in KeysOf(b[1..]) ensures x in KeysOf(b) {
      var i :| 0 <= i < |b[1..]| && b[1..][i].key == x;
      assert b[i + 1].key == x;
    }
  }

  /** The distinct keys carried by the elements of `s`. */
  function KeySet<T, K>(s: seq<T>, key: T -> K): (r: set<K>) {
    set i | 0 <= i < |s| :: key(s[i])
  }

  lemma KeySetSnoc<T, K>(s: seq<T>, key: T -> K)
    requires |s| > 0
    ensures KeySet(s, key) == KeySet(s[..|s| - 1], key) + {key(s[|s| - 1])}
  {
    var prefix := s[..|s| - 1];
    forall x | x in KeySet(s, key) ensures x in KeySet(prefix, key) + {key(s[|s| - 1])} {
      var i :| 0 <= i < |s| && key(s[i]) == x;
      if i < |prefix| {
        assert prefix[i] == s[i];
      }
    }
    forall i | 0 <= i < |prefix| ensures key(prefix[i]) in KeySet(s, key) {
      assert prefix[i] == s[i];
    }
  }

  /** `d3.rollups(s, v => v.length, key)`: one bucket per distinct key, in
      first-seen order, counting the elements with that key. */
  function Rollup<T, K(==)>(s: seq<T>, key: T -> K): (r: seq<Bucket<K>>)
    ensures DistinctKeys(r)
    ensures KeysOf(r) == KeySet(s, key)
    ensures forall i :: 0 <= i < |r| ==> r[i].count == Occurrences(s, key, r[i].key)
    ensures Total(r) == |s|
  {
    if |s| == 0 then []
    else
      var before := Rollup(s[..|s| - 1], key);
      KeySetSnoc(s, key);
      RollupStep(s, key, before);
      Bump(before, key(s[|s| - 1]))
  }

  /** Counting the last element of `s` into the buckets of the rest of `s`
      gives the right count for every key. */
  lemma RollupStep<T, K>(s: seq<T>, key: T -> K, before: seq<Bucket<K>>)
    requires |s| > 0
    requires DistinctKeys(before)
    requires KeysOf(before) == KeySet(s[..|s| - 1], key)
    requires forall i :: 0 <= i < |before| ==> before[i].count == Occurrences(s[..|s| - 1], key, before[i].key)
    ensures var r := Bump(before, key(s[|s| - 1]));
            forall i :: 0 <= i < |r| ==> r[i].count == Occurrences(s, key, r[i].key)
  {
    var prefix := s[..|s| - 1];
    var last := s[|s| - 1];
    var r := Bump(before, key(last));
    forall i | 0 <= i < |r| ensures r[i].count == Occurrences(s, key, r[i].key) {
      if i >= |before| {
        NotSeenNoOccurrences(prefix, key, key(last));
      }
    }
  }

  /** A key no element carries occurs zero times. */
  lemma {:induction false} NotSeenNoOccurrences<T, K>(s: seq<T>, key: T -> K, k: K)
    requires k !in KeySet(s, key)
    ensures Occurrences(s, key, k) == 0
  {
    if |s| > 0 {
      var prefix := s[..|s| - 1];
      KeySetSnoc(s, key);
      NotSeenNoOccurrences(prefix, key, k);
    }
  }

  /** The pie chart's bucket of a record: "Male" for gender exactly "male",
      "Female" for every other gender string. */
  function GenderBucket(d: Student): (r: string) {
    if d.gender == "male" then "Male" else "Female"
  }

  /** The slices of the gender pie chart. */
  function GenderCounts(data: seq<Student>): (r: seq<Bucket<string>>)
    ensures DistinctKeys(r)
    ensures forall i :: 0 <= i < |r| ==> r[i].key == "Male" || r[i].key == "Female"
    ensures forall i :: 0 <= i < |r| && r[i].key == "Male" ==> r[i].count == MaleCount(data)
    ensures forall i :: 0 <= i < |r| && r[i].key == "Female" ==> r[i].count == |data| - MaleCount(data)
    ensures forall i :: 0 <= i < |r| ==> r[i].count >= 1
    ensures Total(r) == |data|
  {
    var r := Rollup(data, GenderBucket);
    GenderSlices(data);
    forall i | 0 <= i < |r| ensures r[i].key == "Male" || r[i].key == "Female" {
      assert r[i].key in KeysOf(r);
    }
    PositiveCounts(data, GenderBucket);
    r
  }

  /** Every bucket of a rollup counts at least one element. */
  lemma PositiveCounts<T, K>(s: seq<T>, key: T -> K)
    ensures forall i :: 0 <= i < |Rollup(s, key)| ==> Rollup(s, key)[i].count >= 1
  {
    var r := Rollup(s, key);
    forall i | 0 <= i < |r| ensures r[i].count >= 1 {
      assert r[i].key in KeysOf(r);
      var j :| 0 <= j < |s| && key(s[j]) == r[i].key;
      OccurrencesOfPresentKey(s, key, j);
    }
  }

  lemma {:induction false} OccurrencesOfPresentKey<T, K>(s: seq<T>, key: T -> K, j: nat)
    requires j < |s|
    ensures Occurrences(s, key, key(s[j])) >= 1
  {
    if j < |s| - 1 {
      var prefix := s[..|s| - 1];
      assert prefix[j] == s[j];
      OccurrencesOfPresentKey(prefix, key, j);
    }
  }

  /** The number of records with gender exactly "male". */
  function MaleCount(data: seq<Student>): (r: nat) {
    |Filter(data, HasGender("male"))|
  }

  /** The "Male" slice counts the records whose gender is exactly "male" and
      the "Female" slice counts all the others, whatever their gender string. */
  lemma {:induction false} GenderSlices(data: seq<Student>)
    ensures Occurrences(data, GenderBucket, "Male") == MaleCount(data)
    ensures Occurrences(data, GenderBucket, "Female") == |data| - MaleCount(data)
  {
    if |data| > 0 {
      var prefix := data[..|data| - 1];
      var last := data[|data| - 1];
      GenderSlices(prefix);
      assert data == prefix + [last];
      FilterConcat(prefix, [last], HasGender("male"));
      assert Filter([last], HasGender("male")) == (if last.gender == "male" then [last] else []);
    }
  }

  /** The bubbles of the race/ethnicity chart: one per group present, each
      counting the records of its group, the counts adding up to the number of
      records. */
  function RaceCounts(data: seq<Student>): (r: seq<Bucket<string>>)
    ensures DistinctKeys(r)
    ensures KeysOf(r) == KeySet(data, Race)
    ensures forall i :: 0 <= i < |r| ==> r[i].count >= 1
    ensures forall i :: 0 <= i < |r| ==> r[i].count == |Filter(data, InRaceGroup(r[i].key))|
    ensures Total(r) == |data|
  {
    var r := Rollup(data, Race);
    PositiveCounts(data, Race);
    forall i | 0 <= i < |r| ensures r[i].count == |Filter(data, InRaceGroup(r[i].key))| {
      OccurrencesAsFilter(data, r[i].key);
    }
    r
  }

  /** The key `d => d['race/ethnicity']` of the bubble chart. */
  function Race(d: Student): (r: string) {
    d.raceEthnicity
  }

  function InRaceGroup(group: string): (p: Student -> bool)
    ensures forall d :: p(d) <==> d.raceEthnicity == group
  {
    (d: Student) => d.raceEthnicity == group
  }

  lemma {:induction false} OccurrencesAsFilter(data: seq<Student>, group: string)
    ensures Occurrences(data, Race, group) == |Filter(data, InRaceGroup(group))|
  {
    if |data| > 0 {
      var prefix := data[..|data| - 1];
      var last := data[|data| - 1];
      OccurrencesAsFilter(prefix, group);
      assert data == prefix + [last];
      FilterConcat(prefix, [last], InRaceGroup(group));
      assert Filter([last], InRaceGroup(group)) == (if last.raceEthnicity == group then [last] else []);
    }
  }
}
