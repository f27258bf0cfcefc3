/**
 * The grouping fold of the dashboard statistics: practitioner rows, joined to
 * their specialty's name, are counted per name into a JavaScript object used
 * as a dictionary, whose entries are then listed. A JavaScript object keeps
 * its string keys in insertion order, so the dictionary is an association
 * list: an assignment to a present key updates its entry in place, one to a
 * new key appends an entry.
 */
module Repartition {
  import opened Wrappers

  const NonSpecifie: string := "Non spécifié"

  /** A row of `select('specialite_id, specialites(nom)')`: the joined name, when the join found one. */
  datatype JoinedRow = JoinedRow(specialiteId: string, nom: Option<string>)

  /** One entry of the `repartitionSpecialites` list. */
  datatype SpecialiteCount = SpecialiteCount(nom: string, count: nat)

  type Dict = seq<(string, nat)>

  /** The bucket a row is counted in: its specialty name, or the sentinel when the name is missing or empty. */
  function BucketName(row: JoinedRow): (k: string)
    ensures row.nom.Some? && row.nom.value != "" ==> k == row.nom.value
    ensures row.nom.None? || row.nom.value == "" ==> k == NonSpecifie
  {
    if row.nom.Some? && row.nom.value != "" then row.nom.value else NonSpecifie
  }

  /** `d[k] || 0`: the value stored under `k`, or 0 when there is none. */
  function Get(d: Dict, k: string): nat {
    if d == [] then 0 else if d[0].0 == k then d[0].1 else Get(d[1..], k)
  }

  function Keys(d: Dict): set<string> {
    if d == [] then {} else {d[0].0} + Keys(d[1..])
  }

  predicate DistinctKeys(d: Dict) {
    d == [] || (d[0].0 !in Keys(d[1..]) && DistinctKeys(d[1..]))
  }

  predicate AllPositive(d: Dict) {
    d == [] || (d[0].1 >= 1 && AllPositive(d[1..]))
  }

  /** Sum of the values of the entries. */
  function Total(d: Dict): nat {
    if d == [] then 0 else d[0].1 + Total(d[1..])
  }

  /** `d[k] = v`: a present key's entry is updated where it stands, a new key is appended. */
  function Put(d: Dict, k: string, v: nat): Dict {
    if d == [] then [(k, v)]
    else if d[0].0 == k then [(k, v)] + d[1..]
    else [d[0]] + Put(d[1..], k, v)
  }

  /**
   * After `d[k] = v`, `k` reads `v` and every other key reads as before; the
   * key set gains `k`; distinct keys stay distinct and the total changes by
   * the difference between the new and the old value.
   */
  lemma {:induction false} PutProperties(d: Dict, k: string, v: nat)
    ensures Get(Put(d, k, v), k) == v
    ensures forall k' :: k' != k ==> Get(Put(d, k, v), k') == Get(d, k')
    ensures Keys(Put(d, k, v)) == Keys(d) + {k}
    ensures DistinctKeys(d) ==> DistinctKeys(Put(d, k, v))
    ensures DistinctKeys(d) ==> Total(Put(d, k, v)) == Total(d) - Get(d, k) + v
    ensures AllPositive(d) && v >= 1 ==> AllPositive(Put(d, k, v))
  {
    if d != [] && d[0].0 != k {
      PutProperties(d[1..], k, v);
      assert Put(d, k, v)[1..] == Put(d[1..], k, v);
    } else if d != [] {
      assert Put(d, k, v)[1..] == d[1..];
      if DistinctKeys(d) {
        GetAbsent(d[1..], k);
      }
    }
  }

  lemma {:induction false} GetAbsent(d: Dict, k: string)
    requires k !in Keys(d)
    ensures Get(d, k) == 0
  {
    if d != [] {
      GetAbsent(d[1..], k);
    }
  }

  /** How many of `rows` are counted in bucket `k`. */
  function Occurrences(rows: seq<JoinedRow>, k: string): nat {
    if rows == [] then 0
    else Occurrences(rows[..|rows| - 1], k) + (if BucketName(rows[|rows| - 1]) == k then 1 else 0)
  }

  /** A name that occurs at least once is the bucket name of some row. */
  lemma {:induction false} OccurrencesPositive(rows: seq<JoinedRow>, k: string)
    requires Occurrences(rows, k) > 0
    ensures exists i :: 0 <= i < |rows| && BucketName(rows[i]) == k
  {
    var init := rows[..|rows| - 1];
    if BucketName(rows[|rows| - 1]) != k {
      OccurrencesPositive(init, k);
      var i :| 0 <= i < |init| && BucketName(init[i]) == k;
      assert rows[i] == init[i];
    }
  }

  /** The bucket names of `rows`. */
  function Names(rows: seq<JoinedRow>): set<string> {
    if rows == [] then {} else Names(rows[..|rows| - 1]) + {BucketName(rows[|rows| - 1])}
  }

  /** The dictionary after the `forEach` over `rows`. */
  function Tally(rows: seq<JoinedRow>): Dict {
    if rows == [] then []
    else
      var d := Tally(rows[..|rows| - 1]);
      var k := BucketName(rows[|rows| - 1]);
      Put(d, k, Get(d, k) + 1)
  }

  /**
   * The fold's result: one entry per distinct bucket name of the rows, each
   * counting exactly the rows of that name, so every count is at least 1 and
   * the counts sum to the number of rows.
   */
  lemma {:induction false} TallyCounts(rows: seq<JoinedRow>)
    ensures DistinctKeys(Tally(rows))
    ensures AllPositive(Tally(rows))
    ensures forall k :: Get(Tally(rows), k) == Occurrences(rows, k)
    ensures Keys(Tally(rows)) == Names(rows)
    ensures Total(Tally(rows)) == |rows|
  {
    if rows != [] {
      var init := rows[..|rows| - 1];
      var d := Tally(init);
      var k := BucketName(rows[|rows| - 1]);
      TallyCounts(init);
      PutProperties(d, k, Get(d, k) + 1);
    }
  }

  /** The `forEach` that increments the dictionary entry of each row's bucket. */
  method CountBySpecialite(rows: seq<JoinedRow>) returns (counts: Dict)
    ensures counts == Tally(rows)
  {
    counts := [];
    var i := 0;
    while i < |rows|
      invariant 0 <= i <= |rows|
      invariant counts == Tally(rows[..i])
    {
      var nom := BucketName(rows[i]);
      counts := Put(counts, nom, Get(counts, nom) + 1);
      assert rows[..i + 1][..i] == rows[..i];
      i := i + 1;
    }
    assert rows[..i] == rows;
  }

  /** `Object.entries(d).map(([nom, count]) => ({ nom, count }))`. */
  function Entries(d: Dict): (r: seq<SpecialiteCount>)
    ensures |r| == |d|
    ensures forall i :: 0 <= i < |d| ==> r[i].nom == d[i].0 && r[i].count == d[i].1
  {
    seq(|d|, i requires 0 <= i < |d| => SpecialiteCount(d[i].0, d[i].1))
  }

  /** Sum of the counts of a list of entries. */
  function SumCounts(r: seq<SpecialiteCount>): nat {
    if r == [] then 0 else r[0].count + SumCounts(r[1..])
  }

  lemma {:induction false} EntriesTotal(d: Dict)
    ensures SumCounts(Entries(d)) == Total(d)
  {
    if d != [] {
      EntriesTotal(d[1..]);
      assert Entries(d)[1..] == Entries(d[1..]);
    }
  }

  /**
   * The listed repartition: names are pairwise distinct, every count is at
   * least 1, each count is the number of rows of that name, every row's name
   * is listed, and the counts sum to the number of rows.
   */
  lemma RepartitionOfRows(rows: seq<JoinedRow>)
    ensures var r := Entries(Tally(rows));
      && (forall i, j :: 0 <= i < j < |r| ==> r[i].nom != r[j].nom)
      && (forall i :: 0 <= i < |r| ==> r[i].count >= 1 && r[i].count == Occurrences(rows, r[i].nom))
      && (forall i :: 0 <= i < |rows| ==> exists j :: 0 <= j < |r| && r[j].nom == BucketName(rows[i]))
      && SumCounts(r) == |rows|
  {
    var d := Tally(rows);
    TallyCounts(rows);
    EntriesTotal(d);
    DistinctIndexed(d);
    forall i | 0 <= i < |d| ensures d[i].1 >= 1 && d[i].1 == Occurrences(rows, d[i].0) {
      GetOfDistinct(d, i);
      PositiveIndexed(d, i);
    }
    forall i | 0 <= i < |rows| ensures exists j :: 0 <= j < |d| && d[j].0 == BucketName(rows[i]) {
      NamesHasRow(rows, i);
      KeysIndexed(d, BucketName(rows[i]));
    }
  }

  lemma {:induction false} GetOfDistinct(d: Dict, i: int)
    requires DistinctKeys(d) && 0 <= i < |d|
    ensures Get(d, d[i].0) == d[i].1
  {
    if i > 0 {
      GetOfDistinct(d[1..], i - 1);
      KeysIndexed(d[1..], d[i].0);
    }
  }

  lemma {:induction false} KeysIndexed(d: Dict, k: string)
    ensures k in Keys(d) <==> exists j :: 0 <= j < |d| && d[j].0 == k
  {
    if d != [] {
      KeysIndexed(d[1..], k);
      if exists j :: 0 <= j < |d[1..]| && d[1..][j].0 == k {
        var j :| 0 <= j < |d[1..]| && d[1..][j].0 == k;
        assert d[j + 1].0 == k;
      }
      if exists j :: 0 <= j < |d| && d[j].0 == k {
        var j :| 0 <= j < |d| && d[j].0 == k;
        if j > 0 {
          assert d[1..][j - 1].0 == k;
        }
      }
    }
  }

  lemma {:induction false} DistinctIndexed(d: Dict)
    requires DistinctKeys(d)
    ensures forall i, j :: 0 <= i < j < |d| ==> d[i].0 != d[j].0
  {
    if d != [] {
      DistinctIndexed(d[1..]);
      forall j | 0 < j < |d| ensures d[0].0 != d[j].0 {
        KeysIndexed(d[1..], d[j].0);
        assert d[1..][j - 1].0 == d[j].0;
      }
    }
  }

  lemma {:induction false} PositiveIndexed(d: Dict, i: int)
    requires AllPositive(d) && 0 <= i < |d|
    ensures d[i].1 >= 1
  {
    if i > 0 {
      PositiveIndexed(d[1..], i - 1);
    }
  }

  lemma {:induction false} NamesHasRow(rows: seq<JoinedRow>, i: int)
    requires 0 <= i < |rows|
    ensures BucketName(rows[i]) in Names(rows)
    decreases |rows|
  {
    if i < |rows| - 1 {
      NamesHasRow(rows[..|rows| - 1], i);
    }
  }
}
