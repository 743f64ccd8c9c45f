// The raw key/value table of a hike page (_extract_table in
// rando_scrapper/scraper.py) and the Python dict it is stored in: keys keep
// the position of their first insertion, a repeated key overwrites the value.

module Tables {
  import opened Options
  import opened Seqs

  /** An insertion-ordered dict from strings to strings. */
  datatype RawTable = RawTable(keys: seq<string>, vals: map<string, string>)

  predicate WellFormed(t: RawTable) {
    Distinct(t.keys)
    && (forall k :: k in t.vals ==> k in t.keys)
    && (forall k :: k in t.keys ==> k in t.vals)
  }

  /** Python's dict: every key once, iteration in insertion order. */
  type Dict = t: RawTable | WellFormed(t) witness RawTable([], map[])

  const EmptyDict: Dict := RawTable([], map[])

  /** dict.get(k). */
  function Get(t: Dict, k: string): Option<string> {
    if k in t.vals then Some(t.vals[k]) else None
  }

  /** dict.get(k, default). */
  function GetOr(t: Dict, k: string, default: string): string {
    if k in t.vals then t.vals[k] else default
  }

  /** `t[k] = v`: a known key keeps its position, a new key goes last. */
  function Assign(t: Dict, k: string, v: string): (r: Dict)
    ensures r.vals == t.vals[k := v]
    ensures r.keys == if k in t.vals then t.keys else t.keys + [k]
  {
    if k in t.vals then RawTable(t.keys, t.vals[k := v])
    else
      var r := RawTable(t.keys + [k], t.vals[k := v]);
      assert WellFormed(r) by {
        assert k !in t.keys;
        forall i, j | 0 <= i < j < |r.keys| ensures r.keys[i] != r.keys[j] {
          if j == |t.keys| {
            assert r.keys[i] == t.keys[i];
          }
        }
      }
      r
  }

  /** A row with at least two cells whose key and value are both non-empty. */
  predicate Qualifies(row: seq<string>) {
    |row| >= 2 && row[0] != "" && row[1] != ""
  }

  /** The dict that _extract_table builds from the rows of every table on
      the page, taken in document order. */
  function TableOf(rows: seq<seq<string>>): (r: Dict)
    ensures forall k :: k in r.vals <==> exists i :: 0 <= i < |rows| && Qualifies(rows[i]) && rows[i][0] == k
  {
    if rows == [] then EmptyDict
    else
      var p := rows[..|rows| - 1];
      var t := TableOf(p);
      var row := rows[|rows| - 1];
      assert forall i :: 0 <= i < |p| ==> rows[i] == p[i];
      if Qualifies(row) then Assign(t, row[0], row[1]) else t
  }

  /** The keys of the qualifying rows, repeats included, in document order. */
  function RowKeys(rows: seq<seq<string>>): seq<string> {
    if rows == [] then []
    else
      var row := rows[|rows| - 1];
      RowKeys(rows[..|rows| - 1]) + if Qualifies(row) then [row[0]] else []
  }

  /** The value of the last qualifying row with key k, if any. */
  function LastValue(rows: seq<seq<string>>, k: string): (r: Option<string>)
    ensures r.None? ==> forall i :: 0 <= i < |rows| ==> !(Qualifies(rows[i]) && rows[i][0] == k)
    ensures r.Some? ==> exists i :: 0 <= i < |rows| && Qualifies(rows[i]) && rows[i][0] == k
                                    && rows[i][1] == r.value
                                    && forall j :: i < j < |rows| ==> !(Qualifies(rows[j]) && rows[j][0] == k)
  {
    if rows == [] then None
    else
      var p := rows[..|rows| - 1];
      var row := rows[|rows| - 1];
      if Qualifies(row) && row[0] == k then Some(row[1])
      else
        var r := LastValue(p, k);
        assert forall i :: 0 <= i < |p| ==> rows[i] == p[i];
        r
  }

  /** Keys appear once each, in the order of their first qualifying row. */
  lemma {:induction false} TableKeysFirstSeen(rows: seq<seq<string>>)
    ensures TableOf(rows).keys == Dedup(RowKeys(rows))
  {
    if rows != [] {
      var p := rows[..|rows| - 1];
      var row := rows[|rows| - 1];
      TableKeysFirstSeen(p);
      var ks := RowKeys(rows);
      if Qualifies(row) {
        assert ks == RowKeys(p) + [row[0]];
        assert ks[..|ks| - 1] == RowKeys(p);
      } else {
        assert ks == RowKeys(p);
      }
    }
  }

  /** Last write wins: the value under k is that of the last qualifying row with key k. */
  lemma {:induction false} TableLastWriteWins(rows: seq<seq<string>>, k: string)
    ensures Get(TableOf(rows), k) == LastValue(rows, k)
  {
    if rows != [] {
      TableLastWriteWins(rows[..|rows| - 1], k);
    }
  }

  /** The imperative extraction: one pass over the rows, assigning into the dict. */
  method ExtractTable(rows: seq<seq<string>>) returns (result: Dict)
    ensures result == TableOf(rows)
  {
    var keys: seq<string> := [];
    var vals: map<string, string> := map[];
    for i := 0 to |rows|
      invariant WellFormed(RawTable(keys, vals))
      invariant RawTable(keys, vals) == TableOf(rows[..i])
    {
      assert rows[..i + 1][..i] == rows[..i];
      var cells := rows[i];
      if |cells| >= 2 {
        var key := cells[0];
        var value := cells[1];
        if key != "" && value != "" {
          if key !in vals {
            keys := keys + [key];
          }
          vals := vals[key := value];
        }
      }
    }
    assert rows[..|rows|] == rows;
    result := RawTable(keys, vals);
  }
}
