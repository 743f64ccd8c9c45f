// The info table the hike browser shows for one stored hike (_hike_info_table
// in app.py): the scraped raw table when there is one, known keys first in
// site order, otherwise rows rebuilt from the typed fields.

module InfoTable {
  import opened Options
  import opened Text
  import opened Seqs
  import opened Tables
  import opened Store

  /** The order of the keys on the site. */
  const INFO_TABLE_KEYS: seq<string> := [
    "Canton",
    "Environnement",
    "Temps de marche",
    "Distance",
    "Montée",
    "Descente",
    "Saison",
    "Difficulté",
    "Lieu de départ",
    "Accès transports publics",
    "Lieu d'arrivée",
    "Retour transports publics"
  ]

  /** A shown value: text as stored, or a number shown with its unit. */
  datatype Cell = Shown(text: string) | Kilometres(km: real) | Metres(m: int)

  datatype Entry = Entry(key: string, value: Cell)

  function Keys(es: seq<Entry>): (ks: seq<string>)
    ensures |ks| == |es|
    ensures forall i :: 0 <= i < |es| ==> ks[i] == es[i].key
  {
    seq(|es|, i requires 0 <= i < |es| => es[i].key)
  }

  // ---------------------------------------------------------------------
  // The raw-table branch

  /** The keys of ks that the table holds, in the order of ks. */
  function KnownKeys(t: Dict, ks: seq<string>): (r: seq<string>)
    ensures forall k :: k in r <==> k in ks && k in t.vals
  {
    if ks == [] then []
    else
      var p := ks[..|ks| - 1];
      var k := ks[|ks| - 1];
      assert ks == p + [k];
      if k in t.vals then KnownKeys(t, p) + [k] else KnownKeys(t, p)
  }

  /** The kept keys keep their order and stay distinct. */
  lemma {:induction false} KnownKeysOrder(t: Dict, ks: seq<string>)
    ensures IsSubseq(KnownKeys(t, ks), ks)
    ensures Distinct(ks) ==> Distinct(KnownKeys(t, ks))
  {
    if ks != [] {
      var p := ks[..|ks| - 1];
      var k := ks[|ks| - 1];
      assert ks == p + [k];
      KnownKeysOrder(t, p);
      SubseqExtend(KnownKeys(t, p), p, k);
      DistinctSnoc(p, k);
      DistinctSnoc(KnownKeys(t, p), k);
    }
  }

  /** The keys of ks that are not in site, in the order of ks. */
  function OtherKeys(ks: seq<string>, site: seq<string>): (r: seq<string>)
    ensures forall k :: k in r <==> k in ks && k !in site
  {
    if ks == [] then []
    else
      var p := ks[..|ks| - 1];
      var k := ks[|ks| - 1];
      assert ks == p + [k];
      if k !in site then OtherKeys(p, site) + [k] else OtherKeys(p, site)
  }

  /** The kept keys keep their order and stay distinct. */
  lemma {:induction false} OtherKeysOrder(ks: seq<string>, site: seq<string>)
    ensures IsSubseq(OtherKeys(ks, site), ks)
    ensures Distinct(ks) ==> Distinct(OtherKeys(ks, site))
  {
    if ks != [] {
      var p := ks[..|ks| - 1];
      var k := ks[|ks| - 1];
      assert ks == p + [k];
      OtherKeysOrder(p, site);
      SubseqExtend(OtherKeys(p, site), p, k);
      DistinctSnoc(p, k);
      DistinctSnoc(OtherKeys(p, site), k);
    }
  }

  /** One more key of ks is kept iff it is not a site key. */
  lemma OtherKeysSnoc(ks: seq<string>, site: seq<string>, i: int)
    requires 0 <= i < |ks|
    ensures OtherKeys(ks[..i + 1], site) == OtherKeys(ks[..i], site) + if ks[i] !in site then [ks[i]] else []
  {
    assert ks[..i + 1][..i] == ks[..i];
  }

  /** The table's entries for the keys ks, in that order. */
  function EntriesOf(t: Dict, ks: seq<string>): (r: seq<Entry>)
    requires forall k :: k in ks ==> k in t.vals
    ensures |r| == |ks|
    ensures forall i :: 0 <= i < |r| ==> r[i] == Entry(ks[i], Shown(t.vals[ks[i]]))
  {
    seq(|ks|, i requires 0 <= i < |ks| => Entry(ks[i], Shown(t.vals[ks[i]])))
  }

  lemma EntriesKeys(t: Dict, ks: seq<string>)
    requires forall k :: k in ks ==> k in t.vals
    ensures Keys(EntriesOf(t, ks)) == ks
  {
  }

  /** The site's keys the table holds, in site order, then the table's other
      keys in insertion order. */
  function RawKeys(t: Dict): seq<string> {
    KnownKeys(t, INFO_TABLE_KEYS) + OtherKeys(t.keys, INFO_TABLE_KEYS)
  }

  function RawRows(t: Dict): seq<Entry> {
    EntriesOf(t, RawKeys(t))
  }

  // ---------------------------------------------------------------------
  // The typed-field branch

  /** The value the typed fields give the i-th site key: a text field when
      it is non-empty, a number when it is present, nothing otherwise. */
  function FieldCell(row: Row, i: nat): (c: Option<Cell>)
    ensures c.Some? ==> i < |INFO_TABLE_KEYS|
  {
    if i == 0 && Truthy(row.canton) then Some(Shown(row.canton.value))  // Canton
    else if i == 1 && Truthy(row.environnement) then Some(Shown(row.environnement.value))  // Environnement
    else if i == 2 && Truthy(row.tempsMarche) then Some(Shown(row.tempsMarche.value))  // Temps de marche
    else if i == 3 && row.distanceKm.Some? then Some(Kilometres(row.distanceKm.value))  // Distance
    else if i == 4 && row.monteeM.Some? then Some(Metres(row.monteeM.value))  // Montée
    else if i == 5 && row.descenteM.Some? then Some(Metres(row.descenteM.value))  // Descente
    else if i == 6 && Truthy(row.saison) then Some(Shown(row.saison.value))  // Saison
    else if i == 7 && Truthy(row.difficulte) then Some(Shown(row.difficulte.value))  // Difficulté
    else if i == 8 && Truthy(row.lieuDepart) then Some(Shown(row.lieuDepart.value))  // Lieu de départ
    else if i == 9 && Truthy(row.accesTp) then Some(Shown(row.accesTp.value))  // Accès transports publics
    else if i == 10 && Truthy(row.lieuArrivee) then Some(Shown(row.lieuArrivee.value))  // Lieu d'arrivée
    else if i == 11 && Truthy(row.retourTp) then Some(Shown(row.retourTp.value))  // Retour transports publics
    else None
  }

  /** The entry for the i-th site key, when its field is set. */
  function FieldEntry(row: Row, i: nat): seq<Entry>
    requires i < |INFO_TABLE_KEYS|
  {
    match FieldCell(row, i)
    case Some(c) => [Entry(INFO_TABLE_KEYS[i], c)]
    case None => []
  }

  /** The entries of the first n site keys whose field is set, in site order. */
  function FieldRowsOf(row: Row, n: nat): seq<Entry>
    requires n <= |INFO_TABLE_KEYS|
  {
    if n == 0 then [] else FieldRowsOf(row, n - 1) + FieldEntry(row, n - 1)
  }

  function FieldRows(row: Row): seq<Entry> {
    FieldRowsOf(row, |INFO_TABLE_KEYS|)
  }

  /** The rows of the info table of a stored hike. */
  function InfoRows(row: Row): (r: seq<Entry>)
    ensures row.rawTable.Some? && row.rawTable.value.keys != [] ==>
              multiset(Keys(r)) == multiset(row.rawTable.value.keys)
    ensures !(row.rawTable.Some? && row.rawTable.value.keys != []) ==> IsSubseq(Keys(r), INFO_TABLE_KEYS)
  {
    if row.rawTable.Some? && row.rawTable.value.keys != [] then
      RawRowsPermutation(row.rawTable.value);
      RawRows(row.rawTable.value)
    else
      FieldRowsSelection(row);
      FieldRows(row)
  }

  // ---------------------------------------------------------------------
  // Properties

  lemma {:induction false} DistinctCount<T>(s: seq<T>, x: T)
    requires Distinct(s)
    ensures multiset(s)[x] == if x in s then 1 else 0
  {
    if s != [] {
      var p := s[..|s| - 1];
      assert s == p + [s[|s| - 1]];
      DistinctCount(p, x);
    }
  }

  /** Two site keys of equal length differ in one of their first two
      characters or in their last but one. */
  lemma SiteKeysDistinct()
    ensures Distinct(INFO_TABLE_KEYS)
  {
    var s := INFO_TABLE_KEYS;
    forall i, j | 0 <= i < j < |s| ensures s[i] != s[j] {
      assert |s[i]| != |s[j]| || s[i][0] != s[j][0] || s[i][1] != s[j][1]
        || s[i][|s[i]| - 2] != s[j][|s[j]| - 2];
    }
  }

  /** The raw branch's keys are distinct and are exactly the table's keys. */
  lemma RawKeysExact(t: Dict)
    ensures Distinct(RawKeys(t))
    ensures forall x :: x in RawKeys(t) <==> x in t.keys
  {
    var known := KnownKeys(t, INFO_TABLE_KEYS);
    var other := OtherKeys(t.keys, INFO_TABLE_KEYS);
    var r := known + other;
    SiteKeysDistinct();
    KnownKeysOrder(t, INFO_TABLE_KEYS);
    OtherKeysOrder(t.keys, INFO_TABLE_KEYS);
    assert Distinct(r) by {
      forall i, j | 0 <= i < j < |r| ensures r[i] != r[j] {
        if j >= |known| && i < |known| {
          assert known[i] in known;
          assert other[j - |known|] in other;
        } else if i >= |known| {
          assert other[i - |known|] != other[j - |known|];
        }
      }
    }
    forall x | x in t.keys ensures x in r {
      if x in INFO_TABLE_KEYS {
        assert x in known;
      } else {
        assert x in other;
      }
    }
  }

  /** The raw branch shows every key of the table exactly once (a
      permutation of the table's keys), each with its value. */
  lemma RawRowsPermutation(t: Dict)
    ensures multiset(Keys(RawRows(t))) == multiset(t.keys)
    ensures |RawRows(t)| == |t.keys|
    ensures forall i :: 0 <= i < |RawRows(t)| ==>
              RawRows(t)[i].key in t.vals && RawRows(t)[i].value == Shown(t.vals[RawRows(t)[i].key])
  {
    var r := RawKeys(t);
    RawKeysExact(t);
    EntriesKeys(t, r);
    forall x ensures multiset(r)[x] == multiset(t.keys)[x] {
      DistinctCount(r, x);
      DistinctCount(t.keys, x);
    }
    assert multiset(r) == multiset(t.keys);
    assert |multiset(r)| == |multiset(t.keys)|;
  }

  /** The site keys come first, in site order; the others follow in
      insertion order. */
  lemma RawRowsOrder(t: Dict)
    ensures IsSubseq(KnownKeys(t, INFO_TABLE_KEYS), INFO_TABLE_KEYS)
    ensures IsSubseq(OtherKeys(t.keys, INFO_TABLE_KEYS), t.keys)
    ensures forall i, j :: 0 <= i < j < |RawKeys(t)| && RawKeys(t)[j] in INFO_TABLE_KEYS ==>
              RawKeys(t)[i] in INFO_TABLE_KEYS
  {
    var known := KnownKeys(t, INFO_TABLE_KEYS);
    var other := OtherKeys(t.keys, INFO_TABLE_KEYS);
    var r := known + other;
    KnownKeysOrder(t, INFO_TABLE_KEYS);
    OtherKeysOrder(t.keys, INFO_TABLE_KEYS);
    forall j | |known| <= j < |r| ensures r[j] !in INFO_TABLE_KEYS {
      assert other[j - |known|] in other;
    }
    forall i | 0 <= i < |known| ensures r[i] in INFO_TABLE_KEYS {
      assert known[i] in known;
    }
  }

  /** The site keys among the first n whose field is set, in site order. */
  ghost function SetKeys(row: Row, n: nat): seq<string>
    requires n <= |INFO_TABLE_KEYS|
  {
    if n == 0 then []
    else SetKeys(row, n - 1) + if FieldCell(row, n - 1).Some? then [INFO_TABLE_KEYS[n - 1]] else []
  }

  lemma {:induction false} FieldRowsOfKeys(row: Row, n: nat)
    requires n <= |INFO_TABLE_KEYS|
    ensures Keys(FieldRowsOf(row, n)) == SetKeys(row, n)
  {
    if n > 0 {
      FieldRowsOfKeys(row, n - 1);
      var r := FieldRowsOf(row, n - 1);
      if FieldCell(row, n - 1).Some? {
        assert Keys(FieldRowsOf(row, n)) == Keys(r) + [INFO_TABLE_KEYS[n - 1]];
      } else {
        assert FieldRowsOf(row, n) == r;
      }
    }
  }

  /** The typed-field rows of the first n site keys keep site order. */
  lemma {:induction false} FieldRowsOfOrder(row: Row, n: nat)
    requires n <= |INFO_TABLE_KEYS|
    ensures IsSubseq(Keys(FieldRowsOf(row, n)), INFO_TABLE_KEYS[..n])
  {
    FieldRowsOfKeys(row, n);
    SetKeysOrder(row, n);
  }

  lemma {:induction false} SetKeysOrder(row: Row, n: nat)
    requires n <= |INFO_TABLE_KEYS|
    ensures IsSubseq(SetKeys(row, n), INFO_TABLE_KEYS[..n])
  {
    if n > 0 {
      SetKeysOrder(row, n - 1);
      var k := INFO_TABLE_KEYS[n - 1];
      assert INFO_TABLE_KEYS[..n] == INFO_TABLE_KEYS[..n - 1] + [k];
      SubseqExtend(SetKeys(row, n - 1), INFO_TABLE_KEYS[..n - 1], k);
      if FieldCell(row, n - 1).Some? {
        assert SetKeys(row, n) == SetKeys(row, n - 1) + [k];
      } else {
        assert SetKeys(row, n) == SetKeys(row, n - 1);
      }
    }
  }

  /** Every site key among the first n whose field is set has its entry. */
  lemma {:induction false} FieldRowsOfComplete(row: Row, n: nat)
    requires n <= |INFO_TABLE_KEYS|
    ensures forall i :: 0 <= i < n && FieldCell(row, i).Some? ==>
              Entry(INFO_TABLE_KEYS[i], FieldCell(row, i).value) in FieldRowsOf(row, n)
  {
    if n > 0 {
      FieldRowsOfComplete(row, n - 1);
      var r := FieldRowsOf(row, n - 1);
      var all := FieldRowsOf(row, n);
      assert all == r + FieldEntry(row, n - 1);
      forall i | 0 <= i < n && FieldCell(row, i).Some?
        ensures Entry(INFO_TABLE_KEYS[i], FieldCell(row, i).value) in all
      {
        if i == n - 1 {
          assert all[|all| - 1] == Entry(INFO_TABLE_KEYS[i], FieldCell(row, i).value);
        } else {
          assert Entry(INFO_TABLE_KEYS[i], FieldCell(row, i).value) in r;
        }
      }
    }
  }

  /** Every entry among the first n site keys is that of a key whose field is set. */
  lemma {:induction false} FieldRowsOfSound(row: Row, n: nat)
    requires n <= |INFO_TABLE_KEYS|
    ensures forall e :: e in FieldRowsOf(row, n) ==>
              exists i :: 0 <= i < n && FieldCell(row, i).Some? && e == Entry(INFO_TABLE_KEYS[i], FieldCell(row, i).value)
  {
    if n > 0 {
      FieldRowsOfSound(row, n - 1);
      var r := FieldRowsOf(row, n - 1);
      var all := FieldRowsOf(row, n);
      assert all == r + FieldEntry(row, n - 1);
      forall e | e in all
        ensures exists i :: 0 <= i < n && FieldCell(row, i).Some? && e == Entry(INFO_TABLE_KEYS[i], FieldCell(row, i).value)
      {
        if e !in r {
          assert FieldCell(row, n - 1).Some? && e == Entry(INFO_TABLE_KEYS[n - 1], FieldCell(row, n - 1).value);
        }
      }
    }
  }

  /** The fallback branch shows, in site order, one entry for each site key
      whose typed field is set, holding that field's value, and nothing else. */
  lemma FieldRowsSelection(row: Row)
    ensures IsSubseq(Keys(FieldRows(row)), INFO_TABLE_KEYS)
    ensures forall i :: 0 <= i < |INFO_TABLE_KEYS| && FieldCell(row, i).Some? ==>
              Entry(INFO_TABLE_KEYS[i], FieldCell(row, i).value) in FieldRows(row)
    ensures forall e :: e in FieldRows(row) ==>
              exists i :: 0 <= i < |INFO_TABLE_KEYS| && FieldCell(row, i).Some? && e == Entry(INFO_TABLE_KEYS[i], FieldCell(row, i).value)
  {
    FieldRowsOfOrder(row, |INFO_TABLE_KEYS|);
    FieldRowsOfComplete(row, |INFO_TABLE_KEYS|);
    FieldRowsOfSound(row, |INFO_TABLE_KEYS|);
    assert INFO_TABLE_KEYS[..|INFO_TABLE_KEYS|] == INFO_TABLE_KEYS;
  }

  // ---------------------------------------------------------------------
  // The imperative view builder

  /** _hike_info_table. */
  method HikeInfoTable(row: Row) returns (rows: seq<Entry>)
    ensures rows == InfoRows(row)
  {
    if row.rawTable.Some? && row.rawTable.value.keys != [] {
      rows := RawInfoRows(row.rawTable.value);
    } else {
      rows := FieldInfoRows(row);
    }
  }

  /** The raw-table branch: the site's keys first, then the rest. */
  method RawInfoRows(raw: Dict) returns (rows: seq<Entry>)
    ensures rows == RawRows(raw)
  {
    rows := SiteEntries(raw, INFO_TABLE_KEYS);
    rows := AppendOtherEntries(raw, INFO_TABLE_KEYS, rows);
    EntriesAppend(raw, KnownKeys(raw, INFO_TABLE_KEYS), OtherKeys(raw.keys, INFO_TABLE_KEYS));
  }

  lemma EntriesAppend(t: Dict, a: seq<string>, b: seq<string>)
    requires forall k :: k in a + b ==> k in t.vals
    ensures EntriesOf(t, a + b) == EntriesOf(t, a) + EntriesOf(t, b)
  {
  }

  /** One more key adds its entry. */
  lemma EntriesOfSnoc(t: Dict, keys: seq<string>, k: string)
    requires forall x :: x in keys ==> x in t.vals
    requires k in t.vals
    ensures EntriesOf(t, keys + [k]) == EntriesOf(t, keys) + [Entry(k, Shown(t.vals[k]))]
  {
    assert (keys + [k])[..|keys|] == keys;
  }

  /** One more key of ks is kept iff the table holds it. */
  lemma KnownKeysSnoc(t: Dict, ks: seq<string>, i: int)
    requires 0 <= i < |ks|
    ensures KnownKeys(t, ks[..i + 1]) == KnownKeys(t, ks[..i]) + if ks[i] in t.vals then [ks[i]] else []
  {
    assert ks[..i + 1][..i] == ks[..i];
  }

  /** The entries of the keys of site that the table holds, in site order. */
  method SiteEntries(raw: Dict, site: seq<string>) returns (rows: seq<Entry>)
    ensures rows == EntriesOf(raw, KnownKeys(raw, site))
  {
    rows := [];
    ghost var keys: seq<string> := [];
    for i := 0 to |site|
      invariant keys == KnownKeys(raw, site[..i])
      invariant rows == EntriesOf(raw, keys)
    {
      KnownKeysSnoc(raw, site, i);
      var k := site[i];
      if k in raw.vals {
        EntriesOfSnoc(raw, keys, k);
        rows := rows + [Entry(k, Shown(raw.vals[k]))];
        keys := keys + [k];
      }
    }
    assert site[..|site|] == site;
  }

  /** Appends the table's entries whose key is not in site, in insertion order. */
  method AppendOtherEntries(raw: Dict, site: seq<string>, rows0: seq<Entry>) returns (rows: seq<Entry>)
    ensures rows == rows0 + EntriesOf(raw, OtherKeys(raw.keys, site))
  {
    var extra: seq<Entry> := [];
    ghost var keys: seq<string> := [];
    for i := 0 to |raw.keys|
      invariant keys == OtherKeys(raw.keys[..i], site)
      invariant forall x :: x in keys ==> x in raw.vals
      invariant extra == EntriesOf(raw, keys)
    {
      OtherKeysSnoc(raw.keys, site, i);
      var k := raw.keys[i];
      assert k in raw.vals;
      if k !in site {
        EntriesOfSnoc(raw, keys, k);
        extra := extra + [Entry(k, Shown(raw.vals[k]))];
        keys := keys + [k];
      }
    }
    assert raw.keys[..|raw.keys|] == raw.keys;
    rows := rows0 + extra;
  }

  /** The typed-field branch: the twelve field tests, taken in site order. */
  method FieldInfoRows(row: Row) returns (rows: seq<Entry>)
    ensures rows == FieldRows(row)
  {
    rows := [];
    for i := 0 to |INFO_TABLE_KEYS|
      invariant rows == FieldRowsOf(row, i)
    {
      var cell := FieldCell(row, i);
      if cell.Some? {
        rows := rows + [Entry(INFO_TABLE_KEYS[i], cell.value)];
      }
    }
  }
}
