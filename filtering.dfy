// The filter engine (rando_scrapper/filtering.py): the season parser and
// filter_hikes over the eight dimensions of a stored hike row.

module Filtering {
  import opened Options
  import opened Text
  import opened Seqs
  import opened Store

  const CANONICAL_SEASONS: set<string> := {"Printemps", "Été", "Automne", "Hiver"}

  /** The year-round label of the season filter. */
  const ALL_YEAR: string := "Toute l'année"

  // ---------------------------------------------------------------------
  // _parse_saison

  /** Season text as both season tests compare it: stripped, lower-cased,
      with the typographic apostrophe turned into a plain one. */
  function SaisonText(s: string): (r: string)
    ensures |r| == |Strip(s)|
  {
    ReplaceChar(Lower(Strip(s)), '’', '\'')
  }

  /** The season one comma-separated segment names: the first of printemps,
      été (or ete), automne, hiver found in it, or none. */
  function SeasonOfPart(part: string): (r: Option<string>)
    ensures r.Some? ==> r.value in CANONICAL_SEASONS
    ensures Lower(Strip(part)) == "" ==> r.None?
    ensures r == Some("Printemps") <==> Contains(Lower(Strip(part)), "printemps")
    ensures r == Some("Été") <==>
              !Contains(Lower(Strip(part)), "printemps")
              && (Contains(Lower(Strip(part)), "été") || Contains(Lower(Strip(part)), "ete"))
    ensures r == Some("Automne") <==>
              !Contains(Lower(Strip(part)), "printemps")
              && !Contains(Lower(Strip(part)), "été") && !Contains(Lower(Strip(part)), "ete")
              && Contains(Lower(Strip(part)), "automne")
    ensures r == Some("Hiver") <==>
              !Contains(Lower(Strip(part)), "printemps")
              && !Contains(Lower(Strip(part)), "été") && !Contains(Lower(Strip(part)), "ete")
              && !Contains(Lower(Strip(part)), "automne") && Contains(Lower(Strip(part)), "hiver")
    ensures r.None? <==>
              !Contains(Lower(Strip(part)), "printemps")
              && !Contains(Lower(Strip(part)), "été") && !Contains(Lower(Strip(part)), "ete")
              && !Contains(Lower(Strip(part)), "automne") && !Contains(Lower(Strip(part)), "hiver")
  {
    var p := Lower(Strip(part));
    if p == "" then None
    else if Contains(p, "printemps") then Some("Printemps")
    else if Contains(p, "été") || Contains(p, "ete") then Some("Été")
    else if Contains(p, "automne") then Some("Automne")
    else if Contains(p, "hiver") then Some("Hiver")
    else None
  }

  /** The values that `named` gives the segments, collected in a set: a
      value is in it iff some segment is named by it. */
  function Collect(parts: seq<string>, named: string -> Option<string>): (r: set<string>)
    ensures forall x :: x in r <==> exists i :: 0 <= i < |parts| && named(parts[i]) == Some(x)
  {
    if parts == [] then {}
    else
      var p := parts[..|parts| - 1];
      var r := Collect(p, named);
      assert forall i :: 0 <= i < |p| ==> parts[i] == p[i];
      match named(parts[|parts| - 1])
      case Some(x) => r + {x}
      case None => r
  }

  /** The seasons named by the segments. */
  function PartsSeasons(parts: seq<string>): (r: set<string>)
    ensures r <= CANONICAL_SEASONS
    ensures forall x :: x in r <==> exists i :: 0 <= i < |parts| && SeasonOfPart(parts[i]) == Some(x)
  {
    Collect(parts, SeasonOfPart)
  }

  /** A text that contains a non-empty string is at least as long. */
  lemma ContainsLength(s: string, t: string)
    requires Contains(s, t)
    ensures |t| <= |s|
  {
    var i := ContainsWitness(s, t);
  }

  /** The canonical seasons of a season text: none for an absent or blank
      text, all four when it says "toute l'année", otherwise those named by
      its comma-separated segments. */
  function SaisonSet(s: Option<string>): (r: set<string>)
    ensures r <= CANONICAL_SEASONS
    ensures !Truthy(s) || Strip(s.value) == "" ==> r == {}
    ensures s.Some? && Contains(SaisonText(s.value), "toute l'année") ==> r == CANONICAL_SEASONS
    ensures s.Some? && Strip(s.value) != "" && !Contains(SaisonText(s.value), "toute l'année") ==>
              r == PartsSeasons(Split(s.value, ','))
  {
    if s.Some? && Contains(SaisonText(s.value), "toute l'année") then
      ContainsLength(SaisonText(s.value), "toute l'année");
      CANONICAL_SEASONS
    else if !Truthy(s) || Strip(s.value) == "" then {}
    else PartsSeasons(Split(s.value, ','))
  }

  /** One more segment adds the name it is given, if any. */
  lemma CollectStep(parts: seq<string>, i: int, named: string -> Option<string>)
    requires 0 <= i < |parts|
    ensures Collect(parts[..i + 1], named) ==
              if named(parts[i]).Some? then Collect(parts[..i], named) + {named(parts[i]).value}
              else Collect(parts[..i], named)
  {
    assert parts[..i + 1][..i] == parts[..i];
  }

  /** _parse_saison: the loop over the comma-separated segments. */
  method ParseSaison(saison: Option<string>) returns (result: set<string>)
    ensures result == SaisonSet(saison)
  {
    if saison.None? || saison.value == "" || Strip(saison.value) == "" {
      return {};
    }
    var s := SaisonText(saison.value);
    if Contains(s, "toute l'année") {
      return CANONICAL_SEASONS;
    }
    result := {};
    var parts := Split(saison.value, ',');
    for i := 0 to |parts|
      invariant result == Collect(parts[..i], SeasonOfPart)
    {
      CollectStep(parts, i, SeasonOfPart);
      var named := SeasonOfPart(parts[i]);
      if named.Some? {
        result := result + {named.value};
      }
    }
    assert parts[..|parts|] == parts;
  }

  // ---------------------------------------------------------------------
  // The eight dimensions

  datatype Dim = Canton | TypeParcours | Km | Duree | Difficulte | Denivele | Saison | Environnement

  /** The order in which filter_hikes applies the dimensions. */
  const ORDER: seq<Dim> := [Canton, TypeParcours, Km, Duree, Difficulte, Denivele, Saison, Environnement]

  /** The selected values of each dimension; an empty list (or None in the
      source) leaves the dimension unconstrained. */
  datatype Selection = Selection(
    cantons: seq<string>,
    typesParcours: seq<string>,
    kmRanges: seq<string>,
    dureeRanges: seq<string>,
    difficultes: seq<string>,
    deniveleRanges: seq<string>,
    saisons: seq<string>,
    environnements: seq<string>)

  function Selected(sel: Selection, d: Dim): seq<string> {
    match d
    case Canton => sel.cantons
    case TypeParcours => sel.typesParcours
    case Km => sel.kmRanges
    case Duree => sel.dureeRanges
    case Difficulte => sel.difficultes
    case Denivele => sel.deniveleRanges
    case Saison => sel.saisons
    case Environnement => sel.environnements
  }

  predicate Active(sel: Selection, d: Dim) {
    Selected(sel, d) != []
  }

  /** The row field a single-valued dimension compares. */
  function FieldOf(h: Row, d: Dim): Option<string> {
    match d
    case Canton => h.canton
    case TypeParcours => h.typeParcours
    case Km => h.kmRange
    case Duree => h.dureeRange
    case Difficulte => h.difficulte
    case Denivele => h.deniveleRange
    case Saison => h.saison
    case Environnement => h.environnement
  }

  /** The season test: (a) the text says year-round and that label is
      selected, or (b) that label is selected and the parsed set is all four
      seasons, or (c) the parsed set meets the other selected labels. */
  predicate MatchesSaison(h: Row, selected: seq<string>)
    ensures selected == [] ==> !MatchesSaison(h, selected)
    ensures ALL_YEAR !in selected ==>
              (MatchesSaison(h, selected) <==> SaisonSet(h.saison) * SetOf(selected) != {})
    ensures ALL_YEAR in selected ==>
              (MatchesSaison(h, selected) <==>
                 SaisonSet(h.saison) == CANONICAL_SEASONS
                 || SaisonSet(h.saison) * (SetOf(selected) - {ALL_YEAR}) != {})
  {
    var raw := SaisonText(OrEmpty(h.saison));
    var seasons := SaisonSet(h.saison);
    (Contains(raw, "toute l'année") && ALL_YEAR in selected)
    || (ALL_YEAR in selected && CANONICAL_SEASONS <= seasons)
    || seasons * (SetOf(selected) - {ALL_YEAR}) != {}
  }

  /** The non-blank comma-separated tags of the stored tag text, stripped. */
  function TagSet(parts: seq<string>): set<string> {
    set i | 0 <= i < |parts| && Strip(parts[i]) != "" :: Strip(parts[i])
  }

  /** A row's environment tags: its single environnement and its tag list. */
  function HikeEnvs(h: Row): set<string> {
    var single := Strip(OrEmpty(h.environnement));
    var multi := Strip(OrEmpty(h.environnements));
    (if single != "" then {single} else {}) + (if multi != "" then TagSet(Split(multi, ',')) else {})
  }

  /** The environment test: the row has every selected tag. */
  predicate HasAllEnvs(h: Row, selected: seq<string>)
    ensures HasAllEnvs(h, selected) <==> forall i :: 0 <= i < |selected| ==> selected[i] in HikeEnvs(h)
  {
    SetOf(selected) <= HikeEnvs(h)
  }

  /** Whether a row passes one dimension's test for the given selected values. */
  predicate Matches(h: Row, d: Dim, selected: seq<string>) {
    match d
    case Saison => MatchesSaison(h, selected)
    case Environnement => HasAllEnvs(h, selected)
    case _ => Strip(OrEmpty(FieldOf(h, d))) in selected
  }

  // ---------------------------------------------------------------------
  // filter_hikes

  /** One list comprehension: the rows that pass dimension d. */
  function KeepIf(hs: seq<Row>, d: Dim, selected: seq<string>): seq<Row> {
    if hs == [] then []
    else
      var h := hs[|hs| - 1];
      var k := KeepIf(hs[..|hs| - 1], d, selected);
      if Matches(h, d, selected) then k + [h] else k
  }

  /** One `if <selection>:` step of filter_hikes. */
  function Step(hs: seq<Row>, sel: Selection, d: Dim): seq<Row> {
    if Active(sel, d) then KeepIf(hs, d, Selected(sel, d)) else hs
  }

  /** The steps for the dimensions ds, in order. */
  function Steps(hs: seq<Row>, sel: Selection, ds: seq<Dim>): seq<Row>
    decreases |ds|
  {
    if ds == [] then hs else Steps(Step(hs, sel, ds[0]), sel, ds[1..])
  }

  /** filter_hikes: an empty input gives an empty result, otherwise the
      eight steps are applied in turn. The result keeps the input order and
      holds exactly the rows every selected dimension admits. */
  function FilterHikes(hs: seq<Row>, sel: Selection): (r: seq<Row>)
    ensures IsSubseq(r, hs)
    ensures forall h :: h in r <==> h in hs && forall d :: Active(sel, d) ==> Matches(h, d, Selected(sel, d))
  {
    StepsAreKeepWhere(hs, sel, ORDER);
    AdmitsOrderAll(sel);
    if hs == [] then [] else Steps(hs, sel, ORDER)
  }

  /** The row passes every active dimension among ds. */
  predicate Admits(h: Row, sel: Selection, ds: seq<Dim>) {
    forall i :: 0 <= i < |ds| ==> Active(sel, ds[i]) ==> Matches(h, ds[i], Selected(sel, ds[i]))
  }

  /** Reference definition: one pass keeping the rows every active dimension admits. */
  function KeepWhere(hs: seq<Row>, sel: Selection, ds: seq<Dim>): (r: seq<Row>)
    ensures IsSubseq(r, hs)
    ensures forall h :: h in r <==> h in hs && Admits(h, sel, ds)
  {
    if hs == [] then []
    else
      var p := hs[..|hs| - 1];
      var h := hs[|hs| - 1];
      assert hs == p + [h];
      var r := KeepWhere(p, sel, ds);
      SubseqExtend(r, p, h);
      if Admits(h, sel, ds) then r + [h] else r
  }

  lemma AdmitsCons(h: Row, sel: Selection, d: Dim, ds: seq<Dim>)
    ensures Admits(h, sel, [d] + ds) <==>
              (Active(sel, d) ==> Matches(h, d, Selected(sel, d))) && Admits(h, sel, ds)
  {
    var e := [d] + ds;
    if (Active(sel, d) ==> Matches(h, d, Selected(sel, d))) && Admits(h, sel, ds) {
      forall i | 0 <= i < |e| && Active(sel, e[i]) ensures Matches(h, e[i], Selected(sel, e[i])) {
        if i > 0 {
          assert e[i] == ds[i - 1];
        }
      }
    }
    if Admits(h, sel, e) {
      assert e[0] == d;
      forall i | 0 <= i < |ds| && Active(sel, ds[i]) ensures Matches(h, ds[i], Selected(sel, ds[i])) {
        assert ds[i] == e[i + 1];
      }
    }
  }

  /** Filtering by an active dimension, then by the rest, is filtering by all of them. */
  lemma {:induction false} FuseActive(hs: seq<Row>, sel: Selection, d: Dim, ds: seq<Dim>)
    requires Active(sel, d)
    ensures KeepWhere(KeepIf(hs, d, Selected(sel, d)), sel, ds) == KeepWhere(hs, sel, [d] + ds)
  {
    if hs != [] {
      var p := hs[..|hs| - 1];
      var h := hs[|hs| - 1];
      FuseActive(p, sel, d, ds);
      AdmitsCons(h, sel, d, ds);
      var k := KeepIf(p, d, Selected(sel, d));
      if Matches(h, d, Selected(sel, d)) {
        assert KeepIf(hs, d, Selected(sel, d)) == k + [h];
        assert (k + [h])[..|k|] == k;
      } else {
        assert KeepIf(hs, d, Selected(sel, d)) == k + [];
        assert k + [] == k;
      }
    }
  }

  /** An inactive dimension admits every row. */
  lemma {:induction false} SkipInactive(hs: seq<Row>, sel: Selection, d: Dim, ds: seq<Dim>)
    requires !Active(sel, d)
    ensures KeepWhere(hs, sel, ds) == KeepWhere(hs, sel, [d] + ds)
  {
    if hs != [] {
      SkipInactive(hs[..|hs| - 1], sel, d, ds);
      AdmitsCons(hs[|hs| - 1], sel, d, ds);
    }
  }

  /** Keeping the rows every dimension of [] admits keeps them all. */
  lemma {:induction false} KeepWhereNone(hs: seq<Row>, sel: Selection)
    ensures KeepWhere(hs, sel, []) == hs
  {
    if hs != [] {
      KeepWhereNone(hs[..|hs| - 1], sel);
      assert Admits(hs[|hs| - 1], sel, []);
      assert hs == hs[..|hs| - 1] + [hs[|hs| - 1]];
    }
  }

  lemma {:induction false} StepsAreKeepWhere(hs: seq<Row>, sel: Selection, ds: seq<Dim>)
    ensures Steps(hs, sel, ds) == KeepWhere(hs, sel, ds)
    decreases |ds|
  {
    if ds == [] {
      KeepWhereNone(hs, sel);
    } else {
      var d := ds[0];
      assert ds == [d] + ds[1..];
      StepsAreKeepWhere(Step(hs, sel, d), sel, ds[1..]);
      if Active(sel, d) {
        FuseActive(hs, sel, d, ds[1..]);
      } else {
        SkipInactive(hs, sel, d, ds[1..]);
      }
    }
  }

  /** AND across dimensions: filter_hikes keeps, in order, exactly the rows
      that pass every active dimension. */
  lemma FilterIsConjunction(hs: seq<Row>, sel: Selection)
    ensures FilterHikes(hs, sel) == KeepWhere(hs, sel, ORDER)
    ensures IsSubseq(FilterHikes(hs, sel), hs)
    ensures forall h :: h in FilterHikes(hs, sel) <==>
              h in hs && forall d :: Active(sel, d) ==> Matches(h, d, Selected(sel, d))
  {
    StepsAreKeepWhere(hs, sel, ORDER);
    forall h ensures Admits(h, sel, ORDER) <==> forall d :: Active(sel, d) ==> Matches(h, d, Selected(sel, d)) {
      AdmitsOrder(h, sel);
    }
  }

  /** The position of a dimension in ORDER: every dimension is applied. */
  function DimIndex(d: Dim): (i: nat)
    ensures i < |ORDER| && ORDER[i] == d
  {
    match d
    case Canton => 0 case TypeParcours => 1 case Km => 2 case Duree => 3
    case Difficulte => 4 case Denivele => 5 case Saison => 6 case Environnement => 7
  }

  /** Passing every active dimension of ORDER is passing every active dimension. */
  lemma AdmitsOrder(h: Row, sel: Selection)
    ensures Admits(h, sel, ORDER) <==> forall d :: Active(sel, d) ==> Matches(h, d, Selected(sel, d))
  {
    if Admits(h, sel, ORDER) {
      forall d | Active(sel, d) ensures Matches(h, d, Selected(sel, d)) {
        var i := DimIndex(d);
      }
    }
  }

  lemma AdmitsOrderAll(sel: Selection)
    ensures forall h :: Admits(h, sel, ORDER) <==> forall d :: Active(sel, d) ==> Matches(h, d, Selected(sel, d))
  {
    forall h ensures Admits(h, sel, ORDER) <==> forall d :: Active(sel, d) ==> Matches(h, d, Selected(sel, d)) {
      AdmitsOrder(h, sel);
    }
  }

  /** With no active dimension the input comes back unchanged. */
  lemma FilterNoSelection(hs: seq<Row>, sel: Selection)
    requires forall d :: !Active(sel, d)
    ensures FilterHikes(hs, sel) == hs
  {
    FilterIsConjunction(hs, sel);
    KeepWhereAll(hs, sel, ORDER);
  }

  lemma {:induction false} KeepWhereAll(hs: seq<Row>, sel: Selection, ds: seq<Dim>)
    requires forall h :: h in hs ==> Admits(h, sel, ds)
    ensures KeepWhere(hs, sel, ds) == hs
  {
    if hs != [] {
      KeepWhereAll(hs[..|hs| - 1], sel, ds);
      assert hs == hs[..|hs| - 1] + [hs[|hs| - 1]];
    }
  }

  /** sel2 keeps every active selection of sel1 unchanged and may constrain more dimensions. */
  predicate Narrows(sel2: Selection, sel1: Selection) {
    forall d :: Active(sel1, d) ==> Selected(sel2, d) == Selected(sel1, d)
  }

  lemma {:induction false} KeepWhereMonotone(hs: seq<Row>, sel2: Selection, sel1: Selection, ds: seq<Dim>)
    requires forall h :: h in hs && Admits(h, sel2, ds) ==> Admits(h, sel1, ds)
    ensures IsSubseq(KeepWhere(hs, sel2, ds), KeepWhere(hs, sel1, ds))
  {
    if hs != [] {
      var p := hs[..|hs| - 1];
      var h := hs[|hs| - 1];
      KeepWhereMonotone(p, sel2, sel1, ds);
      var a := KeepWhere(p, sel2, ds);
      var b := KeepWhere(p, sel1, ds);
      SubseqExtend(a, b, h);
      if Admits(h, sel2, ds) {
        assert Admits(h, sel1, ds);
        assert KeepWhere(hs, sel2, ds) == a + [h];
        assert KeepWhere(hs, sel1, ds) == b + [h];
      } else if Admits(h, sel1, ds) {
        assert KeepWhere(hs, sel2, ds) == a;
        assert KeepWhere(hs, sel1, ds) == b + [h];
      } else {
        assert KeepWhere(hs, sel2, ds) == a;
        assert KeepWhere(hs, sel1, ds) == b;
      }
    }
  }

  /** Adding a constraint never enlarges the result. */
  lemma FilterMonotone(hs: seq<Row>, sel2: Selection, sel1: Selection)
    requires Narrows(sel2, sel1)
    ensures IsSubseq(FilterHikes(hs, sel2), FilterHikes(hs, sel1))
  {
    FilterIsConjunction(hs, sel2);
    FilterIsConjunction(hs, sel1);
    forall h | h in hs && Admits(h, sel2, ORDER) ensures Admits(h, sel1, ORDER) {
      NarrowsAdmits(h, sel2, sel1, ORDER);
    }
    KeepWhereMonotone(hs, sel2, sel1, ORDER);
  }

  /** A row that passes a narrower selection passes the wider one. */
  lemma NarrowsAdmits(h: Row, sel2: Selection, sel1: Selection, ds: seq<Dim>)
    requires Narrows(sel2, sel1) && Admits(h, sel2, ds)
    ensures Admits(h, sel1, ds)
  {
    forall i | 0 <= i < |ds| && Active(sel1, ds[i])
      ensures Matches(h, ds[i], Selected(sel1, ds[i]))
    {
      assert Selected(sel2, ds[i]) == Selected(sel1, ds[i]);
    }
  }

  /** The literal year-round path (a) of the season test implies path (b). */
  lemma LiteralYearRoundIsAllSeasons(h: Row)
    requires Contains(SaisonText(OrEmpty(h.saison)), "toute l'année")
    ensures SaisonSet(h.saison) == CANONICAL_SEASONS
  {
    ContainsLength(SaisonText(OrEmpty(h.saison)), "toute l'année");
  }

  /** Selecting only "Toute l'année" keeps exactly the rows whose season set is all four. */
  lemma OnlyYearRound(h: Row)
    ensures MatchesSaison(h, [ALL_YEAR]) <==> SaisonSet(h.saison) == CANONICAL_SEASONS
  {
    assert SetOf([ALL_YEAR]) - {ALL_YEAR} == {};
    if Contains(SaisonText(OrEmpty(h.saison)), "toute l'année") {
      LiteralYearRoundIsAllSeasons(h);
    }
  }

  // ---------------------------------------------------------------------
  // Stored tags read back

  /** A tag as the scraper produces it: non-empty, without edge whitespace
      and without the separator. */
  predicate CleanTag(t: string) {
    t != [] && !IsSpace(t[0]) && !IsSpace(t[|t| - 1]) && ',' !in t
  }

  lemma {:induction false} JoinEnds(xs: seq<string>, sep: char)
    requires xs != [] && forall i :: 0 <= i < |xs| ==> xs[i] != []
    ensures Join(xs, sep) != []
    ensures Join(xs, sep)[0] == xs[0][0]
    ensures Join(xs, sep)[|Join(xs, sep)| - 1] == xs[|xs| - 1][|xs[|xs| - 1]| - 1]
  {
    if |xs| > 1 {
      JoinEnds(xs[1..], sep);
    }
  }

  /** The tags of a joined tag list, read back as filter_hikes reads them. */
  lemma {:induction false} JoinedTagsReadBack(tags: seq<string>)
    requires tags != [] && forall i :: 0 <= i < |tags| ==> CleanTag(tags[i])
    ensures TagSet(Split(Strip(Join(tags, ',')), ',')) == SetOf(tags)
  {
    var joined := Join(tags, ',');
    JoinEnds(tags, ',');
    StripNoEdgeSpace(joined);
    SplitJoin(tags, ',');
    forall i | 0 <= i < |tags| ensures Strip(tags[i]) == tags[i] {
      StripNoEdgeSpace(tags[i]);
    }
  }

  /** The environment tags filter_hikes reads from the row hike_to_row
      stores are the hike's single environment and its tag list. */
  lemma StoredTagsReadBack(h: Extract.Hike)
    requires forall i :: 0 <= i < |h.environnements| ==> CleanTag(h.environnements[i])
    requires h.environnement.Some? ==> CleanTag(h.environnement.value)
    ensures HikeEnvs(HikeToRow(h)) == SetOf(h.environnements) + if h.environnement.Some? then {h.environnement.value} else {}
  {
    var row := HikeToRow(h);
    assert row.environnement == h.environnement;
    if h.environnement.Some? {
      StripNoEdgeSpace(h.environnement.value);
    }
    if h.environnements != [] {
      assert row.environnements == Some(Join(h.environnements, ','));
      JoinedTagsReadBack(h.environnements);
    }
  }

  /** When no known tag matched, the stripped raw environment cell is both
      the single environnement and the only tag. The stored tag list is split
      again at commas, so a raw cell holding commas ("Forêt, pâturages")
      reads back as the whole cell plus each of its stripped pieces. */
  lemma RawFallbackReadBack(h: Extract.Hike, raw: string)
    requires h.environnements == [raw] && h.environnement == Some(raw)
    requires raw != [] && !IsSpace(raw[0]) && !IsSpace(raw[|raw| - 1])
    ensures HikeEnvs(HikeToRow(h)) == {raw} + TagSet(Split(raw, ','))
  {
    var row := HikeToRow(h);
    StripNoEdgeSpace(raw);
    assert row.environnements == Some(Join([raw], ','));
  }

  // ---------------------------------------------------------------------
  // Worked examples

  /** A row with only its URL set. */
  function BlankRow(url: string): (r: Row)
    ensures r.url == url && r.canton.None? && r.saison.None?
  {
    Row(url, "", None, None, None, None, None, None, None, None, None, None, None, None,
        None, None, None, None, None, None, None)
  }

  /** No occurrence of t fits in a shorter text, nor in one missing one of t's characters. */
  lemma NotContained(s: string, t: string)
    ensures |s| < |t| ==> !Contains(s, t)
    ensures (exists k :: 0 <= k < |t| && t[k] !in s) ==> !Contains(s, t)
  {
    if Contains(s, t) {
      var i := ContainsWitness(s, t);
      forall k | 0 <= k < |t| ensures t[k] in s {
        assert t[k] == s[i..i + |t|][k] == s[i + k];
      }
    }
  }

  lemma NoSeasonText()
    ensures SaisonSet(None) == {} && SaisonSet(Some("")) == {}
  {
  }

  lemma YearRoundText()
    ensures SaisonSet(Some("Toute l'année")) == CANONICAL_SEASONS
  {
    YearRoundLower();
    assert Contains("toute l'année", "toute l'année");
  }

  lemma YearRoundLower()
    ensures SaisonText("Toute l'année") == "toute l'année"
  {
    YearRoundStrip();
    YearRoundLowered();
    ReplaceAbsent("toute l'année", '’', '\'');
  }

  lemma YearRoundStrip()
    ensures Strip("Toute l'année") == "Toute l'année"
  {
    StripNoEdgeSpace("Toute l'année");
  }

  lemma YearRoundLowered()
    ensures Lower("Toute l'année") == "toute l'année"
  {
    LowerFirst("Toute l'année", 'T', "oute l'année");
    assert "t" + "oute l'année" == "toute l'année";
  }

  /** Replacing a character the text does not hold leaves it unchanged. */
  lemma ReplaceAbsent(s: string, a: char, b: char)
    requires a !in s
    ensures ReplaceChar(s, a, b) == s
  {
  }

  /** Lowering a text whose only upper-case letter is its first one. */
  lemma LowerFirst(s: string, c: char, rest: string)
    requires s == [c] + rest
    requires forall i :: 0 <= i < |rest| ==> LowerChar(rest[i]) == rest[i]
    ensures Lower(s) == [LowerChar(c)] + rest
  {
  }

  lemma HiverPart()
    ensures SeasonOfPart("Hiver") == Some("Hiver")
  {
    HiverLowered();
    HiverNamesWinterOnly();
  }

  lemma HiverLowered()
    ensures Lower(Strip("Hiver")) == "hiver"
  {
    StripNoEdgeSpace("Hiver");
    LowerFirst("Hiver", 'H', "iver");
    assert "h" + "iver" == "hiver";
  }

  lemma HiverNamesWinterOnly()
    ensures !Contains("hiver", "printemps") && !Contains("hiver", "automne")
    ensures !Contains("hiver", "été") && !Contains("hiver", "ete")
    ensures Contains("hiver", "hiver")
  {
    var p := "hiver";
    NotContained(p, "printemps");
    NotContained(p, "automne");
    assert "été"[0] !in p;
    NotContained(p, "été");
    assert "ete"[1] !in p;
    NotContained(p, "ete");
  }

  lemma EtePart()
    ensures SeasonOfPart(" Été") == Some("Été")
  {
    assert LeadingSpaces(" Été") == 1;
    assert TrimLeft(" Été") == "Été";
    assert LeadingSpaces("Été") == 0;
    StripNoEdgeSpace("Été");
    assert Strip(" Été") == "Été";
    var p := Lower("Été");
    assert p == "été";
    NotContained(p, "printemps");
  }

  lemma SplitTwoSeasons()
    ensures Split("Hiver, Été", ',') == ["Hiver", " Été"]
  {
    assert Join(["Hiver", " Été"], ',') == "Hiver, Été";
    SplitJoin(["Hiver", " Été"], ',');
  }

  lemma TwoSeasonsNotYearRound()
    ensures Strip("Hiver, Été") != ""
    ensures !Contains(SaisonText("Hiver, Été"), "toute l'année")
  {
    StripNoEdgeSpace("Hiver, Été");
    NotContained(SaisonText("Hiver, Été"), "toute l'année");
  }

  lemma TwoSeasonsText()
    ensures SaisonSet(Some("Hiver, Été")) == {"Hiver", "Été"}
  {
    SplitTwoSeasons();
    TwoSeasonsNotYearRound();
    TwoSeasonParts();
  }

  /** "Toute l'année" selected with one season: a winter-and-summer row
      matches when winter is the other label and fails when spring is. */
  lemma YearRoundOrSeason()
    ensures MatchesSaison(BlankRow("a").(saison := Some("Hiver, Été")), [ALL_YEAR, "Hiver"])
    ensures !MatchesSaison(BlankRow("a").(saison := Some("Hiver, Été")), [ALL_YEAR, "Printemps"])
  {
    var h := BlankRow("a").(saison := Some("Hiver, Été"));
    TwoSeasonsText();
    WinterSummerRow(h);
  }

  lemma WinterSummerRow(h: Row)
    requires SaisonSet(h.saison) == {"Hiver", "Été"}
    ensures MatchesSaison(h, [ALL_YEAR, "Hiver"])
    ensures !MatchesSaison(h, [ALL_YEAR, "Printemps"])
  {
    assert SetOf([ALL_YEAR, "Hiver"]) - {ALL_YEAR} == {"Hiver"};
    assert SetOf([ALL_YEAR, "Printemps"]) - {ALL_YEAR} == {"Printemps"};
    assert "Printemps" !in SaisonSet(h.saison);
    assert "Printemps" in CANONICAL_SEASONS;
  }

  lemma TwoSeasonParts()
    ensures PartsSeasons(["Hiver", " Été"]) == {"Hiver", "Été"}
  {
    HiverPart();
    EtePart();
    CollectPair("Hiver", " Été", SeasonOfPart, "Hiver", "Été");
  }

  /** Two segments that are each named give exactly those two names. */
  lemma CollectPair(a: string, b: string, named: string -> Option<string>, x: string, y: string)
    requires named(a) == Some(x) && named(b) == Some(y)
    ensures Collect([a, b], named) == {x, y}
  {
    var parts := [a, b];
    var r := Collect(parts, named);
    assert parts[0] == a && parts[1] == b;
    assert x in r && y in r;
    forall z | z in r ensures z == x || z == y {
    }
  }

  const NO_SELECTION: Selection := Selection([], [], [], [], [], [], [], [])

  /** Two rows in Vaud of difficulty T1 and T2: selecting Vaud and T1 keeps the first only. */
  lemma AndAcrossDimensions()
    ensures
      var a := BlankRow("a").(canton := Some("Vaud"), difficulte := Some("Difficulté T1"));
      var b := BlankRow("b").(canton := Some("Vaud"), difficulte := Some("Difficulté T2"));
      var sel := NO_SELECTION.(cantons := ["Vaud"], difficultes := ["Difficulté T1"]);
      FilterHikes([a, b], sel) == [a]
  {
    var a := BlankRow("a").(canton := Some("Vaud"), difficulte := Some("Difficulté T1"));
    var b := BlankRow("b").(canton := Some("Vaud"), difficulte := Some("Difficulté T2"));
    var sel := NO_SELECTION.(cantons := ["Vaud"], difficultes := ["Difficulté T1"]);
    AdmitsVaudT1(a, sel);
    RejectsT2(b, sel);
    KeepFirstOnly(a, b, sel);
  }

  /** Of two rows where only the first passes every active dimension, the
      filter keeps the first. */
  lemma KeepFirstOnly(a: Row, b: Row, sel: Selection)
    requires Admits(a, sel, ORDER) && !Admits(b, sel, ORDER)
    ensures FilterHikes([a, b], sel) == [a]
  {
    FilterIsConjunction([a, b], sel);
    assert [a, b][..1] == [a];
    assert [a][..0] == [];
  }

  lemma AdmitsVaudT1(a: Row, sel: Selection)
    requires a.canton == Some("Vaud") && a.difficulte == Some("Difficulté T1")
    requires sel == NO_SELECTION.(cantons := ["Vaud"], difficultes := ["Difficulté T1"])
    ensures Admits(a, sel, ORDER)
  {
    VaudT1Stripped();
    forall i | 0 <= i < |ORDER| && Active(sel, ORDER[i])
      ensures Matches(a, ORDER[i], Selected(sel, ORDER[i]))
    {
      assert ORDER[i] == Canton || ORDER[i] == Difficulte;
    }
  }

  lemma RejectsT2(b: Row, sel: Selection)
    requires b.difficulte == Some("Difficulté T2")
    requires sel == NO_SELECTION.(cantons := ["Vaud"], difficultes := ["Difficulté T1"])
    ensures !Admits(b, sel, ORDER)
  {
    assert Selected(sel, Difficulte) == ["Difficulté T1"];
    assert OrEmpty(FieldOf(b, Difficulte)) == "Difficulté T2";
    T2NotT1();
    assert !Matches(b, Difficulte, ["Difficulté T1"]);
    RejectedBy(b, sel, Difficulte);
  }

  lemma VaudT1Stripped()
    ensures Strip("Vaud") == "Vaud" && Strip("Difficulté T1") == "Difficulté T1"
  {
    StripNoEdgeSpace("Vaud");
    StripNoEdgeSpace("Difficulté T1");
  }

  lemma T2NotT1()
    ensures Strip("Difficulté T2") !in ["Difficulté T1"]
  {
    StripNoEdgeSpace("Difficulté T2");
    assert "Difficulté T2"[12] != "Difficulté T1"[12];
  }

  /** A row that fails one active dimension is not admitted. */
  lemma RejectedBy(b: Row, sel: Selection, d: Dim)
    requires Active(sel, d) && !Matches(b, d, Selected(sel, d))
    ensures !Admits(b, sel, ORDER)
  {
    var i := DimIndex(d);
  }

  /** A row whose single environment and joined tag list are clean reads
      back as the single tag and the list's tags. */
  lemma EnvsOfJoined(r: Row, single: string, tags: seq<string>)
    requires CleanTag(single) && tags != [] && forall i :: 0 <= i < |tags| ==> CleanTag(tags[i])
    requires r.environnement == Some(single) && r.environnements == Some(Join(tags, ','))
    ensures HikeEnvs(r) == {single} + SetOf(tags)
  {
    StripNoEdgeSpace(single);
    JoinedTagsReadBack(tags);
  }

  lemma EnvsMontagne(m: Row)
    requires m.environnement == Some("Montagne") && m.environnements == Some("Montagne")
    ensures HikeEnvs(m) == {"Montagne"}
  {
    assert Join(["Montagne"], ',') == "Montagne";
    EnvsOfJoined(m, "Montagne", ["Montagne"]);
    assert SetOf(["Montagne"]) == {"Montagne"};
  }

  lemma EnvsMontagneGorges(mg: Row)
    requires mg.environnement == Some("Montagne") && mg.environnements == Some("Montagne,Gorges")
    ensures HikeEnvs(mg) == {"Montagne", "Gorges"}
  {
    MontagneGorgesTags();
    EnvsOfJoined(mg, "Montagne", ["Montagne", "Gorges"]);
  }

  lemma MontagneGorgesTags()
    ensures Join(["Montagne", "Gorges"], ',') == "Montagne,Gorges"
    ensures CleanTag("Montagne") && CleanTag("Gorges")
    ensures SetOf(["Montagne", "Gorges"]) == {"Montagne", "Gorges"}
  {
    var tags := ["Montagne", "Gorges"];
    assert Join(tags[1..], ',') == "Gorges";
  }

  /** Selecting Montagne and Gorges rejects a row tagged Montagne only and
      keeps a row tagged with both. */
  lemma EnvironmentsAreAllRequired()
    ensures
      var m := BlankRow("m").(environnement := Some("Montagne"), environnements := Some("Montagne"));
      var mg := BlankRow("mg").(environnement := Some("Montagne"), environnements := Some("Montagne,Gorges"));
      !HasAllEnvs(m, ["Montagne", "Gorges"]) && HasAllEnvs(mg, ["Montagne", "Gorges"])
  {
    var m := BlankRow("m").(environnement := Some("Montagne"), environnements := Some("Montagne"));
    var mg := BlankRow("mg").(environnement := Some("Montagne"), environnements := Some("Montagne,Gorges"));
    EnvsMontagne(m);
    EnvsMontagneGorges(mg);
    MontagneGorgesTags();
    assert "Gorges" != "Montagne";
  }
}
