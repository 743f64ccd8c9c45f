// The store contract (hike_to_row and save_hikes_to_db in
// rando_scrapper/scraper.py): a hike becomes one flat row, and the database
// is a table keyed by URL into which every save inserts or replaces whole rows.

module Store {
  import opened Options
  import opened Text
  import opened Tables
  import opened Extract

  /** A row of the hikes table. The tag list is stored comma-joined; the raw
      table is stored as JSON text, modelled here by the dict it encodes. */
  datatype Row = Row(
    url: string,
    title: string,
    canton: Option<string>,
    typeParcours: Option<string>,
    kmRange: Option<string>,
    dureeRange: Option<string>,
    environnement: Option<string>,
    environnements: Option<string>,
    difficulte: Option<string>,
    deniveleRange: Option<string>,
    distanceKm: Option<real>,
    tempsMarche: Option<string>,
    monteeM: Option<int>,
    descenteM: Option<int>,
    saison: Option<string>,
    lieuDepart: Option<string>,
    lieuArrivee: Option<string>,
    accesTp: Option<string>,
    retourTp: Option<string>,
    suisseMobileUrl: Option<string>,
    rawTable: Option<Dict>)

  /** No tag holds the separator the row uses to join them. */
  predicate CommaFree(tags: seq<string>) {
    forall i :: 0 <= i < |tags| ==> ',' !in tags[i]
  }

  /** The flat row of a hike: an empty tag list and an empty raw table are
      stored as NULL, a non-empty tag list as its comma join. */
  function HikeToRow(h: Hike): (r: Row)
    ensures r.url == h.url
    ensures r.environnements.None? <==> h.environnements == []
    ensures r.rawTable.None? <==> h.rawTable.keys == []
    ensures r.rawTable.Some? ==> r.rawTable.value == h.rawTable
  {
    Row(
      url := h.url,
      title := h.title,
      canton := h.canton,
      typeParcours := h.typeParcours,
      kmRange := h.kmRange,
      dureeRange := h.dureeRange,
      environnement := h.environnement,
      environnements := if h.environnements != [] then Some(Join(h.environnements, ',')) else None,
      difficulte := h.difficulte,
      deniveleRange := h.deniveleRange,
      distanceKm := h.distanceKm,
      tempsMarche := h.tempsMarche,
      monteeM := h.monteeM,
      descenteM := h.descenteM,
      saison := h.saison,
      lieuDepart := h.lieuDepart,
      lieuArrivee := h.lieuArrivee,
      accesTp := h.accesTp,
      retourTp := h.retourTp,
      suisseMobileUrl := h.suisseMobileUrl,
      rawTable := if h.rawTable.keys != [] then Some(h.rawTable) else None)
  }

  /** Splitting the stored tag text at commas gives the hike's tags back. */
  lemma RowTagsRoundTrip(h: Hike)
    requires h.environnements != [] && CommaFree(h.environnements)
    ensures Split(HikeToRow(h).environnements.value, ',') == h.environnements
  {
    SplitJoin(h.environnements, ',');
  }

  /** The table after INSERT OR REPLACE of every hike's row, in list order. */
  function UpsertAll(db: map<string, Row>, hikes: seq<Hike>): (r: map<string, Row>)
    ensures db.Keys <= r.Keys
    ensures forall h :: h in hikes ==> h.url in r && r[h.url].url == h.url
  {
    if hikes == [] then db
    else
      var p := hikes[..|hikes| - 1];
      var last := hikes[|hikes| - 1];
      var row := HikeToRow(last);
      assert forall h :: h in hikes ==> h in p || h == last by {
        assert hikes == p + [last];
      }
      UpsertAll(db, p)[row.url := row]
  }

  /** The last hike of the list with the given URL, if any. */
  function LastWithUrl(hikes: seq<Hike>, url: string): (r: Option<Hike>)
    ensures r.None? ==> forall i :: 0 <= i < |hikes| ==> hikes[i].url != url
    ensures r.Some? ==> r.value.url == url && r.value in hikes
  {
    if hikes == [] then None
    else if hikes[|hikes| - 1].url == url then Some(hikes[|hikes| - 1])
    else
      var p := hikes[..|hikes| - 1];
      assert forall i :: 0 <= i < |p| ==> hikes[i] == p[i];
      LastWithUrl(p, url)
  }

  /** After a save, a URL is present iff it was before or some saved hike has
      it; its row is the whole row of the last hike with that URL, and rows
      of other URLs are untouched. */
  lemma {:induction false} UpsertAllLookup(db: map<string, Row>, hikes: seq<Hike>, url: string)
    ensures url in UpsertAll(db, hikes) <==> url in db || LastWithUrl(hikes, url).Some?
    ensures LastWithUrl(hikes, url).Some? ==>
              UpsertAll(db, hikes)[url] == HikeToRow(LastWithUrl(hikes, url).value)
    ensures LastWithUrl(hikes, url).None? && url in db ==> UpsertAll(db, hikes)[url] == db[url]
  {
    if hikes != [] {
      UpsertAllLookup(db, hikes[..|hikes| - 1], url);
    }
  }

  /** Saving the same hikes twice leaves the table as saving them once. */
  lemma UpsertAllIdempotent(db: map<string, Row>, hikes: seq<Hike>)
    ensures UpsertAll(UpsertAll(db, hikes), hikes) == UpsertAll(db, hikes)
  {
    var once := UpsertAll(db, hikes);
    var twice := UpsertAll(once, hikes);
    forall url ensures url in twice <==> url in once {
      UpsertAllLookup(db, hikes, url);
      UpsertAllLookup(once, hikes, url);
    }
    forall url | url in once ensures twice[url] == once[url] {
      UpsertAllLookup(db, hikes, url);
      UpsertAllLookup(once, hikes, url);
    }
  }

  /** The SQLite hikes table, keyed by URL. */
  class HikeStore {
    var rows: map<string, Row>

    constructor ()
      ensures rows == map[]
    {
      rows := map[];
    }

    /** save_hikes_to_db: an empty list writes nothing; otherwise each hike's
        row is inserted, replacing any row with the same URL. */
    method SaveHikes(hikes: seq<Hike>)
      modifies this
      ensures rows == UpsertAll(old(rows), hikes)
    {
      if hikes == [] {
        return;
      }
      ghost var before := rows;
      for i := 0 to |hikes|
        invariant rows == UpsertAll(before, hikes[..i])
      {
        assert hikes[..i + 1][..i] == hikes[..i];
        var row := HikeToRow(hikes[i]);
        rows := rows[row.url := row];
      }
      assert hikes[..|hikes|] == hikes;
    }
  }
}
