// The record extractor: parse_hike_page in rando_scrapper/scraper.py, taking
// the page as what the HTML parser would hand over (the table rows, the text
// of the first <h1> and <title>, the anchors that carry an href).

module Extract {
  import opened Options
  import opened Text
  import opened Seqs
  import opened Tables
  import opened Normalize

  /** An <a href=...>: the raw href, and the path component urlparse gives
      for the stripped href. */
  datatype Anchor = Anchor(href: string, path: string)

  /** A fetched HTML page, already taken apart. */
  datatype Page = Page(rows: seq<seq<string>>, h1: Option<string>, titleTag: Option<string>,
                       anchors: seq<Anchor>)

  /** One hike post, with its normalised filter fields and its raw display fields. */
  datatype Hike = Hike(
    url: string,
    title: string,
    canton: Option<string>,
    typeParcours: Option<string>,
    kmRange: Option<string>,
    dureeRange: Option<string>,
    environnement: Option<string>,
    difficulte: Option<string>,
    deniveleRange: Option<string>,
    distanceKm: Option<real>,
    tempsMarche: Option<string>,
    monteeM: Option<int>,
    descenteM: Option<int>,
    saison: Option<string>,
    lieuDepart: Option<string>,
    lieuArrivee: Option<string>,
    accesTp: Option<string>,
    retourTp: Option<string>,
    suisseMobileUrl: Option<string>,
    environnements: seq<string>,
    rawTable: Dict)

  // ---------------------------------------------------------------------
  // Title

  const SITE_SUFFIX: string := " – Randonnées en Suisse romande"

  /** Removes the site name when the title ends with it, then strips; an
      earlier " – " inside the title is left alone. */
  function StripSiteSuffix(title: string): (r: string)
    ensures !EndsWith(title, SITE_SUFFIX) ==> r == title
  {
    if EndsWith(title, SITE_SUFFIX) then Strip(title[..|title| - |SITE_SUFFIX|]) else title
  }

  lemma SiteSuffixRemoved(x: string)
    ensures StripSiteSuffix(x + SITE_SUFFIX) == Strip(x)
  {
    var t := x + SITE_SUFFIX;
    assert t[|t| - |SITE_SUFFIX|..] == SITE_SUFFIX;
    assert t[..|t| - |SITE_SUFFIX|] == x;
  }

  /** The heading wins over the <title>; a page with neither has an empty title. */
  function TitleOf(page: Page): (r: string)
    ensures page.h1.Some? ==> r == StripSiteSuffix(page.h1.value)
    ensures page.h1.None? && page.titleTag.Some? ==> r == StripSiteSuffix(page.titleTag.value)
    ensures page.h1.None? && page.titleTag.None? ==> r == ""
    ensures page.h1.Some? && !EndsWith(page.h1.value, SITE_SUFFIX) ==> r == page.h1.value
  {
    match page.h1
    case Some(t) => StripSiteSuffix(t)
    case None =>
      match page.titleTag
      case Some(t) => StripSiteSuffix(t)
      case None => ""
  }

  /** Only the trailing site name goes: a title "A – B" keeps its own dash. */
  lemma TitleKeepsInnerDash(a: string, b: string)
    requires a != [] && !IsSpace(a[0]) && b != [] && !IsSpace(b[|b| - 1])
    ensures StripSiteSuffix(a + " – " + b + SITE_SUFFIX) == a + " – " + b
  {
    var x := a + " – " + b;
    SiteSuffixRemoved(x);
    assert x[0] == a[0] && x[|x| - 1] == b[|b| - 1];
    StripNoEdgeSpace(x);
  }

  // ---------------------------------------------------------------------
  // Map link

  predicate IsMapLink(href: string) {
    Contains(href, "schweizmobil.ch") || Contains(Lower(href), "suissemobile")
  }

  /** The href of the first anchor pointing at the national route-map site. */
  function MapLinkOf(anchors: seq<Anchor>): (r: Option<string>)
    ensures r.None? <==> forall i :: 0 <= i < |anchors| ==> !IsMapLink(anchors[i].href)
    ensures r.Some? ==> exists i :: 0 <= i < |anchors| && anchors[i].href == r.value
                                    && IsMapLink(r.value)
                                    && forall j :: 0 <= j < i ==> !IsMapLink(anchors[j].href)
  {
    if anchors == [] then None
    else if IsMapLink(anchors[0].href) then Some(anchors[0].href)
    else
      var r := MapLinkOf(anchors[1..]);
      assert forall i :: 1 <= i < |anchors| ==> anchors[i] == anchors[1..][i - 1];
      r
  }

  /** The search loop: scan the anchors and break at the first map link. */
  method FindMapLink(anchors: seq<Anchor>) returns (url: Option<string>)
    ensures url == MapLinkOf(anchors)
  {
    url := None;
    var i := 0;
    while i < |anchors|
      invariant 0 <= i <= |anchors|
      invariant MapLinkOf(anchors) == MapLinkOf(anchors[i..])
    {
      assert anchors[i..][1..] == anchors[i + 1..];
      if IsMapLink(anchors[i].href) {
        url := Some(anchors[i].href);
        return;
      }
      i := i + 1;
    }
  }

  // ---------------------------------------------------------------------
  // Environment tags

  /** The tags recognised in the Environnement cell, in this order. */
  const ENV_TAGS: seq<string> := ["Montagne", "Campagne", "Bord de rivière", "Bord de lac",
                                  "Bisses", "Gorges", "Ville"]

  const WINTER_TAG: string := "Hivernal"

  /** The tags of `tags` whose lower-cased form occurs in the lower-cased raw text, in list order. */
  function MatchTags(tags: seq<string>, raw: string): (r: seq<string>)
    ensures IsSubseq(r, tags)
    ensures forall e :: e in r <==> e in tags && Contains(Lower(raw), Lower(e))
  {
    if tags == [] then []
    else
      var p := tags[..|tags| - 1];
      var e := tags[|tags| - 1];
      var m := MatchTags(p, raw);
      assert tags == p + [e];
      SubseqExtend(m, p, e);
      if Contains(Lower(raw), Lower(e)) then m + [e] else m
  }

  /** The known tags found in a raw Environnement cell (none for an empty cell). */
  function Matched(envRaw: string): seq<string> {
    if envRaw != "" then MatchTags(ENV_TAGS, envRaw) else []
  }

  /** The season text mentions winter. */
  predicate WinterSeason(saison: Option<string>) {
    Truthy(saison) && Contains(Lower(saison.value), "hiver")
  }

  /** The environnements list of a hike: the known tags found in the raw
      cell, then Hivernal for a winter season; with neither, the stripped
      raw cell itself, or nothing for an empty cell. */
  function EnvTags(envRaw: string, saison: Option<string>): (r: seq<string>)
    ensures r == [] <==> envRaw == "" && !WinterSeason(saison)
    ensures Matched(envRaw) != [] || WinterSeason(saison) ==>
              r == Matched(envRaw) + if WinterSeason(saison) then [WINTER_TAG] else []
    ensures Matched(envRaw) == [] && !WinterSeason(saison) && envRaw != "" ==> r == [Strip(envRaw)]
  {
    var matched := Matched(envRaw);
    assert WINTER_TAG !in ENV_TAGS;
    var tags := if WinterSeason(saison) && WINTER_TAG !in matched then matched + [WINTER_TAG] else matched;
    if tags == [] && envRaw != "" then [Strip(envRaw)] else tags
  }

  /** The appending loops of parse_hike_page that build the list. */
  method DeriveEnvironnements(envRaw: string, saison: Option<string>) returns (envs: seq<string>)
    ensures envs == EnvTags(envRaw, saison)
  {
    envs := [];
    if envRaw != "" {
      for i := 0 to |ENV_TAGS|
        invariant envs == MatchTags(ENV_TAGS[..i], envRaw)
      {
        assert ENV_TAGS[..i + 1][..i] == ENV_TAGS[..i];
        var e := ENV_TAGS[i];
        if Contains(Lower(envRaw), Lower(e)) {
          envs := envs + [e];
        }
      }
      assert ENV_TAGS[..|ENV_TAGS|] == ENV_TAGS;
    }
    if WinterSeason(saison) {
      if WINTER_TAG !in envs {
        envs := envs + [WINTER_TAG];
      }
    }
    if envs == [] && envRaw != "" {
      envs := [Strip(envRaw)];
    }
  }

  // ---------------------------------------------------------------------
  // Route type

  /** Set iff both places are given: a loop when they agree once stripped. */
  function TypeParcours(depart: Option<string>, arrivee: Option<string>): (r: Option<string>)
    ensures r.Some? <==> Truthy(depart) && Truthy(arrivee)
    ensures r.Some? ==> r.value in TYPE_PARCOURS
    ensures r == Some("En boucle") <==>
              Truthy(depart) && Truthy(arrivee) && Strip(depart.value) == Strip(arrivee.value)
  {
    if Truthy(depart) && Truthy(arrivee) then
      Some(if Strip(depart.value) == Strip(arrivee.value) then "En boucle" else "Linéaire")
    else None
  }

  // ---------------------------------------------------------------------
  // The whole page

  /** The walking-time cell, under either of its two labels. */
  function TempsMarche(t: Dict): Option<string> {
    Or(Get(t, "Temps de marche"), Get(t, "Durée"))
  }

  /** The hike a page describes, or None when a number in the Distance,
      Montée, Descente or walking-time cell makes float() or int() raise,
      which aborts parse_hike_page. */
  function HikeOf(url: string, page: Page): (r: Option<Hike>)
    ensures r.None? <==>
              var t := TableOf(page.rows);
              ParseNumberKm(GetOr(t, "Distance", "")).Raises?
              || ParseNumberM(GetOr(t, "Montée", "")).Raises?
              || ParseNumberM(GetOr(t, "Descente", "")).Raises?
              || ParseDuree(TempsMarche(t)).Raises?
    ensures r.Some? ==> r.value.url == url && r.value.rawTable == TableOf(page.rows)
  {
    var t := TableOf(page.rows);
    var canton := Or(Get(t, "Canton"), Get(t, "Canton / Région"));
    var envRaw := OrEmpty(Get(t, "Environnement"));
    var distance := ParseNumberKm(GetOr(t, "Distance", ""));
    var temps := TempsMarche(t);
    var montee := ParseNumberM(GetOr(t, "Montée", ""));
    var descente := ParseNumberM(GetOr(t, "Descente", ""));
    var saison := Get(t, "Saison");
    var depart := Get(t, "Lieu de départ");
    var arrivee := Or(Get(t, "Lieu d'arrivée"), Get(t, "Lieu d’arrivée"));
    var hours := ParseDuree(temps);
    if distance.Raises? || montee.Raises? || descente.Raises? || hours.Raises? then None
    else
      var envs := EnvTags(envRaw, saison);
      Some(Hike(
        url := url,
        title := TitleOf(page),
        canton := canton,
        typeParcours := TypeParcours(depart, arrivee),
        kmRange := NormalizeKm(ToOption(distance)),
        dureeRange := NormalizeDuree(ToOption(hours)),
        environnement := if envs != [] then Some(envs[0]) else if envRaw != "" then Some(envRaw) else None,
        difficulte := NormalizeDifficulte(Get(t, "Difficulté")),
        deniveleRange := NormalizeDenivele(ToOption(montee)),
        distanceKm := ToOption(distance),
        tempsMarche := temps,
        monteeM := ToOption(montee),
        descenteM := ToOption(descente),
        saison := saison,
        lieuDepart := depart,
        lieuArrivee := arrivee,
        accesTp := Get(t, "Accès transports publics"),
        retourTp := Get(t, "Retour transports publics"),
        suisseMobileUrl := MapLinkOf(page.anchors),
        environnements := envs,
        rawTable := t))
  }

  /** parse_hike_page: extract the table, derive the fields, build the hike. */
  method ParseHikePage(url: string, page: Page) returns (hike: Option<Hike>)
    ensures hike == HikeOf(url, page)
  {
    var table := ExtractTable(page.rows);
    var distance := ParseNumberKm(GetOr(table, "Distance", ""));
    var montee := ParseNumberM(GetOr(table, "Montée", ""));
    var descente := ParseNumberM(GetOr(table, "Descente", ""));
    var temps := TempsMarche(table);
    var hours := ParseDuree(temps);
    if distance.Raises? || montee.Raises? || descente.Raises? || hours.Raises? {
      return None;
    }
    var envRaw := OrEmpty(Get(table, "Environnement"));
    var saison := Get(table, "Saison");
    var mapLink := FindMapLink(page.anchors);
    var envs := DeriveEnvironnements(envRaw, saison);
    var environnement := if envs != [] then Some(envs[0]) else if envRaw != "" then Some(envRaw) else None;
    var depart := Get(table, "Lieu de départ");
    var arrivee := Or(Get(table, "Lieu d'arrivée"), Get(table, "Lieu d’arrivée"));
    hike := Some(Hike(
      url := url,
      title := TitleOf(page),
      canton := Or(Get(table, "Canton"), Get(table, "Canton / Région")),
      typeParcours := TypeParcours(depart, arrivee),
      kmRange := NormalizeKm(ToOption(distance)),
      dureeRange := NormalizeDuree(ToOption(hours)),
      environnement := environnement,
      difficulte := NormalizeDifficulte(Get(table, "Difficulté")),
      deniveleRange := NormalizeDenivele(ToOption(montee)),
      distanceKm := ToOption(distance),
      tempsMarche := temps,
      monteeM := ToOption(montee),
      descenteM := ToOption(descente),
      saison := saison,
      lieuDepart := depart,
      lieuArrivee := arrivee,
      accesTp := Get(table, "Accès transports publics"),
      retourTp := Get(table, "Retour transports publics"),
      suisseMobileUrl := mapLink,
      environnements := envs,
      rawTable := table));
  }

  /** The single environnement is the head of the list, and is absent exactly when the list is empty. */
  lemma {:induction false} EnvironnementIsFirst(url: string, page: Page)
    requires HikeOf(url, page).Some?
    ensures var h := HikeOf(url, page).value;
            (h.environnements != [] ==> h.environnement == Some(h.environnements[0]))
            && (h.environnement.None? <==> h.environnements == [])
  {
    var t := TableOf(page.rows);
    var envRaw := OrEmpty(Get(t, "Environnement"));
    var envs := EnvTags(envRaw, Get(t, "Saison"));
    assert envs == [] ==> envRaw == "";
  }

  /** Every normalised field of a parsed hike is one of the canonical labels. */
  lemma HikeLabelsCanonical(url: string, page: Page)
    requires HikeOf(url, page).Some?
    ensures var h := HikeOf(url, page).value;
            (h.kmRange.Some? ==> h.kmRange.value in KM_RANGES)
            && (h.dureeRange.Some? ==> h.dureeRange.value in DUREE_RANGES)
            && (h.deniveleRange.Some? ==> h.deniveleRange.value in DENIVELE_RANGES)
            && (h.difficulte.Some? ==> h.difficulte.value in DIFFICULTES)
            && (h.typeParcours.Some? ==> h.typeParcours.value in TYPE_PARCOURS)
            && (h.kmRange.Some? <==> h.distanceKm.Some?)
            && (h.deniveleRange.Some? <==> h.monteeM.Some?)
  {
  }
}
