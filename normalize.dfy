// The field normaliser of rando_scrapper/scraper.py: the canonical label
// lists, the three small text parsers (durations, kilometres, metres) and the
// four bucketing functions that turn raw measurements into filter labels.
//
// Regular expressions are replaced by hand-written recognisers with the same
// leftmost-match, greedy semantics; Python's float and int are exact `real`
// and `int`, and a conversion that raises ValueError is the `Raises` outcome.

module Normalize {
  import opened Options
  import opened Text
  import Seqs

  // Canonical filter options, in the order the UI lists them.
  const CANTONS: seq<string> := ["Genève", "France voisine", "Vaud", "Fribourg", "Valais romand",
                                 "Haut-Valais", "Neuchâtel", "Jura", "Berne"]
  const TYPE_PARCOURS: seq<string> := ["Linéaire", "En boucle"]
  const KM_RANGES: seq<string> := ["Moins de 5 km", "5-10 km", "10-15 km", "15-20 km", "Plus de 20 km"]
  const DUREE_RANGES: seq<string> := ["Moins de 3h", "De 3h à 5h", "Plus de 5h"]
  const ENVIRONNEMENTS: seq<string> := ["Montagne", "Campagne", "Bord de rivière", "Bord de lac",
                                        "Bisses", "Gorges", "Hivernal", "Ville"]
  const DIFFICULTES: seq<string> := ["Difficulté T1", "Difficulté T2", "Difficulté T3"]
  const DENIVELE_RANGES: seq<string> := ["Moins de 500 m", "De 500 à 1000 m", "Plus de 1000 m"]
  const SEASONS: seq<string> := ["Toute l'année", "Printemps", "Été", "Automne", "Hiver"]

  /** What a parser that matches a pattern and then converts the match yields:
      no match (the parser returns None), a number, or the ValueError that
      float() or int() raises on the matched text. */
  datatype Conv<T> = NoMatch | Value(v: T) | Raises

  function ToOption<T>(c: Conv<T>): Option<T> {
    if c.Value? then Some(c.v) else None
  }

  // ---------------------------------------------------------------------
  // Character classes and maximal runs (the greedy `[...]+` of a pattern)

  datatype CharClass = Digits | DigitsDots | DigitsDotsCommas | DigitsSpaces | Spaces

  predicate InClass(c: char, k: CharClass) {
    match k
    case Digits => IsDigit(c)
    case DigitsDots => IsDigit(c) || c == '.'
    case DigitsDotsCommas => IsDigit(c) || c == '.' || c == ','
    case DigitsSpaces => IsDigit(c) || IsSpace(c)
    case Spaces => IsSpace(c)
  }

  /** The end of the longest run of class-k characters starting at i. */
  function RunEnd(s: string, i: nat, k: CharClass): (j: nat)
    requires i <= |s|
    ensures i <= j <= |s|
    ensures forall m :: i <= m < j ==> InClass(s[m], k)
    ensures j == |s| || !InClass(s[j], k)
    decreases |s| - i
  {
    if i < |s| && InClass(s[i], k) then RunEnd(s, i + 1, k) else i
  }

  lemma {:induction false} RunEndIs(s: string, i: nat, j: nat, k: CharClass)
    requires i <= j <= |s|
    requires forall m :: i <= m < j ==> InClass(s[m], k)
    requires j == |s| || !InClass(s[j], k)
    ensures RunEnd(s, i, k) == j
    decreases j - i
  {
    if i < j {
      RunEndIs(s, i + 1, j, k);
    }
  }

  /** Python's re.IGNORECASE letters: 'k' also matches the Kelvin sign. */
  predicate IsK(c: char) {
    c == 'k' || c == 'K' || c == '\U{212a}'
  }

  predicate IsM(c: char) {
    c == 'm' || c == 'M'
  }

  function Pow10(n: nat): (p: nat)
    ensures p >= 1
  {
    if n == 0 then 1 else 10 * Pow10(n - 1)
  }

  /** The value of the all-digit slice t[i..j]. */
  function RunValue(t: string, i: nat, j: nat): nat
    requires i <= j <= |t|
    requires forall m :: i <= m < j ==> IsDigit(t[m])
  {
    var ds := t[i..j];
    assert AllDigits(ds) by {
      forall m | 0 <= m < |ds| ensures IsDigit(ds[m]) {
        assert ds[m] == t[i + m];
      }
    }
    DigitsValue(ds)
  }

  /** float() of a run of ASCII digits and dots: it accepts at most one dot
      and needs at least one digit ("5", "5.", ".5", "5.25"), and raises
      otherwise ("", ".", "1.2.3"). */
  function FloatOf(t: string): (c: Conv<real>)
    requires forall i :: 0 <= i < |t| ==> InClass(t[i], DigitsDots)
    ensures c.Value? ==> c.v >= 0.0
    ensures c.NoMatch? ==> false
    ensures AllDigits(t) && t != [] ==> c == Value(DigitsValue(t) as real)
  {
    if '.' in t then
      var i := IndexOf(t, '.');
      if '.' in t[i + 1..] || (i == 0 && i + 1 == |t|) then Raises
      else
        assert forall m :: 0 <= m < i ==> IsDigit(t[m]) by {
          forall m | 0 <= m < i ensures IsDigit(t[m]) {
            assert InClass(t[m], DigitsDots);
            assert t[m] != '.' by {
              assert t[..i][m] == t[m] && t[..i][m] in t[..i];
            }
          }
        }
        assert forall m :: i + 1 <= m < |t| ==> IsDigit(t[m]) by {
          forall m | i + 1 <= m < |t| ensures IsDigit(t[m]) {
            assert InClass(t[m], DigitsDots);
            assert t[m] != '.' by {
              assert t[i + 1..][m - i - 1] == t[m] && t[i + 1..][m - i - 1] in t[i + 1..];
            }
          }
        }
        var frac := RunValue(t, i + 1, |t|);
        var p := Pow10(|t| - i - 1);
        assert frac as real / p as real >= 0.0;
        Value(RunValue(t, 0, i) as real + frac as real / p as real)
    else if t == [] then Raises
    else
      assert forall m :: 0 <= m < |t| ==> IsDigit(t[m]) by {
        forall m | 0 <= m < |t| ensures IsDigit(t[m]) {
          assert InClass(t[m], DigitsDots);
          assert t[m] in t;
        }
      }
      assert t[0..|t|] == t;
      Value(RunValue(t, 0, |t|) as real)
  }

  /** The text holds no digit. */
  predicate NoDigit(t: string) {
    forall i :: 0 <= i < |t| ==> !IsDigit(t[i])
  }

  /** The text holds two dots. */
  predicate TwoDots(t: string) {
    exists i, j :: 0 <= i < j < |t| && t[i] == '.' && t[j] == '.'
  }

  /** float() raises exactly on a run with no digit ("", ".") or with a second dot. */
  lemma FloatOfRaises(t: string)
    requires forall i :: 0 <= i < |t| ==> InClass(t[i], DigitsDots)
    ensures FloatOf(t).Raises? <==> NoDigit(t) || TwoDots(t)
  {
    if '.' in t {
      var i := IndexOf(t, '.');
      if '.' in t[i + 1..] {
        var k :| 0 <= k < |t[i + 1..]| && t[i + 1..][k] == '.';
        assert t[i + 1 + k] == '.';
      } else if i == 0 && i + 1 == |t| {
        assert !IsDigit(t[0]);
      } else {
        assert forall m :: 0 <= m < |t| && m != i ==> IsDigit(t[m]) by {
          forall m | 0 <= m < |t| && m != i ensures IsDigit(t[m]) {
            if m < i {
              assert t[..i][m] == t[m];
            } else {
              assert t[i + 1..][m - i - 1] == t[m];
            }
          }
        }
        if i > 0 {
          assert IsDigit(t[0]);
        } else {
          assert IsDigit(t[1]);
        }
      }
    } else if t != [] {
      assert t[0] in t;
      forall m | 0 <= m < |t| ensures IsDigit(t[m]) {
        assert t[m] in t;
      }
    }
  }

  /** float() of "<I>.<F>" is I + F / 10^|F|, whichever part is empty. */
  lemma FloatOfDecimal(whole: string, frac: string, w: nat, f: nat, p: nat)
    requires AllDigits(whole) && AllDigits(frac) && (whole != [] || frac != [])
    requires DigitsValue(whole) == w && DigitsValue(frac) == f && Pow10(|frac|) == p
    ensures forall i :: 0 <= i < |whole + "." + frac| ==> InClass((whole + "." + frac)[i], DigitsDots)
    ensures FloatOf(whole + "." + frac) == Value(w as real + f as real / p as real)
  {
    var t := whole + "." + frac;
    var n := |whole|;
    DecimalDot(whole, frac);
    assert t[0..n] == whole;
    assert t[n + 1..|t|] == frac;
    assert RunValue(t, 0, n) == w;
    assert RunValue(t, n + 1, |t|) == f;
    assert Pow10(|t| - n - 1) == p;
  }

  /** The first dot of "<I>.<F>" is the one between the parts, and it is the only one. */
  lemma DecimalDot(whole: string, frac: string)
    requires AllDigits(whole) && AllDigits(frac)
    ensures var t := whole + "." + frac; '.' in t && IndexOf(t, '.') == |whole| && '.' !in t[|whole| + 1..]
  {
    var t := whole + "." + frac;
    var n := |whole|;
    assert t[n] == '.';
    assert '.' !in t[..n] by {
      assert t[..n] == whole;
    }
    assert t[n + 1..] == frac;
  }

  // ---------------------------------------------------------------------
  // _parse_duree

  /** The text _parse_duree matches against: stripped, lower-cased, with
      decimal commas turned into dots. */
  function DureeText(s: string): string {
    ReplaceChar(Lower(Strip(s)), ',', '.')
  }

  /** h hours and mn minutes, in hours. */
  function HoursOf(h: nat, mn: nat): (r: real)
    ensures r >= 0.0
  {
    h as real + mn as real / 60.0
  }

  /** `(\d+)\s*h\s*(\d+)?` at the start of t: hours plus minutes / 60, the
      minutes defaulting to 0. */
  function HoursMinutes(t: string): (r: Option<real>)
    ensures r.Some? ==> r.value >= 0.0
    ensures r.Some? ==> t != [] && IsDigit(t[0]) && 'h' in t
  {
    var d := RunEnd(t, 0, Digits);
    var h := RunEnd(t, d, Spaces);
    if d > 0 && h < |t| && t[h] == 'h' then
      var m0 := RunEnd(t, h + 1, Spaces);
      var m1 := RunEnd(t, m0, Digits);
      Some(HoursOf(RunValue(t, 0, d), RunValue(t, m0, m1)))
    else None
  }

  /** `([\d.]+)\s*h?` at the start of t, then float() of the group. */
  function LeadingNumber(t: string): (c: Conv<real>)
    ensures c.Value? ==> c.v >= 0.0
    ensures c.NoMatch? <==> t == [] || !InClass(t[0], DigitsDots)
  {
    var e := RunEnd(t, 0, DigitsDots);
    if e == 0 then NoMatch else FloatOf(t[..e])
  }

  /** Hours in a walking-time text: "<digits> h <digits>?" at the start
      gives hours plus minutes / 60, otherwise a leading run of digits and
      dots is read as hours; no leading number gives no value. */
  function ParseDuree(s: Option<string>): (c: Conv<real>)
    ensures !Truthy(s) ==> c == NoMatch
    ensures c.Value? ==> c.v >= 0.0
  {
    if s.None? || s.value == "" then NoMatch
    else
      var t := DureeText(s.value);
      match HoursMinutes(t)
      case Some(v) => Value(v)
      case None => LeadingNumber(t)
  }

  /** Every character of s is a decimal digit or the letter h. */
  predicate HoursChars(s: string) {
    forall i :: 0 <= i < |s| ==> IsDigit(s[i]) || s[i] == 'h'
  }

  /** A text of digits and 'h' is already in normal form. */
  lemma DureeTextPlain(s: string)
    requires s != [] && HoursChars(s)
    ensures DureeText(s) == s
  {
    assert !IsSpace(s[0]) && !IsSpace(s[|s| - 1]);
    StripNoEdgeSpace(s);
    assert Lower(s) == s;
    assert ReplaceChar(s, ',', '.') == s;
  }

  /** In digits, 'h', digits, the runs the duration pattern scans end where
      the hours and the minutes end. */
  lemma HoursMinutesRuns(hs: string, ms: string)
    requires hs != [] && AllDigits(hs) && AllDigits(ms)
    ensures var s := hs + "h" + ms; var n := |hs|;
      && RunEnd(s, 0, Digits) == n && RunEnd(s, n, Spaces) == n && s[n] == 'h'
      && RunEnd(s, n + 1, Spaces) == n + 1 && RunEnd(s, n + 1, Digits) == |s|
  {
    var s := hs + "h" + ms;
    var n := |hs|;
    assert s[n] == 'h';
    RunEndIs(s, 0, n, Digits);
    RunEndIs(s, n, n, Spaces);
    if ms != [] {
      assert !IsSpace(s[n + 1]) by {
        assert s[n + 1] == ms[0];
      }
    }
    RunEndIs(s, n + 1, n + 1, Spaces);
    RunEndIs(s, n + 1, |s|, Digits);
  }

  /** The duration pattern reads digits, 'h', digits as hours plus minutes / 60. */
  lemma HoursMinutesOf(hs: string, ms: string, hours: nat, minutes: nat)
    requires hs != [] && AllDigits(hs) && AllDigits(ms)
    requires DigitsValue(hs) == hours && DigitsValue(ms) == minutes
    ensures HoursMinutes(hs + "h" + ms) == Some(HoursOf(hours, minutes))
  {
    var s := hs + "h" + ms;
    var n := |hs|;
    HoursMinutesRuns(hs, ms);
    assert s[0..n] == hs;
    assert s[n + 1..|s|] == ms by {
      assert s == (hs + "h") + ms && |hs + "h"| == n + 1;
      forall k | 0 <= k < |ms| ensures s[n + 1 + k] == ms[k] { }
    }
    assert RunValue(s, 0, n) == hours;
    assert RunValue(s, n + 1, |s|) == minutes;
  }

  /** The zero-padded minutes of "3h06" make 3.1 hours. */
  lemma DureeThreeHoursSix()
    ensures ParseDuree(Some("3h06")) == Value(3.1)
  {
    assert DigitsValue("3") == 3 by {
      assert "3"[..0] == "";
    }
    assert DigitsValue("06") == 6 by {
      assert "06"[..1] == "0" && "0"[..0] == "";
    }
    assert "3" + "h" + "06" == "3h06";
    DureeHoursMinutes("3", "06", 3, 6);
  }

  /** "<H>h" with no minutes reads back as H hours (so "2h" is 2.0 h). */
  lemma DureeWholeHours(hours: nat)
    ensures ParseDuree(Some(NatToString(hours) + "h")) == Value(hours as real)
  {
    var hs := NatToString(hours);
    assert hs + "h" == hs + "h" + "";
    DureeHoursMinutes(hs, "", hours, 0);
  }

  /** "<H>h<M>" for any runs of digits H and M, leading zeros included,
      reads back as H + M / 60 hours. */
  lemma DureeHoursMinutes(hs: string, ms: string, hours: nat, minutes: nat)
    requires hs != [] && AllDigits(hs) && AllDigits(ms)
    requires DigitsValue(hs) == hours && DigitsValue(ms) == minutes
    ensures ParseDuree(Some(hs + "h" + ms)) == Value(HoursOf(hours, minutes))
  {
    var s := hs + "h" + ms;
    HoursMinutesChars(hs, ms);
    DureeTextPlain(s);
    HoursMinutesOf(hs, ms, hours, minutes);
    ParseDureeOf(s, HoursOf(hours, minutes));
  }

  /** A text already in normal form that reads as hours and minutes gives that value. */
  lemma ParseDureeOf(s: string, v: real)
    requires s != [] && DureeText(s) == s && HoursMinutes(s) == Some(v)
    ensures ParseDuree(Some(s)) == Value(v)
  {
  }

  lemma HoursMinutesChars(hs: string, ms: string)
    requires AllDigits(hs) && AllDigits(ms)
    ensures HoursChars(hs + "h" + ms)
  {
    var s := hs + "h" + ms;
    forall i | 0 <= i < |s| ensures IsDigit(s[i]) || s[i] == 'h' {
      if i < |hs| {
        assert s[i] == hs[i];
      } else if i > |hs| {
        assert s[i] == ms[i - |hs| - 1];
      }
    }
  }

  /** Every character of s is whitespace. */
  predicate AllSpaces(s: string) {
    forall i :: 0 <= i < |s| ==> IsSpace(s[i])
  }

  /** The slice of x + y + z that lies after x is y. */
  lemma MiddleSlice(x: string, y: string, z: string)
    ensures (x + y + z)[|x|..|x| + |y|] == y
  {
    var s := x + y + z;
    forall m | 0 <= m < |y| ensures s[|x|..|x| + |y|][m] == y[m] {
      assert s[|x| + m] == (x + y)[|x| + m];
    }
  }

  /** A slice that lies inside x is the same slice of x + y. */
  lemma PrefixSlice(x: string, y: string, i: nat, j: nat)
    requires i <= j <= |x|
    ensures (x + y)[i..j] == x[i..j]
  {
    assert (x + y)[..|x|] == x;
  }

  /** A run u found at position i of t that cannot be extended is what the
      greedy scan from i reads. */
  lemma RunAt(t: string, i: nat, u: string, k: CharClass)
    requires i + |u| <= |t| && t[i..i + |u|] == u
    requires forall m :: 0 <= m < |u| ==> InClass(u[m], k)
    requires i + |u| == |t| || !InClass(t[i + |u|], k)
    ensures RunEnd(t, i, k) == i + |u|
  {
    forall m | i <= m < i + |u| ensures InClass(t[m], k) {
      assert t[m] == t[i..i + |u|][m - i];
    }
    RunEndIs(t, i, i + |u|, k);
  }

  /** A run of digits u at position i of t that cannot be extended is what
      the greedy scan reads, with the value of u. */
  lemma DigitsRunAt(t: string, i: nat, u: string, v: nat)
    requires i + |u| <= |t| && t[i..i + |u|] == u
    requires i + |u| == |t| || !IsDigit(t[i + |u|])
    requires AllDigits(u) && DigitsValue(u) == v
    ensures RunEnd(t, i, Digits) == i + |u| && RunValue(t, i, i + |u|) == v
  {
    RunAt(t, i, u, Digits);
  }

  /** The duration pattern on a text that starts "<H> h <M>" followed by
      anything that does not extend the minutes: hours plus minutes / 60
      ("3h06 (aller)", "3 h 30", "2h30min", "4 heures"). */
  lemma HoursMinutesPrefix(hs: string, sp1: string, sp2: string, ms: string, rest: string,
                           hours: nat, minutes: nat)
    requires hs != [] && AllDigits(hs) && AllDigits(ms)
    requires AllSpaces(sp1) && AllSpaces(sp2)
    requires rest == [] || !IsDigit(rest[0])
    requires ms == [] ==> rest == [] || !IsSpace(rest[0])
    requires DigitsValue(hs) == hours && DigitsValue(ms) == minutes
    ensures HoursMinutes(hs + sp1 + "h" + sp2 + ms + rest)
         == Some(HoursOf(hours, minutes))
  {
    var t := hs + sp1 + "h" + sp2 + ms + rest;
    var b := |hs| + |sp1|;
    var e := b + 1 + |sp2|;
    HoursPieces(t, hs, sp1, sp2, ms, rest, hours);
    SpacesAfterH(t, hs + sp1 + "h", sp2, ms, rest);
    MinutesRun(t, hs + sp1 + "h" + sp2, ms, rest, minutes);
    HoursMinutesAt(t, |hs|, b, e, e + |ms|, hours, minutes);
  }

  /** In "<H> h <M>...", the hours run and the spaces after it end where
      the 'h' starts. */
  lemma HoursPieces(t: string, hs: string, sp1: string, sp2: string, ms: string, rest: string,
                    hours: nat)
    requires t == hs + sp1 + "h" + sp2 + ms + rest
    requires hs != [] && AllDigits(hs) && AllSpaces(sp1) && DigitsValue(hs) == hours
    ensures |hs| + |sp1| < |t| && t[|hs| + |sp1|] == 'h'
    ensures RunEnd(t, 0, Digits) == |hs| && RunValue(t, 0, |hs|) == hours
    ensures RunEnd(t, |hs|, Spaces) == |hs| + |sp1|
  {
    HoursLayout(t, hs, sp1, sp2, ms, rest);
    DigitsThenSpaces(t, hs, sp1, hours);
  }

  /** Where the hours, the spaces after them and the 'h' lie in "<H> h <M>...". */
  lemma HoursLayout(t: string, hs: string, sp1: string, sp2: string, ms: string, rest: string)
    requires t == hs + sp1 + "h" + sp2 + ms + rest
    requires AllSpaces(sp1)
    ensures var a := |hs|; var b := a + |sp1|;
      b < |t| && t[0..a] == hs && t[a..b] == sp1 && t[b] == 'h' && !IsDigit(t[a])
  {
    var a := |hs|;
    var b := a + |sp1|;
    var p1 := hs + sp1;
    var p2 := p1 + "h";
    var p3 := p2 + sp2;
    var p5 := p3 + ms;
    PrefixSlice(p5, rest, 0, b + 1);
    PrefixSlice(p3, ms, 0, b + 1);
    PrefixSlice(p2, sp2, 0, b + 1);
    assert p2[0..b + 1] == p2;
    assert t[0..b + 1] == p2;
    assert t[0..a] == p2[0..a] && t[a..b] == p2[a..b] && t[b] == p2[b];
    PrefixSlice(p1, "h", 0, a);
    PrefixSlice(p1, "h", a, b);
    assert p1[0..a] == hs;
    assert p1[a..b] == sp1;
    if sp1 != [] {
      assert t[a] == t[a..b][0] == sp1[0];
    }
  }

  /** Digits hs, then spaces sp1, then 'h' at the start of t: the two
      runs end at the spaces and at the 'h'. */
  lemma DigitsThenSpaces(t: string, hs: string, sp1: string, hours: nat)
    requires hs != [] && AllDigits(hs) && AllSpaces(sp1) && DigitsValue(hs) == hours
    requires |hs| + |sp1| < |t| && t[|hs| + |sp1|] == 'h'
    requires t[0..|hs|] == hs && t[|hs|..|hs| + |sp1|] == sp1 && !IsDigit(t[|hs|])
    ensures RunEnd(t, 0, Digits) == |hs| && RunValue(t, 0, |hs|) == hours
    ensures RunEnd(t, |hs|, Spaces) == |hs| + |sp1|
  {
    DigitsRunAt(t, 0, hs, hours);
    RunAt(t, |hs|, sp1, Spaces);
  }

  /** In "<H> h <M>...", the spaces after the 'h' end where the minutes start. */
  lemma SpacesAfterH(t: string, p2: string, sp2: string, ms: string, rest: string)
    requires t == p2 + sp2 + ms + rest
    requires AllSpaces(sp2) && AllDigits(ms)
    requires ms == [] ==> rest == [] || !IsSpace(rest[0])
    ensures RunEnd(t, |p2|, Spaces) == |p2| + |sp2|
  {
    var p5 := p2 + sp2 + ms;
    var c := |p2|;
    var e := c + |sp2|;
    PrefixSlice(p5, rest, c, e);
    MiddleSlice(p2, sp2, ms);
    assert e == |t| || !IsSpace(t[e]) by {
      if ms == [] && e < |t| {
        assert t[e] == rest[0];
      } else if ms != [] {
        assert t[e] == p5[e] == ms[0];
      }
    }
    RunAt(t, c, sp2, Spaces);
  }

  /** In p3 + ms + rest, the minutes run ends where rest starts and has the
      value of ms. */
  lemma MinutesRun(t: string, p3: string, ms: string, rest: string, minutes: nat)
    requires t == p3 + ms + rest
    requires AllDigits(ms) && DigitsValue(ms) == minutes
    requires rest == [] || !IsDigit(rest[0])
    ensures |p3| + |ms| <= |t| && RunEnd(t, |p3|, Digits) == |p3| + |ms|
    ensures RunValue(t, |p3|, |p3| + |ms|) == minutes
  {
    MiddleSlice(p3, ms, rest);
    assert |p3| + |ms| == |t| || !IsDigit(t[|p3| + |ms|]) by {
      if rest != [] {
        assert t[|p3 + ms|] == rest[0];
      }
    }
    DigitsRunAt(t, |p3|, ms, minutes);
  }

  /** Where the runs of the duration pattern end fixes its value. */
  lemma HoursMinutesAt(t: string, a: nat, b: nat, e: nat, f: nat, hours: nat, minutes: nat)
    requires 0 < a <= b < |t| && b + 1 <= e <= f <= |t| && t[b] == 'h'
    requires RunEnd(t, 0, Digits) == a && RunEnd(t, a, Spaces) == b
    requires RunEnd(t, b + 1, Spaces) == e && RunEnd(t, e, Digits) == f
    requires RunValue(t, 0, a) == hours && RunValue(t, e, f) == minutes
    ensures HoursMinutes(t) == Some(HoursOf(hours, minutes))
  {
  }

  /** Spaces around the 'h' and a trailing remark do not change the reading:
      "3 h 30 env." is 3.5 hours. */
  lemma HoursMinutesSpacedWithRemark()
    ensures HoursMinutes("3 h 30 env.") == Some(3.5)
  {
    assert DigitsValue("3") == 3 by {
      assert "3"[..0] == "";
    }
    assert DigitsValue("30") == 30 by {
      assert "30"[..1] == "3";
    }
    assert AllSpaces(" ") && !IsDigit(" env."[0]);
    assert "3" + " " + "h" + " " + "30" + " env." == "3 h 30 env.";
    HoursMinutesPrefix("3", " ", " ", "30", " env.", 3, 30);
  }

  /** `([\d.]+)\s*h?` reads the whole leading run of digits and dots n,
      whatever follows it. */
  lemma LeadingNumberPrefix(n: string, rest: string)
    requires n != [] && forall i :: 0 <= i < |n| ==> InClass(n[i], DigitsDots)
    requires rest == [] || !InClass(rest[0], DigitsDots)
    ensures LeadingNumber(n + rest) == FloatOf(n)
  {
    var t := n + rest;
    assert t[0..|n|] == n;
    assert |n| == |t| || !InClass(t[|n|], DigitsDots) by {
      if rest != [] {
        assert t[|n|] == rest[0];
      }
    }
    RunAt(t, 0, n, DigitsDots);
    assert t[..|n|] == n;
  }

  /** A number followed by a remark reads as that number: "3 (env.)" is 3 hours
      by the fallback pattern. */
  lemma LeadingNumberWithRemark()
    ensures LeadingNumber("3 (env.)") == Value(3.0)
  {
    assert "3" + " (env.)" == "3 (env.)";
    assert DigitsValue("3") == 3 by {
      assert "3"[..0] == "";
    }
    LeadingNumberPrefix("3", " (env.)");
  }

  /** The hours pattern cannot start on n + rest: n holds a dot, or what
      follows its digits after any whitespace is not 'h'. */
  predicate NotHoursAfter(n: string, rest: string) {
    '.' in n || var k := RunEnd(rest, 0, Spaces); k == |rest| || rest[k] != 'h'
  }

  lemma NoHoursMinutes(n: string, rest: string)
    requires n != [] && forall i :: 0 <= i < |n| ==> InClass(n[i], DigitsDots)
    requires rest == [] || !InClass(rest[0], DigitsDots)
    requires NotHoursAfter(n, rest)
    ensures HoursMinutes(n + rest) == None
  {
    var t := n + rest;
    var d := RunEnd(t, 0, Digits);
    if '.' in n {
      var i :| 0 <= i < |n| && n[i] == '.';
      assert t[i] == '.';
      assert t[d] == n[d] && t[d] == '.';
      RunEndIs(t, d, d, Spaces);
      HoursMinutesNone(t, d, d);
    } else {
      assert t[0..|n|] == n;
      assert |n| == |t| || !IsDigit(t[|n|]) by {
        if rest != [] {
          assert t[|n|] == rest[0];
        }
      }
      RunAt(t, 0, n, Digits);
      var k := RunEnd(rest, 0, Spaces);
      assert t[|n|..|n| + k] == rest[..k];
      RunAt(t, |n|, rest[..k], Spaces);
      assert |n| + k == |t| || t[|n| + k] == rest[k];
      HoursMinutesNone(t, |n|, |n| + k);
    }
  }

  /** The duration pattern fails when no digit starts the text or no 'h'
      follows the digits and the spaces after them. */
  lemma HoursMinutesNone(t: string, d: nat, h: nat)
    requires d <= h <= |t| && RunEnd(t, 0, Digits) == d && RunEnd(t, d, Spaces) == h
    requires d == 0 || h == |t| || t[h] != 'h'
    ensures HoursMinutes(t) == None
  {
  }

  /** A walking time whose normalised text starts "<H> h <M>" reads as
      H + M / 60 hours, whatever follows the minutes. */
  lemma DureeHoursMinutesPrefix(s: string, hs: string, sp1: string, sp2: string, ms: string,
                                rest: string, hours: nat, minutes: nat)
    requires s != [] && DureeText(s) == hs + sp1 + "h" + sp2 + ms + rest
    requires hs != [] && AllDigits(hs) && AllDigits(ms)
    requires AllSpaces(sp1) && AllSpaces(sp2)
    requires rest == [] || !IsDigit(rest[0])
    requires ms == [] ==> rest == [] || !IsSpace(rest[0])
    requires DigitsValue(hs) == hours && DigitsValue(ms) == minutes
    ensures ParseDuree(Some(s)) == Value(HoursOf(hours, minutes))
  {
    HoursMinutesPrefix(hs, sp1, sp2, ms, rest, hours, minutes);
  }

  /** A walking time whose normalised text starts with a run of digits and
      dots n that the hours pattern does not take is float(n) hours,
      whatever follows ("2.5 heures", "3 (env.)"). */
  lemma DureeLeadingNumber(s: string, n: string, rest: string)
    requires s != [] && DureeText(s) == n + rest
    requires n != [] && forall i :: 0 <= i < |n| ==> InClass(n[i], DigitsDots)
    requires rest == [] || !InClass(rest[0], DigitsDots)
    requires NotHoursAfter(n, rest)
    ensures ParseDuree(Some(s)) == FloatOf(n)
  {
    NoHoursMinutes(n, rest);
    LeadingNumberPrefix(n, rest);
  }

  /** A text whose normalised form does not start with a digit or a dot has no duration. */
  lemma DureeNeedsLeadingNumber(s: string)
    requires DureeText(s) == [] || !InClass(DureeText(s)[0], DigitsDots)
    ensures ParseDuree(Some(s)) == NoMatch
  {
  }

  /** When the text is not "<digits> h ...", a leading decimal number is
      read as hours: "2.5", "1,5 h" and "1.5h" give 2.5, 1.5 and 1.5. */
  lemma DureeDecimalFallback(whole: string, sep: char, frac: string, unit: string, w: nat, f: nat, p: nat)
    requires sep == '.' || sep == ','
    requires unit == "" || unit == "h" || unit == " h"
    requires AllDigits(whole) && AllDigits(frac) && (whole != [] || frac != [])
    requires DigitsValue(whole) == w && DigitsValue(frac) == f && Pow10(|frac|) == p
    ensures ParseDuree(Some(whole + [sep] + frac + unit)) == Value(w as real + f as real / p as real)
  {
    var s := whole + [sep] + frac + unit;
    var t := whole + "." + frac + unit;
    DureeDecimalText(whole, sep, frac, unit);
    DecimalNotHours(whole, frac, unit);
    DecimalLeading(whole, frac, unit);
    assert ParseDuree(Some(s)) == FloatOf(whole + "." + frac);
    FloatOfDecimal(whole, frac, w, f, p);
  }

  /** Normalising a decimal walking time only turns its comma into a dot. */
  lemma DureeDecimalText(whole: string, sep: char, frac: string, unit: string)
    requires sep == '.' || sep == ','
    requires unit == "" || unit == "h" || unit == " h"
    requires AllDigits(whole) && AllDigits(frac) && (whole != [] || frac != [])
    ensures DureeText(whole + [sep] + frac + unit) == whole + "." + frac + unit
  {
    var s := whole + [sep] + frac + unit;
    DecimalEdges(whole, sep, frac, unit);
    StripNoEdgeSpace(s);
    DecimalUnchangedByLower(whole, sep, frac, unit);
    DecimalCommaReplaced(whole, sep, frac, unit);
  }

  /** A decimal walking time neither starts nor ends with whitespace. */
  lemma DecimalEdges(whole: string, sep: char, frac: string, unit: string)
    requires sep == '.' || sep == ','
    requires unit == "" || unit == "h" || unit == " h"
    requires AllDigits(whole) && AllDigits(frac)
    ensures var s := whole + [sep] + frac + unit; !IsSpace(s[0]) && !IsSpace(s[|s| - 1])
  {
    var s := whole + [sep] + frac + unit;
    if whole != [] {
      assert s[0] == whole[0];
    }
    if unit == [] && frac != [] {
      assert s[|s| - 1] == frac[|frac| - 1];
    }
  }

  /** Digits, separators, spaces and 'h' are all already lower-case. */
  lemma DecimalUnchangedByLower(whole: string, sep: char, frac: string, unit: string)
    requires sep == '.' || sep == ','
    requires unit == "" || unit == "h" || unit == " h"
    requires AllDigits(whole) && AllDigits(frac)
    ensures Lower(whole + [sep] + frac + unit) == whole + [sep] + frac + unit
  {
    var s := whole + [sep] + frac + unit;
    var n := |whole|;
    var e := n + 1 + |frac|;
    forall m | 0 <= m < |s| ensures LowerChar(s[m]) == s[m] {
      if m < n {
        assert s[m] == whole[m];
      } else if n < m < e {
        assert s[m] == frac[m - n - 1];
      } else if m >= e {
        assert s[m] == unit[m - e];
      }
    }
  }

  lemma DecimalCommaReplaced(whole: string, sep: char, frac: string, unit: string)
    requires sep == '.' || sep == ','
    requires unit == "" || unit == "h" || unit == " h"
    requires AllDigits(whole) && AllDigits(frac)
    ensures ReplaceChar(whole + [sep] + frac + unit, ',', '.') == whole + "." + frac + unit
  {
    var s := whole + [sep] + frac + unit;
    var t := whole + "." + frac + unit;
    var n := |whole|;
    var e := n + 1 + |frac|;
    forall m | 0 <= m < |s| ensures ReplaceChar(s, ',', '.')[m] == t[m] {
      if m < n {
        assert s[m] == whole[m] && t[m] == whole[m];
      } else if n < m < e {
        assert s[m] == frac[m - n - 1] && t[m] == frac[m - n - 1];
      } else if m >= e {
        assert s[m] == unit[m - e] && t[m] == unit[m - e];
      }
    }
  }

  /** A decimal number is not "<digits> h": the dot comes first. */
  lemma DecimalNotHours(whole: string, frac: string, unit: string)
    requires AllDigits(whole)
    ensures HoursMinutes(whole + "." + frac + unit) == None
  {
    var t := whole + "." + frac + unit;
    var n := |whole|;
    assert t[n] == '.';
    forall m | 0 <= m < n ensures IsDigit(t[m]) {
      assert t[m] == whole[m];
    }
    RunEndIs(t, 0, n, Digits);
    RunEndIs(t, n, n, Spaces);
  }

  /** The number pattern takes the whole decimal number and stops at the unit. */
  lemma DecimalLeading(whole: string, frac: string, unit: string)
    requires unit == "" || unit == "h" || unit == " h"
    requires AllDigits(whole) && AllDigits(frac)
    ensures forall m :: 0 <= m < |whole + "." + frac| ==> InClass((whole + "." + frac)[m], DigitsDots)
    ensures LeadingNumber(whole + "." + frac + unit) == FloatOf(whole + "." + frac)
  {
    var t := whole + "." + frac + unit;
    var n := |whole|;
    var e := n + 1 + |frac|;
    forall m | 0 <= m < e ensures InClass(t[m], DigitsDots) {
      if m < n {
        assert t[m] == whole[m];
      } else if m > n {
        assert t[m] == frac[m - n - 1];
      }
    }
    if unit != [] {
      assert t[e] == unit[0];
    }
    RunEndIs(t, 0, e, DigitsDots);
    assert t[..e] == whole + "." + frac;
  }

  /** A lone dot matches the number pattern but float(".") raises. */
  lemma DureeLoneDotRaises()
    ensures ParseDuree(Some(".")) == Raises
  {
    var t := DureeText(".");
    assert t == ".";
    RunEndIs(t, 0, 0, Digits);
    RunEndIs(t, 0, 0, Spaces);
    RunEndIs(t, 0, 1, DigitsDots);
  }

  // ---------------------------------------------------------------------
  // _parse_number_km and _parse_number_m: re.search, so the leftmost start wins

  /** `([\d.,]+)\s*km` (case-insensitive) matches at i. Backtracking the
      greedy run cannot help, since a shorter run is followed by a class
      character, which is neither a space nor 'k'. */
  predicate KmAt(s: string, i: nat) {
    i < |s| && InClass(s[i], DigitsDotsCommas) &&
    var e := RunEnd(s, i, DigitsDotsCommas);
    var k := RunEnd(s, e, Spaces);
    k + 1 < |s| && IsK(s[k]) && IsM(s[k + 1])
  }

  /** `([\d\s]+)\s*m` (case-insensitive) matches at i; the greedy run has
      already swallowed every space, so `\s*` matches nothing. */
  predicate MetresAt(s: string, i: nat) {
    i < |s| && InClass(s[i], DigitsSpaces) &&
    var e := RunEnd(s, i, DigitsSpaces);
    e < |s| && IsM(s[e])
  }

  /** The leftmost position at or after i where the pattern `at` matches,
      as re.search scans its start positions. */
  function Search(s: string, i: nat, at: (string, nat) -> bool): (r: Option<nat>)
    requires i <= |s|
    ensures r.Some? ==> i <= r.value < |s| && at(s, r.value)
    ensures r.Some? ==> forall m :: i <= m < r.value ==> !at(s, m)
    ensures r.None? ==> forall m :: i <= m < |s| ==> !at(s, m)
    decreases |s| - i
  {
    if i == |s| then None else if at(s, i) then Some(i) else Search(s, i + 1, at)
  }

  /** Kilometres in a distance text: the first number followed by "km",
      with a decimal comma read as a dot. */
  function ParseNumberKm(s: string): (c: Conv<real>)
    ensures c.NoMatch? <==> forall m :: 0 <= m < |s| ==> !KmAt(s, m)
    ensures c.Value? ==> c.v >= 0.0
  {
    match Search(s, 0, KmAt)
    case None => NoMatch
    case Some(i) =>
      var g := ReplaceChar(s[i..RunEnd(s, i, DigitsDotsCommas)], ',', '.');
      assert forall m :: 0 <= m < |g| ==> InClass(g[m], DigitsDots);
      FloatOf(g)
  }

  /** The digits of s, in order. */
  function DigitsOnly(s: string): (r: string)
    ensures AllDigits(r)
  {
    if s == [] then [] else (if IsDigit(s[0]) then [s[0]] else []) + DigitsOnly(s[1..])
  }

  /** Digits separated by spaces and no-break spaces only, as thousands are written. */
  predicate Grouped(g: string) {
    forall i :: 0 <= i < |g| ==> IsDigit(g[i]) || g[i] == ' ' || g[i] == '\U{a0}'
  }

  /** int() of a `[\d\s]+` match once no-break spaces and spaces are removed
      and the rest is stripped: the separators are dropped, so a value is
      always the number the match's digits spell, and a match of grouped
      digits raises only when it holds no digit at all. */
  function IntOfSpacedDigits(g: string): (c: Conv<int>)
    ensures c.NoMatch? ==> false
    ensures c.Value? ==> c.v == DigitsValue(DigitsOnly(g))
    ensures Grouped(g) ==> (c.Raises? <==> DigitsOnly(g) == [])
  {
    var t := Strip(RemoveChar(RemoveChar(g, '\U{a0}'), ' '));
    DigitsSurviveCleaning(g);
    DigitsOnlyAll(t);
    if t != [] && AllDigits(t) then Value(DigitsValue(t))
    else
      GroupedCleans(g);
      Raises
  }

  lemma {:induction false} DigitsOnlyAppend(u: string, v: string)
    ensures DigitsOnly(u + v) == DigitsOnly(u) + DigitsOnly(v)
    decreases |u|
  {
    if u == [] {
      assert u + v == v;
    } else {
      assert (u + v)[1..] == u[1..] + v;
      DigitsOnlyAppend(u[1..], v);
    }
  }

  lemma {:induction false} DigitsOnlyAll(s: string)
    ensures AllDigits(s) ==> DigitsOnly(s) == s
  {
    if s != [] && AllDigits(s) {
      DigitsOnlyAll(s[1..]);
      assert s == [s[0]] + s[1..];
    }
  }

  lemma {:induction false} DigitsOnlyRemove(s: string, a: char)
    requires !IsDigit(a)
    ensures DigitsOnly(RemoveChar(s, a)) == DigitsOnly(s)
  {
    if s != [] {
      DigitsOnlyRemove(s[1..], a);
      DigitsOnlyAppend(if s[0] == a then [] else [s[0]], RemoveChar(s[1..], a));
    }
  }

  lemma {:induction false} DigitsOnlySpaces(s: string)
    requires forall i :: 0 <= i < |s| ==> IsSpace(s[i])
    ensures DigitsOnly(s) == []
  {
    if s != [] {
      assert !IsDigit(s[0]);
      DigitsOnlySpaces(s[1..]);
    }
  }

  lemma DigitsOnlyStrip(s: string)
    ensures DigitsOnly(Strip(s)) == DigitsOnly(s)
  {
    var a, b := StripSlice(s);
    var u, m, v := s[..a], s[a..b], s[b..];
    assert s == u + m + v;
    DigitsOnlyAppend(u + m, v);
    DigitsOnlyAppend(u, m);
    DigitsOnlySpaces(u);
    DigitsOnlySpaces(v);
  }

  /** Removing the separators and stripping keeps every digit, in order. */
  lemma DigitsSurviveCleaning(g: string)
    ensures DigitsOnly(Strip(RemoveChar(RemoveChar(g, '\U{a0}'), ' '))) == DigitsOnly(g)
  {
    DigitsOnlyRemove(g, '\U{a0}');
    DigitsOnlyRemove(RemoveChar(g, '\U{a0}'), ' ');
    DigitsOnlyStrip(RemoveChar(RemoveChar(g, '\U{a0}'), ' '));
  }

  /** Grouped digits lose their separators and keep only digits. */
  lemma GroupedCleans(g: string)
    ensures Grouped(g) ==> AllDigits(Strip(RemoveChar(RemoveChar(g, '\U{a0}'), ' ')))
  {
    if !Grouped(g) {
      return;
    }
    var r1 := RemoveChar(g, '\U{a0}');
    var r2 := RemoveChar(r1, ' ');
    forall i | 0 <= i < |r2| ensures IsDigit(r2[i]) {
      var c := r2[i];
      assert c in r2;
      assert c in r1 && c != ' ';
      assert c != '\U{a0}';
      var k :| 0 <= k < |g| && g[k] == c;
    }
    StripNoEdgeSpace(r2);
  }

  /** Metres in an elevation text: the first digits-and-spaces group followed by "m". */
  function ParseNumberM(s: string): (c: Conv<int>)
    ensures c.NoMatch? <==> forall m :: 0 <= m < |s| ==> !MetresAt(s, m)
    ensures c.Value? ==> c.v >= 0
  {
    match Search(s, 0, MetresAt)
    case None => NoMatch
    case Some(i) => IntOfSpacedDigits(s[i..RunEnd(s, i, DigitsSpaces)])
  }

  /** Start positions where the pattern cannot match do not change the search. */
  lemma {:induction false} SearchSkips(s: string, i: nat, j: nat, at: (string, nat) -> bool)
    requires i <= j <= |s|
    requires forall m :: i <= m < j ==> !at(s, m)
    ensures Search(s, i, at) == Search(s, j, at)
    decreases j - i
  {
    if i < j {
      SearchSkips(s, i + 1, j, at);
    }
  }

  /** A whole number of kilometres written "<n> km" after any text without
      digits, dots or commas is found and read back exactly. */
  lemma {:induction false} KmReadsBack(prefix: string, n: nat)
    requires forall m :: 0 <= m < |prefix| ==> !InClass(prefix[m], DigitsDotsCommas)
    ensures ParseNumberKm(prefix + NatToString(n) + " km") == Value(n as real)
  {
    var ns := NatToString(n);
    var s := prefix + ns + " km";
    var p := |prefix|;
    var e := p + |ns|;
    assert s[e] == ' ' && s[e + 1] == 'k' && s[e + 2] == 'm';
    RunEndIs(s, p, e, DigitsDotsCommas);
    RunEndIs(s, e, e + 1, Spaces);
    assert KmAt(s, p);
    forall m | 0 <= m < p ensures !KmAt(s, m) {
      assert s[m] == prefix[m];
    }
    SearchSkips(s, 0, p, KmAt);
    assert s[p..e] == ns;
    assert ReplaceChar(ns, ',', '.') == ns;
  }

  /** The first numeral written before "km", after text without digits,
      dots or commas, is what float() reads once its commas become dots. */
  lemma {:induction false} KmNumeral(prefix: string, ns: string)
    requires forall m :: 0 <= m < |prefix| ==> !InClass(prefix[m], DigitsDotsCommas)
    requires ns != [] && forall m :: 0 <= m < |ns| ==> InClass(ns[m], DigitsDotsCommas)
    ensures forall m :: 0 <= m < |ReplaceChar(ns, ',', '.')| ==> InClass(ReplaceChar(ns, ',', '.')[m], DigitsDots)
    ensures ParseNumberKm(prefix + ns + " km") == FloatOf(ReplaceChar(ns, ',', '.'))
  {
    var s := prefix + ns + " km";
    var p := |prefix|;
    var e := p + |ns|;
    assert s[e] == ' ' && s[e + 1] == 'k' && s[e + 2] == 'm';
    forall m | p <= m < e ensures InClass(s[m], DigitsDotsCommas) {
      assert s[m] == ns[m - p];
    }
    RunEndIs(s, p, e, DigitsDotsCommas);
    RunEndIs(s, e, e + 1, Spaces);
    assert KmAt(s, p);
    forall m | 0 <= m < p ensures !KmAt(s, m) {
      assert s[m] == prefix[m];
    }
    SearchSkips(s, 0, p, KmAt);
    assert s[p..e] == ns;
  }

  /** A decimal distance "<I>.<F> km" or "<I>,<F> km" after text without
      digits, dots or commas reads back as I + F / 10^|F| kilometres. */
  lemma KmDecimalReadsBack(prefix: string, whole: string, sep: char, frac: string, w: nat, f: nat, p: nat)
    requires forall m :: 0 <= m < |prefix| ==> !InClass(prefix[m], DigitsDotsCommas)
    requires sep == '.' || sep == ','
    requires AllDigits(whole) && AllDigits(frac) && (whole != [] || frac != [])
    requires DigitsValue(whole) == w && DigitsValue(frac) == f && Pow10(|frac|) == p
    ensures ParseNumberKm(prefix + (whole + [sep] + frac) + " km") == Value(w as real + f as real / p as real)
  {
    var ns := whole + [sep] + frac;
    var t := whole + "." + frac;
    DecimalChars(whole, sep, frac);
    KmNumeral(prefix, ns);
    assert ParseNumberKm(prefix + ns + " km") == FloatOf(t);
    FloatOfDecimal(whole, frac, w, f, p);
  }

  /** "<I><sep><F>" is a run of the distance class, and with its comma made
      a dot it is "<I>.<F>". */
  lemma DecimalChars(whole: string, sep: char, frac: string)
    requires sep == '.' || sep == ','
    requires AllDigits(whole) && AllDigits(frac)
    ensures forall m :: 0 <= m < |whole + [sep] + frac| ==> InClass((whole + [sep] + frac)[m], DigitsDotsCommas)
    ensures ReplaceChar(whole + [sep] + frac, ',', '.') == whole + "." + frac
  {
    var ns := whole + [sep] + frac;
    var n := |whole|;
    forall m | 0 <= m < |ns| ensures InClass(ns[m], DigitsDotsCommas) && ReplaceChar(ns, ',', '.')[m] == (whole + "." + frac)[m] {
      if m < n {
        assert ns[m] == whole[m];
      } else if m > n {
        assert ns[m] == frac[m - n - 1];
      }
    }
  }

  /** A distance with two dots ("1.2.3 km") matches the pattern, but float() raises. */
  lemma KmTwoDotsRaises()
    ensures ParseNumberKm("1.2.3 km") == Raises
  {
    var s := "1.2.3 km";
    RunEndIs(s, 0, 5, DigitsDotsCommas);
    RunEndIs(s, 5, 6, Spaces);
    assert KmAt(s, 0);
    TwoDotsRaise();
    assert ReplaceChar(s[0..5], ',', '.') == "1.2.3";
  }

  /** float() of a numeral with a second dot raises. */
  lemma TwoDotsRaise()
    ensures FloatOf("1.2.3") == Raises
  {
    var t := "1.2.3";
    assert t[1] == '.';
    assert IndexOf(t, '.') == 1;
    assert t[2..][1] == '.';
  }

  /** A whole number of metres written "<n> m" after text without digits or
      spaces is found and read back exactly. */
  lemma {:induction false} MetresReadsBack(prefix: string, n: nat)
    requires forall m :: 0 <= m < |prefix| ==> !InClass(prefix[m], DigitsSpaces)
    ensures ParseNumberM(prefix + NatToString(n) + " m") == Value(n)
  {
    var ns := NatToString(n);
    var s := prefix + ns + " m";
    var p := |prefix|;
    var e := p + |ns| + 1;
    assert s[e] == 'm';
    RunEndIs(s, p, e, DigitsSpaces);
    assert MetresAt(s, p);
    forall m | 0 <= m < p ensures !MetresAt(s, m) {
      assert s[m] == prefix[m];
    }
    SearchSkips(s, 0, p, MetresAt);
    assert s[p..e] == ns + " ";
    SpacedDigitsOf(ns, n);
  }

  /** An elevation written with thousands separators ("1 200 m", "2\u00a0150 m"),
      possibly after spaces, following text without digits or spaces, reads
      back as the number its digits spell. */
  lemma {:induction false} MetresGroupedReadsBack(prefix: string, ds: string)
    requires forall m :: 0 <= m < |prefix| ==> !InClass(prefix[m], DigitsSpaces)
    requires Grouped(ds) && DigitsOnly(ds) != []
    ensures ParseNumberM(prefix + ds + " m") == Value(DigitsValue(DigitsOnly(ds)))
  {
    assert ds != [];
    MetresGroupAt(prefix, ds);
    GroupedThenSpace(ds);
  }

  /** After text without digits or spaces, the metres pattern takes the
      group ds and the space before "m". */
  lemma MetresGroupAt(prefix: string, ds: string)
    requires forall m :: 0 <= m < |prefix| ==> !InClass(prefix[m], DigitsSpaces)
    requires Grouped(ds) && ds != []
    ensures ParseNumberM(prefix + ds + " m") == IntOfSpacedDigits(ds + " ")
  {
    var s := prefix + ds + " m";
    var p := |prefix|;
    var e := p + |ds| + 1;
    assert s[e] == 'm';
    forall m | p <= m < e ensures InClass(s[m], DigitsSpaces) {
      if m < e - 1 {
        assert s[m] == ds[m - p];
      }
    }
    RunEndIs(s, p, e, DigitsSpaces);
    assert MetresAt(s, p);
    forall m | 0 <= m < p ensures !MetresAt(s, m) {
      assert s[m] == prefix[m];
    }
    SearchSkips(s, 0, p, MetresAt);
    assert s[p..e] == ds + " ";
  }

  /** The trailing space of a group is dropped with the separators. */
  lemma GroupedThenSpace(ds: string)
    requires Grouped(ds) && DigitsOnly(ds) != []
    ensures IntOfSpacedDigits(ds + " ") == Value(DigitsValue(DigitsOnly(ds)))
  {
    var g := ds + " ";
    DigitsOnlyAppend(ds, " ");
    assert DigitsOnly(" ") == [];
    assert DigitsOnly(g) == DigitsOnly(ds);
    assert Grouped(g) by {
      forall i | 0 <= i < |g| ensures IsDigit(g[i]) || g[i] == ' ' || g[i] == '\U{a0}' {
        if i < |ds| {
          assert g[i] == ds[i];
        }
      }
    }
  }

  /** "1 200 m" is 1200 metres. */
  lemma MetresThousands()
    ensures ParseNumberM("1 200 m") == Value(1200)
  {
    ThousandsDigits();
    ThousandsValue();
    assert Grouped("1 200");
    MetresGroupedReadsBack("", "1 200");
    assert "" + "1 200" == "1 200";
    assert "1 200" + " m" == "1 200 m";
  }

  lemma ThousandsDigits()
    ensures DigitsOnly("1 200") == "1200"
  {
    var ds := "1 200";
    assert ds[1..] == " 200";
    assert " 200"[1..] == "200";
    DigitsOnlyAll("200");
    assert DigitsOnly(" 200") == [] + DigitsOnly("200");
    assert DigitsOnly(ds) == ['1'] + DigitsOnly(" 200");
  }

  lemma ThousandsValue()
    ensures DigitsValue("1200") == 1200
  {
    assert "1200"[..3] == "120" && "120"[..2] == "12" && "12"[..1] == "1" && "1"[..0] == "";
  }

  /** A numeral followed by the space the greedy group swallows reads back as its value. */
  lemma SpacedDigitsOf(ns: string, n: nat)
    requires ns != [] && AllDigits(ns) && DigitsValue(ns) == n
    ensures IntOfSpacedDigits(ns + " ") == Value(n)
  {
    RemoveCharAbsent(ns, '\U{a0}');
    RemoveCharAbsent(ns, ' ');
    RemoveCharAppend(ns, ' ', '\U{a0}');
    RemoveCharAppendSelf(ns, ' ');
    StripNoEdgeSpace(ns);
  }

  /** A space before a word starting with 'm' and no number before it
      ("Aucune montée") is a whitespace-only match, and int("") raises. */
  lemma {:induction false} MetresLoneSpaceRaises(prefix: string, rest: string)
    requires forall m :: 0 <= m < |prefix| ==> !InClass(prefix[m], DigitsSpaces)
    ensures ParseNumberM(prefix + " m" + rest) == Raises
  {
    var s := prefix + " m" + rest;
    var p := |prefix|;
    assert s[p] == ' ' && s[p + 1] == 'm';
    RunEndIs(s, p, p + 1, DigitsSpaces);
    assert MetresAt(s, p);
    forall m | 0 <= m < p ensures !MetresAt(s, m) {
      assert s[m] == prefix[m];
    }
    SearchSkips(s, 0, p, MetresAt);
    assert s[p..p + 1] == " ";
    assert RemoveChar(" ", '\U{a0}') == " ";
    assert RemoveChar(" ", ' ') == "";
  }

  lemma {:induction false} RemoveCharAbsent(s: string, a: char)
    requires forall i :: 0 <= i < |s| ==> s[i] != a
    ensures RemoveChar(s, a) == s
  {
    if s != [] {
      RemoveCharAbsent(s[1..], a);
    }
  }

  lemma {:induction false} RemoveCharAppend(s: string, c: char, a: char)
    requires c != a
    ensures RemoveChar(s + [c], a) == RemoveChar(s, a) + [c]
  {
    if s != [] {
      assert (s + [c])[1..] == s[1..] + [c];
      RemoveCharAppend(s[1..], c, a);
    }
  }

  lemma {:induction false} RemoveCharAppendSelf(s: string, a: char)
    ensures RemoveChar(s + [a], a) == RemoveChar(s, a)
  {
    if s != [] {
      assert (s + [a])[1..] == s[1..] + [a];
      RemoveCharAppendSelf(s[1..], a);
    }
  }

  // ---------------------------------------------------------------------
  // The four bucketing functions

  /** Distance label: under 5 km strictly, the other bounds inclusive. */
  function NormalizeKm(km: Option<real>): (r: Option<string>)
    ensures r.None? <==> km.None?
    ensures r.Some? ==> r.value in KM_RANGES
    ensures km.Some? ==> (r.value == KM_RANGES[0] <==> km.value < 5.0)
    ensures km.Some? ==> (r.value == KM_RANGES[1] <==> 5.0 <= km.value <= 10.0)
    ensures km.Some? ==> (r.value == KM_RANGES[2] <==> 10.0 < km.value <= 15.0)
    ensures km.Some? ==> (r.value == KM_RANGES[3] <==> 15.0 < km.value <= 20.0)
    ensures km.Some? ==> (r.value == KM_RANGES[4] <==> 20.0 < km.value)
  {
    if km.None? then None
    else if km.value < 5.0 then Some("Moins de 5 km")
    else if km.value <= 10.0 then Some("5-10 km")
    else if km.value <= 15.0 then Some("10-15 km")
    else if km.value <= 20.0 then Some("15-20 km")
    else Some("Plus de 20 km")
  }

  /** Walking-time label: under 3 h strictly, up to 5 h inclusive, above. */
  function NormalizeDuree(hours: Option<real>): (r: Option<string>)
    ensures r.None? <==> hours.None?
    ensures r.Some? ==> r.value in DUREE_RANGES
    ensures hours.Some? ==> (r.value == DUREE_RANGES[0] <==> hours.value < 3.0)
    ensures hours.Some? ==> (r.value == DUREE_RANGES[1] <==> 3.0 <= hours.value <= 5.0)
    ensures hours.Some? ==> (r.value == DUREE_RANGES[2] <==> 5.0 < hours.value)
  {
    if hours.None? then None
    else if hours.value < 3.0 then Some("Moins de 3h")
    else if hours.value <= 5.0 then Some("De 3h à 5h")
    else Some("Plus de 5h")
  }

  /** Ascent label: under 500 m strictly, up to 1000 m inclusive, above. */
  function NormalizeDenivele(metres: Option<int>): (r: Option<string>)
    ensures r.None? <==> metres.None?
    ensures r.Some? ==> r.value in DENIVELE_RANGES
    ensures metres.Some? ==> (r.value == DENIVELE_RANGES[0] <==> metres.value < 500)
    ensures metres.Some? ==> (r.value == DENIVELE_RANGES[1] <==> 500 <= metres.value <= 1000)
    ensures metres.Some? ==> (r.value == DENIVELE_RANGES[2] <==> 1000 < metres.value)
  {
    if metres.None? then None
    else if metres.value < 500 then Some("Moins de 500 m")
    else if metres.value <= 1000 then Some("De 500 à 1000 m")
    else Some("Plus de 1000 m")
  }

  /** Difficulty label: the lowest grade whose token occurs wins ("T1-T2" is T1). */
  function NormalizeDifficulte(s: Option<string>): (r: Option<string>)
    ensures r.Some? ==> r.value in DIFFICULTES
    ensures r == Some(DIFFICULTES[0]) <==> Truthy(s) && Contains(s.value, "T1")
    ensures r == Some(DIFFICULTES[1]) <==> Truthy(s) && !Contains(s.value, "T1") && Contains(s.value, "T2")
    ensures r == Some(DIFFICULTES[2]) <==>
              Truthy(s) && !Contains(s.value, "T1") && !Contains(s.value, "T2") && Contains(s.value, "T3")
  {
    if !Truthy(s) then None
    else
      var t := Strip(s.value);
      ContainsStripped(s.value, "T1");
      ContainsStripped(s.value, "T2");
      ContainsStripped(s.value, "T3");
      if Contains(t, "T1") then Some("Difficulté T1")
      else if Contains(t, "T2") then Some("Difficulté T2")
      else if Contains(t, "T3") then Some("Difficulté T3")
      else None
  }

  /** Stripping cannot remove or create an occurrence of a token that has no spaces. */
  lemma ContainsStripped(s: string, t: string)
    requires t != [] && forall i :: 0 <= i < |t| ==> !IsSpace(t[i])
    ensures Contains(Strip(s), t) <==> Contains(s, t)
  {
    var a, b := StripSlice(s);
    if Contains(Strip(s), t) {
      ContainsInSlice(s, a, b, t);
    }
    if Contains(s, t) {
      ContainsSurvivesTrim(s, a, b, t);
    }
  }

  lemma StripSlice(s: string) returns (a: nat, b: nat)
    ensures a <= b <= |s| && Strip(s) == s[a..b]
    ensures forall i :: 0 <= i < a ==> IsSpace(s[i])
    ensures forall i :: b <= i < |s| ==> IsSpace(s[i])
  {
    var l := TrimLeft(s);
    var r := TrimRight(l);
    assert Strip(s) == r;
    a := |s| - |l|;
    b := a + |r|;
    assert l == s[a..];
    assert r == l[..|r|];
    assert r == s[a..b];
    forall i | b <= i < |s| ensures IsSpace(s[i]) {
      assert s[i] == l[i - a];
    }
  }

  lemma ContainsInSlice(s: string, a: nat, b: nat, t: string)
    requires a <= b <= |s| && Contains(s[a..b], t)
    ensures Contains(s, t)
  {
    var i := ContainsWitness(s[a..b], t);
    forall k | 0 <= k < |t| ensures s[a + i + k] == t[k] {
      assert t[k] == s[a..b][i + k];
    }
    assert s[a + i..a + i + |t|] == t;
    ContainsAt(s, t, a + i);
  }

  lemma ContainsSurvivesTrim(s: string, a: nat, b: nat, t: string)
    requires a <= b <= |s| && Contains(s, t)
    requires t != [] && forall i :: 0 <= i < |t| ==> !IsSpace(t[i])
    requires forall i :: 0 <= i < a ==> IsSpace(s[i])
    requires forall i :: b <= i < |s| ==> IsSpace(s[i])
    ensures Contains(s[a..b], t)
  {
    var i := ContainsWitness(s, t);
    OccurrenceInside(s, a, b, t, i);
    OccurrenceInSlice(s, a, b, t, i);
  }

  /** An occurrence of a token without spaces lies between the edge spaces. */
  lemma OccurrenceInside(s: string, a: nat, b: nat, t: string, i: nat)
    requires a <= b <= |s| && i + |t| <= |s| && s[i..i + |t|] == t
    requires t != [] && forall k :: 0 <= k < |t| ==> !IsSpace(t[k])
    requires forall k :: 0 <= k < a ==> IsSpace(s[k])
    requires forall k :: b <= k < |s| ==> IsSpace(s[k])
    ensures a <= i && i + |t| <= b
  {
    var n := |t|;
    assert !IsSpace(s[i]) by {
      assert s[i..i + n][0] == s[i];
    }
    assert !IsSpace(s[i + n - 1]) by {
      assert s[i..i + n][n - 1] == s[i + n - 1];
    }
  }

  lemma OccurrenceInSlice(s: string, a: nat, b: nat, t: string, i: nat)
    requires a <= i && i + |t| <= b <= |s| && s[i..i + |t|] == t
    ensures Contains(s[a..b], t)
  {
    var u := s[a..b];
    forall k | 0 <= k < |t| ensures u[i - a + k] == t[k] {
      assert t[k] == s[i..i + |t|][k];
    }
    assert u[i - a..i - a + |t|] == t;
    ContainsAt(u, t, i - a);
  }

  /** Position of a label in its list, for stating monotonicity. */
  function Rank(labels: seq<string>, x: string): nat {
    if x in labels then Seqs.FirstIndex(labels, x) else |labels|
  }

  /** A longer walk never gets a lower distance bucket. */
  lemma KmBucketMonotone(a: real, b: real)
    requires a <= b
    ensures Rank(KM_RANGES, NormalizeKm(Some(a)).value) <= Rank(KM_RANGES, NormalizeKm(Some(b)).value)
  {
  }

  /** The boundary values: 4.999 / 5.0 / 5.001 / 20.0 / 20.001 km. */
  lemma KmBoundaries()
    ensures NormalizeKm(Some(4.999)) == Some("Moins de 5 km")
    ensures NormalizeKm(Some(5.0)) == Some("5-10 km")
    ensures NormalizeKm(Some(5.001)) == Some("5-10 km")
    ensures NormalizeKm(Some(20.0)) == Some("15-20 km")
    ensures NormalizeKm(Some(20.001)) == Some("Plus de 20 km")
  {
  }
}
