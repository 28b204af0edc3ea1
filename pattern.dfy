/** The coordinate pattern searched for in a D-PRS payload,
      (\d{4,5}\.\d{2})([NS])[/\\](\d{5,6}\.\d{2})([EW])
    and the leftmost-match search over it. Digits are ASCII '0'..'9'. */
module Pattern {
  import opened Text

  /** One coordinate before conversion: its degrees-and-minutes text and its hemisphere letter. */
  datatype AngleField = AngleField(digits: string, hemisphere: char)

  /** The four groups of a match: latitude text and letter, longitude text and letter. */
  datatype Fix = Fix(lat: AngleField, lon: AngleField)

  /** A match and the index of the payload where it starts. */
  datatype Found = Found(start: nat, fix: Fix)

  predicate DigitsAt(p: string, i: nat, n: nat)
  {
    i + n <= |p| && forall k :: i <= k < i + n ==> IsDigit(p[k])
  }

  /** n digits, '.', exactly two digits, starting at index i. */
  predicate NumberAt(p: string, i: nat, n: nat)
  {
    DigitsAt(p, i, n) && i + n < |p| && p[i + n] == '.' && DigitsAt(p, i + n + 1, 2)
  }

  predicate IsSeparator(c: char) { c == '/' || c == '\\' }

  /** The whole pattern matches at index i with w whole latitude digits and
      v whole longitude digits. The latitude text spans [i, i+w+3), its
      letter sits at i+w+3, the separator at i+w+4, the longitude text spans
      [i+w+5, i+w+v+8) and its letter sits at i+w+v+8. */
  predicate PatternAt(p: string, i: nat, w: nat, v: nat)
    ensures PatternAt(p, i, w, v) ==> 18 <= w + v + 9 <= 20 && i + w + v + 9 <= |p|
    ensures PatternAt(p, i, w, v) ==> forall k :: i <= k < i + w + v + 9 ==> p[k] != ',' && p[k] != '>'
  {
    && (w == 4 || w == 5) && (v == 5 || v == 6)
    && i + w + v + 8 < |p|
    && NumberAt(p, i, w)
    && (p[i + w + 3] == 'N' || p[i + w + 3] == 'S')
    && IsSeparator(p[i + w + 4])
    && var j := i + w + 5;
    && NumberAt(p, j, v)
    && (p[j + v + 3] == 'E' || p[j + v + 3] == 'W')
  }

  /** The groups of the match PatternAt(p, i, w, v). */
  function FixOf(p: string, i: nat, w: nat, v: nat): (f: Fix)
    requires PatternAt(p, i, w, v)
    ensures |f.lat.digits| == w + 3 && |f.lon.digits| == v + 3
  {
    var j := i + w + 5;
    Fix(AngleField(p[i..i + w + 3], p[i + w + 3]), AngleField(p[j..j + v + 3], p[j + v + 3]))
  }

  /** The character after four whole digits decides the latitude width,
      and likewise after five longitude digits. */
  lemma PatternWidths(p: string, i: nat, w: nat, v: nat)
    requires PatternAt(p, i, w, v)
    ensures w == (if p[i + 4] == '.' then 4 else 5)
    ensures v == (if p[i + w + 10] == '.' then 5 else 6)
  {
  }

  /** At a fixed start at most one choice of widths matches: with a '.'
      right after four digits there cannot be a fifth digit there, and the
      same for five and six longitude digits. */
  lemma PatternAtUnique(p: string, i: nat, w1: nat, v1: nat, w2: nat, v2: nat)
    requires PatternAt(p, i, w1, v1) && PatternAt(p, i, w2, v2)
    ensures w1 == w2 && v1 == v2
  {
    PatternWidths(p, i, w1, v1);
    PatternWidths(p, i, w2, v2);
  }

  /** The regular expression tried at one start index, with its backtracking
      order: greedy repetition tries five latitude digits before four and
      six longitude digits before five. */
  function MatchAt(p: string, i: nat): (r: Option<Fix>)
    ensures r.Some? ==> r.value.lat.hemisphere in "NS" && r.value.lon.hemisphere in "EW"
    ensures r.Some? ==> 7 <= |r.value.lat.digits| <= 8 && 8 <= |r.value.lon.digits| <= 9
  {
    if PatternAt(p, i, 5, 6) then Some(FixOf(p, i, 5, 6))
    else if PatternAt(p, i, 5, 5) then Some(FixOf(p, i, 5, 5))
    else if PatternAt(p, i, 4, 6) then Some(FixOf(p, i, 4, 6))
    else if PatternAt(p, i, 4, 5) then Some(FixOf(p, i, 4, 5))
    else None
  }

  /** The backtracking order does not matter, since at most one choice of
      widths matches: the match at i is the groups of whichever choice does,
      and there is none exactly when no choice does. */
  lemma MatchAtSpec(p: string, i: nat)
    ensures MatchAt(p, i).None? <==> forall w: nat, v: nat :: !PatternAt(p, i, w, v)
    ensures forall w: nat, v: nat :: PatternAt(p, i, w, v) ==> MatchAt(p, i) == Some(FixOf(p, i, w, v))
  {
    forall w: nat, v: nat | PatternAt(p, i, w, v)
      ensures MatchAt(p, i) == Some(FixOf(p, i, w, v))
    {
      if PatternAt(p, i, 5, 6) { PatternAtUnique(p, i, w, v, 5, 6); }
      else if PatternAt(p, i, 5, 5) { PatternAtUnique(p, i, w, v, 5, 5); }
      else if PatternAt(p, i, 4, 6) { PatternAtUnique(p, i, w, v, 4, 6); }
    }
  }

  /** Python's re.search from index `from` on: the first start index, scanning
      left to right, at which the pattern matches. */
  function Search(p: string, from: nat): (r: Option<Found>)
    ensures r.Some? ==> from <= r.value.start <= |p| && MatchAt(p, r.value.start) == Some(r.value.fix)
    ensures r.Some? ==> forall j :: from <= j < r.value.start ==> MatchAt(p, j).None?
    ensures r.None? ==> forall j :: from <= j <= |p| ==> MatchAt(p, j).None?
    decreases |p| + 1 - from
  {
    if from > |p| then None
    else
      match MatchAt(p, from)
      case Some(fix) => Some(Found(from, fix))
      case None => Search(p, from + 1)
  }

  /** A start with a match and no match between `from` and it is what the search returns. */
  lemma {:induction false} SearchFinds(p: string, from: nat, start: nat)
    requires from <= start <= |p| && MatchAt(p, start).Some?
    requires forall j :: from <= j < start ==> MatchAt(p, j).None?
    ensures Search(p, from) == Some(Found(start, MatchAt(p, start).value))
    decreases start - from
  {
    SearchStep(p, from);
    if from < start {
      SearchFinds(p, from + 1, start);
    }
  }

  /** re.search over the whole payload finds a match at `start` with groups
      `fix` exactly when the pattern matches there and nowhere to the left. */
  lemma SearchIsLeftmost(p: string, start: nat, fix: Fix)
    ensures Search(p, 0) == Some(Found(start, fix)) <==>
      && (exists w: nat, v: nat :: PatternAt(p, start, w, v) && fix == FixOf(p, start, w, v))
      && (forall j: nat, w: nat, v: nat :: j < start ==> !PatternAt(p, j, w, v))
  {
    var left := forall j: nat, w: nat, v: nat :: j < start ==> !PatternAt(p, j, w, v);
    MatchAtSpec(p, start);
    if Search(p, 0) == Some(Found(start, fix)) {
      var w: nat, v: nat :| PatternAt(p, start, w, v);
      assert fix == FixOf(p, start, w, v);
      forall j: nat, w': nat, v': nat | j < start ensures !PatternAt(p, j, w', v') {
        MatchAtSpec(p, j);
      }
    }
    if (exists w: nat, v: nat :: PatternAt(p, start, w, v) && fix == FixOf(p, start, w, v)) && left {
      forall j | 0 <= j < start ensures MatchAt(p, j).None? {
        MatchAtSpec(p, j);
      }
      SearchFinds(p, 0, start);
    }
  }

  /** Whatever the pattern matches contains no '/' inside its two groups. */
  lemma GroupsHaveNoSlash(p: string, i: nat, w: nat, v: nat)
    requires PatternAt(p, i, w, v)
    ensures '/' !in FixOf(p, i, w, v).lat.digits && '/' !in FixOf(p, i, w, v).lon.digits
  {
    var f := FixOf(p, i, w, v);
    forall k | 0 <= k < |f.lat.digits| ensures f.lat.digits[k] != '/' {
      assert f.lat.digits[k] == p[i + k];
    }
    forall k | 0 <= k < |f.lon.digits| ensures f.lon.digits[k] != '/' {
      assert f.lon.digits[k] == p[i + w + 5 + k];
    }
  }

  lemma {:induction false} PatternAtBackslashed(p: string, i: nat, w: nat, v: nat)
    ensures PatternAt(Backslashed(p), i, w, v) <==> PatternAt(p, i, w, v)
    ensures PatternAt(p, i, w, v) ==> FixOf(Backslashed(p), i, w, v) == FixOf(p, i, w, v)
  {
    var q := Backslashed(p);
    assert forall k :: 0 <= k < |p| ==> (IsDigit(q[k]) <==> IsDigit(p[k]));
    if PatternAt(p, i, w, v) {
      GroupsHaveNoSlash(p, i, w, v);
      BackslashedSlice(p, i, i + w + 3);
      BackslashedFixes(p[i..i + w + 3]);
      var j := i + w + 5;
      BackslashedSlice(p, j, j + v + 3);
      BackslashedFixes(p[j..j + v + 3]);
    }
  }

  /** The pattern does not tell '/' from '\': rewriting every '/' of the
      payload into '\' keeps the match at every index, groups included. */
  lemma {:induction false} MatchAtBackslashed(p: string, i: nat)
    ensures MatchAt(Backslashed(p), i) == MatchAt(p, i)
  {
    PatternAtBackslashed(p, i, 5, 6);
    PatternAtBackslashed(p, i, 5, 5);
    PatternAtBackslashed(p, i, 4, 6);
    PatternAtBackslashed(p, i, 4, 5);
  }

  lemma SearchStep(p: string, from: nat)
    requires from <= |p|
    ensures Search(p, from) ==
      if MatchAt(p, from).Some? then Some(Found(from, MatchAt(p, from).value)) else Search(p, from + 1)
  {
  }

  /** Two texts of the same length with the same match at every index give the same search result. */
  lemma {:induction false} SearchSame(p: string, q: string, from: nat)
    requires |q| == |p|
    requires forall i: nat :: MatchAt(q, i) == MatchAt(p, i)
    ensures Search(q, from) == Search(p, from)
    decreases |p| + 1 - from
  {
    if from <= |p| {
      SearchSame(p, q, from + 1);
      SearchStep(p, from);
      SearchStep(q, from);
    }
  }

  /** Hence the search, too, gives the same start and the same groups. */
  lemma SearchBackslashed(p: string, from: nat)
    ensures Search(Backslashed(p), from) == Search(p, from)
  {
    forall i: nat ensures MatchAt(Backslashed(p), i) == MatchAt(p, i) {
      MatchAtBackslashed(p, i);
    }
    SearchSame(p, Backslashed(p), from);
  }
}
