/** parse_dprs: one received line becomes (id, lat, lon). A line is a
    position packet only when it starts with "$$CRC". It is split on ',';
    the identifier is the second field up to its first '>', and the
    coordinates are the first match of the coordinate pattern inside the
    third field (or inside "" when there is no third field). Every other
    path, including the IndexError of a line without ',', gives
    (None, None, None). The guard of send_to_traccar is modelled beside it. */
module Parser {
  import opened Text
  import opened Converter
  import opened Pattern

  /** The literal every D-PRS position line starts with. */
  const Marker: string := "$$CRC"

  /** The triple parse_dprs returns; None stands for Python's None. */
  datatype Report = Report(id: Option<string>, lat: Option<real>, lon: Option<real>)

  const Absent: Report := Report(None, None, None)

  /** parts[2] if len(parts) > 2 else '': the third field, and no IndexError
      when there is none. */
  function Payload(parts: seq<string>): (p: string)
    ensures |parts| > 2 ==> p == parts[2]
    ensures |parts| <= 2 ==> p == ""
  {
    if |parts| > 2 then parts[2] else ""
  }

  /** parts[1].split('>')[0]: the longest prefix of the field without '>',
      which is the whole field when it has no '>'. */
  function Callsign(field: string): (c: string)
    ensures StartsWith(field, c) && '>' !in c
    ensures c == field || field[|c|] == '>'
    ensures '>' !in field ==> c == field
  {
    Split(field, '>')[0]
  }

  /** A converter result as parse_dprs passes it on: a number or None. */
  function AsOption(c: Conversion): Option<real>
  {
    if c.Degrees? then Some(c.value) else None
  }

  /** The groups of a match at index i: the text of four or five whole digits,
      '.', two digits, and that of five or six whole digits, '.', two digits. */
  lemma {:induction false} MatchedGroups(p: string, i: nat)
    requires MatchAt(p, i).Some?
    ensures var f := MatchAt(p, i).value;
      && (f.lat.hemisphere == 'N' || f.lat.hemisphere == 'S')
      && (f.lon.hemisphere == 'E' || f.lon.hemisphere == 'W')
      && exists w: nat, v: nat :: PatternAt(p, i, w, v) && f == FixOf(p, i, w, v)
  {
  }

  /** n digits, '.', two digits, with n at least the letter's degree width, always convert. */
  lemma {:induction false} NumberConverts(p: string, i: nat, n: nat, direction: char)
    requires NumberAt(p, i, n) && DegreeWidth(direction) <= n
    ensures Convert(p[i..i + n + 3], direction).Degrees?
  {
    var whole, fraction := p[i..i + n], p[i + n + 1..i + n + 3];
    assert AllDigits(whole) && AllDigits(fraction) by {
      DigitsAtSlice(p, i, n);
      DigitsAtSlice(p, i + n + 1, 2);
    }
    assert p[i..i + n + 3] == whole + "." + fraction by {
      PointSlice(p, i, n);
    }
    Hundredths(whole, fraction, direction);
  }

  /** n characters, the '.' at i + n, and two more: the slice is the two pieces around the point. */
  lemma PointSlice(p: string, i: nat, n: nat)
    requires i + n + 3 <= |p| && p[i + n] == '.'
    ensures p[i..i + n + 3] == p[i..i + n] + "." + p[i + n + 1..i + n + 3]
  {
    var t := p[i..i + n] + "." + p[i + n + 1..i + n + 3];
    assert |t| == n + 3;
    forall k | 0 <= k < n + 3 ensures p[i..i + n + 3][k] == t[k] {
      if k < n {
      } else if k == n {
      } else {
        assert t[k] == p[i + n + 1..i + n + 3][k - n - 1];
      }
    }
  }

  lemma DigitsAtSlice(p: string, i: nat, n: nat)
    requires DigitsAt(p, i, n)
    ensures AllDigits(p[i..i + n])
  {
  }

  /** Both groups of a match convert: the latitude has at least two whole
      digits and the longitude at least three. */
  lemma {:induction false} MatchConverts(p: string, i: nat, w: nat, v: nat)
    requires PatternAt(p, i, w, v)
    ensures var f := FixOf(p, i, w, v);
      Convert(f.lat.digits, f.lat.hemisphere).Degrees? && Convert(f.lon.digits, f.lon.hemisphere).Degrees?
  {
    var f := FixOf(p, i, w, v);
    var j := i + w + 5;
    assert f.lat.digits == p[i..i + w + 3] && DegreeWidth(f.lat.hemisphere) == 2;
    assert f.lon.digits == p[j..j + v + 3] && DegreeWidth(f.lon.hemisphere) == 3;
    NumberConverts(p, i, w, f.lat.hemisphere);
    NumberConverts(p, j, v, f.lon.hemisphere);
  }

  /** The groups of the leftmost match always convert. */
  lemma {:induction false} FoundConverts(p: string)
    requires Search(p, 0).Some?
    ensures var f := Search(p, 0).value.fix;
      && Convert(f.lat.digits, f.lat.hemisphere).Degrees?
      && Convert(f.lon.digits, f.lon.hemisphere).Degrees?
  {
    var start := Search(p, 0).value.start;
    MatchedGroups(p, start);
    var w: nat, v: nat :| PatternAt(p, start, w, v) && Search(p, 0).value.fix == FixOf(p, start, w, v);
    MatchConverts(p, start, w, v);
  }

  function ParseDprs(text: string): (r: Report)
    ensures r == Absent || (r.id.Some? && r.lat.Some? && r.lon.Some?)
  {
    if !StartsWith(text, Marker) then Absent
    else
      var parts := Split(text, ',');
      if |parts| < 2 then Absent  // parts[1] raises IndexError, which is caught
      else
        var id := Callsign(parts[1]);
        var payload := Payload(parts);
        match Search(payload, 0)
        case None => Absent
        case Some(found) =>
          FoundConverts(payload);
          var lat := Convert(found.fix.lat.digits, found.fix.lat.hemisphere);
          var lon := Convert(found.fix.lon.digits, found.fix.lon.hemisphere);
          if lat.Raises? || lon.Raises? then Absent  // a ValueError, also caught
          else Report(Some(id), AsOption(lat), AsOption(lon))
  }

  /** A line that does not start with "$$CRC" is not a packet. */
  lemma NotMarkerIsAbsent(text: string)
    requires !StartsWith(text, Marker)
    ensures ParseDprs(text) == Absent
  {
  }

  /** A "$$CRC" line without ',' does not fail: the missing second field gives (None, None, None). */
  lemma NoCommaIsAbsent(text: string)
    requires ',' !in text
    ensures ParseDprs(text) == Absent
  {
  }

  /** When the parse succeeds: exactly for a "$$CRC" line with a ',' whose
      third field (or "") contains the pattern. Then both coordinates are the
      converter applied to the groups of the leftmost match. */
  lemma {:induction false} ParsedWhen(text: string)
    ensures ParseDprs(text).id.Some? <==>
      && StartsWith(text, Marker)
      && ',' in text
      && Search(Payload(Split(text, ',')), 0).Some?
    ensures ParseDprs(text).id.Some? ==>
      var f := Search(Payload(Split(text, ',')), 0).value.fix;
      && ParseDprs(text).lat == Some(Convert(f.lat.digits, f.lat.hemisphere).value)
      && ParseDprs(text).lon == Some(Convert(f.lon.digits, f.lon.hemisphere).value)
  {
    if StartsWith(text, Marker) && ',' in text {
      var payload := Payload(Split(text, ','));
      if Search(payload, 0).Some? {
        FoundConverts(payload);
      }
    }
  }

  /** The identifier is the second ','-field up to its first '>', the whole
      field when it has none; it may be empty. */
  lemma {:induction false} ParsedIdentifier(text: string)
    requires ParseDprs(text).id.Some?
    ensures var field := Split(text, ',')[1];
      var id := ParseDprs(text).id.value;
      && StartsWith(field, id)
      && '>' !in id
      && (id == field || field[|id|] == '>')
  {
  }

  /** Python's `lat is None or lon is None or not device_id` in send_to_traccar, negated. */
  predicate ShouldSend(r: Report)
    ensures ShouldSend(r) <==> r.id.Some? && |r.id.value| > 0 && r.lat.Some? && r.lon.Some?
  {
    !(r.lat.None? || r.lon.None? || r.id.None? || r.id.value == "")
  }

  /** A parsed line is forwarded exactly when it yielded a non-empty identifier. */
  lemma SendsExactly(text: string)
    ensures ShouldSend(ParseDprs(text)) <==> ParseDprs(text).id.Some? && ParseDprs(text).id.value != ""
  {
  }

  lemma {:induction false} MarkerBackslashed(text: string)
    ensures StartsWith(Backslashed(text), Marker) <==> StartsWith(text, Marker)
  {
    if |text| >= |Marker| {
      BackslashedSlice(text, 0, |Marker|);
      assert Backslashed(text)[..|Marker|] == Backslashed(text[..|Marker|]);
      if Backslashed(text[..|Marker|]) == Marker {
        forall k | 0 <= k < |Marker| ensures text[k] == Marker[k] {
          assert Unslash(text[k]) == Marker[k];
        }
      }
      if text[..|Marker|] == Marker {
        BackslashedFixes(Marker);
      }
    }
  }

  /** Replacing '/' by '\' anywhere in a line leaves both coordinates as they
      were; the identifier, which the pattern does not look at, goes through
      the same replacement. In particular a '\' between latitude and longitude
      parses like a '/', and a line whose identifier has no '/' gives the same triple. */
  lemma {:induction false} SeparatorIndependence(text: string)
    ensures var r, r' := ParseDprs(text), ParseDprs(Backslashed(text));
      && r'.lat == r.lat && r'.lon == r.lon
      && r'.id == (if r.id.Some? then Some(Backslashed(r.id.value)) else None)
      && ((r.id.None? || '/' !in r.id.value) ==> r' == r)
  {
    var t := Backslashed(text);
    MarkerBackslashed(text);
    if StartsWith(text, Marker) {
      var parts := Split(text, ',');
      SplitBackslashed(text, ',');
      var parts' := Split(t, ',');
      assert |parts'| == |parts|;
      if |parts| >= 2 {
        SplitBackslashed(parts[1], '>');
        assert Callsign(parts'[1]) == Backslashed(Callsign(parts[1]));
        assert Payload(parts') == Backslashed(Payload(parts));
        SearchBackslashed(Payload(parts), 0);
        if '/' !in Callsign(parts[1]) {
          BackslashedFixes(Callsign(parts[1]));
        }
      }
    }
  }

  /** "$$CRC" has no ',', so a line starts with it exactly when its first ','-field does. */
  lemma {:induction false} MarkerInFirstField(text: string)
    ensures StartsWith(text, Marker) <==> StartsWith(Split(text, ',')[0], Marker)
  {
    var first := Split(text, ',')[0];
    if |first| >= |Marker| {
      assert text[..|Marker|] == first[..|Marker|];
    }
  }

  /** The third field with every '/' rewritten into '\'. */
  function BackslashedPayload(parts: seq<string>): (q: seq<string>)
    requires |parts| >= 3
    ensures |q| == |parts| && q[..2] == parts[..2] && q[3..] == parts[3..]
    ensures q[2] == Backslashed(parts[2])
  {
    parts[..2] + [Backslashed(parts[2])] + parts[3..]
  }

  /** Choosing '\' instead of '/' anywhere in the payload, in particular
      between latitude and longitude, changes nothing in the result: not the
      coordinates and not the identifier, whatever other fields hold. */
  lemma {:induction false} PayloadSeparator(text: string)
    requires |Split(text, ',')| >= 3
    ensures ParseDprs(Join(BackslashedPayload(Split(text, ',')), ',')) == ParseDprs(text)
  {
    var parts := Split(text, ',');
    var q := BackslashedPayload(parts);
    var t := Join(q, ',');
    forall k | 0 <= k < |q| ensures ',' !in q[k] {
      if k == 2 {
        forall i | 0 <= i < |q[2]| ensures q[2][i] != ',' {
          assert q[2][i] == Unslash(parts[2][i]);
        }
      } else if k < 2 {
        assert q[k] == parts[k];
      } else {
        assert q[k] == q[3..][k - 3] == parts[k];
      }
    }
    SplitJoin(q, ',');
    assert Split(t, ',') == q;
    assert q[0] == parts[0] && q[1] == parts[1];
    MarkerInFirstField(text);
    MarkerInFirstField(t);
    assert Payload(q) == Backslashed(Payload(parts));
    SearchBackslashed(Payload(parts), 0);
  }
}
