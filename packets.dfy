/** Concrete D-PRS lines: the packet of the program's header comment, one
    whose coordinates lie outside ±90 and ±180 degrees, which the parser
    passes on and the send guard lets through, and one with an empty
    identifier, which the send guard stops. */
module Packets {
  import opened Text
  import opened Converter
  import opened Pattern
  import opened Parser

  lemma {:induction false} SplitThree(a: string, b: string, c: string, sep: char)
    requires sep !in a && sep !in b && sep !in c
    ensures Split(a + [sep] + (b + [sep] + c), sep) == [a, b, c]
  {
    SplitUnseparated(c, sep);
    SplitSeparated(b, sep, c);
    SplitSeparated(a, sep, b + [sep] + c);
  }

  /** A line made of a "$$CRC" field, an identifier field and a payload
      parses to the callsign of the middle field and the conversions of the
      leftmost match in the payload. */
  lemma {:induction false} ParseFields(a: string, b: string, c: string, found: Found)
    requires StartsWith(a, Marker) && ',' !in a && ',' !in b && ',' !in c
    requires Search(c, 0) == Some(found)
    ensures var lat := Convert(found.fix.lat.digits, found.fix.lat.hemisphere);
      var lon := Convert(found.fix.lon.digits, found.fix.lon.hemisphere);
      && lat.Degrees? && lon.Degrees?
      && ParseDprs(a + [','] + (b + [','] + c)) == Report(Some(Callsign(b)), Some(lat.value), Some(lon.value))
  {
    var text := a + [','] + (b + [','] + c);
    assert text[..|Marker|] == a[..|Marker|];
    assert StartsWith(text, Marker);
    SplitThree(a, b, c, ',');
    var parts := Split(text, ',');
    assert |parts| == 3 && parts[1] == b && Payload(parts) == c;
    FoundConverts(c);
  }

  /** A match is impossible where the first character is not a digit or
      neither the fifth nor the sixth character is a '.'. */
  lemma NoMatchAt(p: string, i: nat)
    requires i + 5 < |p|
    requires !IsDigit(p[i]) || (p[i + 4] != '.' && p[i + 5] != '.')
    ensures MatchAt(p, i).None?
  {
  }

  /** The conversion of whole + "." + fraction, given the value of its
      degree digits and of its minutes in hundredths. */
  lemma Reads(whole: string, fraction: string, direction: char, degrees: nat, hundredths: nat)
    requires AllDigits(whole) && AllDigits(fraction)
    requires |fraction| == 2 && |whole| >= DegreeWidth(direction)
    requires DigitsValue(whole[..DegreeWidth(direction)]) == degrees
    requires AllDigits(whole[DegreeWidth(direction)..] + fraction)
    requires DigitsValue(whole[DegreeWidth(direction)..] + fraction) == hundredths
    ensures var v := degrees as real + hundredths as real / 6000.0;
      Convert(whole + "." + fraction, direction) == Degrees(if Southern(direction) then -v else v)
  {
    Hundredths(whole, fraction, direction);
  }

  /** The value of a text of two to four digits, place by place. */
  lemma Places(s: string)
    requires AllDigits(s) && 2 <= |s| <= 4
    ensures |s| == 2 ==> DigitsValue(s) == 10 * DigitValue(s[0]) + DigitValue(s[1])
    ensures |s| == 3 ==> DigitsValue(s) == 100 * DigitValue(s[0]) + 10 * DigitValue(s[1]) + DigitValue(s[2])
    ensures |s| == 4 ==>
      DigitsValue(s) == 1000 * DigitValue(s[0]) + 100 * DigitValue(s[1]) + 10 * DigitValue(s[2]) + DigitValue(s[3])
  {
    assert DigitsValue(s[..1]) == DigitValue(s[0]) by {
      assert s[..1][..0] == [];
    }
    assert DigitsValue(s[..2]) == 10 * DigitValue(s[0]) + DigitValue(s[1]) by {
      assert s[..2][..1] == s[..1];
    }
    if |s| >= 3 {
      assert s[..3][..2] == s[..2];
    }
    if |s| == 4 {
      assert s[..3] == s[..|s| - 1];
    }
    assert s[..|s|] == s;
  }

  const HeaderPayload: string := "DSTAR*:/020304h3437.54N/13534.14Eb/"

  /** The example packet of the program's header comment. */
  const HeaderLine: string := "$$CRC9396" + [','] + ("7M4MON>API705" + [','] + HeaderPayload)

  lemma HeaderNoEarlierMatch()
    ensures forall j | 0 <= j < 15 :: MatchAt(HeaderPayload, j).None?
  {
    forall j | 0 <= j < 15 ensures MatchAt(HeaderPayload, j).None? {
      NoMatchAt(HeaderPayload, j);
    }
  }

  lemma HeaderLatitudeText()
    ensures HeaderPayload[15..22] == "3437.54"
  {
  }

  lemma HeaderLongitudeText()
    ensures HeaderPayload[24..32] == "13534.14"
  {
  }

  lemma HeaderGroups()
    ensures PatternAt(HeaderPayload, 15, 4, 5)
    ensures FixOf(HeaderPayload, 15, 4, 5) == Fix(AngleField("3437.54", 'N'), AngleField("13534.14", 'E'))
  {
    HeaderLatitudeText();
    HeaderLongitudeText();
  }

  /** The leftmost match in its payload starts at index 15. */
  lemma HeaderMatch()
    ensures Search(HeaderPayload, 0)
      == Some(Found(15, Fix(AngleField("3437.54", 'N'), AngleField("13534.14", 'E'))))
  {
    HeaderNoEarlierMatch();
    HeaderGroups();
    MatchAtSpec(HeaderPayload, 15);
    SearchFinds(HeaderPayload, 0, 15);
  }

  lemma HeaderCallsign()
    ensures Callsign("7M4MON>API705") == "7M4MON"
  {
    assert "7M4MON>API705" == "7M4MON" + ['>'] + "API705";
    SplitSeparated("7M4MON", '>', "API705");
  }

  lemma HeaderLatitude()
    ensures Convert("3437.54", 'N') == Degrees(34.0 + 37.54 / 60.0)
  {
    assert "3437.54" == "3437" + "." + "54";
    assert "3437"[..2] == "34" && "3437"[2..] + "54" == "3754";
    Places("34");
    Places("3754");
    Reads("3437", "54", 'N', 34, 3754);
  }

  lemma HeaderLongitude()
    ensures Convert("13534.14", 'E') == Degrees(135.0 + 34.14 / 60.0)
  {
    assert "13534.14" == "13534" + "." + "14";
    assert "13534"[..3] == "135" && "13534"[3..] + "14" == "3414";
    Places("135");
    Places("3414");
    Reads("13534", "14", 'E', 135, 3414);
  }

  lemma HeaderFieldsPlain()
    ensures StartsWith("$$CRC9396", Marker)
    ensures ',' !in "$$CRC9396" && ',' !in "7M4MON>API705" && ',' !in HeaderPayload
  {
    assert "$$CRC9396"[..5] == Marker;
  }

  /** The packet in the program's header yields station 7M4MON at
      34 + 37.54/60 degrees north, 135 + 34.14/60 degrees east. */
  lemma HeaderLineParses()
    ensures ParseDprs(HeaderLine)
      == Report(Some("7M4MON"), Some(34.0 + 37.54 / 60.0), Some(135.0 + 34.14 / 60.0))
  {
    HeaderFieldsPlain();
    HeaderMatch();
    HeaderCallsign();
    HeaderLatitude();
    HeaderLongitude();
    ParseFields("$$CRC9396", "7M4MON>API705", HeaderPayload,
      Found(15, Fix(AngleField("3437.54", 'N'), AngleField("13534.14", 'E'))));
  }

  const FarPayload: string := "9959.99S" + "/" + "18100.00E"

  /** A line whose coordinates are out of range. */
  const FarLine: string := "$$CRC" + [','] + ("X" + [','] + FarPayload)

  lemma FarMatch()
    ensures Search(FarPayload, 0)
      == Some(Found(0, Fix(AngleField("9959.99", 'S'), AngleField("18100.00", 'E'))))
  {
    assert PatternAt(FarPayload, 0, 4, 5);
    assert FarPayload[0..7] == "9959.99" && FarPayload[9..17] == "18100.00";
    MatchAtSpec(FarPayload, 0);
    SearchFinds(FarPayload, 0, 0);
  }

  lemma FarLatitude()
    ensures Convert("9959.99", 'S') == Degrees(-(99.0 + 59.99 / 60.0))
  {
    assert "9959.99" == "9959" + "." + "99";
    assert "9959"[..2] == "99" && "9959"[2..] + "99" == "5999";
    Places("99");
    Places("5999");
    Reads("9959", "99", 'S', 99, 5999);
  }

  lemma FarLongitude()
    ensures Convert("18100.00", 'E') == Degrees(181.0)
  {
    assert "18100.00" == "18100" + "." + "00";
    assert "18100"[..3] == "181" && "18100"[3..] + "00" == "0000";
    Places("181");
    Places("0000");
    Reads("18100", "00", 'E', 181, 0);
  }

  /** Nothing bounds the result: a latitude beyond -90 and a longitude
      beyond 180 are returned as read and would be forwarded. */
  lemma NoRangeCheck()
    ensures var r := ParseDprs(FarLine);
      && r == Report(Some("X"), Some(-(99.0 + 59.99 / 60.0)), Some(181.0))
      && r.lat.value < -90.0 && r.lon.value > 180.0
      && ShouldSend(r)
  {
    assert "$$CRC"[..5] == Marker;
    assert ',' !in "$$CRC" && ',' !in "X" && ',' !in FarPayload;
    FarMatch();
    SplitUnseparated("X", '>');
    FarLatitude();
    FarLongitude();
    ParseFields("$$CRC", "X", FarPayload,
      Found(0, Fix(AngleField("9959.99", 'S'), AngleField("18100.00", 'E'))));
  }

  /** A line whose second field starts with '>'. */
  const NamelessLine: string := "$$CRC" + [','] + (">X" + [','] + FarPayload)

  /** The identifier can be empty: the line parses, with both coordinates,
      and only the send guard keeps it from being forwarded. */
  lemma EmptyIdentifier()
    ensures var r := ParseDprs(NamelessLine);
      && r == Report(Some(""), Some(-(99.0 + 59.99 / 60.0)), Some(181.0))
      && !ShouldSend(r)
  {
    assert "$$CRC"[..5] == Marker;
    assert ',' !in "$$CRC" && ',' !in ">X" && ',' !in FarPayload;
    FarMatch();
    assert ">X" == "" + ['>'] + "X";
    SplitSeparated("", '>', "X");
    FarLatitude();
    FarLongitude();
    ParseFields("$$CRC", ">X", FarPayload,
      Found(0, Fix(AngleField("9959.99", 'S'), AngleField("18100.00", 'E'))));
  }
}
