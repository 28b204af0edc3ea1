# dprs2traccar parser, modelled in Dafny

dprs2traccar reads D-STAR D-PRS position lines from a serial port and
forwards each station's position to a Traccar server. The part with real
logic is modelled here:

- `parse_dprs` turns one received line into `(id, lat, lon)`. It recognises
  the `$$CRC` marker and splits the line on `,`. The callsign is taken from
  the second field up to its first `>`. It then searches the third field for
  the first match of `(\d{4,5}\.\d{2})([NS])[/\\](\d{5,6}\.\d{2})([EW])`.
- `convert_nmea_to_decimal` turns a degrees-and-minutes text such as
  `3437.54` and a hemisphere letter into signed decimal degrees.
- The guard of `send_to_traccar` decides whether a parsed triple is forwarded.

Modules, one per file:

- `Text` (`text.dfy`): ASCII digits and their value, prefixes, Python's
  `str.split` with a one-character separator (proved inverse to `join` both
  ways), and the rewriting of every `/` into `\`.
- `Converter` (`converter.dfy`): the conversion, as a three-way result.
  `NoValue` is Python's `None`. `Degrees(x)` is a number. `Raises` is the
  `ValueError` of `int()` or `float()`.
- `Pattern` (`pattern.dfy`): the regular expression at one start index,
  with the greedy backtracking order, and the leftmost-match search.
- `Parser` (`parser.dfy`): `parse_dprs`, its properties, and the send guard.
- `Packets` (`packets.dfy`): the example packet of the program's header
  comment, a packet with out-of-range coordinates, and one whose identifier
  is empty.

All of the core is pure, so the model is functions and lemmas. Degrees are
exact reals.

Behaviour of the code worth knowing, each stated by a lemma:

- When the payload has no coordinate match, the identifier is dropped too
  and the result is (None, None, None) (`Parser.ParsedWhen`).
- Nothing checks that latitude lies in [-90, 90] or longitude in
  [-180, 180] (`Packets.NoRangeCheck`).
- Nothing checks that the identifier is non-empty
  (`Parser.ParsedIdentifier`, `Packets.EmptyIdentifier`); only the send
  guard filters it out (`Parser.SendsExactly`).

## Model

| member | source | states |
|---|---|---|
| Parser.ParseDprs | dprs2traccar.py:46-64 | the result is either (None, None, None) or has identifier, latitude and longitude all present; no input makes it fail |
| Parser.NotMarkerIsAbsent | dprs2traccar.py:47-48 | a line not starting with `$$CRC` gives (None, None, None) |
| Parser.NoCommaIsAbsent | dprs2traccar.py:50-52 | a line without `,` gives (None, None, None): the IndexError of `parts[1]` is caught |
| Parser.ParsedWhen | dprs2traccar.py:53-64 | the parse succeeds exactly when the line starts with `$$CRC`, has a `,`, and its third field (or `''`) has a match; then latitude and longitude are the converter applied to the groups of the leftmost match |
| Parser.ParsedIdentifier | dprs2traccar.py:52 | the identifier is a `>`-free prefix of the second field: the whole field, or the part before its first `>`; it may be empty |
| Parser.SeparatorIndependence | dprs2traccar.py:56 | replacing every `/` of a line by `\` leaves latitude and longitude unchanged and applies the same replacement to the identifier; when the identifier has no `/`, the whole result is unchanged |
| Parser.PayloadSeparator | dprs2traccar.py:51-56 | rewriting every `/` of the third field into `\`, whatever the other fields hold, leaves the whole result unchanged, identifier included |
| Parser.MarkerInFirstField | dprs2traccar.py:47 | a line starts with `$$CRC` exactly when its first `,`-field does |
| Parser.Payload | dprs2traccar.py:53 | the third field when the line has one, and the empty text (no IndexError) when it has fewer than three |
| Parser.Callsign | dprs2traccar.py:52 | `field.split('>')[0]`: a prefix of the field with no `>`, followed in the field by `>` unless it is the whole field; the whole field when it has no `>` |
| Parser.ShouldSend | dprs2traccar.py:68-69 | the guard lets a triple through exactly when the identifier is present and non-empty and both coordinates are present |
| Parser.SendsExactly | dprs2traccar.py:67-69 | a parsed line is forwarded exactly when its identifier is present and non-empty; both coordinates are then present |
| Converter.Convert | dprs2traccar.py:30-43 | None exactly for an empty text or one without `.`; a number only when the text is longer than the degree width and its first two (N, S) or three (other letters) characters are digits |
| Converter.DecimalValue | dprs2traccar.py:36-39 | `float()` of digits, `.`, digits: at least the value of its whole digits and less than one more |
| Converter.FractionValue | dprs2traccar.py:36-39 | the digits after the point read as a value in [0, 1) |
| Converter.SignSymmetry | dprs2traccar.py:41-42 | S gives the negation of N, and W the negation of E, on every text, None and errors included |
| Converter.Sign | dprs2traccar.py:40-42 | N, E and any other letter except S and W never give a negative value; S and W never give a positive one |
| Converter.OtherLettersReadAsEast | dprs2traccar.py:34-39 | every letter other than N, S and W reads three degree digits, like E |
| Converter.WholeDegrees | dprs2traccar.py:34-40 | when the minutes are below 60, the magnitude lies in [d, d+1), d being the two or three leading digits |
| Converter.Hundredths | dprs2traccar.py:34-42 | digits, `.`, two digits, with at least the degree width of whole digits, always converts, to an exact multiple of 1/6000 degree with the letter's sign |
| Converter.DigitsValueAppend | dprs2traccar.py:35-38 | the value of the digits a+b is a shifted left by the length of b, plus b |
| Parser.FoundConverts | dprs2traccar.py:57-59 | both groups of the leftmost match always convert to a number, so the ValueError path of the converter is never taken from `parse_dprs` |
| Pattern.PatternAt | dprs2traccar.py:56 | the regular expression matches at one index with 4 or 5 latitude and 5 or 6 longitude whole digits; such a match spans 18 to 20 characters of the payload, none of them `,` or `>` |
| Pattern.MatchAt | dprs2traccar.py:56 | the expression tried at one index in its backtracking order (5/6, 5/5, 4/6, 4/5 whole digits); a match yields a latitude text of 7 or 8 characters with `N` or `S` and a longitude text of 8 or 9 with `E` or `W` |
| Pattern.PatternAtUnique | dprs2traccar.py:56 | at one start index at most one choice of 4 or 5 latitude digits and 5 or 6 longitude digits matches |
| Pattern.MatchAtSpec | dprs2traccar.py:56 | the greedy match at an index fails exactly when no choice of widths matches there; otherwise it gives the groups of that choice |
| Pattern.Search | dprs2traccar.py:56 | a found match lies at or after the starting index and the pattern matches there with those groups; nothing matches before it; no result means no index matches |
| Pattern.SearchIsLeftmost | dprs2traccar.py:56 | `re.search` finds a match at `start` with given groups exactly when the pattern matches there with them and at no earlier index |
| Pattern.SearchBackslashed | dprs2traccar.py:56 | the search finds the same start and groups after every `/` of the payload is replaced by `\` |
| Text.DigitsValue | dprs2traccar.py:35-38 | `int()` of a text of ASCII digits: a value below 10 to the power of its length (the place-value law is `Converter.DigitsValueAppend`) |
| Text.StartsWith | dprs2traccar.py:47 | `str.startswith`: the text is at least as long as the prefix and begins with it |
| Text.Split | dprs2traccar.py:51-52 | one more piece than separators; no piece contains the separator; the first piece is the longest separator-free prefix |
| Text.JoinSplit | dprs2traccar.py:51-52 | joining the pieces of a split with the separator gives back the text |
| Text.SplitJoin | dprs2traccar.py:51-52 | splitting a join of separator-free pieces gives back the pieces |
| Text.SplitBackslashed | dprs2traccar.py:51-52 | replacing `/` by `\` before splitting on `,` or `>` replaces it in each piece and changes nothing else |
| Packets.HeaderLineParses | dprs2traccar.py:14 | the header's example packet gives id `7M4MON`, latitude 34 + 37.54/60 and longitude 135 + 34.14/60 |
| Packets.EmptyIdentifier | dprs2traccar.py:52-60 | a line whose second field starts with `>` parses with identifier `""` and both coordinates, and the send guard does not forward it |
| Packets.NoRangeCheck | dprs2traccar.py:34-43 | a packet with `9959.99S` and `18100.00E` gives a latitude below -90 and a longitude above 180, and the send guard lets it through |

## Left out

- Reading lines from the serial port, decoding and stripping them, and the main loop (dprs2traccar.py:82-98): I/O.
- The HTTP GET to Traccar and its status printing (dprs2traccar.py:70-79): I/O. Only the guard at lines 67-69 is modelled.
- Printing the caught exception in `parse_dprs` (dprs2traccar.py:61-62): output only. The caught error is modelled as the (None, None, None) result.
- Converter.Convert: values are exact reals. Binary floating point in `float()` and the division by 60, and the final `round(decimal, 6)`, are not modelled.
- Converter.Convert: only ASCII digits are read as digits. Other forms that Python's `int()` and `float()` accept are modelled as `Raises`: surrounding whitespace, a sign, `_` between digits, an exponent, `inf`/`nan`, and non-ASCII Unicode digits. Of these forms only non-ASCII digits can reach the converter from `parse_dprs`, and the model's pattern already excludes them (see the `Pattern.MatchAt` line below); every group the model's pattern hands over converts (`Converter.Hundredths`).
- Pattern.MatchAt: `\d` in Python also matches non-ASCII Unicode decimal digits. The model's pattern accepts ASCII `0`-`9` only.
- Calling `parse_dprs` twice on the same line gives the same result. This holds because the model is made of functions, so there is no lemma for it.
