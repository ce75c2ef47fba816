# world.status map helpers in Dafny

This project models the four routines of `src/worldmap.cc` that make
decisions, and proves what they promise:

- `escape_js_string`: turns a country name into text that can stand inside a
  quoted JavaScript string literal. Quote, double quote, backslash, newline,
  carriage return and tab become the two-character escapes of ECMA-262
  (String Literals, section 12.9.4 of ECMAScript 2022); every other character is copied
  (module `JsEscape`, file `js_escape.dfy`).
- `rgb_to_hex`: formats three `int` channels as `#RRGGBB` through
  `snprintf` into an 8-byte buffer (module `HexColor`, file `hex_color.dfy`).
  The C formatting rules are written out: `%X` reads an `int` as its 32-bit
  unsigned pattern, `%02X` pads to two digits, and the buffer keeps 7
  characters and a NUL.
- the row loop of `load_countries`: appends to the global `countries` vector
  each query row whose country code and GeoJSON text are non-empty, with area
  0.0 when the area cell does not convert (module `Countries`, file
  `countries.dfy`; the vector is the `countries` field of class
  `CountryTable`).
- the feature loop of `WMapLibre::render`: writes one feature per country,
  with a comma after each but the last, and writes the FeatureCollection, its
  source and its layers only when the country list is set and not empty
  (module `MapRender`, file `map_render.dfy`).

The loops of `escape_js_string`, of `load_countries` and of `render` are
methods with those loops. `rgb_to_hex` has no loop of its own: the loops of
`HexColor.Snprintf` and `HexColor.CString` stand for the library's `snprintf`
and the `std::string(const char*)` constructor it calls. Each method is proved
against a specification function (`Escape`, `RgbHex`, `Appended`,
`FeatureArray`);
the lemmas state the properties of those functions. `wrappers.dfy` holds the
`Option` type.

## Model

| member | source | states |
|---|---|---|
| `JsEscape.EscapeChar` | src/worldmap.cc:109-118 | a special character becomes a backslash and a letter that reads back as that character; any other character is copied as it is |
| `JsEscape.EscapeJsString` | src/worldmap.cc:102-121 | the loop's output is the per-character escape of the whole input, and its length is the input length plus the number of special characters |
| `JsEscape.EscapeAppend` | src/worldmap.cc:106-119 | escaping works per character: the escape of a concatenation is the concatenation of the escapes |
| `JsEscape.EscapeLength` | src/worldmap.cc:111-117 | the output is exactly one character longer per special character in the input |
| `JsEscape.EscapeUnchangedIff` | src/worldmap.cc:106-119 | a string is returned unchanged if and only if it holds none of the six special characters |
| `JsEscape.EscapeHasNoRawControl` | src/worldmap.cc:114-116 | the output never holds a raw newline, carriage return or tab |
| `JsEscape.UnescapeEscape` | src/worldmap.cc:102-121 | reading the output back as a literal body (each backslash pair to its character) recovers the input |
| `JsEscape.EscapeUnescape` | src/worldmap.cc:102-121 | every literal body that reads back to a string is that string's escape, so the escapes are exactly the well-formed literal bodies |
| `JsEscape.EscapeInjective` | src/worldmap.cc:102-121 | two different inputs never escape to the same text |
| `HexColor.UpperHex` | src/worldmap.cc:130 | a `%X` conversion is at least one uppercase hexadecimal digit, and at least two from 16 upwards |
| `HexColor.ZeroPad2` | src/worldmap.cc:130 | the `02` of `%02X` left-pads with zeros to at least two characters and keeps the digits as the suffix |
| `HexColor.AsUnsigned` | src/worldmap.cc:130 | an `int` passed to `%X` is read as a 32-bit unsigned value, equal to the `int` when it is not negative |
| `HexColor.Kept` | src/worldmap.cc:129-130 | snprintf keeps at most size - 1 characters of the formatted text |
| `HexColor.Snprintf` | src/worldmap.cc:129-130 | the buffer receives the kept prefix of the formatted text followed by a NUL, every cell after the NUL keeps its old value (an empty buffer is not touched), and the untruncated length is returned |
| `HexColor.CString` | src/worldmap.cc:131 | the returned string is the buffer's contents before the first NUL |
| `HexColor.ThroughBuffer` | src/worldmap.cc:129-131 | a formatted text without NUL comes back from the buffer cut to size - 1 characters |
| `HexColor.RgbToHex` | src/worldmap.cc:127-132 | the result is the formatted text cut to the 8-byte buffer: always `#` and exactly six uppercase digits |
| `HexColor.FieldShape` | src/worldmap.cc:130 | one `%02X` conversion of any `int` is at least two uppercase digits |
| `HexColor.FormattedShape` | src/worldmap.cc:130 | the untruncated text is `#` followed by at least six uppercase digits |
| `HexColor.RgbHexShape` | src/worldmap.cc:129-131 | for every `int` input, in range or not, the result has exactly seven characters, `#` then uppercase digits |
| `HexColor.FieldOfByte` | src/worldmap.cc:130 | a channel in 0..255 prints as its high digit then its low digit |
| `HexColor.RgbHexOfBytes` | src/worldmap.cc:127-131 | for channels in 0..255 nothing is cut and the text is `#` and two digits per channel in r, g, b order |
| `HexColor.ParseRgbHex` | src/worldmap.cc:127-131 | for channels in 0..255, reading the digits back gives r, g, b |
| `HexColor.RgbHexOfParse` | src/worldmap.cc:127-131 | every `#RRGGBB` text with uppercase digits is the result for the channels it reads as, and those are in 0..255 |
| `HexColor.FieldOfThreeDigits` | src/worldmap.cc:130 | a channel in 256..4095 prints as three digits |
| `HexColor.FieldOfSmallNegative` | src/worldmap.cc:130 | a channel in -256..-1 is read as an unsigned value and prints as eight digits, the first six 'F' |
| `HexColor.WideChannelAliases` | src/worldmap.cc:129-131 | channels are not range-checked: a red channel in 256..4095 pushes its digits into the green and blue places, so the result equals that of an in-range colour, e.g. (256, 0, 0) gives the text of (16, 0, 0) |
| `HexColor.NegativeChannelIsWhite` | src/worldmap.cc:129-131 | a red channel in -256..-1 fills the buffer with 'F': the result is `#FFFFFF` whatever the other channels are |
| `Countries.CountryTable.constructor` | src/worldmap.cc:41 | the global country vector starts empty |
| `Countries.CountryTable.AppendRows` | src/worldmap.cc:70-87 | after the row loop the vector is its old contents followed by the accepted rows' countries, in row order |
| `Countries.CountryTable.LoadCountries` | src/worldmap.cc:48-96 | the status is 1 exactly when the database opens, LOAD spatial succeeds and the query succeeds, and -1 otherwise; the INSTALL result is ignored; on -1 the vector is unchanged |
| `Countries.AppendedConcat` | src/worldmap.cc:71-87 | loading rows in two batches appends the same as loading them at once |
| `Countries.AppendedLength` | src/worldmap.cc:70-87 | the number appended is the number of accepted rows, at most the row count, and equal to it exactly when every row is accepted |
| `Countries.AppendedIndexed` | src/worldmap.cc:71-87 | the k-th appended country is built from the k-th accepted row, the accepted positions increase, and every accepted row is among them |
| `Countries.AppendedMembership` | src/worldmap.cc:83-86 | a country is appended if and only if some row with non-empty code and GeoJSON produces it |
| `Countries.AreaFailureKeepsRow` | src/worldmap.cc:76-85 | a row whose area does not convert is still appended, with area 0.0 |
| `MapRender.WriteFeatures` | src/worldmap.cc:223-239 | the loop appends exactly the feature array of the country list to what the stream already holds, each feature carrying the code, the escaped name, the area and the GeoJSON |
| `MapRender.Render` | src/worldmap.cc:195-318 | a full render writes the map setup and the load-handler close, and the collection header, features, footer, source and layers, in that order, exactly when the country list is set and not empty; a render that is not full writes nothing |
| `MapRender.FeatureArrayHasNoFrame` | src/worldmap.cc:223-239 | the feature array holds only features, commas and newlines |
| `MapRender.ItemsLayout` | src/worldmap.cc:223-239 | the loop writes three chunks per country, feature, comma, newline, except that the last country has no comma |
| `MapRender.FeatureArrayEnds` | src/worldmap.cc:223-239 | for n >= 1 countries the array has 3n - 1 chunks and ends with the last feature and a newline, with no comma after it |
| `MapRender.FeatureArrayCommaAfter` | src/worldmap.cc:237-238 | a feature is followed by a comma if and only if it is not the last one |
| `MapRender.FeatureArrayCommaBetween` | src/worldmap.cc:235-238 | every comma stands right after a feature and right before a newline |
| `MapRender.FeatureArrayCommaCount` | src/worldmap.cc:223-238 | n countries give exactly n - 1 commas, and an empty list none |
| `MapRender.FeatureArrayFeatures` | src/worldmap.cc:223-234 | each country gives one feature, in list order, and the name in it reads back as the country's name |

## Left out

- The Wt widget and application code (the `WMapLibre` constructor and CSS rules, `ApplicationWorldMap`, `create_application`, `main`): layout and runtime glue with no decisions.
- The DuckDB calls in `load_countries` (opening the file, INSTALL and LOAD spatial, the SQL query, `HasError`): what they answer is an input of `LoadCountries`, and the upper-casing of the code is the engine's work.
- An exception thrown by the engine while the row loop is running: the rows are taken as already fetched, so a partial append followed by status -1 is not modelled.
- The error message written to the standard error stream when `load_countries` catches an exception.
- Floating-point areas and how `<<` prints them: an area is an opaque `real` that is copied, never computed with.
- The literal JavaScript text, paint expressions and popup and click handlers: each block is one chunk of `MapRender.Chunk`; `MapSetup` also stands for the widget's `jsRef()` reference spliced into the map creation, which the model does not carry.
- The legend HTML built in `ApplicationWorldMap` (src/worldmap.cc:371-380): it is not written by `render` and has no chunk.
- The hand-over of the script at the end of `render` (`app->require` of the turf library and `app->doJavaScript`): browser and framework effects; the model's `Render` returns the chunks that would be sent.
- `src/spatial.hh`: it declares `Point2D`, `BoundingBox` and `SpatialClient` without bodies, so there is no behaviour to model.
- The global `db_file` names the database file `load_countries` opens; whether that open succeeds is the `Engine.opens` input of `LoadCountries`.
- The global `continent_colors`: it is declared but never used.
- Country codes are written into the script without escaping, as the source does; the model keeps them raw.
