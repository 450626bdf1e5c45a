# cck_gpx in Dafny: the per-stop extraction

`cck_gpx.py` turns a saved delivery-route web page into GPX waypoints. Every
`<li>` of the route list is one stop. For each stop the script either reads
the client's name and plus code out of the page's structure (the strict
path), or falls back to the one Google Maps link under the item and names
the stop "Delivery no N". The stop becomes a waypoint only when its final
code is a valid, full plus code.

This project models that loop and the three helpers it depends on:

- `match_tags` (module `Matcher`), the one-pass structural matcher. Its
  result is three-way: a dict, `None`, or a raised exception.
- `firstnameish` (module `Names`), the name shortener.
- `place_id_from_google_maps_url` (module `PlaceIds`).
- The per-item strict extraction (module `Route`).
- The fallback, the waypoint decision and the run's outcome (module `Stops`).

Supporting modules:

- `PyStr` models Python's `str.split`, `strip`, `rstrip` and `' '.join`. It
  uses the exact set of characters for which `str.isspace` holds.
- `Dom` models the parsed `<li>` subtree. Nodes are elements (tag, `href`,
  children), text nodes, and other nodes.
- `Filters` defines an order-preserving filter of a sequence. It is used to
  state what the child selection and the mandatory slots of a pattern keep.
- `Decimal` models `%d` formatting.
- `Optional` is the option type.

The foreign code the loop consults is passed in as functions, gathered in
`Route.Oracles`:

- how many nodes lxml's `self::<expr>` test returns;
- `urlparse(...).path` followed by `unquote`;
- `urlparse(...).scheme`;
- `unquote`;
- the Open Location Code library's `isValid`, `isFull` and `decode`.

The behaviour modelled follows the code as written:

- `match_tags` checks the child count only when the pattern has exactly one
  optional slot. With no optional slot, surplus children are ignored. With
  too few children, `nodelist.pop(0)` raises `IndexError`, although the
  comment on line 179 says it cannot.
  - The per-item `except` on line 368 does not catch `IndexError`, so such an
    item ends the run (`Stops.Run` returns `Aborted`).
  - This can happen: an item with neither a child element nor non-blank text
    (`<li></li>`, or whitespace and comments only) fails the single-slot item
    pattern this way (`Route.ChildlessItemCrashes`).
- `match_tags` raises `ValueError` on a selector that returns more than one
  node, although line 183 calls that a bad pattern. The same `except`
  catches it, so the item falls back like any other failure.
- `firstnameish` keeps the first token verbatim. So "F. Bloggs Smith"
  shortens to "F. Bloggs", and "F Bloggs" to "F B.".
- A blank client name gives `ptname = None` without failing the strict path.
- The strict path checks the plus code for validity only (line 345), not for
  fullness. A valid short code therefore gets no fallback, and the stop is
  dropped at line 387.
- The strict path gathers address, portions, instructions, allergies, the
  "not home" note and the telephone number only for debugging. The model
  keeps them in `Route.Record`.
- The map link's `href` may be missing. Then `place_id_from_google_maps_url`
  sees `None`, which `urlparse` turns into an empty path, and no identifier
  results.
- A `tel` link without an `href` fails the scheme test.
- The regular expression `(.*)$` does not cross a newline. A decoded path
  whose remainder spans lines therefore yields no identifier.

## Model

| member | source | states |
|---|---|---|
| PyStr.RStrip | cck_gpx.py:89 | `rstrip()` gives a prefix of its input that does not end in whitespace, and everything it drops is whitespace |
| PyStr.Strip | cck_gpx.py:297 | `strip()` gives a contiguous piece of its input with whitespace-only text dropped on both sides, and neither end of it is whitespace |
| PyStr.Split | cck_gpx.py:102 | every token of `split()` is non-empty and holds no whitespace |
| PyStr.SplitRunsOf | cck_gpx.py:102 | `split()` returns the maximal runs of non-whitespace characters of its input, every one and in order: each token is the slice of the input at its position, consecutive tokens have at least one character between them, and a character is whitespace exactly when no token covers it |
| PyStr.SplitEmptyIff | cck_gpx.py:102-104 | `split()` finds no token exactly when the string is empty or all whitespace |
| PyStr.SplitJoinSpace | cck_gpx.py:102-123 | splitting the space-join of whitespace-free tokens gives the tokens back |
| PyStr.SingleTokenIsStrip | cck_gpx.py:105-107 | when a string splits into one token, that token is the stripped string |
| PyStr.RStripTrailingSpace | cck_gpx.py:88-89 | right-stripping a string that ends in a non-space followed by whitespace removes exactly that whitespace |
| Dom.SignificantChildren | cck_gpx.py:145 | the children `match_tags` looks at are elements or text holding something other than XML whitespace, and every such child is among them |
| Dom.SignificantFiltered | cck_gpx.py:145 | the children `match_tags` looks at are every element child and every non-blank text child, in document order, with nothing dropped, duplicated or reordered |
| Dom.MapLinksBelow | cck_gpx.py:378-379 | every href the fallback's query returns contains `google.com/maps` |
| Dom.MapLinksBelowComplete | cck_gpx.py:378-379 | the fallback's query returns, in document order, the `href` of every `<a>` strictly below the item whose `href` contains `google.com/maps`, once each, and nothing else |
| Matcher.Mandatory | cck_gpx.py:159-160 | the mandatory part of a pattern has no optional slot and is no longer than the pattern |
| Matcher.MandatoryFiltered | cck_gpx.py:159-160 | the mandatory part of a pattern is every slot not marked optional, in pattern order |
| Matcher.Walk | cck_gpx.py:176-193 | a dict from the loop means every slot had a child and each child passed its slot's test exactly once; `IndexError` means the children ran out |
| Matcher.MatchTags | cck_gpx.py:145-163 | significant text among the children gives `None` before the pattern is looked at, and otherwise more than one optional slot raises `ValueError` |
| Matcher.WalkSpec | cck_gpx.py:176-193 | the lock-step loop returns a dict exactly when every slot's child passes its test exactly once; the dict holds exactly the slots' bind names, each mapped to the child of the last slot binding it; the loop raises `IndexError` exactly when the children run out and every earlier slot fitted; it raises `ValueError` or gives `None` exactly at the first slot whose child passes more than once or not at all |
| Matcher.MatchTagsIff | cck_gpx.py:145-193 | `match_tags` returns a dict exactly when there is no significant text and the child count admits a slot list whose every slot fits its child; the dict is then that list's binding |
| Matcher.MatchTagsErrors | cck_gpx.py:145-193 | `match_tags` raises `ValueError` exactly when there is no significant text and either the pattern has more than one optional slot or the walk reaches a child that passes its test more than once; it raises `IndexError` exactly when the pattern has no optional slot, there are fewer significant children than slots, and each of them fitted its slot |
| Matcher.OneOptionalLengthRule | cck_gpx.py:159-173 | with one optional slot, a match needs a child count equal to the pattern length (all names bound) or one less (only the mandatory names bound); any other count gives `None`; `IndexError` cannot happen |
| Matcher.NoOptionalShortfall | cck_gpx.py:174-180 | with no optional slot, `IndexError` is raised exactly when there are fewer children than slots and every slot that had a child fitted it |
| Matcher.NoOptionalSurplusIgnored | cck_gpx.py:174-193 | with no optional slot, children after the first pattern-length ones change nothing, provided they add no significant text |
| Matcher.WalkIgnoresSurplus | cck_gpx.py:176-190 | the loop never looks at children beyond the slots it has |
| Matcher.EmptyPatternMatches | cck_gpx.py:136-138 | an empty pattern matches any parent without significant text, with an empty dict |
| Names.FirstNameishLoop | cck_gpx.py:102-123 | the loop as written computes the closed form of `firstnameish` |
| Names.FirstNameish | cck_gpx.py:96-123 | `firstnameish` gives `None` exactly for a name that is empty or all whitespace; otherwise it gives one or two tokens, the first being the name's first token |
| Names.Shorten | cck_gpx.py:102-123 | on the name's tokens: nothing when there are none, otherwise the first token as written followed by at most one more token |
| Names.FirstNameishShort | cck_gpx.py:102-107 | a name with no token gives `None` and only such a name does; a one-token name comes back stripped |
| Names.NonInitialStops | cck_gpx.py:118-121 | when the first of several tokens is not an initial, the result is exactly that token |
| Names.LastTokenAbbreviated | cck_gpx.py:113-117 | an initial followed by exactly one more token gives exactly the initial, a space, that token's first character and a full stop |
| Names.TwoTokensKept | cck_gpx.py:110-123 | an initial followed by two or more tokens gives exactly the first two tokens joined by one space |
| Names.SingleTokenFixedPoint | cck_gpx.py:105-107 | a name that is a single token comes back unchanged, so shortening it again changes nothing |
| PlaceIds.PlaceIdFromPath | cck_gpx.py:89-94 | an identifier is only found in a path that starts with `/maps/place/` once right-stripped |
| PlaceIds.PlaceIdFromUrl | cck_gpx.py:74-94 | an identifier is found exactly when the decoded, right-stripped path starts with `/maps/place/` and the rest has no newline; the identifier is then that rest |
| PlaceIds.PlaceIdIff | cck_gpx.py:86-94 | the identifier is `id` exactly when the right-stripped decoded path is `/maps/place/` followed by `id` and `id` holds no newline |
| PlaceIds.NoPrefixNoId | cck_gpx.py:90-94 | a path without the prefix gives `None` |
| PlaceIds.PlaceIdRoundTrip | cck_gpx.py:88-92 | the prefix, then a one-line identifier not ending in whitespace, then trailing whitespace gives that identifier back |
| Decimal.Show | cck_gpx.py:375 | `%d` of a natural is a non-empty string of digits without a leading zero |
| Decimal.ReadShow | cck_gpx.py:375 | reading the digits of `%d` back gives the number |
| Route.Telephone | cck_gpx.py:358-366 | a call link yields a number exactly when its parsed scheme is `tel`, or it has no parsed scheme and starts with `tel:`; otherwise it raises a caught `ValueError`, never an uncaught exception |
| Route.Links | cck_gpx.py:329-335 | the links block's match cannot end the run |
| Route.CallNumber | cck_gpx.py:350-366 | the call-link step succeeds exactly when there is no call link or its target is a telephone URI |
| Route.Content | cck_gpx.py:308-366 | a record from the rest of the strict path has a valid code, the one its map link carries, the given name and code, and `firstnameish` of that name as its waypoint name; this part never raises `IndexError` |
| Route.StrictExtract | cck_gpx.py:275-366 | a record from the strict path has a valid code equal to its map link's identifier, and `firstnameish` of its client name as its waypoint name |
| Route.ItemPatternNoOptional | cck_gpx.py:275-277 | the item's pattern has no optional slot, so its child count is not checked |
| Route.ChildlessItemCrashes | cck_gpx.py:275-277 | an item with neither a child element nor non-blank text makes the strict path raise the uncaught `IndexError` |
| Route.BodyPatternOneOptional | cck_gpx.py:283-291 | the stop body's pattern has exactly one optional slot |
| Route.LinksPatternOneOptional | cck_gpx.py:329-335 | the links block's pattern has exactly one optional slot |
| Route.OptionalLevelsNeverCrash | cck_gpx.py:283-335 | neither the body match nor the links match can raise `IndexError` |
| Route.ContentIff | cck_gpx.py:308-366 | once the name and code paragraphs are found, the rest of the strict path succeeds exactly when the layout has every part and every content check passes; the record then carries the name, its shortening and the text code |
| Route.StrictAcceptedIff | cck_gpx.py:275-366 | the strict record is produced exactly when the layout matches and the portions, code-consistency, validity and `tel:` checks all pass; the run-ending `IndexError` arises exactly when the layout alone raises it; the record's code is the text code and its name is `firstnameish` of the client name |
| Stops.StrictKeptIff | cck_gpx.py:275-384 | a stop keeps the strict name and code exactly when the layout matches and every check passes; otherwise it is named "Delivery no N" and takes the fallback's code |
| Stops.FallbackCode | cck_gpx.py:376-384 | a fallback code comes only from an item with exactly one map link, and is the one-line rest of that link's right-stripped path after `/maps/place/` |
| Stops.Decide | cck_gpx.py:268-384 | an item ends the run exactly when its strict path raises `IndexError`; a strict stop has a valid code equal to its map link's identifier; a fallback stop is named "Delivery no N" and has a code only when the item has exactly one map link |
| Stops.ChildlessItemEndsRun | cck_gpx.py:268-384 | an item with neither a child element nor non-blank text ends the run, at that item or earlier |
| Stops.FallbackCodeIff | cck_gpx.py:376-384 | the fallback finds a code exactly when the item has exactly one map link and that link's right-stripped decoded path is the place prefix followed by the code on one line |
| Stops.ShortStrictCodeDropped | cck_gpx.py:345-398 | a strict code that is not full keeps the strict path, gets no fallback and gives no waypoint |
| Stops.EmittedCodesValid | cck_gpx.py:385-395 | every waypoint's code is non-empty, valid and full, and its position is the decoding of that code |
| Stops.Gather | cck_gpx.py:268-398 | the loop stops at the first item raising `IndexError`; otherwise its waypoints are those of exactly the items whose final code is non-empty, valid and full, in list order |
| Stops.Run | cck_gpx.py:265-405 | the run ends at the first item raising `IndexError`, and only then; otherwise the waypoints are those of exactly the emitting items, in order; the incomplete-route warning appears exactly when some item gave no waypoint; the empty-list warning appears exactly when there are no items; exit status 1 with its warning exactly when no waypoint results; no other warning appears, and the warnings come in the order they are printed |
| Stops.FallbackNameNumbers | cck_gpx.py:375 | a fallback name is "Delivery no " followed by the item's position counted from 1 |
| Stops.FallbackNamesDistinct | cck_gpx.py:375 | distinct items get distinct fallback names |

## Left out

- Parsing the HTML and evaluating XPath: the `<li>` subtree is given as a
  `Dom.Node` tree. The `self::<expr>` tests are an oracle. Comments and
  processing instructions are `Other` nodes. `match_tags` never pairs them
  with a slot, but the oracle for a slot's own test sees them: the links
  block's `div[not(node())]` (line 333) is one such test.
- Locating `<main>` and the one `<ul>`, and the `li` query (lines 241-265):
  the model starts from the list of items.
- `urllib.parse`: `urlparse` and `unquote` are oracles. The `ValueError`
  `urlparse` can raise on a malformed URL is not modelled.
- The Open Location Code library: `isValid`, `isFull` and `decode` are
  oracles. Coordinates are an opaque pair of reals.
- The diagnostics printed to stderr, as text: only the run-level warnings
  and the exit status are modelled, as values.
- Route-description extraction (lines 407-427). It is meant to be
  best-effort, but it is not always harmless. When `match_tags` at line 414
  returns `None`, line 420 subscripts `None`. The `TypeError` this raises is
  not caught by the `except (ValueError, KeyError)` at line 425, so the
  script ends with exit status 1 before any GPX is written.
- Stops.Run: its `Finished` result and its exit status 0 are the outcome
  decided at lines 400-405. They do not account for the later crash in the
  route-description step described above.
- The argument check (lines 197-199), GPX serialisation and file writing
  (lines 431-459): input and output.

The per-item diagnostics are left out as text. A stop that gives no waypoint
still shows in `Stops.Run` through the incomplete-route warning.
