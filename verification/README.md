# Route map playback injector — Dafny model

The script polls a local routing service for a driving route, renders it on a
map page, and rewrites the saved page so that it refreshes every second and
replays the route with a moving marker. This project models the two pieces of
`update_map_with_coordinates` that are plain logic:

- **The playback injector** (`script3.py` lines 72-83). It works on the saved
  page's text. The head step puts a refresh `<meta>` line after every `<head>`.
  A page without `<head>` instead gets a synthesised head after every `<html>`.
  The body step puts the script tag before every `</body>`. A page without
  `</body>` gets it before every `</html>`. Each step is one Python
  `str.replace`, so it rewrites every leftmost, non-overlapping match. Without
  a match, the text comes back unchanged.
- **The route line** (lines 32-33). Each `[longitude, latitude]` position from
  the routing service becomes a `(latitude, longitude)` point. The points keep
  the route's order. The line is added only when the route is non-empty.

Modules:

- `Text` (`text.dfy`) defines Python's `in`, `count`, `replace`, `split` and
  `join` on strings. `replace` is the left-to-right scan. `split` followed by
  `join` is its reference definition, and the two are proved equal on every
  input.
- `Markup` (`markup.dfy`) explains why inserted markup cannot create or hide a
  closing tag. A tag like `</body>` has a `<` only at its start. So a fragment
  in which every `<` starts something else leaves the tag's matches around it
  unchanged.
- `Injector` (`injector.dfy`) holds the head step, the body step and the whole
  injection.
- `Polyline` (`polyline.dfy`) holds the coordinate swap and the non-empty
  guard.

The animation script is an opaque string parameter. Coordinates are an opaque
element type.

## Model

| member | source | states |
|---|---|---|
| Text.CountZeroIff | script3.py:74-83 | the number of matches the scan finds is zero exactly when the substring test `q in s` is false |
| Text.ReplaceWithoutMatch | script3.py:74-83 | `replace` returns the text unchanged when the pattern does not occur |
| Text.SplitJoin | script3.py:74-83 | the text is exactly its pieces between matches, rejoined with the pattern |
| Text.SplitPiecesFree | script3.py:74-83 | no piece between consecutive matches contains the pattern, so the scan finds every match |
| Text.ReplaceIsSplitJoin | script3.py:74-83 | the scanning `replace` equals the independent split-then-join definition on every input |
| Text.ReplaceLength | script3.py:74-83 | the result's length is the input's plus (replacement length − pattern length) per match |
| Text.InsertAfterUndo | script3.py:75-77 | inserting text after every match is undone by replacing each pattern+insert with the pattern |
| Text.CountConcat | script3.py:74-83 | when no match spans the boundary, the matches of a concatenation are those of its parts |
| Text.ReplaceSplices | script3.py:74-83 | the result of `replace` is the same pieces as the input, joined by the replacement instead of the pattern, and the pieces contain no pattern |
| Text.SingleMatch | script3.py:74-83 | with exactly one match, the text is `a + q + b` and the result is `a + rep + b` |
| Markup.InertConcat | script3.py:75-77 | fragments that cannot start a closing tag still cannot when put side by side |
| Markup.NoMatchInside | script3.py:75-77 | no closing tag starts inside such a fragment, whatever text follows it |
| Markup.InertIsolates | script3.py:75-77 | putting such a fragment between two texts neither creates nor destroys closing-tag matches |
| Markup.JoinKeepsCount | script3.py:75-77 | joining the same pieces with two such fragments gives the same number of closing-tag matches |
| Injector.HeadStep | script3.py:72-77 | with a `<head>`, each `<head>` gets the refresh line right after it and nothing else changes; without one, each `<html>` gets the synthesised head instead; with neither tag, the page is unchanged |
| Injector.HeadStepLength | script3.py:72-77 | the head step lengthens the page by the inserted text once per match of the tag it chose |
| Injector.BodyStep | script3.py:73-83 | with a `</body>`, the script tag goes right before each `</body>` and nothing else changes; without one, it goes before each `</html>`; with neither tag, the page is unchanged |
| Injector.BodyStepLength | script3.py:73-83 | the body step lengthens the page by the script tag once per match of the tag it chose |
| Injector.Inject | script3.py:72-83 | the body step's choice between `</body>` and `</html>` follows the original page, not the head step's output; a page with none of the four tags is returned unchanged |
| Injector.InjectLength | script3.py:72-83 | the output length is the input length plus both steps' insertions, each counted on the original page |
| Injector.OpeningLinesInert | script3.py:74-77 | `<head>`, `<html>` and their line forms cannot start or hide `</body>` or `</html>` |
| Injector.MetaAndHeadCloseInert | script3.py:72-77 | the refresh line and `</head>` line cannot start or hide `</body>` or `</html>` |
| Injector.HeadWithMetaInert | script3.py:72-75 | the replacement for `<head>` cannot start or hide `</body>` or `</html>` |
| Injector.HtmlWithHeadInert | script3.py:72-77 | the synthesised head that replaces `<html>` cannot start or hide `</body>` or `</html>` |
| Injector.HeadStepKeepsClosingTags | script3.py:74-83 | the head step keeps the number of `</body>` and `</html>` matches, so the body step's branch test gives the same answer as on the original page |
| Injector.HeadStepUndo | script3.py:74-77 | removing the inserted refresh line (or synthesised head) after each tag gives back the original page |
| Injector.SingleHeadOneMeta | script3.py:74-75 | a page with exactly one `<head>` gets exactly one refresh line, right after that tag |
| Injector.BodyStepSingle | script3.py:80-81 | a page with exactly one `</body>` gets exactly one script tag, right before it |
| Injector.SingleBodyOneScript | script3.py:74-83 | after the head step, a page with one `</body>` still has exactly that one, and the injection puts one script tag right before it |
| Polyline.ToLatLon | script3.py:33 | a route of well-formed positions gives points of the same length, with point i equal to `(route[i][1], route[i][0])`; otherwise the error names the first position with fewer than two entries |
| Polyline.RouteLine | script3.py:32-33 | an empty route gives no line; a non-empty well-formed route gives a line of its swapped points, so a well-formed route gets a line exactly when it is non-empty; the only errors are short positions |
| Polyline.SwapRoundTrip | script3.py:33 | swapping the points back gives each position's longitude and latitude; a route of plain pairs comes back exactly |
| Polyline.LonLatRoundTrip | script3.py:33 | turning points into `[lon, lat]` positions and swapping them again gives the original points |
| Polyline.AppendErrorFirst | script3.py:33 | a short position in the first part of a route is the error for the whole route, at the same index |
| Polyline.AppendErrorSecond | script3.py:33 | when the first part is well formed, a short position in the second part is reported at its index plus the first part's length |
| Polyline.AppendOk | script3.py:33 | two well-formed parts give the first part's points followed by the second part's points |
| Polyline.ToLatLonAppend | script3.py:33 | the swap works position by position in order: the points of `a + b` are those of `a` followed by those of `b`, and an error is reported at its index in the whole route |

## Left out

- Route fetching (`fetch_route_coordinates`, lines 10-20): an HTTP request and JSON decoding through the `requests` library, which is not part of this model. The route is a parameter instead.
- Map construction (lines 25-29, 33 `add_to`, 65): the `folium` map, tile layer, markers and saving are calls into a rendering library that is not part of this model. Only the choice and content of the polyline's points is modelled.
- Reading and writing `map.html` (lines 68-69, 86-87) and the final message (line 89): file I/O. The injection is a pure function from the page text to the new text.
- Building the animation script with `json.dumps` (lines 36-61): the script is an opaque string parameter.
- The midpoint, the 0.001 nudge of the end point and the URL formatting (lines 12, 25, 97): floating-point arithmetic and formatting.
- The endless `main_loop` with its five-second sleep (lines 91-98): non-terminating control with no logic beyond calling the modelled function.
- Text.ReplaceAll, Text.Count and Text.Split require a non-empty pattern. Python's empty-pattern behaviour is not modelled: `replace` would insert at every position, and `split` would raise. Every call in the script passes a fixed, non-empty tag.
- Python `TypeError`s from route positions that are not lists are not modelled. Positions are typed sequences, and only the `IndexError` of a too-short position is modelled.
- Injector.BodyStep: "removing the inserted script tags gives back the page" is stated through the shared split pieces (`Text.Spliced`), not as a second `replace`. Replacing `tag + </body>` by `</body>` does not undo an insert-before replacement for every pattern and script. For the head step, the `replace`-based undo is proved too (Injector.HeadStepUndo).
- The injector is documented as adding exactly one refresh line and one script tag to the page. The code rewrites every `<head>` and every `</body>`, so a page with several of them gets several refresh lines and script tags. The model follows the code. The one-of-each outcome is proved only for pages with exactly one such tag (Injector.SingleHeadOneMeta, Injector.SingleBodyOneScript).
