# Cheese Pizza branch finder — a Dafny model

The branch-finder page of the Cheese Pizza site (`script.js`) lists five
branches beside a map. A visitor picks a branch from a dropdown, a card or a map
marker; narrows the list with a search box; types an outward code and presses
"find nearest"; or shares their location to get the closest branch. The chosen
branch moves to the top of the card list and is flagged active. The status line
says what happened.

This project models the logic under that page:

- `wrappers.dfy` holds `Option`, which stands for the script's `null`.
- `text.dfy` holds the JavaScript string operations the page uses: `trim` with
  ECMAScript's whitespace set, `toLowerCase`/`toUpperCase`, `startsWith` and
  `includes`.
- `arrays.dfy` holds `Array.prototype.find` and `Array.prototype.filter`.
- `escape.dfy` holds `escapeHtml`, written as the same chain of five `replaceAll`
  calls. It is proved equal to escaping each character on its own. An unescaper
  recovers the original text from the escaped form.
- `branches.dfy` holds the branch record, the fixed five-branch table, lookup by
  id, and the "everyone but this id" filter.
- `resolver.dfy` holds the search filter, the outward-code lookup and the
  closest-branch scan. `ClosestTo` is the scan's specification.
  `FindClosestBranchTo` is the loop itself, proved against it.
- `views.dfy` holds the page state as a value (`View`) and each event handler as
  a function from one state to the next. Its lemmas state what each handler
  promises, and that each handler keeps the state `Consistent`.
- `page.dfy` holds class `Locator`. Its fields are the page state and its
  methods are the handlers, which update the fields in place. Each handler is
  proved to perform the transition in `views.dfy` and to keep `Valid()`. Two
  handlers delegate the field updates to a method of their own (`Highlight`,
  `ShowMatches`) and add the proof that the page stays valid.
- `scenarios.dfy` states what the outward lookup returns on the real table.

Distances are inputs. Each scan takes a function giving every branch's distance
in kilometres from the point of interest: the map's centre or the visitor's
position. The scan starts from `Infinity` and takes a branch only when it is
strictly closer. So among equally close branches, the first in table order wins.

The dropdown's value follows the browser's rules. Setting it to an id that none
of its options carries leaves it reading `""`. Rebuilding its options resets it
to the leading "Please choose" entry, whose value is `""`. So after a search has
narrowed the dropdown, `setActiveBranch` on a branch outside the narrowed list
highlights the card but leaves the dropdown blank (`Views.SelectValue`).

The outward lookup does exactly what `script.js:291-307` does. It trims and
upper-cases the search text, then takes the first branch whose outward code
*starts with* that text. It does not cut a full postcode down to its outward
code, drop the last three characters, or demand at least two characters. That
logic belongs to another page of the site, `Cheese Pizza _ Choose Your Branch_files/script.js`,
which is not part of this model. Hence `Scenarios.FullPostcodeMatchesNoOutwardCode`:
"SG1 4AB" matches no branch and falls through to the map-centre search. Hence
also `Scenarios.SingleLetterFindsStAlbans`: "A" is enough to select St Albans.

## Model

| member | source | states |
|---|---|---|
| `Text.Trim` | script.js:214 | the result is the stretch of the input left after removing ECMAScript whitespace at both ends; it is empty exactly when the input is all whitespace |
| `Text.ToLower` | script.js:214 | `toLowerCase`: each character in place, with A-Z mapped to a-z and every other character kept; the length is unchanged |
| `Text.ToUpper` | script.js:292 | `toUpperCase`: each character in place, with a-z mapped to A-Z and every other character kept; the length is unchanged |
| `Text.StartsWith` | script.js:298 | `startsWith`: the prefix is no longer than the text and equals the text's first characters |
| `Text.Includes` | script.js:218-220 | `includes` holds exactly when the needle occurs at some position of the text |
| `Text.TrimMap` | script.js:214 | trimming and changing case commute, for any character mapping that keeps whitespace whitespace |
| `Text.CaseFolds` | script.js:214 | lower-casing after upper-casing equals lower-casing alone, and the other way round |
| `ArrayOps.Find` | script.js:298 | `find` returns nothing exactly when no element satisfies the test, else the element at the first index that does |
| `ArrayOps.Filter` | script.js:217-221 | `filter` keeps the satisfying elements in their order, each as often as in the input, and nothing else |
| `Escape.EscapeHtml` | script.js:57-64 | `escapeHtml`: the five `replaceAll` calls in the source's order: `&`, then `<`, `>`, `"` and `'` |
| `Escape.ReplaceAll` | script.js:59-63 | after replacing a character by a text that lacks it, the character no longer occurs |
| `Escape.EscapeHtmlIsPerCharacter` | script.js:57-64 | the chain of five replacements, ampersand first, equals replacing each character by its own entity; every other character passes through unchanged and in order |
| `Escape.EscapedHasNoMarkup` | script.js:57-64 | escaped text contains no `<`, `>`, `"` or `'` |
| `Escape.EscapedAmpersandsBeginEntities` | script.js:57-64 | every `&` in escaped text begins one of `&amp;`, `&lt;`, `&gt;`, `&quot;`, `&#039;` |
| `Escape.EscapeRoundTrip` | script.js:57-64 | unescaping escaped text gives back the original, so escaping loses nothing |
| `Branches.Table` | script.js:3-50 | the five branches of the source, in its order, with their ids, names, areas, outward codes, coordinates and links |
| `Branches.TableIdsDistinct` | script.js:4-50 | no two branches of the table share an id |
| `Branches.FindById` | script.js:227-228 | the lookup finds nothing exactly when no branch has the id, else a table branch with that id |
| `Branches.Without` | script.js:240 | the filter keeps, in table order, every branch with a different id and none with the same id |
| `Branches.MoveToFrontIsPermutation` | script.js:240 | with distinct ids, a branch followed by all the others is a permutation of the table |
| `Resolver.FilterBranches` | script.js:213-222 | `filterBranches`: trim and lower-case the query; a blank key gives the whole table, otherwise the branches whose lower-cased name, area or outward code includes the key |
| `Resolver.FilterBranchesSelects` | script.js:213-222 | a blank query gives the whole table in order; otherwise the result is the order-preserving subsequence of exactly those branches whose lower-cased name, area or outward code contains the trimmed, lower-cased query |
| `Resolver.FilterIgnoresCase` | script.js:214-221 | upper- or lower-casing the query does not change what the search shows |
| `Resolver.OutwardQuery` | script.js:292 | the find-nearest key: the search text trimmed, then upper-cased |
| `Resolver.OutwardQueryIgnoresCase` | script.js:292 | the outward lookup's key is the same for a query and its lower-cased form |
| `Resolver.OutwardMatch` | script.js:298 | nothing is found exactly when no outward code starts with the query; otherwise the result is the first branch in table order whose outward code does |
| `Resolver.FirstOutwardMatch` | script.js:298 | whenever some branch is the first whose outward code starts with the query, the lookup returns exactly that branch |
| `Resolver.ClosestTo` | script.js:87-99 | an empty table gives no branch and an infinite distance; otherwise the branch is at the first index of least distance, with that distance |
| `Resolver.FindClosestBranchTo` | script.js:87-100 | the loop returns what `ClosestTo` specifies: a table member, no farther than any branch, with no earlier branch as close, and absent only for an empty table |
| `Views.SelectValue` | script.js:236 | `select.value = id` read back: the id when one of the dropdown's options carries it, else `""` |
| `Views.Initial` | script.js:253-254 | the first render: no query, status or selection, every branch in the dropdown and as cards, no active card, no user marker |
| `Views.SetActive` | script.js:226-241 | an unknown id leaves the view alone; a known id sets the dropdown value by the rule of `SelectValue`, the status "Nearest branch: <name>", the cards to that branch followed by the rest of the table, and the active id |
| `Views.Search` | script.js:268-272 | stores the search text; the dropdown and the cards both show `FilterBranches` of it; the rebuilt dropdown selects nothing and no card is active |
| `Views.Choose` | script.js:261-265 | the dropdown takes the chosen value; a non-empty value then runs `SetActive` for it |
| `Views.Reset` | script.js:275-288 | clears the query, status and selection, lists every branch in the dropdown and as cards, and removes the active card and the user's marker |
| `Views.FindNearest` | script.js:291-307 | a blank key sets the prompt status; else the first branch whose outward code starts with the key is selected; else the first branch closest to the map centre; with no branches nothing changes |
| `Views.RequestLocation` | script.js:311-317 | sets the "not supported" status without geolocation, else the "Getting your location" status |
| `Views.LocationFound` | script.js:320-352 | places the user's marker; with no branches sets "No branches found."; else selects the first closest branch and overwrites the status with its name and formatted distance |
| `Views.LocationFailed` | script.js:354-361 | sets the permission message for code 1, the retry message for any other code |
| `Views.InitialConsistent` | script.js:253-254 | the first render is a consistent page state |
| `Views.SetActiveUnknownId` | script.js:227-228 | an id not in the table changes nothing |
| `Views.SetActiveKnownId` | script.js:226-241 | for a known id: that branch heads the cards, the others follow in table order, and the cards are a permutation of the table; exactly the first card is active; the status reads "Nearest branch: <name>"; the dropdown shows the id when it offers it, else nothing; the search text, the dropdown's options and the user's marker are kept |
| `Views.SetActivePreservesConsistency` | script.js:226-241 | selecting keeps the page consistent |
| `Views.SearchPreservesConsistency` | script.js:268-272 | searching keeps the page consistent |
| `Views.ChoosePreservesConsistency` | script.js:261-265 | choosing from the dropdown keeps the page consistent |
| `Views.ResetIdempotent` | script.js:275-288 | reset yields the first-rendered page whatever came before, so resetting twice equals resetting once |
| `Views.FindNearestBlankQuery` | script.js:292-296 | a blank query only sets the prompt status |
| `Views.FindNearestPrefersOutward` | script.js:298-302 | when some outward code starts with the query, the result is exactly `SetActive` of the first such branch in table order, so `SetActiveKnownId` gives every field |
| `Views.FindNearestFallsBack` | script.js:304-306 | when no outward code matches and there are branches, the result is exactly `SetActive` of the first branch closest to the map centre |
| `Views.FindNearestEmptyTable` | script.js:304-306 | with a non-blank key and no branches, neither lookup finds anything and the page is unchanged |
| `Views.FindNearestPreservesConsistency` | script.js:291-307 | the find-nearest button keeps the page consistent |
| `Views.LocationFoundSelectsClosest` | script.js:320-352 | a reported position places the user's marker; with no branches the status says so; otherwise the result is `SetActive` of the first closest branch, with the marker placed and the status giving its name and formatted distance |
| `Views.LocationFoundPreservesConsistency` | script.js:320-352 | handling a reported position keeps the page consistent |
| `Views.LocationFailedKeepsSelection` | script.js:354-361 | a location error only changes the status: code 1 gives the permission message, any other code the retry message |
| `Page.Locator.constructor` | script.js:253-254 | the page starts with every branch listed, nothing selected, and a valid state |
| `Page.Locator.SetActiveBranch` | script.js:226-248 | updates the fields as `Views.SetActive` specifies and keeps the page valid |
| `Page.Locator.Highlight` | script.js:226-241 | writes the dropdown value, status, cards and active id exactly as `Views.SetActive` specifies, and nothing for an unknown id |
| `Page.Locator.Search` | script.js:268-272 | updates the fields as `Views.Search` specifies and keeps the page valid |
| `Page.Locator.ShowMatches` | script.js:269-271 | stores the search text and puts the filtered branches in the dropdown and the cards, with nothing selected or active, as `Views.Search` specifies |
| `Page.Locator.ChooseOption` | script.js:261-265 | updates the fields as `Views.Choose` specifies and keeps the page valid |
| `Page.Locator.Reset` | script.js:275-288 | updates the fields as `Views.Reset` specifies and keeps the page valid |
| `Page.Locator.FindNearest` | script.js:291-307 | updates the fields as `Views.FindNearest` specifies and keeps the page valid |
| `Page.Locator.RequestLocation` | script.js:311-317 | sets the "not supported" or "getting your location" status, as `Views.RequestLocation` specifies |
| `Page.Locator.LocationFound` | script.js:320-352 | updates the fields as `Views.LocationFound` specifies and keeps the page valid |
| `Page.Locator.LocationFailed` | script.js:354-361 | updates the status as `Views.LocationFailed` specifies and keeps the page valid |
| `Scenarios.OutwardCodeFindsStevenage` | script.js:291-300 | on the real table, "SG1" selects Stevenage |
| `Scenarios.FullPostcodeMatchesNoOutwardCode` | script.js:291-304 | on the real table, the full postcode "SG1 4AB" matches no outward code |
| `Scenarios.SingleLetterFindsStAlbans` | script.js:291-300 | on the real table, the single letter "A" selects St Albans |

## Left out

- `haversineKm` and `toRad` (script.js:70-85) are floating-point trigonometry. The scans take each branch's distance as an input function.
- `bestDistance.toFixed(1)` (script.js:351) formats a float. The formatted text is an input function (`fixed1`).
- `directionsLink` (script.js:66-68) and the popup and card markup (script.js:129-139, 193-202) are string templates. Only the `escapeHtml` they call is modelled.
- The Leaflet map is a foreign library, so no map state is modelled. That covers construction, tiles, `fitBounds`, `setView`, markers, popups, `circleMarker`, `removeLayer` and `invalidateSize` (script.js:105-150, 231-233, 281, 325-345). Only the presence of the user's marker is kept.
- The DOM work of `buildSelect` and `buildCards` is not modelled: element creation, `innerHTML`, the "Nearest" badge, `scrollIntoView` and listener wiring. Only the resulting option list, card list and active id are kept.
- `navigator.geolocation.getCurrentPosition` is an asynchronous browser call. Its options (10 s timeout, 60 s maximum age) are not modelled. Its two outcomes are separate transitions (`LocationFound`, `LocationFailed`), and what happens between request and answer is not constrained.
- The `if (nearestText)` guards are left out. The model assumes the page has its status line.
- The status line's text before any handler runs comes from the page markup, which is not part of this model. It is taken to be empty.
- The `setTimeout` resize fixes and the footer year (script.js:119, 372-381) are timers and a clock.
- `Text.ToLower`: maps only the letters A-Z. JavaScript's `toLowerCase` applies full Unicode case mapping. For the ASCII branch data this is the same, but non-ASCII queries are not modelled faithfully.
- `Text.ToUpper`: maps only the letters a-z. JavaScript's `toUpperCase` applies full Unicode case mapping, which can change a string's length (for example "ß" becomes "SS").
- `Resolver.FilterIgnoresCase`: proved for the ASCII case mapping above. It is not claimed for full Unicode case mapping.
- Strings are sequences of Unicode scalar values rather than UTF-16 code units, so lone surrogates are not modelled.
- Distances are real numbers. A NaN distance, which would never compare below the best so far, is not modelled.
