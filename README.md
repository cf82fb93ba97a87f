# Admin search on the home screen

This project models the one piece of logic on the admin app's home screen
(`client/screens/HomeScreen.js`). The screen holds a list of admin records and
the text typed in its search box. The list it shows is recomputed from those
two values. An admin is shown when the lower-cased search text is a substring
of their lower-cased name, e-mail or restaurant name. The original order is
kept.

Files:

- `js_string.dfy`, module `JsString`: the two JavaScript string operations the
  filter uses. `ToLowerCase` is `String.prototype.toLowerCase` restricted to
  ASCII. `Includes` is `String.prototype.includes`, written as a left-to-right
  scan. `Includes` is proved equal to a reference definition of "is a
  substring" (`Occurs`).
- `home_screen.dfy`, module `HomeScreen`: the `Admin` record, the filter
  callback `Matches`, the filter `FilteredAdmins`, and the screen state with
  `handleSearch`. `KeptIndices` names the positions the filter keeps. The
  lemmas use it to say that the result is exactly the matching subsequence
  of the input.

`Admin` has the five fields the records on this screen carry: name, role,
e-mail, restaurant name and phone (`HomeScreen.js:15-30`). `InitialState`
holds the hard-coded list the screen starts with, which this screen never
changes.

## Model

| member | source | states |
|---|---|---|
| `JsString.LowerChar` | client/screens/HomeScreen.js:41-43 | the result is never an upper-case ASCII letter; the character is unchanged exactly when it was not upper case; A-Z move to a-z |
| `JsString.ToLowerCase` | client/screens/HomeScreen.js:41-43 | lower-casing keeps the length and lower-cases each character in its place |
| `JsString.ToLowerCaseClears` | client/screens/HomeScreen.js:41-43 | a lower-cased string holds no upper-case letter, and every character that was not upper case is kept |
| `JsString.ToLowerCaseIdempotent` | client/screens/HomeScreen.js:41-43 | lower-casing twice is the same as lower-casing once |
| `JsString.ToLowerCaseSlice` | client/screens/HomeScreen.js:41-43 | lower-casing commutes with taking a slice |
| `JsString.ToLowerCaseAppend` | client/screens/HomeScreen.js:41-43 | lower-casing commutes with concatenation |
| `JsString.Includes` | client/screens/HomeScreen.js:41-43 | `includes` succeeds only when the needle fits in the haystack, and always succeeds for the empty needle |
| `JsString.IncludesIffOccurs` | client/screens/HomeScreen.js:41-43 | `includes` is true exactly when the needle occurs at some position of the haystack (both directions) |
| `JsString.LowerPreservesIncludes` | client/screens/HomeScreen.js:41-43 | a case-sensitive occurrence is still an occurrence after both strings are lower-cased |
| `JsString.IncludesPrefix` | client/screens/HomeScreen.js:41-43 | a haystack that includes a string includes every prefix of that string |
| `JsString.AbsentCharExcludes` | client/screens/HomeScreen.js:41-43 | a needle containing a character the haystack lacks is not included |
| `JsString.IncludesInfix` | client/screens/HomeScreen.js:41-43 | a string includes each of its infixes |
| `HomeScreen.Matches` | client/screens/HomeScreen.js:41-43 | a record matches exactly when the lower-cased query occurs as a substring of the lower-cased name, e-mail or restaurant name (logical OR of the three) |
| `HomeScreen.FilteredAdmins` | client/screens/HomeScreen.js:40-44 | the filtered list is no longer than the input, and each of its records is from the input and matches the query |
| `HomeScreen.KeptIndicesIncreasing` | client/screens/HomeScreen.js:40 | the kept positions strictly increase, so the filter keeps the original order |
| `HomeScreen.KeptIndicesSelect` | client/screens/HomeScreen.js:40 | there is one in-range kept position per filtered record, and the k-th filtered record is the input record at the k-th kept position |
| `HomeScreen.KeptIndicesExact` | client/screens/HomeScreen.js:40-44 | a position is kept if and only if the record there matches the query |
| `HomeScreen.FilteredIsMatchingSubsequence` | client/screens/HomeScreen.js:40-44 | the filtered list is exactly the subsequence of the input at the matching positions, in order, and holds all of them |
| `HomeScreen.FilteredSound` | client/screens/HomeScreen.js:40-44 | every record in the filtered list matches the query in name, e-mail or restaurant name |
| `HomeScreen.FilteredComplete` | client/screens/HomeScreen.js:40-44 | every input record that matches the query appears in the filtered list |
| `HomeScreen.EmptyQueryKeepsAll` | client/screens/HomeScreen.js:40-44 | the empty query returns the whole list unchanged |
| `HomeScreen.QueryCaseIgnored` | client/screens/HomeScreen.js:41-43 | two queries that lower-case to the same string give the same filtered list |
| `HomeScreen.QueryLoweredFiltersAlike` | client/screens/HomeScreen.js:41-43 | a query and its lower-cased form give the same filtered list |
| `HomeScreen.VerbatimHitMatches` | client/screens/HomeScreen.js:41-43 | a record containing the query verbatim in one of the three fields matches |
| `HomeScreen.RoleAndPhoneIgnored` | client/screens/HomeScreen.js:41-43 | lists that agree position by position on name, e-mail and restaurant name keep the same positions, whatever their roles and phones |
| `HomeScreen.FilterIdempotent` | client/screens/HomeScreen.js:40-44 | filtering the filtered list again with the same query changes nothing |
| `HomeScreen.ExtendingQueryNarrows` | client/screens/HomeScreen.js:40-44 | every position kept for a longer query is kept for each of its prefixes, so typing more only narrows the list |
| `HomeScreen.InitialState` | client/screens/HomeScreen.js:14-30 | the screen starts with an empty query and the two built-in admin records, John Doe and Jane Smith, field for field |
| `HomeScreen.Visible` | client/screens/HomeScreen.js:40-44 | the shown list is never longer than the admin list |
| `HomeScreen.HandleSearch` | client/screens/HomeScreen.js:32-34 | the query becomes the typed text, the admin list is unchanged, and the shown list is the admin list filtered by the typed text |
| `HomeScreen.InitialShowsAll` | client/screens/HomeScreen.js:14-30 | on first render every admin is shown |
| `HomeScreen.ClearingSearchShowsAll` | client/screens/HomeScreen.js:32-34 | clearing the search box after a search shows every admin again |
| `HomeScreen.FilterPair` | client/screens/HomeScreen.js:40-44 | on a two-record list each record is kept on its own merits, in order |
| `HomeScreen.DomainMatches` | client/screens/HomeScreen.js:42 | a record whose lower-cased e-mail ends in "@example.com" matches "EXAMPLE.com" |
| `HomeScreen.SearchByDomainListsBoth` | client/screens/HomeScreen.js:15-44 | on the initial list, the query "EXAMPLE.com" shows both admins |
| `HomeScreen.RestaurantMatches` | client/screens/HomeScreen.js:43 | a record whose lower-cased restaurant name is "munchies" matches "Munch" |
| `HomeScreen.NoUNoMatch` | client/screens/HomeScreen.js:41-43 | a record with no 'u' in its lower-cased searched fields does not match "Munch" |
| `HomeScreen.SearchByRestaurantListsOne` | client/screens/HomeScreen.js:15-44 | on the initial list, the query "Munch" shows John Doe alone |

## Left out

- Full Unicode `toLowerCase`: `ToLowerCase` maps only ASCII A-Z to a-z and keeps every other character. Non-ASCII case mappings, including ones that change a string's length, are not modelled.
- `String.prototype.includes` works on UTF-16 code units; the model works on Dafny `char`s. The two agree on ASCII text.
- `handleAddAdmin` (`HomeScreen.js:36-38`) only calls `navigation.navigate('Register')`, a call into the navigation library.
- Rendering: `renderAdminItem`, the `TextInput`, the `FlatList` with its index-based `keyExtractor`, and all style objects (`HomeScreen.js:46-151`).
- React's re-rendering is not modelled. `Visible` stands for the value `filteredAdmins` has on each render.
- `setAdmins` is never called on this screen, so no operation changes the admin list.
- The other screens, the navigation setup in `client/App.js`, and the remote API, login and token storage are not part of this model. They are network and storage I/O and UI wiring, and the login, register and splash screens are not in the core.
