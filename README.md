# Search history, feature lists and row expansion of the property search screen

This project models the logic of the property search screen of a real-estate
brokerage front end (`src/componentes/busqueda/buscador.tsx`):

- the **search history** (`useSearchHistory`): a list of past searches, newest
  first, capped at 10 entries, with earlier entries for the same
  (tipo, ciudad) pair dropped when a search is recorded; suggestions fetched
  later are attached to every entry whose pair equals the screen's current
  filter selection (lines 218-222), which need not be the search that listed
  the property; entries are removed by id or all at once; the list is saved
  to browser storage after every change;
- **`formatCharacteristics`**, which turns a property's `Caracteristicas`
  (an array, a comma-joined string, or nothing) into a list of strings;
- **`toggleRowExpand`**, which flips one property id in the set of expanded
  table rows.

Layout:

- `seqs.dfy` (module `Seqs`): the array `filter` used by the history,
  written once as `Exclude` (drop every element whose key equals a given
  key), `Take` (`slice(0, n)`), the `DistinctKeys` invariant, and lemmas
  about them.
- `history.dfy` (module `History`): the `Entry` datatype, the pure updaters
  the hook passes to its state setter (`Added`, `WithClientSuggestions`,
  `WithoutId`), the `WellFormed` invariant (at most 10 entries, one per
  pair) with a preservation lemma per operation, and the class
  `SearchHistory` whose `entries` field is the state cell and whose `stored`
  field is the copy in storage.
- `characteristics.dfy` (module `Characteristics`): JavaScript's `trim`,
  `split` and `join` on strings, and `FormatCharacteristics`.
- `rows.dfy` (module `RowExpansion`): `Toggled` and the `ToggleRowExpand`
  updater.

Property listings and suggestion responses are the type parameters `P` and
`R` of `Entry`: the history stores them and never looks inside. The clock
(`new Date().toLocaleString()`, `Date.now().toString()`) becomes the `date`
and `id` parameters of `AddSearch`; the parsed storage content becomes the
constructor's parameter.

Facts about the code that the model follows:

- `buscador.tsx:75` calls `JSON.parse` without a `try`, so a malformed
  stored value throws; the constructor takes the already parsed list.
- `tipo` is lower-cased only in the request URL (line 175); line 189
  records `filters.tipo` as given, and matching compares both strings
  exactly.
- The update and remove operations map and filter the whole list, so every
  matching entry is affected.
- Nothing checks one entry per pair on load; `WellFormed` states that
  invariant and every operation is proved to keep it.

## Model

| member | source | states |
|---|---|---|
| `Seqs.Exclude` | src/componentes/busqueda/buscador.tsx:98-100 | the result holds exactly the input's elements whose key differs from the given one, and is no longer than the input |
| `Seqs.ExcludeAppend` | src/componentes/busqueda/buscador.tsx:98-100 | filtering distributes over concatenation, so survivors keep their relative order |
| `Seqs.ExcludeNoMatch` | src/componentes/busqueda/buscador.tsx:98-100 | filtering leaves the list unchanged, and keeps its length, exactly when no element has the key |
| `Seqs.ExcludeKeepsDistinct` | src/componentes/busqueda/buscador.tsx:98-100 | filtering by one key keeps any other key distinct across the list |
| `Seqs.Take` | src/componentes/busqueda/buscador.tsx:103 | the result has the input's length capped at `n` and is the prefix of the input of that length |
| `History.Added` | src/componentes/busqueda/buscador.tsx:96-104 | after an add the new entry is at index 0, the list has 1 to 10 entries, no other entry has the new pair, and entries 1.. are the earlier entries of other pairs in their order, cut to 9 |
| `History.AddedReplacesDuplicate` | src/componentes/busqueda/buscador.tsx:98-103 | adding a pair already present does not lengthen the list, and the old entry for that pair is gone |
| `History.AddedEvictsOldest` | src/componentes/busqueda/buscador.tsx:98-103 | with 10 entries and a new pair the result is the new entry followed by the first 9 old ones; with distinct ids the old 10th entry's id is gone |
| `History.AddedTwice` | src/componentes/busqueda/buscador.tsx:98-103 | adding the same pair twice gives what adding only the second entry gives |
| `History.AddedWellFormed` | src/componentes/busqueda/buscador.tsx:96-104 | adding keeps at most 10 entries and at most one entry per pair |
| `History.Refreshed` | src/componentes/busqueda/buscador.tsx:114-120 | tipo, ciudad, date, id and properties are unchanged; an entry of the pair gets the new selectedProperty and clientSuggestions; any other entry is returned as it is |
| `History.WithClientSuggestions` | src/componentes/busqueda/buscador.tsx:112-122 | length, position, tipo, ciudad, date, id and properties of every entry stay; entries of the pair get the new selectedProperty and clientSuggestions; other entries are untouched |
| `History.WithClientSuggestionsNoMatch` | src/componentes/busqueda/buscador.tsx:113-121 | suggestions for a pair not in the history leave it unchanged |
| `History.WithClientSuggestionsIdempotent` | src/componentes/busqueda/buscador.tsx:113-121 | delivering the same suggestions twice equals delivering them once |
| `History.WithClientSuggestionsWellFormed` | src/componentes/busqueda/buscador.tsx:112-122 | attaching suggestions keeps the history well formed |
| `History.WithoutId` | src/componentes/busqueda/buscador.tsx:126-128 | after removal no entry has the id, every remaining entry was there before, and every earlier entry with another id remains |
| `History.WithoutIdNoMatch` | src/componentes/busqueda/buscador.tsx:126-128 | removal is a no-op exactly when no entry has the id |
| `History.WithoutIdAppend` | src/componentes/busqueda/buscador.tsx:126-128 | removal keeps the remaining entries in their order |
| `History.WithoutIdWellFormed` | src/componentes/busqueda/buscador.tsx:125-129 | removal keeps the history well formed |
| `History.SearchHistory.constructor` | src/componentes/busqueda/buscador.tsx:72-81 | the history starts as the saved list, or empty when nothing is saved, and the stored copy equals it |
| `History.SearchHistory.AddSearch` | src/componentes/busqueda/buscador.tsx:84-105 | the new state is `Added` of the old state and the new entry, the stored copy follows, well-formedness is kept |
| `History.SearchHistory.UpdateWithClientSuggestions` | src/componentes/busqueda/buscador.tsx:106-123 | the new state is `WithClientSuggestions` of the old one, unchanged when no entry has the pair, stored copy follows, well-formedness kept |
| `History.SearchHistory.RemoveItem` | src/componentes/busqueda/buscador.tsx:125-129 | the new state is `WithoutId` of the old one, unchanged when the id is absent, stored copy follows, well-formedness kept |
| `History.SearchHistory.Clear` | src/componentes/busqueda/buscador.tsx:132-134 | the history and its stored copy are empty afterwards, whatever they were, so clearing twice equals clearing once |
| `Characteristics.LeadingSpace` | src/componentes/busqueda/buscador.tsx:66 | the count is at most the length, every counted character is white space, and the next character, if any, is not |
| `Characteristics.TrailingSpace` | src/componentes/busqueda/buscador.tsx:66 | the count is at most the length, every counted character at the end is white space, and the one before them, if any, is not |
| `Characteristics.Trim` | src/componentes/busqueda/buscador.tsx:66 | the result is no longer than the input and neither of its ends is white space |
| `Characteristics.TrimBounds` | src/componentes/busqueda/buscador.tsx:66 | the result is a slice of the input with only white space cut off before and after it |
| `Characteristics.LeadingSpacePadded` | src/componentes/busqueda/buscador.tsx:66 | white space in front of a string that starts otherwise is exactly what is counted as leading |
| `Characteristics.TrailingSpacePadded` | src/componentes/busqueda/buscador.tsx:66 | white space behind a string that ends otherwise is exactly what is counted as trailing |
| `Characteristics.TrimPadded` | src/componentes/busqueda/buscador.tsx:66 | trimming a trimmed string padded with any white space gives that string back, so the trimmed core is unique |
| `Characteristics.TrimIdempotent` | src/componentes/busqueda/buscador.tsx:66 | trimming twice equals trimming once |
| `Characteristics.IndexOf` | src/componentes/busqueda/buscador.tsx:66 | the position holds the character and no earlier position does |
| `Characteristics.SplitOn` | src/componentes/busqueda/buscador.tsx:66 | splitting gives one piece more than there are separators, no piece holds the separator, and joining the pieces gives the input back |
| `Characteristics.SplitOnNone` | src/componentes/busqueda/buscador.tsx:65-67 | a string with no separator splits into itself alone |
| `Characteristics.SplitOnFirst` | src/componentes/busqueda/buscador.tsx:66 | splitting peels off the piece before the first separator |
| `Characteristics.SplitOnJoinWith` | src/componentes/busqueda/buscador.tsx:66 | splitting a join of separator-free pieces gives the pieces back |
| `Characteristics.SplitAndTrim` | src/componentes/busqueda/buscador.tsx:66 | a string with k commas gives k+1 pieces, each trimmed and comma-free, and piece i is the i-th comma-separated field trimmed |
| `Characteristics.FormatCharacteristics` | src/componentes/busqueda/buscador.tsx:61-70 | nothing or an empty string gives []; an array is returned unchanged; a non-empty string without a comma gives itself, untrimmed; a string with k commas gives k+1 trimmed comma-free strings |
| `Characteristics.FormatCharacteristicsPieces` | src/componentes/busqueda/buscador.tsx:65-66 | for a string with commas and any split of it into comma-free pieces joined by commas, the features are those pieces, in order, each trimmed |
| `RowExpansion.Toggled` | src/componentes/busqueda/buscador.tsx:163-164 | the id's membership is flipped and every other id's membership is unchanged |
| `RowExpansion.ToggledTwice` | src/componentes/busqueda/buscador.tsx:161-167 | toggling the same id twice restores the set |
| `RowExpansion.ToggleRowExpand` | src/componentes/busqueda/buscador.tsx:161-167 | the updater returns the set with the id's membership flipped |

## Left out

- JSON serialisation of the history and the storage calls (`localStorage.getItem`/`setItem`, lines 74-81): browser I/O. The constructor takes the parsed list and `stored` mirrors the list after every change; a malformed stored value, which makes `JSON.parse` throw at line 75, is not modelled.
- The clock: `date` and `id` of a new entry (lines 88-89) are parameters, so ids are not shown to be unique or increasing.
- React's state machinery: each updater is applied at once to the current list; batching and re-rendering are not modelled.
- `fetchFilteredProperties` and `fetchClientSuggestions` (lines 169-233): network requests and screen state. Their effect on the history is a call of `AddSearch` or `UpdateWithClientSuggestions`; the guard that rejects a response without `suggestions` (line 215) is not modelled.
- `recoverSearchFromHistory` (lines 236-256), `handlePdfDownload` (lines 258-368) and the JSX markup: screen state, PDF layout and rendering.
- `app.py`, `src/componentes/login/inicio.jsx` and `src/App.tsx` are not part of this model: server database and language-model calls, a fixed credential comparison, and routing.
- Characteristics.Trim: characters are Unicode scalar values rather than JavaScript's UTF-16 code units; the white-space set is the one `String.prototype.trim` uses, written out character by character.
- Characteristics.FormatCharacteristics: a value that is neither undefined, null, an array nor a string (the final `return []` at line 69) cannot be written in the `Raw` datatype; `null` is folded into `Missing`.
