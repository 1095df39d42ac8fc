# Movie map: the aggregation and ranking core

`main.py` draws a map of the places where films of a given year were shot,
near a given user. Two functions are the core modelled here.

- `readfile(file, year, number)` reads the film-locations list line by line.
  - It keeps the lines that contain the year token.
  - It splits each stripped line into a title and a location on the tab.
  - It geocodes the location and groups the titles by the coordinate the
    geocoder returns. `{#` in a title becomes `#`.
  - It stops as soon as the check after a line finds `number` distinct
    coordinates.
- `find_closest(user_coords, dct)` ranks those coordinates by their distance
  to the user with a stable sort. It keeps the first ten, each with its list
  of titles.
- `main_worker` builds the year token `(year)` and chains the two functions.

Modules, one file each:

- `Wrappers` holds `Option`.
- `Text` holds the Python string operations the loop uses:
  - `year in line`;
  - `str.strip()`, with the characters `str.isspace` accepts;
  - `str.split('\t')`;
  - `str.replace('{#', '#')`.
- `LocationGroups` holds the dict as a value: keys in insertion order, plus a
  map from each key to its list of titles.
  - The insertion order is kept because the stable sort breaks ties by it.
  - Key creation with append is `Add`; item assignment is `Assign`.
- `Aggregator` holds `readfile`.
  - Each line has a fate: `NoYear`, `Malformed`, `Unresolved`, or
    `Kept(coordinate, title)`.
  - `Grouped` folds the dict over the fates. `FirstStop` finds the first cap
    check that sees `number` keys.
  - `Aggregate` is the grouping of exactly the lines read.
  - The imperative `ReadFile` is proved equal to `Aggregate`.
- `Ranker` holds `find_closest`.
  - The distance list is built, then sorted stably by insertion.
  - A ghost index map records the permutation that the sort performs.
  - The first ten entries are copied into a new dict.
- `MovieMap` holds `main_worker` up to the map rendering.

The geocoder (`locate`) and the geodesic distance are parameters of the
model:

- `locate: string -> Option<Coord>` returns `None` where `locate` raises.
- `dist: (Coord, Coord) -> real` is any function; only its order matters.

## Model

| member | source | states |
|---|---|---|
| Text.Contains | main.py:35 | `year in line`: the empty token is in every line, and a token longer than the line is in none |
| Text.Strip | main.py:37 | `line.strip()` neither begins nor ends with whitespace |
| Text.StripTrims | main.py:37 | `line.strip()` is a slice of the line, and everything cut off on either side is whitespace |
| Text.StripUnchanged | main.py:37 | a line with no whitespace at either end is unchanged by `strip()` |
| Text.Split | main.py:37 | `split('\t')` gives one field more than the line has tabs |
| Text.JoinSplit | main.py:37 | no field of `split('\t')` contains a tab, and `'\t'.join` of the fields gives the text back |
| Text.SplitJoin | main.py:37 | splitting a tab-join of tab-free fields gives exactly those fields back |
| Text.SplitThree | main.py:37 | text with two tabs splits into the three pieces between them |
| Text.StripTrailingTab | main.py:37 | `strip()` removes a trailing tab, and nothing else when the rest has no whitespace at either end |
| Text.SplitTwo | main.py:37 | text with one tab splits into the two pieces around it |
| Text.StripCovers | main.py:37 | `strip()` keeps everything from one non-space character through another: it is a slice starting at or before the first and ending after the second |
| Text.StripKeepsBothTabs | main.py:37 | when the first and third tab-separated pieces each hold a non-space character, `strip()` keeps both tabs and cuts only the outer ends |
| Text.StripLeadingTab | main.py:37 | `strip()` removes a leading tab, and nothing else when the rest has no whitespace at either end |
| Text.Unescape | main.py:45-47 | `replace('{#', '#')` never lengthens a title and never empties a non-empty one |
| Text.UnescapeEscape | main.py:45-47 | `replace('{#', '#')` undoes writing every `#` as `{#` |
| Text.UnescapeLength | main.py:45-47 | the replacement shortens a title by exactly one character per occurrence of `{#` |
| Text.UnescapeDropsOnlyBraces | main.py:45-47 | the replacement removes only `{` characters; every other character survives in order |
| Text.UnescapeUnchangedIff | main.py:45-47 | a title is unchanged exactly when it contains no `{#` |
| Text.UnescapeNotIdempotent | main.py:45-47 | replacing twice differs from replacing once: `{{##` becomes `{##`, then `##` |
| Text.UnescapeKeepsHash | main.py:45 | `Mo{#vie` becomes `Mo#vie`: the `#` stays |
| LocationGroups.Add | main.py:44-47 | an absent coordinate becomes a new last key with a one-title list; a present one gets the title appended; no other key changes; the dict stays well formed |
| LocationGroups.Assign | main.py:105 | `new_dct[c] = v` stores `v` under `c`; a new key goes last, an old key keeps its place; no other key changes |
| Aggregator.Fate | main.py:35-43 | a line falls through exactly when it lacks the year token, and is malformed exactly when it has the token but its stripped text does not split into two tab-separated fields |
| Aggregator.FateOfEachLine | main.py:34-47 | each line's fate is decided by that line alone, at its own position |
| Aggregator.FatesPrefix | main.py:34 | the fates of the first `k` lines are the first `k` fates |
| Aggregator.Apply | main.py:44-47 | handling a line keeps a well-formed dict, keeps the earlier keys in their order, and adds at most one key |
| Aggregator.Grouped | main.py:32-47 | without the cap, the grouping is a well-formed dict whose lists are never empty |
| Aggregator.FirstStop | main.py:48-49 | the loop stops after the first line that reaches the cap check with `number` keys, and after no earlier line; otherwise it reads the whole file |
| Aggregator.Aggregate | main.py:26-50 | what `readfile` returns is a well-formed dict in which every coordinate has at least one title |
| Aggregator.ReadFile | main.py:26-50 | `readfile` returns the grouping of exactly the lines before the stopping point, and for `number >= 1` holds at most `number` keys |
| Aggregator.HandleLine | main.py:35-47 | one pass of the body applies the line's fate to the dict; it reaches the cap check exactly when the line did not end in `continue` |
| Aggregator.ReadStep | main.py:44-49 | one more line keeps the loop invariant: the body adds at most one key, and the loop stops exactly at a checked line that brings the count to `number` |
| Aggregator.BelowCap | main.py:48-49 | for `number >= 1`, before the stopping point the dict holds fewer than `number` keys |
| Aggregator.AggregateWithinCap | main.py:44-49 | for `number >= 1` the result never holds more than `number` coordinates |
| Aggregator.LaterLinesUnread | main.py:48-49 | once the loop stops, replacing every later line changes neither the stopping point nor the result |
| Aggregator.StopDependsOnPrefix | main.py:48-49 | where the loop stops depends only on the lines up to that point |
| Aggregator.KeptIff | main.py:35-47 | a line is kept exactly when it holds the year token, its stripped text has two tab-separated fields, and the location resolves; it is kept under that coordinate with the normalised title |
| Aggregator.LineChangesIff | main.py:35-43 | a line changes the dict exactly when it holds the year token, splits into two fields, and its location resolves |
| Aggregator.LineAppendsTitle | main.py:44-47 | a kept line appends its normalised title to its coordinate's list (a new key exactly when absent) and leaves every other list alone |
| Aggregator.ApplyLookup | main.py:44-47 | a line extends the list under a coordinate by exactly the title it contributes there |
| Aggregator.GroupedByCoordinate | main.py:32-47 | a coordinate is a key exactly when some line contributes to it, and its list is those lines' normalised titles in file order |
| Aggregator.FirstKeptIsFirst | main.py:44-46 | the first line kept under a coordinate is kept under it, and no earlier line is |
| Aggregator.KeyIffKept | main.py:44-46 | a coordinate is a key exactly when some line is kept under it |
| Aggregator.KeysInFirstSeenOrder | main.py:44-46 | the keys are in first-seen order, the order that breaks ties in `find_closest`: one key comes before another exactly when its first kept line does |
| Aggregator.ExtraFieldMalformed | main.py:37-39 | a line whose first and third tab-separated fields each hold a non-space character is skipped even when it holds the year token, trailing newline or not |
| Aggregator.BlankFirstFieldUnpacks | main.py:37 | a three-field line whose first field is blank is not skipped as malformed: `strip()` removes the leading tab and the two fields left unpack |
| Aggregator.BlankLastFieldUnpacks | main.py:37 | a three-field line whose last field is blank is not skipped as malformed: `strip()` removes the trailing tab and the two fields left unpack |
| Aggregator.ThreeFieldsDropped | main.py:35-39 | the record `Alpha\tCityX\t(2015)` is skipped for the token `(2015)` |
| Aggregator.ThreeFieldsDroppedWithNewline | main.py:33-39 | the same record with its trailing newline, as read from the file, is skipped too |
| Aggregator.ContinueSkipsCapCheck | main.py:38-49 | with `number == 0`, a malformed or unresolved first line does not stop the loop; the next line without the year token does, before the rest of the file |
| Ranker.InsertionPoint | main.py:102 | the stable insertion point comes after every element at most as far away and before every farther one |
| Ranker.SortByDistance | main.py:102 | `sort(key=lambda x: x[0])` gives a permutation of the list, ordered by distance, with equal distances in input order |
| Ranker.IndexOf | main.py:98 | a key's position in dict iteration order, or the length when absent |
| Ranker.RankByDistance | main.py:97-101 | `list_of_locations` pairs each key, in dict order, with its distance to the user |
| Ranker.TakeNearest | main.py:103-105 | `new_dct` holds the first `min(10, n)` sorted keys, in sorted order, each with its list from `dct` |
| Ranker.KeptInOrder | main.py:102-105 | the kept keys run from nearest to farthest, with equal distances in dict order |
| Ranker.KeptBeforeDropped | main.py:102-105 | every kept key ranks before every dropped key: the result is the ten nearest |
| Ranker.AllKeptWhenFew | main.py:104-105 | with at most ten keys, every key and its list is kept |
| Ranker.FindClosest | main.py:90-106 | `find_closest` returns `min(10, n)` keys of `dct` with their own lists, in ranking order, each ranking before every key left out |
| Ranker.FindClosestDoctest | main.py:94-95 | the doctest: a one-location dict comes back unchanged |
| MovieMap.YearToken | main.py:114 | the token is the year in parentheses |
| MovieMap.MainWorker | main.py:109-117 | what reaches the map is `find_closest` of what `readfile` returns: a well-formed dict holding `min(10, n)` of its coordinates with their own lists, in ranking order, each ranking before every coordinate left out; for `num_of_films >= 1` at most `min(10, num_of_films)` of them; each listing exactly the normalised titles of the lines read that resolve there, never an empty list |

## Behaviour worth noting

The model follows the code. Each point below is stated by the lemma named
with it.

- The title replacement `replace('{#', '#')` keeps the `#`, so `Mo{#vie`
  becomes `Mo#vie`, not `Movie` (`Text.UnescapeKeepsHash`).
- The replacement is not idempotent (`Text.UnescapeNotIdempotent`).
- A line whose first and third tab-separated fields each hold a non-space
  character, such as `Alpha\tCityX\t(2015)`, is skipped, because only
  exactly two fields unpack (`Aggregator.ExtraFieldMalformed`,
  `Aggregator.ThreeFieldsDropped`). A trailing newline does not change this
  (`Aggregator.ThreeFieldsDroppedWithNewline`).
- A three-field line whose first or last field is blank is not skipped for
  that reason: `strip()` removes the outer tab first, so
  `\tCityX\t(2015)` unpacks into `CityX` and `(2015)`
  (`Aggregator.BlankFirstFieldUnpacks`, `Aggregator.BlankLastFieldUnpacks`).
- The cap is not checked after every line. A line that ends in `continue`
  (malformed, or its location does not resolve) skips the check.
  - This matters only when `number` is 0
    (`Aggregator.ContinueSkipsCapCheck`).
  - Only a direct call of `readfile` or `main_worker` can pass 0: from the
    command line, `main` replaces a missing or zero `--number` by 70
    (main.py:133-134).
  - For `number >= 1` a skipped line leaves the count unchanged, and the count
    was already below `number`.

## Left out

- `locate` (main.py:15-23): the Nominatim geocoding call is network I/O, so
  the geocoder is the parameter `locate`.
  - Its `lru_cache` is memoisation. It is left out because it does not change
    any result when the geocoder is deterministic.
  - Any exception, including a failed lookup, is `None`.
- The geodesic distance (main.py:99-100): `geopy.distance.distance`, and the
  round trip of its formatted text back to a float, are the parameter `dist`.
  Distances and coordinates are reals rather than binary floats.
- Opening and decoding the file (main.py:33): `encoding='utf-8'`,
  `errors='ignore'`.
  - The model takes the file as the sequence of its decoded lines.
  - A line may keep its trailing newline. The year test sees the newline, and
    `strip()` removes it.
- `put_on_map` (main.py:53-87) and `main` (main.py:120 onwards): map rendering,
  randomised marker offsets, command-line parsing, and timing, all of which
  are output or I/O. `MovieMap.MainWorker` returns the dict that
  `put_on_map` would receive.
- Default arguments: `readfile`'s `number=70` (main.py:26) and
  `main_worker`'s defaults for the file, the user's coordinates, the year and
  the number of films (main.py:109). Every call in `main.py` passes all the
  arguments, so the model takes them all as parameters and loses no behaviour.
- Ranker.SortByDistance: `list.sort` is Timsort working in place. The model
  is a stable insertion sort that returns a new sequence.
  - A stable sort's result is determined by its key, so the order is the same.
  - The in-place update of `list_of_locations` is not captured.
- Ranker.TakeNearest: in the source, `new_dct` shares its list objects with
  `dct`. The model copies the values, so aliasing is not captured; neither
  dict is mutated afterwards.
