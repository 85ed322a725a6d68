# FGC delay monitor and Rodalies station search: a Dafny model

`monitor_trenes.py` is a command-line tool. It reports the delays of FGC
(Ferrocarrils de la Generalitat de Catalunya) trains at a stop. It also
searches a local file of Rodalies station names. This project models the
part of the tool that works on data and proves properties of that model:

- **Name normalisation.** `normalize_string` is the parameter
  `norm: string -> string` of every operation that compares names. It is
  never given a body. A fuzzy match is Python's substring test
  `normalized_query in normalized_text`, modelled as `Text.Contains`.
- **Station directory** (module `Stations`).
  - `load_rodalies_stations` fills a dictionary from normalised
    `DESCRIPCION` to `CÓDIGO`. A Python dict keeps insertion order, so the
    model's `Directory` value pairs the key order with the map.
    Overwriting a key keeps its position and replaces its value.
  - `buscar_estaciones_adif` keeps the entries whose key contains the
    normalised query, in iteration order. It has three outcomes: no
    directory, no match, or the entries found.
- **Realtime delay index** (module `Realtime`). This is the `retrasos`
  loop of `obtener_retrasos_fgc`. For each feed entity that has a trip
  update, the first stop-time update whose departure delay is positive is
  stored under the trip id. A later entity for the same trip overwrites
  the earlier value.
- **Static schedule join** (module `Schedule`). Each GTFS table is a
  sequence of lines. `Table` splits each line on `,` with the concrete
  `Text.Split`. The rest of the query is a set of first-match scans over
  the split rows:
  - resolve the stop name against `stops.txt`;
  - collect the stop's rows of `stop_times.txt` in file order;
  - join each row to `trips.txt` (destination) and `routes.txt` (line),
    with the defaults `"N/A"` and `"Sin destino"`;
  - add the delay in whole minutes, `delay // 60`.
- **Library modules and scenarios.**
  - `Scan` holds the generic scans: the first index that satisfies a
    predicate, and all matching positions in order.
  - `Text` holds substring containment and comma splitting, with their
    round-trip lemmas.
  - `Scenarios` holds small concrete cases of all of the above.

Each loop of the source is an imperative method with invariants:
`LoadStations` and `SearchStations` for the station directory, and
`BuildDelayIndex`, `ResolveStop`, `CollectArrivals`, `LookUpTrip` and
`LookUpRoute` for the delay query. `CheckDelays` runs `BuildDelayIndex`,
`ResolveStop` and `CollectArrivals` in that order; `CollectArrivals`
calls `LookUpTrip` for each visit, and `LookUpTrip` calls `LookUpRoute`.
Each method is proved equal to a function over the inputs, and the
lemmas state what the source promises about those functions.

Behaviours of the code that are easy to miss:

- The header line of every GTFS table is matched like a data line. It is
  not skipped (`Scenarios.HeaderLineIsNotSkipped`).
- Within one entity, the first positive departure delay is kept. Across
  entities, the last entity reporting a delay for a trip wins, because
  the assignment has no presence check (`Realtime.DelayIndexLastEntityWins`).
- A matching stop line with exactly three fields passes the
  `len(fields) > 2` guard and then fails on `fields[3]` with an
  IndexError. The model gives this its own outcome, `StopRowTooShort`,
  which surfaces as `StopLineIndexError`.
- An empty stop id in field 3 counts as no stop found, because the code
  tests `if not stop_id_encontrado`.

## Model

| member | source | states |
|---|---|---|
| Text.Contains | monitor_trenes.py:53 | Python's `needle in haystack` on strings: some suffix of the haystack starts with the needle; characterised by `ContainsIffOccurs` |
| Text.FirstCharacterMissing | monitor_trenes.py:53 | a needle whose first character is not in the haystack is not contained in it |
| Text.ContainsIffOccurs | monitor_trenes.py:53 | the substring test holds exactly when the needle occurs at some offset of the haystack |
| Text.Split | monitor_trenes.py:118 | Python's `line.split(',')` (also at lines 130, 139 and 144): the pieces between separators, empty ones kept, always at least one; characterised by `JoinSplit`, `SplitJoin`, `SplitLength` and `SplitFieldsFreeOfSeparator` |
| Text.SplitLength | monitor_trenes.py:118 | `split(',')` yields one field more than there are commas in the line |
| Text.SplitFieldsFreeOfSeparator | monitor_trenes.py:118 | no field produced by `split(',')` contains a comma |
| Text.JoinSplit | monitor_trenes.py:118 | joining the fields of a split with the separator gives back the line |
| Text.SplitJoin | monitor_trenes.py:118 | splitting the join of comma-free fields gives back those fields |
| Scan.FirstIndex | monitor_trenes.py:117-122 | a first-match scan finds nothing exactly when no row matches; otherwise it finds a matching row with no match before it |
| Scan.FirstIndexIgnoresLater | monitor_trenes.py:122 | once a row matches, appending more rows does not change the result of the scan |
| Scan.Positions | monitor_trenes.py:129-131 | the matching positions, strictly increasing, each in range and matching, and every match is among them |
| Scan.AppendNewKeepsFirstAppearanceOrder | monitor_trenes.py:29 | a key new to the dictionary goes after every key already there, in first-appearance order |
| Stations.Directory.Items | monitor_trenes.py:52 | `items()` in insertion order: one entry per key, the i-th named by the i-th inserted key |
| Stations.Directory.ItemsMembers | monitor_trenes.py:52 | an entry is listed exactly when its name is a key and its code is the value stored under that key |
| Stations.Directory.Put | monitor_trenes.py:29 | `d[k] = v` keeps the dictionary well formed; an existing key keeps its position and only its value changes; a new key is appended with its value |
| Stations.BuildDirectory | monitor_trenes.py:28-29 | the dictionary built from the rows is well formed: keys distinct, and the key order and the map keys agree |
| Stations.LoadStations | monitor_trenes.py:28-29 | the loading loop produces the dictionary built by storing each row under its normalised name, in file order, starting from empty |
| Stations.BuildDirectoryKeys | monitor_trenes.py:29 | a name is a key exactly when it is the normalised `DESCRIPCION` of some row |
| Stations.BuildDirectoryCodesStep | monitor_trenes.py:29 | storing a row updates the code of its key and no other |
| Stations.BuildDirectoryLastRowWins | monitor_trenes.py:29 | a key holds the `CÓDIGO` of the last row with that normalised name |
| Stations.BuildDirectoryOrder | monitor_trenes.py:28-29 | the keys iterate in the order of their first appearance in the file, so an overwritten key keeps its place |
| Stations.Matching | monitor_trenes.py:52-54 | the `found_stations` list: the entries whose name contains the normalised query, appended in iteration order |
| Stations.MatchingMembers | monitor_trenes.py:52-54 | an entry is kept exactly when it is in the directory and its name contains the normalised query |
| Stations.MatchingAppend | monitor_trenes.py:52-54 | filtering a concatenation filters each part in turn, so relative order is kept |
| Stations.MatchingInOrder | monitor_trenes.py:52-54 | the k-th result is the entry at the k-th matching position of the directory |
| Stations.SearchStations | monitor_trenes.py:40-58 | an empty directory gives the unavailable outcome; otherwise the result is "no stations found" when no entry matches, else the matching entries in order |
| Stations.SearchBuiltDirectory | monitor_trenes.py:28-29 | searching a loaded directory finds an entry exactly when its name is a key containing the normalised query and its code is the one stored for that key |
| Realtime.FirstPositiveDelay | monitor_trenes.py:88-91 | the delay kept for an entity is absent exactly when no update has a positive departure delay; otherwise it is positive and is that of the first such update |
| Realtime.EntityDelay | monitor_trenes.py:86-91 | an entity without a trip update contributes nothing; otherwise it contributes a positive delay (that of the first positive departure, by `FirstPositiveDelay`), absent exactly when no update has one |
| Realtime.DelayIndex | monitor_trenes.py:84-91 | `retrasos` after the entity loop: each entity with a delay stores it under its trip id, overwriting an earlier value |
| Realtime.BuildDelayIndex | monitor_trenes.py:84-91 | the nested loops with `break` build the index of the entity fold |
| Realtime.DelayIndexPositive | monitor_trenes.py:89-90 | every stored delay is greater than zero |
| Realtime.DelayIndexKeys | monitor_trenes.py:86-90 | a trip id is in the index exactly when some entity for it has a positive departure delay |
| Realtime.DelayIndexLastEntityWins | monitor_trenes.py:85-91 | the stored delay is the one of the last entity that reports a delay for the trip |
| Schedule.Table | monitor_trenes.py:117-118 | one row per line, each the line's `split(',')` with at least one field |
| Schedule.LookupAt | monitor_trenes.py:119-126 | the matching line gives the IndexError outcome exactly when it has at most three fields, not found exactly when field 3 is empty, and otherwise the non-empty field 3 |
| Schedule.StopResolution | monitor_trenes.py:115-126 | the outcome of the first line whose name matches the normalised query, and not found when no line matches |
| Schedule.ResolveStop | monitor_trenes.py:115-126 | the break-terminated stop scan returns the stop resolution outcome |
| Schedule.StopResolutionFirstMatch | monitor_trenes.py:117-122 | the first line with more than two fields whose normalised name contains the normalised query decides the outcome: its field 3, or the IndexError when it has three fields, or not found when field 3 is empty |
| Schedule.StopResolutionNoMatch | monitor_trenes.py:124-126 | with no matching line the stop is not found |
| Schedule.StopResolutionIgnoresLaterLines | monitor_trenes.py:122 | lines after a matching line do not affect the outcome |
| Schedule.StopFoundIsField3 | monitor_trenes.py:119-124 | a found stop id is non-empty and is field 3 of a matching line |
| Schedule.RouteName | monitor_trenes.py:143-147 | a route name other than `"N/A"` is field 2 of the first routes line with more than two fields and the route id in field 0 |
| Schedule.TripDetailsFor | monitor_trenes.py:136-148 | a destination other than `"N/A"` comes from a first trips line for the trip id |
| Schedule.LookUpRoute | monitor_trenes.py:143-147 | the routes loop returns the route name |
| Schedule.LookUpTrip | monitor_trenes.py:138-148 | the trips loop, with the nested routes loop, returns the trip's destination and line |
| Schedule.RouteNameCases | monitor_trenes.py:143-147 | `linea` is field 2 of the first routes line with more than two fields whose field 0 is the route id, and `"N/A"` when there is none |
| Schedule.TripDetailsCases | monitor_trenes.py:136-148 | with no trips line for the trip, destination and line stay `"N/A"`; otherwise the first trips line gives field 3 as destination (`"Sin destino"` with three fields) and the route name of its field 0 |
| Schedule.DelayMinutes | monitor_trenes.py:150-151 | 0 when the trip is not in the index; otherwise the floor of the delay over 60: `m*60 <= delay < (m+1)*60` |
| Schedule.ArrivalFor | monitor_trenes.py:132-136 | the record of one visit line: its fields 0, 1 and 2, the trip's destination and line, and the delay in minutes |
| Schedule.Arrivals | monitor_trenes.py:128-153 | `trenes_en_parada` after the stop_times loop: one record appended per visit line, in file order |
| Schedule.CollectArrivals | monitor_trenes.py:128-153 | the stop_times loop returns the arrivals of the stop |
| Schedule.ArrivalsPerVisit | monitor_trenes.py:129-136 | one record per stop_times line with more than three fields and the stop id in field 3, in file order, carrying that line's fields 0, 1 and 2, its trip details and its delay |
| Schedule.ArrivalsEmpty | monitor_trenes.py:155-157 | there are no records exactly when no stop_times line is a visit of the stop |
| Schedule.ArrivalDelaysNonNegative | monitor_trenes.py:150-151 | with an index built from a feed, every record's delay in minutes is non-negative |
| Schedule.DelayReportFor | monitor_trenes.py:115-157 | the unknown-stop and IndexError outcomes come exactly from the stop resolution; once the stop resolves to an id, the no-trains outcome happens exactly when no stop_times row is a visit of that id, and otherwise the trains are exactly the arrivals of that stop (one record per visit in file order, by `ArrivalsPerVisit`) |
| Schedule.CheckDelays | monitor_trenes.py:84-157 | the whole query, after the downloads, gives the delay report: unknown stop, IndexError on the stop line, no trains scheduled, or the records |
| Scenarios.FirstPositiveDepartureKept | monitor_trenes.py:88-91 | an update without a departure is skipped and the next positive delay of 300 is stored; a delay of -30 leaves the trip out |
| Scenarios.DelayTruncatesToMinutes | monitor_trenes.py:150-151 | 125 seconds is 2 minutes; a trip not in the index has 0 |
| Scenarios.FirstStopInFileOrderWins | monitor_trenes.py:117-122 | with "Sants Estació" (A) before "Sants" (B), the query "sants" resolves to A |
| Scenarios.HeaderLineIsNotSkipped | monitor_trenes.py:117-120 | a query contained in the header's name column resolves to the header's field 3 |
| Scenarios.ThreeFieldStopLineFails | monitor_trenes.py:119-120 | a matching line with three fields ends in the IndexError outcome |
| Scenarios.OneVisitEndToEnd | monitor_trenes.py:128-153 | one visit of S1 on trip T1 of route R1 gives one record with line S1, destination Terrassa, times 10:14 and 10:15, and 0 minutes |
| Scenarios.MissingRouteFallsBack | monitor_trenes.py:140-147 | a missing route gives line `"N/A"`; a three-field trips line gives `"Sin destino"`; a missing trip gives `"N/A"` twice |
| Scenarios.SplitRoutesLine | monitor_trenes.py:144 | the line `R1,FGC,S1` splits into its three fields |
| Scenarios.OneVisitReport | monitor_trenes.py:115-157 | over one-line tables of the Provença example, the query "provenca" reports the one record |
| Scenarios.UnknownStopReport | monitor_trenes.py:124-126 | a query no stop name contains reports the stop as unknown |
| Scenarios.SearchOneStation | monitor_trenes.py:50-54 | searching a one-station directory for "sants" finds Barcelona Sants with code 08001 |
| Scenarios.OneStationDirectory | monitor_trenes.py:28-29 | loading the one row of Barcelona Sants gives a directory with the one key "barcelona sants" and code 08001 |
| Scenarios.NothingContainsZzz | monitor_trenes.py:52-54 | "zzz" matches no entry of that directory |
| Scenarios.SearchFindsStation | monitor_trenes.py:40-58 | loading the row and searching for "sants" gives the found outcome with the one station |
| Scenarios.SearchFindsNothing | monitor_trenes.py:56-58 | loading the row and searching for "zzz" gives the "no stations found" outcome, not an error |

## Left out

- The HTTP requests and the JSON discovery hop (monitor_trenes.py:69-82, 94-96, 108-110) are network I/O. The feed is a parameter, a sequence of already decoded entities. The static files are parameters, sequences of lines.
- Protobuf decoding (monitor_trenes.py:79), zip extraction and UTF-8 decoding (monitor_trenes.py:97-107, 111-113) are foreign library calls and are left out.
- `strip()` and `splitlines()` (monitor_trenes.py:117-118, 129-130, 138-139, 143-144) are not modelled. Each table is given as its lines, already stripped, and only `split(',')` is modelled.
- The Unicode NFD decomposition and the `Mn` category tables behind `normalize_string` (monitor_trenes.py:20-21) stay the abstract parameter `norm`. No lemma can state that normalisation is idempotent or removes accents. The scenarios state, as preconditions, the substring facts about normalised names that they rely on.
- CSV parsing with `csv.DictReader` and its exception handling (monitor_trenes.py:25-27, 30-34) are left out. The directory is built from rows already reduced to `DESCRIPCION` and `CÓDIGO`. A missing file, a missing column or a load that fails part-way is not modelled.
- Stations.LoadStations: starts from an empty directory. The source fills a process-global dict (monitor_trenes.py:18, 24), which is empty unless loaded before. The directory is passed around as a value.
- Rich console tables, `.title()` display casing and every `print` (monitor_trenes.py:30, 41, 44-47, 57, 60-63, 93, 121, 125, 156, 159-174) are presentation. The outcomes that lead to each message are modelled as datatype cases.
- The interactive menu (monitor_trenes.py:178-201) and argparse (monitor_trenes.py:203-216) are user interface and are left out.
- Realtime.StopTimeEvent: the protobuf delay is an int32 and is modelled as an unbounded `int`. The width makes no difference, because only the comparison with 0 and the division by 60 are used.
