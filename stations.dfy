/** The Rodalies station directory: building it from the rows of the local
    reference file (monitor_trenes.py, load_rodalies_stations) and the
    accent-insensitive substring search over it (buscar_estaciones_adif).
    The name normalisation is the parameter `norm` throughout. */
module Stations {
  import opened Text
  import opened Scan

  /** One row of the reference file, reduced to the two columns that are read. */
  datatype StationRow = StationRow(descripcion: string, codigo: string)

  /** One item of the directory: a normalised name and its station code. */
  datatype StationEntry = StationEntry(name: string, code: string)

  /** An insertion-ordered dictionary from normalised name to code, as a
      Python dict is: `order` lists the keys in insertion order. */
  datatype Directory = Directory(order: seq<string>, codes: map<string, string>) {

    ghost predicate Valid()
    {
      && (forall i, j :: 0 <= i < j < |order| ==> order[i] != order[j])
      && (forall k :: k in codes <==> k in order)
    }

    /** What `items()` iterates over, in iteration order: one entry per key. */
    function Items(): (items: seq<StationEntry>)
      requires Valid()
      ensures |items| == |order|
      ensures forall i :: 0 <= i < |order| ==> items[i].name == order[i]
    {
      seq(|order|, i requires 0 <= i < |order| => StationEntry(order[i], codes[order[i]]))
    }

    /** An entry is listed exactly when its name is a key and its code is
        the value stored under that key. */
    lemma ItemsMembers()
      requires Valid()
      ensures forall e: StationEntry :: e in Items() <==> e.name in codes && e.code == codes[e.name]
    {
      forall e: StationEntry | e.name in codes && e.code == codes[e.name]
        ensures e in Items()
      {
        var i := IndexOf(order, e.name);
        assert Items()[i] == e;
      }
    }

    /** `d[k] = v`: a new key goes to the end; an existing key keeps its
        place and only its value changes. */
    function Put(k: string, v: string): (d: Directory)
      requires Valid()
      ensures d.Valid()
      ensures k in codes ==> |d.Items()| == |Items()|
      ensures k in codes ==> forall i :: 0 <= i < |order| ==>
        d.Items()[i] == (if order[i] == k then StationEntry(k, v) else Items()[i])
      ensures k !in codes ==> d.Items() == Items() + [StationEntry(k, v)]
    {
      Directory(if k in codes then order else order + [k], codes[k := v])
    }
  }

  const EmptyDirectory := Directory([], map[])

  /** The key under which a row is stored. */
  function KeyOf(norm: string -> string, row: StationRow): string
  {
    norm(row.descripcion)
  }

  /** The keys of the rows, in file order, duplicates included. */
  function Keys(norm: string -> string, rows: seq<StationRow>): (keys: seq<string>)
    ensures |keys| == |rows|
    ensures forall i :: 0 <= i < |rows| ==> keys[i] == KeyOf(norm, rows[i])
  {
    seq(|rows|, i requires 0 <= i < |rows| => KeyOf(norm, rows[i]))
  }

  /** The directory after storing every row in file order, starting from empty. */
  function BuildDirectory(norm: string -> string, rows: seq<StationRow>): (d: Directory)
    ensures d.Valid()
    decreases |rows|
  {
    if rows == [] then EmptyDirectory
    else
      var last := rows[|rows| - 1];
      BuildDirectory(norm, rows[..|rows| - 1]).Put(KeyOf(norm, last), last.codigo)
  }

  /** The loop of load_rodalies_stations: store every row under its normalised name. */
  method LoadStations(norm: string -> string, rows: seq<StationRow>) returns (stations: Directory)
    ensures stations.Valid()
    ensures stations == BuildDirectory(norm, rows)
  {
    stations := EmptyDirectory;
    for i := 0 to |rows|
      invariant stations == BuildDirectory(norm, rows[..i])
    {
      assert rows[..i + 1][..i] == rows[..i];
      stations := stations.Put(norm(rows[i].descripcion), rows[i].codigo);
    }
    assert rows[..|rows|] == rows;
  }

  /** No later row has the same normalised name as row i. */
  predicate LastWithItsKey(norm: string -> string, rows: seq<StationRow>, i: nat)
    requires i < |rows|
  {
    forall j :: i < j < |rows| ==> KeyOf(norm, rows[j]) != KeyOf(norm, rows[i])
  }

  /** The built directory has one key per distinct normalised name in the rows. */
  lemma {:induction false} BuildDirectoryKeys(norm: string -> string, rows: seq<StationRow>)
    ensures forall k :: k in BuildDirectory(norm, rows).codes <==> k in Keys(norm, rows)
    decreases |rows|
  {
    if rows != [] {
      var n := |rows| - 1;
      BuildDirectoryKeys(norm, rows[..n]);
      assert Keys(norm, rows) == Keys(norm, rows[..n]) + [KeyOf(norm, rows[n])];
    }
  }

  /** Storing the last row updates the code of its key and no other. */
  lemma BuildDirectoryCodesStep(norm: string -> string, rows: seq<StationRow>)
    requires rows != []
    ensures var n := |rows| - 1;
      BuildDirectory(norm, rows).codes == BuildDirectory(norm, rows[..n]).codes[KeyOf(norm, rows[n]) := rows[n].codigo]
  {
  }

  /** A row that is last with its key in `rows` is so in every prefix holding it. */
  lemma LastWithItsKeyInPrefix(norm: string -> string, rows: seq<StationRow>, n: nat, i: nat)
    requires i < n <= |rows| && LastWithItsKey(norm, rows, i)
    ensures LastWithItsKey(norm, rows[..n], i)
  {
    assert forall j :: i <= j < n ==> rows[..n][j] == rows[j];
  }

  /** A key holds the code of the last row with that normalised name: a later
      duplicate overwrites the earlier code. */
  lemma {:induction false} BuildDirectoryLastRowWins(norm: string -> string, rows: seq<StationRow>, i: nat)
    requires i < |rows| && LastWithItsKey(norm, rows, i)
    ensures KeyOf(norm, rows[i]) in BuildDirectory(norm, rows).codes
    ensures BuildDirectory(norm, rows).codes[KeyOf(norm, rows[i])] == rows[i].codigo
    decreases |rows|
  {
    var n := |rows| - 1;
    BuildDirectoryCodesStep(norm, rows);
    if i < n {
      assert KeyOf(norm, rows[n]) != KeyOf(norm, rows[i]);
      LastWithItsKeyInPrefix(norm, rows, n, i);
      BuildDirectoryLastRowWins(norm, rows[..n], i);
      assert rows[..n][i] == rows[i];
    }
  }

  /** The keys are in the order of their first appearance in the file: an
      overwritten key keeps its original place. */
  lemma {:induction false} BuildDirectoryOrder(norm: string -> string, rows: seq<StationRow>)
    ensures InFirstAppearanceOrder(BuildDirectory(norm, rows).order, Keys(norm, rows))
    decreases |rows|
  {
    if rows != [] {
      var n := |rows| - 1;
      var k := KeyOf(norm, rows[n]);
      var d0 := BuildDirectory(norm, rows[..n]);
      var keys0 := Keys(norm, rows[..n]);
      BuildDirectoryOrder(norm, rows[..n]);
      assert Keys(norm, rows) == keys0 + [k];
      if k in d0.codes {
        AppendKeepsFirstAppearanceOrder(d0.order, keys0, k);
      } else {
        BuildDirectoryKeys(norm, rows[..n]);
        AppendNewKeepsFirstAppearanceOrder(d0.order, keys0, k);
      }
    }
  }

  /** The entries whose name contains the normalised query, in iteration order. */
  function Matching(query: string, items: seq<StationEntry>): seq<StationEntry>
    decreases |items|
  {
    if items == [] then []
    else
      var found := Matching(query, items[..|items| - 1]);
      var e := items[|items| - 1];
      if Contains(query, e.name) then found + [e] else found
  }

  /** Exactly the matching entries are kept. */
  lemma {:induction false} MatchingMembers(query: string, items: seq<StationEntry>)
    ensures forall e :: e in Matching(query, items) <==> e in items && Contains(query, e.name)
    decreases |items|
  {
    if items != [] {
      var n := |items| - 1;
      MatchingMembers(query, items[..n]);
      assert items == items[..n] + [items[n]];
    }
  }

  /** Searching a concatenation searches each part in turn: the results keep
      the relative order they have in the directory. */
  lemma {:induction false} MatchingAppend(query: string, a: seq<StationEntry>, b: seq<StationEntry>)
    ensures Matching(query, a + b) == Matching(query, a) + Matching(query, b)
    decreases |b|
  {
    if b == [] {
      assert a + b == a;
    } else {
      var n := |b| - 1;
      MatchingAppend(query, a, b[..n]);
      assert (a + b)[..|a + b| - 1] == a + b[..n];
    }
  }

  function NameMatcher(query: string): StationEntry -> bool
  {
    (e: StationEntry) => Contains(query, e.name)
  }

  /** The results are the matching entries in directory order: the k-th
      result is the entry at the k-th matching position. */
  lemma {:induction false} MatchingInOrder(query: string, items: seq<StationEntry>)
    ensures var positions := Positions(items, NameMatcher(query));
      var found := Matching(query, items);
      && |found| == |positions|
      && forall k :: 0 <= k < |positions| ==> found[k] == items[positions[k]]
    decreases |items|
  {
    if items != [] {
      var n := |items| - 1;
      var prefix := items[..n];
      MatchingInOrder(query, prefix);
      var positions0 := Positions(prefix, NameMatcher(query));
      var found0 := Matching(query, prefix);
      var positions := Positions(items, NameMatcher(query));
      var found := Matching(query, items);
      assert forall k :: 0 <= k < |positions0| ==> prefix[positions0[k]] == items[positions0[k]];
      if Contains(query, items[n].name) {
        assert NameMatcher(query)(items[n]);
        assert positions == positions0 + [n];
        assert found == found0 + [items[n]];
      } else {
        assert !NameMatcher(query)(items[n]);
        assert positions == positions0;
        assert found == found0;
      }
    }
  }

  /** The three outcomes of buscar_estaciones_adif: the directory was never
      loaded (or is empty), nothing matched, or the station entries found. */
  datatype SearchOutcome = DirectoryUnavailable | NoStationsFound | StationsFound(stations: seq<StationEntry>)

  /** buscar_estaciones_adif without the table rendering. */
  method SearchStations(norm: string -> string, stations: Directory, query: string)
    returns (outcome: SearchOutcome)
    requires stations.Valid()
    ensures stations.order == [] ==> outcome == DirectoryUnavailable
    ensures stations.order != [] ==>
      var found := Matching(norm(query), stations.Items());
      outcome == if found == [] then NoStationsFound else StationsFound(found)
  {
    if stations.order == [] {
      return DirectoryUnavailable;
    }
    var items := stations.Items();
    var normalizedSearch := norm(query);
    var foundStations: seq<StationEntry> := [];
    for i := 0 to |items|
      invariant foundStations == Matching(normalizedSearch, items[..i])
    {
      assert items[..i + 1][..i] == items[..i];
      if Contains(normalizedSearch, items[i].name) {
        foundStations := foundStations + [items[i]];
      }
    }
    assert items[..|items|] == items;
    if foundStations == [] {
      return NoStationsFound;
    }
    return StationsFound(foundStations);
  }

  /** Search on a directory built from rows: an entry is found exactly when
      its name is the normalised name of some row, it contains the normalised
      query, and its code is the one stored for that name. */
  lemma SearchBuiltDirectory(norm: string -> string, rows: seq<StationRow>, query: string)
    ensures forall e :: e in Matching(norm(query), BuildDirectory(norm, rows).Items()) <==>
      && e.name in BuildDirectory(norm, rows).codes
      && Contains(norm(query), e.name)
      && e.code == BuildDirectory(norm, rows).codes[e.name]
  {
    MatchingMembers(norm(query), BuildDirectory(norm, rows).Items());
    BuildDirectory(norm, rows).ItemsMembers();
  }
}
