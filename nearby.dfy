/** The nearby-station view: every station gets its distance from the user (`calcular_distancia`,
    written into the shared table as column `distancia_km`), and the stations whose distance is
    known and within the radius are listed nearest first. The geodesic distance itself is a
    parameter: a function from the row's `lat`/`lon` cells to a distance in kilometres, or to
    `None` when it raises. */
module Nearby {
  import opened Wrappers
  import opened Seqs
  import opened Frames
  import opened Normalizer

  const DistanceColumn: string := "distancia_km"

  type Km = d: real | 0.0 <= d witness 0.0

  /** `calcular_distancia(row)`: any exception, a missing `lat`/`lon` label included, gives
      None. */
  function RowDistance(r: Row, geodesic: (Cell, Cell) -> Option<Km>): (d: Option<Km>)
    ensures !(Lat in r && Lon in r) ==> d.None?
    ensures d.Some? ==> Lat in r && Lon in r && geodesic(r[Lat], r[Lon]) == d
  {
    if Lat in r && Lon in r then geodesic(r[Lat], r[Lon]) else None
  }

  /** A None returned by `apply` is stored as NaN. */
  function DistanceCell(d: Option<Km>): Cell {
    if d.Some? then Number(d.value) else Missing
  }

  /** The table shared by the three tabs; computing the distances adds a column to it in place. */
  class StationTable {
    var columns: seq<string>
    var rows: seq<Row>

    constructor (f: Frame)
      ensures columns == f.columns && rows == f.rows
    {
      columns := f.columns;
      rows := f.rows;
    }

    /** `df_temp['distancia_km'] = df_temp.apply(calcular_distancia, axis=1)`: one distance
        per row, in row order, then the column is set (appended if new, overwritten if not). */
    method AddDistanceColumn(geodesic: (Cell, Cell) -> Option<Km>)
      modifies this
      ensures columns == if DistanceColumn in old(columns) then old(columns) else old(columns) + [DistanceColumn]
      ensures |rows| == |old(rows)|
      ensures forall i :: 0 <= i < |rows| ==>
        rows[i] == old(rows)[i][DistanceColumn := DistanceCell(RowDistance(old(rows)[i], geodesic))]
    {
      var current := rows;
      var distances: seq<Cell> := [];
      for i := 0 to |current|
        invariant |distances| == i
        invariant forall k :: 0 <= k < i ==> distances[k] == DistanceCell(RowDistance(current[k], geodesic))
      {
        distances := distances + [DistanceCell(RowDistance(current[i], geodesic))];
      }
      rows := seq(|current|, i requires 0 <= i < |current| => current[i][DistanceColumn := distances[i]]);
      if DistanceColumn !in columns {
        columns := columns + [DistanceColumn];
      }
    }
  }

  /** `df['distancia_km'] <= dist_max`: NaN compares false. */
  predicate WithinRadius(r: Row, maxKm: real) {
    DistanceColumn in r && r[DistanceColumn].Number? && r[DistanceColumn].x <= maxKm
  }

  /** The sort key; only rows with a known distance are ever sorted. */
  function DistanceOf(r: Row): real {
    if DistanceColumn in r && r[DistanceColumn].Number? then r[DistanceColumn].x else 0.0
  }

  predicate SortedByDistance(rows: seq<Row>) {
    SortedBy(rows, DistanceOf)
  }

  /** `df_temp[df_temp['distancia_km'] <= dist_max].sort_values('distancia_km')`: exactly the
      rows with a known distance within the radius, each as often as in the input, nearest
      first. */
  function Nearby(rows: seq<Row>, maxKm: real): (r: seq<Row>)
    ensures forall x :: x in r ==> x in rows && WithinRadius(x, maxKm)
    ensures forall x :: x in rows && WithinRadius(x, maxKm) ==> x in r
    ensures forall x :: multiset(r)[x] == if WithinRadius(x, maxKm) then multiset(rows)[x] else 0
    ensures SortedByDistance(r)
  {
    var r := SortBy(Filter(rows, x => WithinRadius(x, maxKm)), DistanceOf);
    forall x
      ensures multiset(r)[x] == if WithinRadius(x, maxKm) then multiset(rows)[x] else 0
    {
      FilterCount(rows, x => WithinRadius(x, maxKm), x);
    }
    assert forall x :: x in r <==> x in multiset(r);
    r
  }

  /** Lines 265-266: the distances are written into the shared table, then the nearby list
      is taken from it. */
  method NearbyStations(table: StationTable, geodesic: (Cell, Cell) -> Option<Km>, maxKm: real)
    returns (nearby: seq<Row>)
    modifies table
    ensures table.columns ==
      if DistanceColumn in old(table.columns) then old(table.columns) else old(table.columns) + [DistanceColumn]
    ensures |table.rows| == |old(table.rows)|
    ensures forall i :: 0 <= i < |table.rows| ==>
      table.rows[i] == old(table.rows)[i][DistanceColumn := DistanceCell(RowDistance(old(table.rows)[i], geodesic))]
    ensures nearby == Nearby(table.rows, maxKm)
    ensures forall x :: multiset(nearby)[x] == if WithinRadius(x, maxKm) then multiset(table.rows)[x] else 0
    ensures forall x :: x in nearby ==> x in table.rows && WithinRadius(x, maxKm)
    ensures forall i :: 0 <= i < |old(table.rows)| ==>
      (RowDistance(old(table.rows)[i], geodesic).Some? && RowDistance(old(table.rows)[i], geodesic).value <= maxKm
       <==> table.rows[i] in nearby)
    ensures SortedByDistance(nearby)
  {
    table.AddDistanceColumn(geodesic);
    nearby := Nearby(table.rows, maxKm);
  }

  /** A station within the radius keeps its distance in the result, and one whose distance
      could not be computed is never listed. */
  lemma DistanceDecidesMembership(r: Row, geodesic: (Cell, Cell) -> Option<Km>, maxKm: real)
    ensures var a := r[DistanceColumn := DistanceCell(RowDistance(r, geodesic))];
      WithinRadius(a, maxKm) <==> RowDistance(r, geodesic).Some? && RowDistance(r, geodesic).value <= maxKm
  {
  }

  /** No station within the radius: the list is empty (not an error). */
  lemma NoneWithinRadius(rows: seq<Row>, maxKm: real)
    requires forall i :: 0 <= i < |rows| ==> !WithinRadius(rows[i], maxKm)
    ensures Nearby(rows, maxKm) == []
  {
    assert forall x :: x in rows ==> !WithinRadius(x, maxKm);
  }
}
