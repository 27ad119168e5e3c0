/** The daily price history (`guardar_evolucion_diaria`): a table of (date, fuel, mean price)
    rows kept in a file. A call appends one row for today's date and the chosen fuel, and
    rewrites the file, only when no row with that date and fuel exists yet. The clock and the
    file system are outside the model: today's date string is a parameter and the file is the
    object's state, `None` while it does not exist. */
module Ledger {
  import opened Wrappers
  import opened Seqs
  import opened Frames
  import opened Stats

  /** One row of the history: `Fecha` ("%Y-%m-%d"), `Combustible`, `Precio Medio`. */
  datatype Entry = Entry(fecha: string, combustible: string, precioMedio: Option<real>)

  /** `df_filtrado[fuel]` as numbers: a station's price, or unknown when it has none. */
  function PriceValues(stations: seq<Row>, fuel: string): seq<Option<real>> {
    MapSeq(stations, (r: Row) => if fuel in r && r[fuel].Number? then Some(r[fuel].x) else None)
  }

  /** The table read from the file; an absent file is an empty table with the three headers. */
  function Table(file: Option<seq<Entry>>): seq<Entry> {
    if file.Some? then file.value else []
  }

  /** `((hist["Fecha"] == fecha) & (hist["Combustible"] == fuel)).any()`. */
  predicate HasKey(t: seq<Entry>, fecha: string, fuel: string) {
    exists i :: 0 <= i < |t| && t[i].fecha == fecha && t[i].combustible == fuel
  }

  /** How many rows carry the key (date, fuel). */
  function CountKey(t: seq<Entry>, fecha: string, fuel: string): nat {
    if t == [] then 0
    else (if t[0].fecha == fecha && t[0].combustible == fuel then 1 else 0) + CountKey(t[1..], fecha, fuel)
  }

  /** At most one row per (date, fuel). */
  predicate UniqueKeys(t: seq<Entry>) {
    forall i, j :: 0 <= i < j < |t| ==> t[i].fecha != t[j].fecha || t[i].combustible != t[j].combustible
  }

  /** The file after one call with today's date and the fuel's mean: either left as it was,
      when the key is already there, or written with the earlier rows unchanged and exactly
      one new row for the key at the end. */
  function AppendDaily(file: Option<seq<Entry>>, fecha: string, fuel: string, mean: Option<real>): (f: Option<seq<Entry>>)
    ensures HasKey(Table(f), fecha, fuel)
    ensures f == file <==> HasKey(Table(file), fecha, fuel)
    ensures f != file ==> (f.Some? && |Table(f)| == |Table(file)| + 1 &&
      Table(f)[..|Table(file)|] == Table(file) && Table(f)[|Table(file)|] == Entry(fecha, fuel, mean))
  {
    var hist := Table(file);
    if HasKey(hist, fecha, fuel) then file
    else
      var written := hist + [Entry(fecha, fuel, mean)];
      assert written[|hist|] == Entry(fecha, fuel, mean);
      assert file.Some? ==> written != file.value;
      Some(written)
  }

  /** The history file and the operation that extends it. */
  class HistoryLedger {
    var file: Option<seq<Entry>>

    constructor (initial: Option<seq<Entry>>)
      ensures file == initial
    {
      file := initial;
    }

    /** `guardar_evolucion_diaria(stations, hist_file)`: the mean of the chosen fuel's known
        prices over the given stations is appended under today's date unless today already
        has a row for that fuel; the mean is appended even when it is unknown. */
    method SaveDaily(today: string, fuel: string, stations: seq<Row>)
      modifies this
      ensures file == AppendDaily(old(file), today, fuel, MeanKnown(PriceValues(stations, fuel)))
      ensures UniqueKeys(Table(old(file))) ==> UniqueKeys(Table(file))
    {
      var mean := MeanKnown(PriceValues(stations, fuel));
      var hist := if file.None? then [] else file.value;
      if !HasKey(hist, today, fuel) {
        hist := hist + [Entry(today, fuel, mean)];
        file := Some(hist);
      }
      if UniqueKeys(Table(old(file))) {
        AppendKeepsUnique(old(file), today, fuel, mean);
      }
    }
  }

  lemma {:induction false} CountSnoc(t: seq<Entry>, e: Entry, fecha: string, fuel: string)
    ensures CountKey(t + [e], fecha, fuel) ==
      CountKey(t, fecha, fuel) + (if e.fecha == fecha && e.combustible == fuel then 1 else 0)
  {
    if t == [] {
      assert [] + [e] == [e];
    } else {
      assert (t + [e])[1..] == t[1..] + [e];
      CountSnoc(t[1..], e, fecha, fuel);
    }
  }

  lemma {:induction false} CountMeansPresent(t: seq<Entry>, fecha: string, fuel: string)
    ensures CountKey(t, fecha, fuel) > 0 <==> HasKey(t, fecha, fuel)
  {
    if t != [] {
      CountMeansPresent(t[1..], fecha, fuel);
      if HasKey(t[1..], fecha, fuel) {
        var i :| 0 <= i < |t[1..]| && t[1..][i].fecha == fecha && t[1..][i].combustible == fuel;
        assert t[i + 1] == t[1..][i];
      }
      if HasKey(t, fecha, fuel) && !(t[0].fecha == fecha && t[0].combustible == fuel) {
        var i :| 0 <= i < |t| && t[i].fecha == fecha && t[i].combustible == fuel;
        assert t[1..][i - 1] == t[i];
      }
    }
  }

  /** A second call on the same day for the same fuel changes nothing, whatever stations and
      mean it is given. */
  lemma AppendIdempotent(file: Option<seq<Entry>>, fecha: string, fuel: string, m1: Option<real>, m2: Option<real>)
    ensures AppendDaily(AppendDaily(file, fecha, fuel, m1), fecha, fuel, m2) == AppendDaily(file, fecha, fuel, m1)
  {
  }

  /** After any number of calls with one day and fuel there is exactly one row for that key,
      unless the file already held several. */
  lemma AppendLeavesOneRow(file: Option<seq<Entry>>, fecha: string, fuel: string, m1: Option<real>, m2: Option<real>)
    ensures var f := AppendDaily(AppendDaily(file, fecha, fuel, m1), fecha, fuel, m2);
      CountKey(Table(f), fecha, fuel) ==
        if CountKey(Table(file), fecha, fuel) == 0 then 1 else CountKey(Table(file), fecha, fuel)
  {
    AppendIdempotent(file, fecha, fuel, m1, m2);
    var f := AppendDaily(file, fecha, fuel, m1);
    CountMeansPresent(Table(file), fecha, fuel);
    if f != file {
      assert Table(f) == Table(file) + [Entry(fecha, fuel, m1)];
      CountSnoc(Table(file), Entry(fecha, fuel, m1), fecha, fuel);
    }
  }

  /** At most one row per (date, fuel) is an invariant of the history. */
  lemma AppendKeepsUnique(file: Option<seq<Entry>>, fecha: string, fuel: string, mean: Option<real>)
    requires UniqueKeys(Table(file))
    ensures UniqueKeys(Table(AppendDaily(file, fecha, fuel, mean)))
  {
    var t := Table(file);
    var f := AppendDaily(file, fecha, fuel, mean);
    if f != file {
      forall i, j | 0 <= i < j < |Table(f)|
        ensures Table(f)[i].fecha != Table(f)[j].fecha || Table(f)[i].combustible != Table(f)[j].combustible
      {
        if j == |t| {
          assert Table(f)[i] == t[i];
        } else {
          assert Table(f)[i] == t[i] && Table(f)[j] == t[j];
        }
      }
    }
  }

  /** As written, a day with no station in range, or with no known price for the fuel, still
      gets a row: its mean is unknown. */
  lemma EmptySelectionStillAppends(file: Option<seq<Entry>>, fecha: string, fuel: string)
    requires !HasKey(Table(file), fecha, fuel)
    ensures AppendDaily(file, fecha, fuel, MeanKnown(PriceValues([], fuel))) ==
      Some(Table(file) + [Entry(fecha, fuel, None)])
  {
    assert KnownCount(PriceValues([], fuel)) == 0;
  }
}
