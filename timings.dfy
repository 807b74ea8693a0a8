/** `CaltrainTimings`: the station table and the operations that fill it from the two feeds. */
module Timings {
  import opened Wrappers
  import opened Text
  import opened Dicts
  import opened Time
  import opened Feed
  import opened Trains
  import opened Stations
  import opened Directory

  /** No station object sits under two keys. */
  ghost predicate Distinct(d: Dict<CaltrainStation>)
  {
    forall k, k' :: k in d.m && k' in d.m && k != k' ==> d.m[k] != d.m[k']
  }

  /** The station objects are distinct, and each is well formed. */
  ghost predicate Owned(d: Dict<CaltrainStation>)
    reads d.m.Values
  {
    && d.Valid()
    && Distinct(d)
    && (forall k :: k in d.m ==> d.m[k].Valid())
  }

  /** The state of the station objects, as a table of values. */
  function TableOf(d: Dict<CaltrainStation>): (r: Table)
    reads d.m.Values
    ensures r.order == d.order && r.m.Keys == d.m.Keys
    ensures forall k :: k in d.m ==> r.m[k] == d.m[k].View()
  {
    Dict(d.order, map k | k in d.m :: d.m[k].View())
  }

  /** Well-owned station objects give a well-formed table. */
  lemma OwnedWellFormed(d: Dict<CaltrainStation>)
    requires Owned(d)
    ensures WellFormed(TableOf(d))
  {
  }

  /** Adding a station object under a new key. */
  lemma OwnedPut(d: Dict<CaltrainStation>, k: string, st: CaltrainStation)
    requires Owned(d) && k !in d.m && st.Valid()
    requires forall k' :: k' in d.m ==> d.m[k'] != st
    ensures Owned(d.Put(k, st))
    ensures TableOf(d.Put(k, st)) == TableOf(d).Put(k, st.View())
  {
    var r := d.Put(k, st);
    assert r.m == d.m[k := st];
    assert TableOf(r).m == TableOf(d).m[k := st.View()];
  }

  /** Station objects that show the stations of a well-formed table are owned and make up that table. */
  lemma ShowsTable(d: Dict<CaltrainStation>, t: Table)
    requires d.Valid() && Distinct(d) && WellFormed(t)
    requires t.order == d.order && t.m.Keys == d.m.Keys
    requires forall k :: k in d.m ==> d.m[k].View() == t.m[k]
    ensures Owned(d) && TableOf(d) == t
  {
    assert TableOf(d).m == t.m;
  }

  /** When every station object but the one at k still shows what it showed in `before`, only key k changes. */
  lemma OneStationChanged(d: Dict<CaltrainStation>, before: Table, k: string)
    requires d.Valid() && Distinct(d) && k in d.m && d.m[k].Valid()
    requires before.order == d.order && before.m.Keys == d.m.Keys
    requires forall k' :: k' in d.m && k' != k ==> d.m[k'].Valid() && d.m[k'].View() == before.m[k']
    ensures Owned(d) && TableOf(d) == before.Put(k, d.m[k].View())
  {
    assert TableOf(d).m == before.m[k := d.m[k].View()];
  }

  class CaltrainTimings {
    var stations: Dict<CaltrainStation>

    ghost predicate Valid()
      reads this, stations.m.Values
    {
      Owned(stations)
    }

    function View(): Table
      reads this, stations.m.Values
    {
      TableOf(stations)
    }

    /** `CaltrainTimings(stations_json)`. */
    constructor (entries: seq<StationEntry>)
      ensures Valid() && View() == BuildTable(entries)
    {
      var parsed := CaltrainTimings.ParseStations(entries);
      stations := parsed;
    }

    /** `parse_stations`: one new station object per kept entry whose key is not yet taken. */
    static method ParseStations(entries: seq<StationEntry>) returns (stations: Dict<CaltrainStation>)
      ensures Owned(stations) && TableOf(stations) == BuildTable(entries)
      ensures forall k :: k in stations.m ==> fresh(stations.m[k])
    {
      stations := Empty();
      for i := 0 to |entries|
        invariant Owned(stations) && TableOf(stations) == BuildTable(entries[..i])
        invariant forall k :: k in stations.m ==> fresh(stations.m[k])
      {
        BuildTableSnoc(entries, i);
        var entry := entries[i];
        var name := entry.name;
        if Contains(name, "Station") {
          continue;
        }
        name := name + " Station";
        var id := DropLast(entry.id, 1);
        if stations.Get(id).None? {
          var station := new CaltrainStation(name);
          OwnedPut(stations, id, station);
          stations := stations.Put(id, station);
        }
      }
      assert entries[..|entries|] == entries;
    }

    /** `clear_trains`: each station, in dict order, gets two fresh empty dicts. */
    method ClearTrains()
      requires Valid()
      modifies stations.m.Values
      ensures Valid() && View() == ClearAll(old(View()))
    {
      ghost var start := View();
      OwnedWellFormed(stations);
      ClearAllEmpties(start, "", true, "");
      ghost var cleared := ClearAll(start);
      for i := 0 to |stations.order|
        invariant forall k :: k in stations.m ==>
          stations.m[k].View() == if k in stations.order[..i] then cleared.m[k] else start.m[k]
      {
        var id := stations.order[i];
        assert stations.order[..i + 1] == stations.order[..i] + [id];
        var station := stations.m[id];
        station.northboundTrains := Empty();
        station.southboundTrains := Empty();
      }
      assert stations.order[..|stations.order|] == stations.order;
      ShowsTable(stations, cleared);
    }

    /**
     * One pass of the inner loop of `parse_trains`, given the call and its two converted timestamps:
     * a timestamp that did not convert, then an unknown station, is an error; otherwise the train is
     * stored under the vehicle's id in the dict of its direction.
     */
    method StoreVisit(p: Visit) returns (error: Option<TrainError>)
      requires Valid()
      modifies stations.m.Values
      ensures Valid()
      ensures ApplyVisit(old(View()), p).Err? ==> error == Some(ApplyVisit(old(View()), p).error) && View() == old(View())
      ensures ApplyVisit(old(View()), p).Ok? ==> error.None? && View() == ApplyVisit(old(View()), p).value
    {
      var id := DropLast(p.call.stopPointRef, 1);
      if p.aimed.None? {
        return Some(MalformedTime(p.call.aimedDepartureTime));
      }
      if p.expected.None? {
        return Some(MalformedTime(p.call.expectedDepartureTime));
      }
      if id !in stations.m {
        return Some(UnknownStation(id));
      }
      var station := stations.m[id];
      ghost var before := View();
      var train := TrainOf(p);
      ApplyVisitOk(before, p);
      assert forall k | k in stations.m && k != id :: stations.m[k] != station;
      station.AddTrain("North" == p.vehicle.directionRef, train);
      OneStationChanged(stations, before, id);
      error := None;
    }

    /**
     * `parse_trains`: every onward call of every vehicle, in order. The first call whose time does not
     * parse or whose station is unknown ends it, with the trains stored so far left in place.
     */
    method ParseTrains(vehicles: seq<Vehicle>) returns (error: Option<TrainError>)
      requires Valid()
      modifies stations.m.Values
      ensures Valid()
      ensures Outcome(View(), error) == ApplyVisits(old(View()), Visits(vehicles))
    {
      ghost var start := View();
      for i := 0 to |vehicles|
        invariant Valid()
        invariant ApplyVisits(start, Visits(vehicles[..i])) == Outcome(View(), None)
      {
        var vehicle := vehicles[i];
        ghost var before := Visits(vehicles[..i]);
        ghost var calls := CallsOf(vehicle);
        assert before + calls[..0] == before;
        for j := 0 to |vehicle.onwardCalls|
          invariant Valid()
          invariant ApplyVisits(start, before + calls[..j]) == Outcome(View(), None)
        {
          ghost var t := View();
          var visit := VisitOf(vehicle, vehicle.onwardCalls[j]);
          error := StoreVisit(visit);
          if error.Some? {
            StopsInVehicle(start, vehicles, i, j, t, error.value);
            return;
          }
          StepsTo(start, before, calls, j, t, View());
        }
        VisitsSnoc(vehicles, i);
        assert calls[..|calls|] == calls;
      }
      assert vehicles[..|vehicles|] == vehicles;
      error := None;
    }

    /** `update_trains`: clear every station, then parse the vehicle feed. */
    method UpdateTrains(vehicles: seq<Vehicle>) returns (error: Option<TrainError>)
      requires Valid()
      modifies stations.m.Values
      ensures Valid()
      ensures Outcome(View(), error) == ApplyVisits(ClearAll(old(View())), Visits(vehicles))
    {
      ClearTrains();
      error := ParseTrains(vehicles);
    }

    /** `print_output`: the block of each station whose name contains "Mountain", in dict order. */
    method PrintOutput(offsetSeconds: int) returns (blocks: seq<string>)
      requires Valid()
      ensures blocks == Report(View(), offsetSeconds)
    {
      OwnedWellFormed(stations);
      ghost var d := View();
      blocks := [];
      for i := 0 to |stations.order|
        invariant blocks == Blocks(d, stations.order[..i], offsetSeconds)
      {
        BlocksSnoc(d, stations.order, i, offsetSeconds);
        var station := stations.m[stations.order[i]];
        if !Contains(station.name, "Mountain") {
          continue;
        }
        var text := station.FormatOutput(offsetSeconds);
        blocks := blocks + [text];
      }
      assert stations.order[..|stations.order|] == stations.order;
    }
  }
}
