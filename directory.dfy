/**
 * The contents of `CaltrainTimings.stations` as a value — station id to station state, in insertion
 * order — and the functions that specify how `parse_stations`, `clear_trains` and `parse_trains`
 * build and change it.
 */
module Directory {
  import opened Wrappers
  import opened Text
  import opened Dicts
  import opened Time
  import opened Feed
  import opened Trains
  import opened Stations

  type Table = Dict<StationView>

  /** Every station in the table is well formed. */
  ghost predicate WellFormed(d: Table)
  {
    d.Valid() && forall k :: k in d.m ==> d.m[k].Valid()
  }

  // ---------------------------------------------------------------------------------------------
  // parse_stations

  /** An entry whose name already contains "Station" (the odd Tamien stop) is skipped. */
  predicate Kept(e: StationEntry)
  {
    !Contains(e.name, "Station")
  }

  /** A station's key: its id without the last (platform) character. */
  function StationKey(e: StationEntry): string
  {
    DropLast(e.id, 1)
  }

  function DisplayName(e: StationEntry): string
  {
    e.name + " Station"
  }

  function NewStation(e: StationEntry): StationView
  {
    StationView(DisplayName(e), Empty(), Empty())
  }

  /** `parse_stations`: the kept entries in order; the first entry with a given key wins. */
  function BuildTable(es: seq<StationEntry>): Table
  {
    if |es| == 0 then Empty()
    else
      var d := BuildTable(es[..|es| - 1]);
      var e := es[|es| - 1];
      if Kept(e) && d.Get(StationKey(e)).None? then d.Put(StationKey(e), NewStation(e)) else d
  }

  /** The table after one more entry. */
  lemma BuildTableSnoc(es: seq<StationEntry>, i: int)
    requires 0 <= i < |es|
    ensures var d := BuildTable(es[..i]);
            BuildTable(es[..i + 1])
              == if Kept(es[i]) && d.Get(StationKey(es[i])).None? then d.Put(StationKey(es[i]), NewStation(es[i])) else d
  {
    assert es[..i + 1][..i] == es[..i];
  }

  /** Entry `i` is kept and no earlier kept entry has its key. */
  predicate FirstWithKey(es: seq<StationEntry>, i: int)
    requires 0 <= i < |es|
  {
    Kept(es[i]) && forall j :: 0 <= j < i && Kept(es[j]) ==> StationKey(es[j]) != StationKey(es[i])
  }

  /** The table is well formed and every station starts with no trains. */
  lemma {:induction false} BuildTableWellFormed(es: seq<StationEntry>)
    ensures var d := BuildTable(es);
            && WellFormed(d)
            && forall k :: k in d.m ==> |d.m[k].northbound.m| == 0 && |d.m[k].southbound.m| == 0
  {
    if |es| > 0 {
      var init := es[..|es| - 1];
      var e := es[|es| - 1];
      BuildTableWellFormed(init);
      var d0 := BuildTable(init);
      if Kept(e) && d0.Get(StationKey(e)).None? {
        AddStationWellFormed(d0, StationKey(e), NewStation(e));
      }
    }
  }

  /** Adding a station that has no trains keeps the table well formed and every station empty. */
  lemma AddStationWellFormed(d: Table, key: string, st: StationView)
    requires WellFormed(d) && forall k :: k in d.m ==> |d.m[k].northbound.m| == 0 && |d.m[k].southbound.m| == 0
    requires st.Valid() && |st.northbound.m| == 0 && |st.southbound.m| == 0
    ensures var r := d.Put(key, st);
            && WellFormed(r)
            && forall k :: k in r.m ==> |r.m[k].northbound.m| == 0 && |r.m[k].southbound.m| == 0
  {
    var r := d.Put(key, st);
    assert r.m == d.m[key := st];
  }

  /** A display name ends in " Station". */
  predicate HasStationSuffix(name: string)
  {
    |name| >= 8 && name[|name| - 8..] == " Station"
  }

  /** Every station's name is a raw name followed by " Station". */
  lemma {:induction false} BuildTableNames(es: seq<StationEntry>)
    ensures forall k :: k in BuildTable(es).m ==> HasStationSuffix(BuildTable(es).m[k].name)
  {
    if |es| > 0 {
      var init := es[..|es| - 1];
      var e := es[|es| - 1];
      BuildTableNames(init);
      var d0 := BuildTable(init);
      if Kept(e) && d0.Get(StationKey(e)).None? {
        var name := DisplayName(e);
        assert name[|name| - 8..] == " Station";
        var d := d0.Put(StationKey(e), NewStation(e));
        assert HasStationSuffix(name);
        assert BuildTable(es) == d;
        assert d.m == d0.m[StationKey(e) := NewStation(e)];
        forall k | k in d.m ensures HasStationSuffix(d.m[k].name) {
          if k != StationKey(e) {
            assert d.m[k] == d0.m[k];
          }
        }
      } else {
        assert BuildTable(es) == d0;
      }
    }
  }

  /** Every station's name contains "Station", so the name filter in `parse_stations` never applies to it. */
  lemma BuildTableNamesContainStation(es: seq<StationEntry>, k: string)
    requires k in BuildTable(es).m
    ensures Contains(BuildTable(es).m[k].name, "Station")
  {
    BuildTableNames(es);
    var name := BuildTable(es).m[k].name;
    EndsWith(name, " Station");
    SuffixedNameContainsStation(name[..|name| - 8]);
  }

  /** A key is in the table exactly when some kept entry has it. */
  lemma {:induction false} BuildTableKeys(es: seq<StationEntry>, k: string)
    ensures k in BuildTable(es).m <==> exists i :: 0 <= i < |es| && Kept(es[i]) && StationKey(es[i]) == k
  {
    if |es| > 0 {
      var init := es[..|es| - 1];
      BuildTableKeys(init, k);
      if exists i :: 0 <= i < |init| && Kept(init[i]) && StationKey(init[i]) == k {
        var i :| 0 <= i < |init| && Kept(init[i]) && StationKey(init[i]) == k;
        assert es[i] == init[i];
      }
      if exists i :: 0 <= i < |es| && Kept(es[i]) && StationKey(es[i]) == k {
        var i :| 0 <= i < |es| && Kept(es[i]) && StationKey(es[i]) == k;
        if i < |init| {
          assert init[i] == es[i];
        }
      }
    }
  }

  /** The station stored under a key is the one built from the first kept entry with that key. */
  lemma {:induction false} BuildTableFirstWins(es: seq<StationEntry>, i: int)
    requires 0 <= i < |es| && FirstWithKey(es, i)
    ensures StationKey(es[i]) in BuildTable(es).m
    ensures BuildTable(es).m[StationKey(es[i])] == NewStation(es[i])
  {
    var init := es[..|es| - 1];
    var k := StationKey(es[i]);
    if i == |es| - 1 {
      BuildTableKeys(init, k);
      forall j | 0 <= j < |init| && Kept(init[j]) ensures StationKey(init[j]) != k {
        assert init[j] == es[j];
      }
    } else {
      assert init[i] == es[i];
      assert FirstWithKey(init, i) by {
        forall j | 0 <= j < i && Kept(init[j]) ensures StationKey(init[j]) != k {
          assert init[j] == es[j];
        }
      }
      BuildTableFirstWins(init, i);
    }
  }

  /** The first kept entry with key k, when there is one. */
  lemma {:induction false} FirstKeptWithKey(es: seq<StationEntry>, k: string) returns (i: int)
    requires exists i :: 0 <= i < |es| && Kept(es[i]) && StationKey(es[i]) == k
    ensures 0 <= i < |es| && FirstWithKey(es, i) && StationKey(es[i]) == k
  {
    var init := es[..|es| - 1];
    if exists j :: 0 <= j < |init| && Kept(init[j]) && StationKey(init[j]) == k {
      i := FirstKeptWithKey(init, k);
      assert es[i] == init[i];
      forall j | 0 <= j < i && Kept(es[j]) ensures StationKey(es[j]) != k {
        assert es[j] == init[j];
      }
    } else {
      i := |es| - 1;
      forall j | 0 <= j < i && Kept(es[j]) ensures StationKey(es[j]) != k {
        assert es[j] == init[j];
      }
    }
  }

  /**
   * Every station in the table was built from the first kept entry with its key: its name is that
   * entry's raw name, which does not contain "Station", followed by " Station", and it has no trains.
   */
  lemma BuildTableOrigin(es: seq<StationEntry>, k: string)
    requires k in BuildTable(es).m
    ensures exists i :: 0 <= i < |es| && FirstWithKey(es, i) && StationKey(es[i]) == k
              && !Contains(es[i].name, "Station")
              && BuildTable(es).m[k] == StationView(es[i].name + " Station", Empty(), Empty())
  {
    BuildTableKeys(es, k);
    var i := FirstKeptWithKey(es, k);
    BuildTableFirstWins(es, i);
  }

  /**
   * One more entry adds a station exactly when it is kept and its key is new; an entry whose name
   * contains "Station", or whose key is already taken, leaves the table as it was.
   */
  lemma BuildTableAppend(es: seq<StationEntry>, e: StationEntry)
    ensures var d := BuildTable(es);
            && (!Kept(e) || StationKey(e) in d.m ==> BuildTable(es + [e]) == d)
            && (Kept(e) && StationKey(e) !in d.m ==>
                  BuildTable(es + [e]).order == d.order + [StationKey(e)]
                  && BuildTable(es + [e]).m == d.m[StationKey(e) := NewStation(e)])
  {
    assert (es + [e])[..|es|] == es;
  }

  // ---------------------------------------------------------------------------------------------
  // clear_trains

  /** `clear_trains`: every station keeps its name and loses its trains. */
  function ClearAll(d: Table): (r: Table)
    ensures r.order == d.order && r.m.Keys == d.m.Keys
    ensures forall k :: k in r.m ==> r.m[k] == StationView(d.m[k].name, Empty(), Empty())
  {
    Dict(d.order, map k | k in d.m :: StationView(d.m[k].name, Empty(), Empty()))
  }

  // ---------------------------------------------------------------------------------------------
  // parse_trains

  /** Why `parse_trains` stops: a timestamp `convert_time` rejects, or a stop that is not a station. */
  datatype TrainError = MalformedTime(raw: string) | UnknownStation(id: string)

  /**
   * One pass of the inner loop of `parse_trains`: a vehicle, one of its onward calls, and what
   * `convert_time` makes of the call's two timestamps.
   */
  datatype Visit = Visit(vehicle: Vehicle, call: OnwardCall, aimed: Option<ValidDateTime>, expected: Option<ValidDateTime>)

  function VisitOf(v: Vehicle, c: OnwardCall): Visit
  {
    Visit(v, c, ConvertTime(c.aimedDepartureTime), ConvertTime(c.expectedDepartureTime))
  }

  /** The onward calls of one vehicle, in order. */
  function CallsOf(v: Vehicle): (r: seq<Visit>)
    ensures |r| == |v.onwardCalls|
    ensures forall j :: 0 <= j < |r| ==> r[j] == VisitOf(v, v.onwardCalls[j])
  {
    seq(|v.onwardCalls|, j requires 0 <= j < |v.onwardCalls| => VisitOf(v, v.onwardCalls[j]))
  }

  /** All passes of the nested loops, vehicle by vehicle. */
  function Visits(vs: seq<Vehicle>): seq<Visit>
  {
    if |vs| == 0 then [] else Visits(vs[..|vs| - 1]) + CallsOf(vs[|vs| - 1])
  }

  /** `"North" == DirectionRef`: any other value, including a misspelt one, is southbound. */
  predicate IsNorthbound(v: Vehicle)
  {
    "North" == v.directionRef
  }

  function StationOf(p: Visit): string
  {
    DropLast(p.call.stopPointRef, 1)
  }

  /** One pass of the inner loop, in the order of its statements: parse both times, look up the station, store. */
  function ApplyVisit(d: Table, p: Visit): Result<Table, TrainError>
  {
    match p.aimed
    case None => Err(MalformedTime(p.call.aimedDepartureTime))
    case Some(aimed) =>
      match p.expected
      case None => Err(MalformedTime(p.call.expectedDepartureTime))
      case Some(expected) =>
        match d.Get(StationOf(p))
        case None => Err(UnknownStation(StationOf(p)))
        case Some(st) =>
          var t := Caltrain(p.vehicle.vehicleRef, p.vehicle.lineRef, aimed, Some(expected));
          Ok(d.Put(StationOf(p), WithTrain(st, IsNorthbound(p.vehicle), t)))
  }

  /** The table after some passes, and the error that ended them, if any. */
  datatype Outcome = Outcome(table: Table, error: Option<TrainError>)

  /** The passes in order; the first error ends them and leaves the table as the earlier passes left it. */
  function ApplyVisits(d: Table, ps: seq<Visit>): Outcome
  {
    if |ps| == 0 then Outcome(d, None)
    else
      var o := ApplyVisits(d, ps[..|ps| - 1]);
      if o.error.Some? then o
      else match ApplyVisit(o.table, ps[|ps| - 1])
        case Err(e) => Outcome(o.table, Some(e))
        case Ok(d') => Outcome(d', None)
  }

  // ---------------------------------------------------------------------------------------------
  // Properties of parse_trains

  /** Both timestamps of a call parse. */
  predicate TimesParse(p: Visit)
  {
    p.aimed.Some? && p.expected.Some?
  }

  /** The train a pass stores: the vehicle's ids and the call's two times. */
  function TrainOf(p: Visit): (t: Caltrain)
    requires TimesParse(p)
    ensures t.id == p.vehicle.vehicleRef && t.expectedDeparture.Some?
  {
    Caltrain(p.vehicle.vehicleRef, p.vehicle.lineRef, p.aimed.value, p.expected)
  }

  /** What is wrong with a pass, given the station keys, checked in the order `parse_trains` runs into it. */
  function VisitError(keys: set<string>, p: Visit): Option<TrainError>
  {
    if p.aimed.None? then Some(MalformedTime(p.call.aimedDepartureTime))
    else if p.expected.None? then Some(MalformedTime(p.call.expectedDepartureTime))
    else if StationOf(p) !in keys then Some(UnknownStation(StationOf(p)))
    else None
  }

  /** One pass fails exactly when `VisitError` finds something wrong, and with that error. */
  lemma ApplyVisitFails(d: Table, p: Visit)
    ensures ApplyVisit(d, p).Err? <==> VisitError(d.m.Keys, p).Some?
    ensures ApplyVisit(d, p).Err? ==> Some(ApplyVisit(d, p).error) == VisitError(d.m.Keys, p)
  {
  }

  /**
   * A pass that succeeds had both times parse and named a station; it changes only that station, by
   * storing the call's train in the vehicle's direction.
   */
  lemma ApplyVisitStores(d: Table, p: Visit)
    requires ApplyVisit(d, p).Ok?
    ensures TimesParse(p) && StationOf(p) in d.m
    ensures var d' := ApplyVisit(d, p).value;
            && d'.order == d.order && d'.m.Keys == d.m.Keys
            && (forall k :: k in d.m && k != StationOf(p) ==> d'.m[k] == d.m[k])
            && d'.m[StationOf(p)] == WithTrain(d.m[StationOf(p)], IsNorthbound(p.vehicle), TrainOf(p))
  {
  }

  /** A pass whose times parse and whose station is known files its train there. */
  lemma ApplyVisitOk(d: Table, p: Visit)
    requires TimesParse(p) && StationOf(p) in d.m
    ensures ApplyVisit(d, p) == Ok(d.Put(StationOf(p), WithTrain(d.m[StationOf(p)], IsNorthbound(p.vehicle), TrainOf(p))))
  {
  }

  /** Unfolding `ApplyVisits` at its last pass. */
  lemma ApplyVisitsSnoc(d: Table, ps: seq<Visit>, p: Visit)
    ensures var o := ApplyVisits(d, ps);
            ApplyVisits(d, ps + [p]) ==
              if o.error.Some? then o
              else match ApplyVisit(o.table, p)
                case Err(e) => Outcome(o.table, Some(e))
                case Ok(d') => Outcome(d', None)
  {
    assert (ps + [p])[..|ps|] == ps;
  }

  /** A pass after a failed one changes nothing. */
  lemma ErrorSticksSnoc(d: Table, ps: seq<Visit>, p: Visit)
    requires ApplyVisits(d, ps).error.Some?
    ensures ApplyVisits(d, ps + [p]) == ApplyVisits(d, ps)
  {
    assert (ps + [p])[..|ps|] == ps;
  }

  /** Once a pass has failed, later passes change nothing. */
  lemma {:induction false} ErrorSticks(d: Table, ps: seq<Visit>, qs: seq<Visit>)
    requires ApplyVisits(d, ps).error.Some?
    ensures ApplyVisits(d, ps + qs) == ApplyVisits(d, ps)
  {
    if |qs| > 0 {
      var init := qs[..|qs| - 1];
      ErrorSticks(d, ps, init);
      assert ps + qs == (ps + init) + [qs[|qs| - 1]];
      ErrorSticksSnoc(d, ps + init, qs[|qs| - 1]);
    } else {
      assert ps + qs == ps;
    }
  }

  /** The passes never add, drop or reorder stations and never rename one. */
  lemma {:induction false} ApplyVisitsKeepsStations(d: Table, ps: seq<Visit>)
    ensures var r := ApplyVisits(d, ps).table;
            && r.order == d.order && r.m.Keys == d.m.Keys
            && forall k :: k in d.m ==> r.m[k].name == d.m[k].name
  {
    if |ps| > 0 {
      var init := ps[..|ps| - 1];
      ApplyVisitsKeepsStations(d, init);
      var o := ApplyVisits(d, init);
      if o.error.None? && ApplyVisit(o.table, ps[|ps| - 1]).Ok? {
        ApplyVisitStores(o.table, ps[|ps| - 1]);
      }
    }
  }

  /** Every stored train sits under its own id and has an expected departure. */
  ghost predicate TrainsFiled(d: Table)
  {
    forall k, north: bool, x :: k in d.m && x in TrainsOf(d.m[k], north).m ==>
      TrainsOf(d.m[k], north).m[x].id == x && TrainsOf(d.m[k], north).m[x].expectedDeparture.Some?
  }

  /** Storing a pass's train keeps every station well formed and every train filed under its id. */
  lemma ApplyVisitKeepsWellFormed(d: Table, p: Visit)
    requires WellFormed(d) && TrainsFiled(d)
    ensures ApplyVisit(d, p).Ok? ==> WellFormed(ApplyVisit(d, p).value) && TrainsFiled(ApplyVisit(d, p).value)
  {
    if ApplyVisit(d, p).Ok? {
      ApplyVisitStores(d, p);
      var d' := ApplyVisit(d, p).value;
      var key := StationOf(p);
      var north := IsNorthbound(p.vehicle);
      var st := d.m[key];
      var t := TrainOf(p);
      assert TrainsOf(d'.m[key], north) == TrainsOf(st, north).Put(t.id, t);
      forall k, dir: bool, x | k in d'.m && x in TrainsOf(d'.m[k], dir).m
        ensures TrainsOf(d'.m[k], dir).m[x].id == x && TrainsOf(d'.m[k], dir).m[x].expectedDeparture.Some?
      {
        if k == key && dir == north && x != t.id {
          assert TrainsOf(st, dir).Get(x) == TrainsOf(d'.m[k], dir).Get(x);
        }
      }
    }
  }

  /** `WellFormed` and `TrainsFiled` hold after any number of passes. */
  lemma {:induction false} ApplyVisitsKeepsWellFormed(d: Table, ps: seq<Visit>)
    requires WellFormed(d) && TrainsFiled(d)
    ensures WellFormed(ApplyVisits(d, ps).table) && TrainsFiled(ApplyVisits(d, ps).table)
  {
    if |ps| > 0 {
      var init := ps[..|ps| - 1];
      ApplyVisitsKeepsWellFormed(d, init);
      ApplyVisitKeepsWellFormed(ApplyVisits(d, init).table, ps[|ps| - 1]);
    }
  }

  /** All passes succeed exactly when no pass has anything wrong with it. */
  lemma {:induction false} ApplyVisitsSucceeds(d: Table, ps: seq<Visit>)
    ensures ApplyVisits(d, ps).error.None? <==> forall i :: 0 <= i < |ps| ==> VisitError(d.m.Keys, ps[i]).None?
  {
    if |ps| > 0 {
      var init, p := ps[..|ps| - 1], ps[|ps| - 1];
      var o := ApplyVisits(d, init);
      assert ApplyVisits(d, ps).error.None? <==> o.error.None? && VisitError(d.m.Keys, p).None? by {
        ApplyVisitsKeepsStations(d, init);
        ApplyVisitFails(o.table, p);
      }
      assert (forall i :: 0 <= i < |ps| ==> VisitError(d.m.Keys, ps[i]).None?)
             <==> (forall i :: 0 <= i < |init| ==> VisitError(d.m.Keys, init[i]).None?) && VisitError(d.m.Keys, p).None? by {
        assert forall i :: 0 <= i < |init| ==> init[i] == ps[i];
      }
      ApplyVisitsSucceeds(d, init);
    }
  }

  /**
   * The error reported is that of the first pass with something wrong with it, and the table is as
   * the passes before it left it.
   */
  lemma FirstErrorReported(d: Table, ps: seq<Visit>, i: int)
    requires 0 <= i < |ps|
    requires forall j :: 0 <= j < i ==> VisitError(d.m.Keys, ps[j]).None?
    requires VisitError(d.m.Keys, ps[i]).Some?
    ensures ApplyVisits(d, ps) == Outcome(ApplyVisits(d, ps[..i]).table, VisitError(d.m.Keys, ps[i]))
  {
    var before := ps[..i];
    var o := ApplyVisits(d, before);
    assert o.error.None? && o.table.m.Keys == d.m.Keys by {
      assert forall j :: 0 <= j < |before| ==> before[j] == ps[j];
      ApplyVisitsSucceeds(d, before);
      ApplyVisitsKeepsStations(d, before);
    }
    assert ApplyVisits(d, ps[..i + 1]) == Outcome(o.table, VisitError(d.m.Keys, ps[i])) by {
      ApplyVisitFails(o.table, ps[i]);
      ApplyVisitsSnoc(d, before, ps[i]);
      TakeSnoc(ps, i);
    }
    ErrorSticks(d, ps[..i + 1], ps[i + 1..]);
    TakeDrop(ps, i + 1);
  }

  /** The pass stores its train under id `x` in direction `north` of station `k`. */
  predicate Targets(p: Visit, k: string, north: bool, x: string)
  {
    StationOf(p) == k && IsNorthbound(p.vehicle) == north && p.vehicle.vehicleRef == x
  }

  /** After one successful pass, a slot holds the pass's train if the pass targets it, and is unchanged otherwise. */
  lemma ApplyVisitGet(d: Table, p: Visit, k: string, north: bool, x: string)
    requires ApplyVisit(d, p).Ok? && k in d.m
    ensures Targets(p, k, north, x) ==> TimesParse(p)
    ensures TrainsOf(ApplyVisit(d, p).value.m[k], north).Get(x)
            == if Targets(p, k, north, x) then Some(TrainOf(p)) else TrainsOf(d.m[k], north).Get(x)
  {
    ApplyVisitStores(d, p);
  }

  /** A run of passes that succeeded is the run of all but the last, then a successful last pass. */
  lemma ApplyVisitsLast(d: Table, ps: seq<Visit>)
    requires |ps| > 0 && ApplyVisits(d, ps).error.None?
    ensures var o := ApplyVisits(d, ps[..|ps| - 1]);
            && o.error.None?
            && ApplyVisit(o.table, ps[|ps| - 1]).Ok?
            && ApplyVisits(d, ps).table == ApplyVisit(o.table, ps[|ps| - 1]).value
  {
  }

  /**
   * When all passes succeed, slot (`k`, `north`, `x`) holds the train of the last pass that targets
   * it: a later report for the same train replaces an earlier one.
   */
  lemma {:induction false} LastWriteWins(d: Table, ps: seq<Visit>, k: string, north: bool, x: string, i: int)
    requires ApplyVisits(d, ps).error.None? && k in d.m
    requires 0 <= i < |ps| && Targets(ps[i], k, north, x)
    requires forall j :: i < j < |ps| ==> !Targets(ps[j], k, north, x)
    ensures TimesParse(ps[i]) && k in ApplyVisits(d, ps).table.m
    ensures TrainsOf(ApplyVisits(d, ps).table.m[k], north).Get(x) == Some(TrainOf(ps[i]))
  {
    var init, p := ps[..|ps| - 1], ps[|ps| - 1];
    ApplyVisitsLast(d, ps);
    ApplyVisitsKeepsStations(d, init);
    ApplyVisitGet(ApplyVisits(d, init).table, p, k, north, x);
    if i < |ps| - 1 {
      assert init[i] == ps[i];
      forall j | i < j < |init| ensures !Targets(init[j], k, north, x) {
        assert init[j] == ps[j];
      }
      LastWriteWins(d, init, k, north, x, i);
    }
  }

  /** When all passes succeed, a slot that no pass targets holds what it held before. */
  lemma {:induction false} UntargetedSlotKept(d: Table, ps: seq<Visit>, k: string, north: bool, x: string)
    requires ApplyVisits(d, ps).error.None? && k in d.m
    requires forall i :: 0 <= i < |ps| ==> !Targets(ps[i], k, north, x)
    ensures k in ApplyVisits(d, ps).table.m
    ensures TrainsOf(ApplyVisits(d, ps).table.m[k], north).Get(x) == TrainsOf(d.m[k], north).Get(x)
  {
    ApplyVisitsKeepsStations(d, ps);
    if |ps| > 0 {
      var init, p := ps[..|ps| - 1], ps[|ps| - 1];
      ApplyVisitsLast(d, ps);
      ApplyVisitsKeepsStations(d, init);
      ApplyVisitGet(ApplyVisits(d, init).table, p, k, north, x);
      forall j | 0 <= j < |init| ensures !Targets(init[j], k, north, x) {
        assert init[j] == ps[j];
      }
      UntargetedSlotKept(d, init, k, north, x);
    }
  }

  /** The last pass that targets a slot, when there is one. */
  lemma {:induction false} LastTarget(ps: seq<Visit>, k: string, north: bool, x: string) returns (i: int)
    requires exists i :: 0 <= i < |ps| && Targets(ps[i], k, north, x)
    ensures 0 <= i < |ps| && Targets(ps[i], k, north, x)
    ensures forall j :: i < j < |ps| ==> !Targets(ps[j], k, north, x)
  {
    var init := ps[..|ps| - 1];
    if Targets(ps[|ps| - 1], k, north, x) {
      i := |ps| - 1;
    } else {
      var i0 :| 0 <= i0 < |ps| && Targets(ps[i0], k, north, x);
      assert init[i0] == ps[i0];
      i := LastTarget(init, k, north, x);
      forall j | i < j < |ps| ensures !Targets(ps[j], k, north, x) {
        if j < |init| {
          assert init[j] == ps[j];
        }
      }
    }
  }

  /** Every station keeps its name and has no trains; every train is then trivially filed. */
  lemma ClearAllEmpties(d: Table, k: string, north: bool, x: string)
    requires WellFormed(d)
    ensures WellFormed(ClearAll(d)) && TrainsFiled(ClearAll(d))
    ensures k in ClearAll(d).m ==> TrainsOf(ClearAll(d).m[k], north).Get(x).None?
  {
  }

  /**
   * `update_trains` starts from `clear_trains`, so when all passes succeed a station holds a train in
   * a direction exactly when some onward call of this feed put it there: nothing of an earlier feed remains.
   */
  lemma UpdateKeepsOnlyThisFeed(d: Table, ps: seq<Visit>, k: string, north: bool, x: string)
    requires WellFormed(d) && k in d.m
    requires ApplyVisits(ClearAll(d), ps).error.None?
    ensures k in ApplyVisits(ClearAll(d), ps).table.m
    ensures TrainsOf(ApplyVisits(ClearAll(d), ps).table.m[k], north).Get(x).Some?
            <==> exists i :: 0 <= i < |ps| && Targets(ps[i], k, north, x)
  {
    ClearAllEmpties(d, k, north, x);
    if exists i :: 0 <= i < |ps| && Targets(ps[i], k, north, x) {
      var i := LastTarget(ps, k, north, x);
      LastWriteWins(ClearAll(d), ps, k, north, x, i);
    } else {
      UntargetedSlotKept(ClearAll(d), ps, k, north, x);
    }
  }

  /** The passes of the first `i + 1` vehicles are those of the first `i` and then the calls of vehicle `i`. */
  lemma VisitsSnoc(vs: seq<Vehicle>, i: int)
    requires 0 <= i < |vs|
    ensures Visits(vs[..i + 1]) == Visits(vs[..i]) + CallsOf(vs[i])
  {
    assert vs[..i + 1][..i] == vs[..i];
  }

  /** The passes of two runs of vehicles, one after the other. */
  lemma {:induction false} VisitsAppend(a: seq<Vehicle>, b: seq<Vehicle>)
    ensures Visits(a + b) == Visits(a) + Visits(b)
  {
    if |b| == 0 {
      assert a + b == a;
    } else {
      var init, last := b[..|b| - 1], b[|b| - 1];
      var ab := a + b;
      assert ab[..|ab| - 1] == a + init && ab[|ab| - 1] == last;
      calc {
        Visits(ab);
        Visits(a + init) + CallsOf(last);
        { VisitsAppend(a, init); }
        Visits(a) + Visits(init) + CallsOf(last);
        Visits(a) + (Visits(init) + CallsOf(last));
        Visits(a) + Visits(b);
      }
    }
  }

  /** The passes of the vehicles around one vehicle `v`: those before it, its calls, those after it. */
  lemma VisitsAround(a: seq<Vehicle>, v: Vehicle, b: seq<Vehicle>)
    ensures Visits(a + [v] + b) == Visits(a) + CallsOf(v) + Visits(b)
  {
    VisitsAppend(a + [v], b);
    assert (a + [v])[..|a|] == a;
  }

  /** When pass `j` of `cs` fails after the earlier passes all succeeded, the run ends there with that error. */
  lemma StopsAt(d: Table, before: seq<Visit>, cs: seq<Visit>, after: seq<Visit>, j: int, t: Table, e: TrainError)
    requires 0 <= j < |cs|
    requires ApplyVisits(d, before + cs[..j]) == Outcome(t, None)
    requires ApplyVisit(t, cs[j]) == Err(e)
    ensures ApplyVisits(d, before + cs + after) == Outcome(t, Some(e))
  {
    var ps := before + cs[..j];
    ApplyVisitsSnoc(d, ps, cs[j]);
    ErrorSticks(d, ps + [cs[j]], cs[j + 1..] + after);
    SplitAround(before, cs, after, j);
  }

  /**
   * When call `j` of vehicle `i` fails after every earlier call succeeded, the run over all the
   * vehicles ends there with that error.
   */
  lemma StopsInVehicle(d: Table, vs: seq<Vehicle>, i: int, j: int, t: Table, e: TrainError)
    requires 0 <= i < |vs| && 0 <= j < |vs[i].onwardCalls|
    requires ApplyVisits(d, Visits(vs[..i]) + CallsOf(vs[i])[..j]) == Outcome(t, None)
    requires ApplyVisit(t, CallsOf(vs[i])[j]) == Err(e)
    ensures ApplyVisits(d, Visits(vs)) == Outcome(t, Some(e))
  {
    Decompose(vs, i);
    VisitsAround(vs[..i], vs[i], vs[i + 1..]);
    StopsAt(d, Visits(vs[..i]), CallsOf(vs[i]), Visits(vs[i + 1..]), j, t, e);
  }

  /** The first i + 1 elements are the first i, then element i. */
  lemma TakeSnoc<T>(s: seq<T>, i: int)
    requires 0 <= i < |s|
    ensures s[..i + 1] == s[..i] + [s[i]]
  {
  }

  /** A sequence is its first n elements followed by the rest. */
  lemma TakeDrop<T>(s: seq<T>, n: int)
    requires 0 <= n <= |s|
    ensures s[..n] + s[n..] == s
  {
  }

  /** A sequence is its elements before `i`, element `i`, and its elements after `i`. */
  lemma Decompose<T>(s: seq<T>, i: int)
    requires 0 <= i < |s|
    ensures s == s[..i] + [s[i]] + s[i + 1..]
  {
  }

  lemma SplitAround<T>(before: seq<T>, cs: seq<T>, after: seq<T>, j: int)
    requires 0 <= j < |cs|
    ensures before + cs[..j] + [cs[j]] + (cs[j + 1..] + after) == before + cs + after
  {
    assert cs == cs[..j] + [cs[j]] + cs[j + 1..];
  }

  /** A pass that succeeds extends the run by one. */
  lemma StepsTo(d: Table, before: seq<Visit>, cs: seq<Visit>, j: int, t: Table, t': Table)
    requires 0 <= j < |cs|
    requires ApplyVisits(d, before + cs[..j]) == Outcome(t, None)
    requires ApplyVisit(t, cs[j]) == Ok(t')
    ensures ApplyVisits(d, before + cs[..j + 1]) == Outcome(t', None)
  {
    ApplyVisitsSnoc(d, before + cs[..j], cs[j]);
    assert before + cs[..j + 1] == before + cs[..j] + [cs[j]];
  }

  // ---------------------------------------------------------------------------------------------
  // print_output

  /** `print_output` prints only stations whose name contains "Mountain". */
  predicate Shown(st: StationView)
  {
    Contains(st.name, "Mountain")
  }

  /** The keys among `keys` whose station is shown, in order. */
  function ShownKeys(d: Table, keys: seq<string>): (r: seq<string>)
    requires forall i :: 0 <= i < |keys| ==> keys[i] in d.m
    ensures |r| <= |keys|
    ensures forall i :: 0 <= i < |r| ==> r[i] in d.m
  {
    if |keys| == 0 then []
    else
      var last := keys[|keys| - 1];
      ShownKeys(d, keys[..|keys| - 1]) + if Shown(d.m[last]) then [last] else []
  }

  /** The report of a station list holds its shown stations and no others, in list order. */
  lemma {:induction false} ShownKeysSelect(d: Table, keys: seq<string>)
    requires forall i :: 0 <= i < |keys| ==> keys[i] in d.m
    ensures forall k :: k in ShownKeys(d, keys) <==> k in keys && Shown(d.m[k])
  {
    if |keys| > 0 {
      var init := keys[..|keys| - 1];
      ShownKeysSelect(d, init);
      assert keys == init + [keys[|keys| - 1]];
    }
  }

  /** A shown key's position in the report follows its position in the list (for distinct keys). */
  lemma {:induction false} ShownKeysOrdered(d: Table, keys: seq<string>, i: int, j: int)
    requires forall i :: 0 <= i < |keys| ==> keys[i] in d.m
    requires 0 <= i < j < |ShownKeys(d, keys)|
    ensures exists a, b :: 0 <= a < b < |keys| && keys[a] == ShownKeys(d, keys)[i] && keys[b] == ShownKeys(d, keys)[j]
  {
    var init := keys[..|keys| - 1];
    var last := keys[|keys| - 1];
    var r0 := ShownKeys(d, init);
    if j < |r0| {
      ShownKeysOrdered(d, init, i, j);
      var a, b :| 0 <= a < b < |init| && init[a] == r0[i] && init[b] == r0[j];
      assert keys[a] == init[a] && keys[b] == init[b];
    } else {
      ShownKeysSelect(d, init);
      assert r0[i] in init;
      var a :| 0 <= a < |init| && init[a] == r0[i];
      assert keys[a] == init[a];
      assert keys[|keys| - 1] == ShownKeys(d, keys)[j];
    }
  }

  /** The blocks `print_output` prints for the stations under `keys`, in order: one per shown station. */
  function Blocks(d: Table, keys: seq<string>, offsetSeconds: int): seq<string>
    requires WellFormed(d) && forall i :: 0 <= i < |keys| ==> keys[i] in d.m
  {
    if |keys| == 0 then []
    else
      var last := keys[|keys| - 1];
      Blocks(d, keys[..|keys| - 1], offsetSeconds) + if Shown(d.m[last]) then [Block(d.m[last], offsetSeconds)] else []
  }

  /** The blocks for the first i + 1 keys: those for the first i, then the block of key i if it is shown. */
  lemma BlocksSnoc(d: Table, keys: seq<string>, i: int, offsetSeconds: int)
    requires WellFormed(d) && forall j :: 0 <= j < |keys| ==> keys[j] in d.m
    requires 0 <= i < |keys|
    ensures Blocks(d, keys[..i + 1], offsetSeconds)
              == Blocks(d, keys[..i], offsetSeconds) + if Shown(d.m[keys[i]]) then [Block(d.m[keys[i]], offsetSeconds)] else []
  {
    assert keys[..i + 1][..i] == keys[..i];
  }

  /** The blocks are those of the shown keys, one each, in order. */
  lemma {:induction false} BlocksOfShown(d: Table, keys: seq<string>, offsetSeconds: int)
    requires WellFormed(d) && forall i :: 0 <= i < |keys| ==> keys[i] in d.m
    ensures var shown := ShownKeys(d, keys);
            && |Blocks(d, keys, offsetSeconds)| == |shown|
            && forall i :: 0 <= i < |shown| ==> Blocks(d, keys, offsetSeconds)[i] == Block(d.m[shown[i]], offsetSeconds)
  {
    if |keys| > 0 {
      BlocksOfShown(d, keys[..|keys| - 1], offsetSeconds);
    }
  }

  /** `print_output`: the block of each shown station, in dict order. */
  function Report(d: Table, offsetSeconds: int): seq<string>
    requires WellFormed(d)
  {
    Blocks(d, d.order, offsetSeconds)
  }

  /**
   * What `print_output` prints: one block per station whose name contains "Mountain" and none for any
   * other, in the order the stations were added.
   */
  lemma ReportLayout(d: Table, offsetSeconds: int)
    requires WellFormed(d)
    ensures var keys := ShownKeys(d, d.order);
            && |Report(d, offsetSeconds)| == |keys|
            && (forall i :: 0 <= i < |keys| ==> keys[i] in d.m && Report(d, offsetSeconds)[i] == Block(d.m[keys[i]], offsetSeconds))
            && (forall k :: k in keys <==> k in d.m && Shown(d.m[k]))
  {
    ShownKeysSelect(d, d.order);
    BlocksOfShown(d, d.order, offsetSeconds);
  }
}
