/** `CaltrainStation`: a station's name, its two train dicts, and its block of the report. */
module Stations {
  import opened Text
  import opened Dicts
  import opened Trains

  /** The state of a `CaltrainStation`: its display name and its trains by direction, keyed by train id. */
  datatype StationView = StationView(name: string, northbound: Dict<Caltrain>, southbound: Dict<Caltrain>) {

    ghost predicate Valid()
    {
      northbound.Valid() && southbound.Valid()
    }
  }

  const NoTrainsText: string := "No upcoming trains."
  const NoTrainsLine: string := "    " + NoTrainsText
  const NorthboundHeading: string := "Northbound Trains:"
  const SouthboundHeading: string := "Southbound Trains:"

  /** `Caltrain.format_output` of each train, in the order given. */
  function FormattedTrains(trains: seq<Caltrain>, offsetSeconds: int): (r: seq<string>)
    ensures |r| == |trains|
    ensures forall i :: 0 <= i < |trains| ==> r[i] == TrainLine(trains[i], offsetSeconds)
  {
    if |trains| == 0 then []
    else FormattedTrains(trains[..|trains| - 1], offsetSeconds) + [TrainLine(trains[|trains| - 1], offsetSeconds)]
  }

  /** Each line behind the four-space indent of a station block. */
  function Indented(lines: seq<string>): (r: seq<string>)
    ensures |r| == |lines|
    ensures forall i :: 0 <= i < |lines| ==> r[i] == "    " + lines[i]
  {
    if |lines| == 0 then []
    else Indented(lines[..|lines| - 1]) + ["    " + lines[|lines| - 1]]
  }

  /** The lines for one direction: a placeholder if there are no trains, then the trains by aimed departure. */
  function DirectionLines(trains: Dict<Caltrain>, offsetSeconds: int): seq<string>
    requires trains.Valid()
  {
    (if |trains.m| == 0 then [NoTrainsLine] else [])
      + Indented(FormattedTrains(SortByAimed(trains.Values()), offsetSeconds))
  }

  /** The `builder` list of `CaltrainStation.format_output`. */
  function BlockLines(st: StationView, offsetSeconds: int): seq<string>
    requires st.Valid()
  {
    [st.name + ":", NorthboundHeading] + DirectionLines(st.northbound, offsetSeconds)
      + [SouthboundHeading] + DirectionLines(st.southbound, offsetSeconds)
  }

  /** `CaltrainStation.format_output`: the lines joined by newlines. */
  function Block(st: StationView, offsetSeconds: int): string
    requires st.Valid()
  {
    Join(BlockLines(st, offsetSeconds), "\n")
  }

  /** A train's line is never the placeholder text. */
  lemma TrainLineIsNotPlaceholder(t: Caltrain, offsetSeconds: int)
    ensures TrainLine(t, offsetSeconds) != NoTrainsText
  {
    var line := TrainLine(t, offsetSeconds);
    if t.expectedDeparture.None? {
      assert |line| == 1;
    } else {
      assert line[|line| - 1] == ')';
      assert NoTrainsText[|NoTrainsText| - 1] == '.';
    }
  }

  /** No train's line is the placeholder line. */
  lemma NoPlaceholderAmongTrains(trains: seq<Caltrain>, offsetSeconds: int)
    ensures NoTrainsLine !in Indented(FormattedTrains(trains, offsetSeconds))
  {
    var formatted := FormattedTrains(trains, offsetSeconds);
    var lines := Indented(formatted);
    forall i | 0 <= i < |lines| ensures lines[i] != NoTrainsLine {
      TrainLineIsNotPlaceholder(trains[i], offsetSeconds);
      assert lines[i][4..] == formatted[i];
      assert NoTrainsLine[4..] == NoTrainsText;
    }
  }

  /** A direction's trains are its dict's values in the order of `SortByAimed`, one per value. */
  lemma SortedValuesLength(trains: Dict<Caltrain>)
    requires trains.Valid()
    ensures |SortByAimed(trains.Values())| == |trains.m|
  {
    var values := trains.Values();
    var sorted := SortByAimed(values);
    SortByAimedSpec(values);
    assert |sorted| == |multiset(sorted)| == |multiset(values)| == |values|;
  }

  /**
   * A direction has the placeholder line exactly when it has no trains, and otherwise exactly the
   * indented lines of its trains in the order of `SortByAimed`.
   */
  lemma DirectionLayout(trains: Dict<Caltrain>, offsetSeconds: int)
    requires trains.Valid()
    ensures var lines := DirectionLines(trains, offsetSeconds);
            var sorted := SortByAimed(trains.Values());
            && |lines| == Max1(|trains.m|)
            && (NoTrainsLine in lines <==> |trains.m| == 0)
            && (|trains.m| > 0 ==> forall i :: 0 <= i < |lines| ==> lines[i] == "    " + TrainLine(sorted[i], offsetSeconds))
  {
    var sorted := SortByAimed(trains.Values());
    SortedValuesLength(trains);
    NoPlaceholderAmongTrains(sorted, offsetSeconds);
    if |trains.m| == 0 {
      assert DirectionLines(trains, offsetSeconds) == [NoTrainsLine];
    } else {
      assert DirectionLines(trains, offsetSeconds) == Indented(FormattedTrains(sorted, offsetSeconds));
    }
  }

  function Max1(n: nat): nat
  {
    if n == 0 then 1 else n
  }

  /** Where the parts of a block sit, for any two direction sections. */
  lemma PartsLayout(head: seq<string>, nb: seq<string>, middle: string, sb: seq<string>)
    requires |head| == 2
    ensures var lines := head + nb + [middle] + sb;
            && |lines| == 3 + |nb| + |sb|
            && lines[..2] == head
            && lines[2..2 + |nb|] == nb
            && lines[2 + |nb|] == middle
            && lines[3 + |nb|..] == sb
  {
    var lines := head + nb + [middle] + sb;
    assert lines[2..2 + |nb|] == nb;
    assert lines[3 + |nb|..] == sb;
  }

  /**
   * The layout of a station block: 3 heading lines plus at least one line per direction, the name
   * first, each direction headed by its title, and each direction's lines as `DirectionLayout` says.
   */
  lemma BlockLayout(st: StationView, offsetSeconds: int)
    requires st.Valid()
    ensures var lines := BlockLines(st, offsetSeconds);
            var n, s := Max1(|st.northbound.m|), Max1(|st.southbound.m|);
            && |lines| == 3 + n + s
            && lines[0] == st.name + ":"
            && lines[1] == NorthboundHeading
            && lines[2 + n] == SouthboundHeading
            && lines[2..2 + n] == DirectionLines(st.northbound, offsetSeconds)
            && lines[3 + n..] == DirectionLines(st.southbound, offsetSeconds)
  {
    var nb := DirectionLines(st.northbound, offsetSeconds);
    var sb := DirectionLines(st.southbound, offsetSeconds);
    DirectionLayout(st.northbound, offsetSeconds);
    DirectionLayout(st.southbound, offsetSeconds);
    var head := [st.name + ":", NorthboundHeading];
    PartsLayout(head, nb, SouthboundHeading, sb);
    assert BlockLines(st, offsetSeconds) == head + nb + [SouthboundHeading] + sb;
  }

  /** Concatenation of line lists associates (the proofs above keep it out of the line contents). */
  lemma AppendAssociates(a: seq<string>, b: seq<string>, c: seq<string>)
    ensures a + b + c == a + (b + c)
  {
  }

  /** The train dict of one direction. */
  function TrainsOf(st: StationView, north: bool): Dict<Caltrain>
  {
    if north then st.northbound else st.southbound
  }

  /** `station.northbound_trains[train_id] = train` or the southbound one. */
  function WithTrain(st: StationView, north: bool, t: Caltrain): (r: StationView)
    ensures r.name == st.name
    ensures TrainsOf(r, north) == TrainsOf(st, north).Put(t.id, t)
    ensures TrainsOf(r, !north) == TrainsOf(st, !north)
  {
    if north then st.(northbound := st.northbound.Put(t.id, t)) else st.(southbound := st.southbound.Put(t.id, t))
  }

  /** A `CaltrainStation`. `clear_trains` and `parse_trains` reassign and update its train dicts in place. */
  class CaltrainStation {
    const name: string
    var northboundTrains: Dict<Caltrain>
    var southboundTrains: Dict<Caltrain>

    ghost predicate Valid()
      reads this
    {
      View().Valid()
    }

    function View(): StationView
      reads this
    {
      StationView(name, northboundTrains, southboundTrains)
    }

    constructor (name: string)
      ensures Valid() && View() == StationView(name, Empty(), Empty())
    {
      this.name := name;
      northboundTrains := Empty();
      southboundTrains := Empty();
    }

    /** `northbound_trains[t.id] = t` or `southbound_trains[t.id] = t`. */
    method AddTrain(north: bool, t: Caltrain)
      requires Valid()
      modifies this
      ensures Valid() && View() == WithTrain(old(View()), north, t)
    {
      if north {
        northboundTrains := northboundTrains.Put(t.id, t);
      } else {
        southboundTrains := southboundTrains.Put(t.id, t);
      }
    }

    /** `format_output`: appends the lines to a builder list and joins them. */
    method FormatOutput(offsetSeconds: int) returns (text: string)
      requires Valid()
      ensures text == Block(View(), offsetSeconds)
    {
      var builder := [name + ":", NorthboundHeading];
      builder := AppendDirection(builder, northboundTrains, offsetSeconds);
      builder := builder + [SouthboundHeading];
      builder := AppendDirection(builder, southboundTrains, offsetSeconds);
      text := Join(builder, "\n");
    }

    /** The placeholder when `trains` is empty, then one line per train of `sorted(trains.values())`. */
    static method AppendDirection(builder: seq<string>, trains: Dict<Caltrain>, offsetSeconds: int)
      returns (out: seq<string>)
      requires trains.Valid()
      ensures out == builder + DirectionLines(trains, offsetSeconds)
    {
      var placeholder := if |trains.m| == 0 then [NoTrainsLine] else [];
      var sorted := SortByAimed(trains.Values());
      out := AppendTrains(builder + placeholder, sorted, offsetSeconds);
      ghost var rest := Indented(FormattedTrains(sorted, offsetSeconds));
      assert DirectionLines(trains, offsetSeconds) == placeholder + rest;
      AppendAssociates(builder, placeholder, rest);
    }

    /** Appends the indented line of each train, in order. */
    static method AppendTrains(builder: seq<string>, sorted: seq<Caltrain>, offsetSeconds: int)
      returns (out: seq<string>)
      ensures out == builder + Indented(FormattedTrains(sorted, offsetSeconds))
    {
      ghost var lines := Indented(FormattedTrains(sorted, offsetSeconds));
      out := builder;
      for i := 0 to |sorted|
        invariant out == builder + lines[..i]
      {
        assert lines[..i + 1] == lines[..i] + [lines[i]];
        out := out + ["    " + TrainLine(sorted[i], offsetSeconds)];
      }
      assert lines[..|sorted|] == lines;
    }
  }
}
