/** `Caltrain`: one train as seen at one station, its lateness and its report line; and the sort by aimed departure. */
module Trains {
  import opened Wrappers
  import opened Text
  import opened Time

  /** A `Caltrain` record. It is never changed after it is built, so it is a value. */
  datatype Caltrain = Caltrain(id: string, trainType: string, aimedDeparture: ValidDateTime,
                               expectedDeparture: Option<ValidDateTime>)

  // ---------------------------------------------------------------------------------------------
  // Lateness

  /**
   * `timedelta(minutes=diff).seconds // 60`: a timedelta's `seconds` is its length in seconds modulo
   * one day, so a negative difference does not give a negative number.
   */
  function DaySeconds(diff: int): (r: nat)
    ensures r < 1440
  {
    diff * 60 % 86400 / 60
  }

  /** `(expected - aimed).seconds // 60`. */
  function MinutesLate(aimed: ValidDateTime, expected: ValidDateTime): (r: nat)
    ensures r < 1440
  {
    DaySeconds(Minutes(expected) - Minutes(aimed))
  }

  /** Whole minutes of a number of seconds modulo one day are the minutes modulo one day. */
  lemma SecondsOfDayInMinutes(diff: int)
    ensures DaySeconds(diff) == diff % 1440
  {
    var q, m := diff / 1440, diff % 1440;
    assert diff * 60 == 86400 * q + 60 * m;
    DayRemainder(diff * 60, q, 60 * m);
  }

  /** The remainder modulo one day of x = 86400 q + r, for r within a day, is r. */
  lemma DayRemainder(x: int, q: int, r: int)
    requires x == 86400 * q + r && 0 <= r < 86400
    ensures x % 86400 == r
  {
  }

  /** Within one day, whole minutes of a number of seconds modulo one day are the minutes themselves. */
  lemma SecondsWithinADay(diff: int)
    requires 0 <= diff < 1440
    ensures DaySeconds(diff) == diff
  {
    SecondsOfDayInMinutes(diff);
  }

  /** A difference of n minutes early, for n up to a day, reads as 1440 - n minutes late. */
  lemma WrapsBackward(diff: int, n: int)
    requires 0 < n <= 1440 && diff == -n
    ensures DaySeconds(diff) == 1440 - n
  {
    SecondsOfDayInMinutes(diff);
    assert diff == -1 * 1440 + (1440 - n);
  }

  /** Minutes late is the difference in minutes modulo one day (1440 minutes). */
  lemma MinutesLateIsDifferenceModDay(aimed: ValidDateTime, expected: ValidDateTime)
    ensures MinutesLate(aimed, expected) == (Minutes(expected) - Minutes(aimed)) % 1440
  {
    SecondsOfDayInMinutes(Minutes(expected) - Minutes(aimed));
  }

  /** A train that leaves at its aimed time is 0 minutes late. */
  lemma OnTimeWhenExpectedIsAimed(t: ValidDateTime)
    ensures MinutesLate(t, t) == 0
  {
    SecondsWithinADay(0);
  }

  /** Five minutes after the aimed time is 5 minutes late. */
  lemma FiveMinutesLate(aimed: ValidDateTime, expected: ValidDateTime)
    requires Minutes(expected) == Minutes(aimed) + 5
    ensures MinutesLate(aimed, expected) == 5
  {
    SecondsWithinADay(Minutes(expected) - Minutes(aimed));
  }

  /** Three minutes early wraps round to 1437 minutes late: the code does not clamp at zero. */
  lemma EarlyTrainWraps(aimed: ValidDateTime, expected: ValidDateTime)
    requires Minutes(expected) == Minutes(aimed) - 3
    ensures MinutesLate(aimed, expected) == 1437
  {
    WrapsBackward(Minutes(expected) - Minutes(aimed), 3);
  }

  /** Within one day the lateness is exactly the delay in minutes. */
  lemma LateWithinADay(aimed: ValidDateTime, expected: ValidDateTime)
    requires 0 <= Minutes(expected) - Minutes(aimed) < 1440
    ensures MinutesLate(aimed, expected) == Minutes(expected) - Minutes(aimed)
  {
    SecondsWithinADay(Minutes(expected) - Minutes(aimed));
  }

  /** The annotation after the clock time. */
  function LateMessage(minutesLate: nat): (r: string)
    ensures r == " (On time)" <==> minutesLate == 0
    ensures |r| > 0 && r[|r| - 1] == ')'
  {
    if minutesLate > 0 then " (" + NatToString(minutesLate) + " minutes late)" else " (On time)"
  }

  /** Reads the number of minutes back out of an annotation; 0 for " (On time)". */
  function MessageMinutes(msg: string): Option<nat>
  {
    if msg == " (On time)" then Some(0)
    else if |msg| < 16 || msg[..2] != " (" || msg[|msg| - 14..] != " minutes late)" then None
    else
      var digits := msg[2..|msg| - 14];
      if forall i :: 0 <= i < |digits| ==> IsDigit(digits[i]) then Some(DecimalValue(digits)) else None
  }

  /** The annotation shows the number of minutes late and nothing else decides it. */
  lemma LateMessageRoundTrip(minutesLate: nat)
    ensures MessageMinutes(LateMessage(minutesLate)) == Some(minutesLate)
  {
    if minutesLate > 0 {
      var digits := NatToString(minutesLate);
      var msg := " (" + digits + " minutes late)";
      assert msg[..2] == " (" && msg[|msg| - 14..] == " minutes late)";
      assert msg[2..|msg| - 14] == digits;
    }
  }

  /**
   * `Caltrain.format_output`: "?" without an expected departure; otherwise the id in a field of
   * width 5, the local `%I:%M%p` clock time of the expected departure in a field of width 10, and
   * the annotation. `offsetSeconds` is the host's UTC offset that `to_localtime` reads from the clock.
   */
  function TrainLine(t: Caltrain, offsetSeconds: int): (r: string)
    ensures t.expectedDeparture.None? ==> r == "?"
    ensures t.expectedDeparture.Some? ==> t.id <= r && |r| > 0 && r[|r| - 1] == ')'
  {
    match t.expectedDeparture
    case None => "?"
    case Some(expected) =>
      PadRight(t.id, 5) + PadRight(LocalClock(expected, offsetSeconds), 10)
        + LateMessage(MinutesLate(t.aimedDeparture, expected))
  }

  /** Where the id, the clock time and the annotation sit in a train line. */
  lemma TrainLineLayout(t: Caltrain, offsetSeconds: int)
    requires t.expectedDeparture.Some?
    ensures var r := TrainLine(t, offsetSeconds);
            var w := if |t.id| >= 5 then |t.id| else 5;
            var expected := t.expectedDeparture.value;
            && |r| > w + 10
            && r[..w] == PadRight(t.id, 5)
            && r[w..w + 7] == LocalClock(expected, offsetSeconds)
            && r[w + 7..w + 10] == "   "
            && MessageMinutes(r[w + 10..]) == Some(MinutesLate(t.aimedDeparture, expected))
  {
    var expected := t.expectedDeparture.value;
    var id := PadRight(t.id, 5);
    var clock := PadRight(LocalClock(expected, offsetSeconds), 10);
    var late := LateMessage(MinutesLate(t.aimedDeparture, expected));
    var r := id + clock + late;
    assert r[..|id|] == id;
    assert r[|id|..|id| + 10] == clock;
    assert r[|id| + 10..] == late;
    assert clock[..7] == LocalClock(expected, offsetSeconds);
    assert clock[7..] == "   ";
    LateMessageRoundTrip(MinutesLate(t.aimedDeparture, expected));
  }

  /** The line of a train that leaves at its aimed time ends in " (On time)". */
  lemma OnTimeLine(t: Caltrain, offsetSeconds: int)
    requires t.expectedDeparture == Some(t.aimedDeparture)
    ensures var r := TrainLine(t, offsetSeconds);
            |r| >= 10 && r[|r| - 10..] == " (On time)"
  {
    OnTimeWhenExpectedIsAimed(t.aimedDeparture);
    var r := TrainLine(t, offsetSeconds);
    var head := PadRight(t.id, 5) + PadRight(LocalClock(t.aimedDeparture, offsetSeconds), 10);
    assert r == head + " (On time)";
  }

  /** The line of a train expected five minutes after its aimed time ends in " (5 minutes late)". */
  lemma FiveMinutesLateLine(t: Caltrain, offsetSeconds: int)
    requires t.expectedDeparture.Some? && Minutes(t.expectedDeparture.value) == Minutes(t.aimedDeparture) + 5
    ensures var r := TrainLine(t, offsetSeconds);
            |r| >= 17 && r[|r| - 17..] == " (5 minutes late)"
  {
    var expected := t.expectedDeparture.value;
    FiveMinutesLate(t.aimedDeparture, expected);
    var r := TrainLine(t, offsetSeconds);
    var head := PadRight(t.id, 5) + PadRight(LocalClock(expected, offsetSeconds), 10);
    assert NatToString(5) == "5";
    assert r == head + " (5 minutes late)";
  }

  // ---------------------------------------------------------------------------------------------
  // `sorted(trains, key=lambda t: t.aimed_departure)`: Python's sort is stable.

  predicate SortedByAimed(s: seq<Caltrain>)
  {
    forall i, j :: 0 <= i < j < |s| ==> !Before(s[j].aimedDeparture, s[i].aimedDeparture)
  }

  /** The trains of s whose aimed departure is k, in the order of s. */
  function WithAimed(s: seq<Caltrain>, k: DateTime): seq<Caltrain>
  {
    if s == [] then []
    else WithAimed(s[..|s| - 1], k) + (if s[|s| - 1].aimedDeparture == k then [s[|s| - 1]] else [])
  }

  /** Puts t after every train of s that does not leave after it. */
  function InsertByAimed(t: Caltrain, s: seq<Caltrain>): seq<Caltrain>
  {
    if s == [] then [t]
    else if Before(t.aimedDeparture, s[|s| - 1].aimedDeparture) then InsertByAimed(t, s[..|s| - 1]) + [s[|s| - 1]]
    else s + [t]
  }

  function SortByAimed(s: seq<Caltrain>): seq<Caltrain>
  {
    if s == [] then [] else InsertByAimed(s[|s| - 1], SortByAimed(s[..|s| - 1]))
  }

  lemma {:induction false} WithAimedAppend(a: seq<Caltrain>, b: seq<Caltrain>, k: DateTime)
    ensures WithAimed(a + b, k) == WithAimed(a, k) + WithAimed(b, k)
  {
    if b != [] {
      assert (a + b)[..|a + b| - 1] == a + b[..|b| - 1];
      WithAimedAppend(a, b[..|b| - 1], k);
    } else {
      assert a + b == a;
    }
  }

  lemma {:induction false} InsertByAimedPermutes(t: Caltrain, s: seq<Caltrain>)
    ensures multiset(InsertByAimed(t, s)) == multiset(s) + multiset{t}
  {
    if s != [] {
      var init, last := s[..|s| - 1], s[|s| - 1];
      assert s == init + [last];
      InsertByAimedPermutes(t, init);
    }
  }

  lemma {:induction false} InsertByAimedSorted(t: Caltrain, s: seq<Caltrain>)
    requires SortedByAimed(s)
    ensures SortedByAimed(InsertByAimed(t, s))
  {
    if s != [] {
      var init, last := s[..|s| - 1], s[|s| - 1];
      if Before(t.aimedDeparture, last.aimedDeparture) {
        InsertByAimedSorted(t, init);
        InsertByAimedPermutes(t, init);
        var r := InsertByAimed(t, init);
        assert s == init + [last];
        forall i | 0 <= i < |r| ensures !Before(last.aimedDeparture, r[i].aimedDeparture) {
          assert r[i] in multiset(init) + multiset{t};
          if r[i] != t {
            assert r[i] in init;
          }
        }
      }
    }
  }

  lemma {:induction false} InsertByAimedStable(t: Caltrain, s: seq<Caltrain>, k: DateTime)
    ensures WithAimed(InsertByAimed(t, s), k) == WithAimed(s, k) + WithAimed([t], k)
  {
    if s == [] {
      assert [] + [t] == [t];
    } else {
      var init, last := s[..|s| - 1], s[|s| - 1];
      assert s == init + [last];
      if Before(t.aimedDeparture, last.aimedDeparture) {
        var r := InsertByAimed(t, init);
        calc {
          WithAimed(InsertByAimed(t, s), k);
          WithAimed(r + [last], k);
          { WithAimedAppend(r, [last], k); }
          WithAimed(r, k) + WithAimed([last], k);
          { InsertByAimedStable(t, init, k); }
          WithAimed(init, k) + WithAimed([t], k) + WithAimed([last], k);
          { WithAimedOfOne(t, k); WithAimedOfOne(last, k); }
          WithAimed(init, k) + WithAimed([last], k) + WithAimed([t], k);
          { WithAimedAppend(init, [last], k); }
          WithAimed(s, k) + WithAimed([t], k);
        }
      } else {
        WithAimedAppend(s, [t], k);
      }
    }
  }

  /** A single train is selected exactly when its aimed departure is k. */
  lemma WithAimedOfOne(t: Caltrain, k: DateTime)
    ensures WithAimed([t], k) == if t.aimedDeparture == k then [t] else []
  {
    assert [t][..0] == [];
  }

  /**
   * The sort puts the trains in order of aimed departure, loses and adds none, and keeps trains with
   * equal aimed departures in their original order (stability).
   */
  lemma {:induction false} SortByAimedSpec(s: seq<Caltrain>)
    ensures SortedByAimed(SortByAimed(s))
    ensures multiset(SortByAimed(s)) == multiset(s)
    ensures forall k :: WithAimed(SortByAimed(s), k) == WithAimed(s, k)
  {
    if s != [] {
      var init, last := s[..|s| - 1], s[|s| - 1];
      assert s == init + [last];
      SortByAimedSpec(init);
      InsertByAimedPermutes(last, SortByAimed(init));
      InsertByAimedSorted(last, SortByAimed(init));
      forall k ensures WithAimed(SortByAimed(s), k) == WithAimed(s, k) {
        InsertByAimedStable(last, SortByAimed(init), k);
        WithAimedAppend(init, [last], k);
      }
    }
  }
}
