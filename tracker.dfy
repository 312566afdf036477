/**
 * The integer logic of the poop tracker page: the `m:ss` duration formatter,
 * the "time ago" formatter (with the clock passed in as `now`), the integer
 * statistics over the session list, the list updates made when a session is
 * ended or deleted, and the dedication ladder. Times are integer
 * milliseconds since the epoch, durations integer seconds.
 */
module Tracker {

  import opened Wrappers
  import opened Text

  /** JavaScript's `%` on integers: the remainder takes the sign of the dividend. */
  function JsRem(a: int, b: int): (r: int)
    requires b > 0
    ensures a >= 0 ==> 0 <= r < b && r == a % b
    ensures a < 0 ==> -b < r <= 0
  {
    if a >= 0 then a % b else -((-a) % b)
  }

  // ---------------------------------------------------------------------------
  // formatDuration
  // ---------------------------------------------------------------------------

  /**
   * `formatDuration(seconds)`: floored minutes, a colon, the remainder padded
   * to two characters. For a non-negative duration that is decimal minutes,
   * a colon and exactly two digits.
   */
  function FormatDuration(seconds: int): (r: string)
    ensures seconds >= 0 ==> |r| >= 4 && r[|r| - 3] == ':' && AllDigits(r[..|r| - 3]) && AllDigits(r[|r| - 2..])
  {
    var minutes := IntToString(seconds / 60);
    var rest := PadStart2(IntToString(JsRem(seconds, 60)));
    if seconds >= 0 then
      TwoDigitsAtMost(seconds % 60);
      PadStart2Value(NatToString(seconds % 60));
      assert (minutes + ":" + rest)[..|minutes|] == minutes;
      assert (minutes + ":" + rest)[|minutes| + 1..] == rest;
      minutes + ":" + rest
    else
      minutes + ":" + rest
  }

  lemma TwoDigitsAtMost(n: nat)
    requires n < 100
    ensures |NatToString(n)| <= 2
  {
    if n >= 10 {
      assert NatToString(n) == NatToString(n / 10) + [DigitChar(n % 10)];
    }
  }

  /**
   * For a non-negative duration the text is the minutes in decimal, one colon
   * and exactly two digits of seconds in 00..59; reading it back as
   * `minutes * 60 + seconds` gives the duration.
   */
  lemma FormatDurationReadsBack(seconds: int)
    requires seconds >= 0
    ensures var parts := Split(FormatDuration(seconds), ':');
      && |parts| == 2
      && AllDigits(parts[0]) && |parts[0]| >= 1
      && AllDigits(parts[1]) && |parts[1]| == 2
      && ParseNat(parts[0]) == seconds / 60
      && ParseNat(parts[1]) == seconds % 60 < 60
      && ParseNat(parts[0]) * 60 + ParseNat(parts[1]) == seconds
  {
    var mins := NatToString(seconds / 60);
    var secs := PadStart2(NatToString(seconds % 60));
    TwoDigitsAtMost(seconds % 60);
    PadStart2Value(NatToString(seconds % 60));
    ParseNatToString(seconds / 60);
    ParseNatToString(seconds % 60);
    assert FormatDuration(seconds) == mins + [':'] + secs;
    SplitAtFirst(mins, secs, ':');
    SplitWithout(secs, ':');
  }

  // ---------------------------------------------------------------------------
  // formatTimeAgo
  // ---------------------------------------------------------------------------

  const SecondsPerHour := 3600
  const SecondsPerDay := 86400
  const SecondsPerWeek := 604800

  /** `${n}${unit} ago`: it ends in " ago", so it is never "unknown". */
  function Ago(n: int, suffix: string): (r: string)
    requires suffix in {"s ago", "m ago", "h ago", "d ago", "w ago", "mo ago", "y ago"}
    ensures |r| > 4 && r[|r| - 4..] == " ago" && r != "unknown"
  {
    var text := IntToString(n) + suffix;
    assert text[|text| - 4..] == suffix[|suffix| - 4..];
    assert text[|text| - 1] == 'o';
    text
  }

  /**
   * `formatTimeAgo(timestamp)` with the clock reading `now`: a zero timestamp
   * is "unknown"; otherwise the elapsed whole seconds pick the first unit
   * whose bound holds, each unit derived from the previous one by flooring.
   */
  function FormatTimeAgo(timestamp: int, now: int): (r: string)
    ensures r == "unknown" <==> timestamp == 0
    ensures r != "unknown" && r != "just now" ==> |r| > 4 && r[|r| - 4..] == " ago"
  {
    if timestamp == 0 then "unknown"
    else
      var diffSeconds := (now - timestamp) / 1000;
      if diffSeconds < 5 then "just now"
      else if diffSeconds < 60 then Ago(diffSeconds, "s ago")
      else
        var diffMinutes := diffSeconds / 60;
        if diffMinutes < 60 then Ago(diffMinutes, "m ago")
        else
          var diffHours := diffMinutes / 60;
          if diffHours < 24 then Ago(diffHours, "h ago")
          else
            var diffDays := diffHours / 24;
            if diffDays < 7 then Ago(diffDays, "d ago")
            else
              var diffWeeks := diffDays / 7;
              if diffWeeks < 4 then Ago(diffWeeks, "w ago")
              else
                var diffMonths := diffDays / 30;
                if diffMonths < 12 then Ago(diffMonths, "mo ago")
                else Ago(diffDays / 365, "y ago")
  }

  /** Flooring twice is flooring once by the product. */
  lemma DivDiv(a: nat, b: nat, c: nat)
    requires b > 0 && c > 0
    ensures a / b / c == a / (b * c)
  {
    var q, r1 := a / b, a % b;
    var q2, r2 := q / c, q % c;
    assert a == b * q + r1;
    assert q == c * q2 + r2;
    Regroup(b, c, q2, r2);
    MulStep(b, r2, c);
    DivUnique(a, b * c, q2, b * r2 + r1);
  }

  /** `b * (c * q + r)` regrouped around the product `b * c`. */
  lemma Regroup(b: int, c: int, q: int, r: int)
    ensures b * (c * q + r) == (b * c) * q + b * r
  {
    assert b * (c * q + r) == b * (c * q) + b * r;
    assert b * (c * q) == (b * c) * q;
  }

  lemma DivUnique(a: int, m: int, q: int, r: int)
    requires m > 0 && 0 <= r < m && a == m * q + r
    ensures a / m == q
  {
    var q' := a / m;
    assert a == m * q' + a % m;
    if q' < q {
      MulStep(m, q', q);
    } else if q' > q {
      MulStep(m, q, q');
    }
  }

  /** One more multiple of a positive `m`. */
  lemma MulStep(m: int, x: int, y: int)
    requires m > 0 && x < y
    ensures m * x + m <= m * y
  {
    var k := y - x - 1;
    assert m * y == m * x + m + m * k by {
      assert y == x + 1 + k;
    }
    NonNegProduct(m, k);
  }

  lemma NonNegProduct(a: nat, b: nat)
    ensures a * b >= 0
  {
  }

  /** The units in terms of the elapsed whole seconds `d`. */
  lemma Units(d: nat)
    ensures d / 60 / 60 == d / SecondsPerHour
    ensures d / 60 / 60 / 24 == d / SecondsPerDay
    ensures d / 60 / 60 / 24 / 7 == d / SecondsPerWeek
  {
    DivDiv(d, 60, 60);
    DivDiv(d, 3600, 24);
    DivDiv(d, 86400, 7);
  }

  /** A zero timestamp is "unknown"; a difference under five seconds, the future included, is "just now". */
  lemma TimeAgoEdges(timestamp: int, now: int)
    ensures timestamp == 0 ==> FormatTimeAgo(timestamp, now) == "unknown"
    ensures timestamp != 0 && now - timestamp < 5000 ==> FormatTimeAgo(timestamp, now) == "just now"
    ensures timestamp != 0 && now - timestamp >= 5000 ==> FormatTimeAgo(timestamp, now) != "just now"
  {
    if timestamp != 0 && now - timestamp >= 5000 {
      var d := (now - timestamp) / 1000;
      assert d >= 5;
      var r := FormatTimeAgo(timestamp, now);
      assert r[|r| - 1] == 'o';
    }
  }

  /**
   * Past the first five seconds exactly one unit is used, the first whose
   * bound holds: seconds under a minute, minutes under an hour, hours under a
   * day, days under a week, weeks under four weeks; after that months of 30
   * days while under 12 of them, else years of 365 days.
   */
  lemma TimeAgoBuckets(timestamp: int, now: int)
    requires timestamp != 0 && now - timestamp >= 5000
    ensures var d := (now - timestamp) / 1000; var r := FormatTimeAgo(timestamp, now);
      && (d < 60 ==> r == NatToString(d) + "s ago")
      && (60 <= d < SecondsPerHour ==> r == NatToString(d / 60) + "m ago")
      && (SecondsPerHour <= d < SecondsPerDay ==> r == NatToString(d / SecondsPerHour) + "h ago")
      && (SecondsPerDay <= d < SecondsPerWeek ==> r == NatToString(d / SecondsPerDay) + "d ago")
      && (SecondsPerWeek <= d < 4 * SecondsPerWeek ==> r == NatToString(d / SecondsPerWeek) + "w ago")
      && (4 * SecondsPerWeek <= d && d / SecondsPerDay / 30 < 12 ==> r == NatToString(d / SecondsPerDay / 30) + "mo ago")
      && (4 * SecondsPerWeek <= d && d / SecondsPerDay / 30 >= 12 ==> r == NatToString(d / SecondsPerDay / 365) + "y ago")
  {
    var d := (now - timestamp) / 1000;
    Units(d);
  }

  /**
   * The weeks bucket ends at 28 days but months are `floor(days / 30)`, so 28
   * and 29 days read "0mo ago"; likewise 360 to 364 days read "0y ago".
   */
  lemma TimeAgoZeroUnits(timestamp: int, now: int)
    requires timestamp != 0 && now - timestamp >= 0
    ensures var days := (now - timestamp) / 1000 / SecondsPerDay;
      && (28 <= days < 30 ==> FormatTimeAgo(timestamp, now) == "0mo ago")
      && (360 <= days < 365 ==> FormatTimeAgo(timestamp, now) == "0y ago")
  {
    var d := (now - timestamp) / 1000;
    var days := d / SecondsPerDay;
    Units(d);
    if 28 <= days {
      assert d >= 28 * SecondsPerDay;
      assert d / SecondsPerWeek >= 4 by {
        DivDiv(d, SecondsPerDay, 7);
      }
    }
  }

  // ---------------------------------------------------------------------------
  // Sessions and statistics
  // ---------------------------------------------------------------------------

  datatype SessionType = Number1 | Number2 | Both

  datatype ToiletSession = ToiletSession(
    id: string,
    startTime: int,
    endTime: int,
    duration: int,
    kind: SessionType,
    notes: Option<string>)

  /** The integer parts of `calculateStats`. */
  datatype Stats = Stats(
    totalSessions: nat,
    totalTime: int,
    avgDuration: int,
    longestSession: int,
    shortestSession: int)

  function TotalTime(sessions: seq<ToiletSession>): int
  {
    if sessions == [] then 0 else TotalTime(sessions[..|sessions| - 1]) + sessions[|sessions| - 1].duration
  }

  /** `Math.max(...durations)` of a non-empty list. */
  function Longest(sessions: seq<ToiletSession>): (m: int)
    requires sessions != []
    ensures forall i :: 0 <= i < |sessions| ==> sessions[i].duration <= m
    ensures exists i :: 0 <= i < |sessions| && sessions[i].duration == m
  {
    if |sessions| == 1 then sessions[0].duration
    else
      var rest := Longest(sessions[1..]);
      assert forall i :: 1 <= i < |sessions| ==> sessions[i] == sessions[1..][i - 1];
      if sessions[0].duration >= rest then sessions[0].duration else rest
  }

  /** `Math.min(...durations)` of a non-empty list. */
  function Shortest(sessions: seq<ToiletSession>): (m: int)
    requires sessions != []
    ensures forall i :: 0 <= i < |sessions| ==> m <= sessions[i].duration
    ensures exists i :: 0 <= i < |sessions| && sessions[i].duration == m
  {
    if |sessions| == 1 then sessions[0].duration
    else
      var rest := Shortest(sessions[1..]);
      assert forall i :: 1 <= i < |sessions| ==> sessions[i] == sessions[1..][i - 1];
      if sessions[0].duration <= rest then sessions[0].duration else rest
  }

  /** `calculateStats()`: no statistics for an empty list. */
  function CalculateStats(sessions: seq<ToiletSession>): (r: Option<Stats>)
    ensures r.None? <==> sessions == []
    ensures r.Some? ==> r.value.totalSessions == |sessions|
  {
    if sessions == [] then None
    else
      var total := TotalTime(sessions);
      Some(Stats(|sessions|, total, total / |sessions|, Longest(sessions), Shortest(sessions)))
  }

  /** The total lies between `n` times the shortest and `n` times the longest duration. */
  lemma {:induction false} TotalBetween(sessions: seq<ToiletSession>, lo: int, hi: int)
    requires forall i :: 0 <= i < |sessions| ==> lo <= sessions[i].duration <= hi
    ensures |sessions| * lo <= TotalTime(sessions) <= |sessions| * hi
  {
    if sessions != [] {
      var n := |sessions| - 1;
      TotalBetween(sessions[..n], lo, hi);
      assert |sessions| * lo == n * lo + lo;
      assert |sessions| * hi == n * hi + hi;
    }
  }

  lemma FloorBetween(total: int, n: int, lo: int, hi: int)
    requires n > 0 && n * lo <= total <= n * hi
    ensures lo <= total / n <= hi
  {
    var q := total / n;
    assert total == n * q + total % n;
    if q < lo {
      MulStep(n, q, lo);
    }
    if q > hi {
      MulStep(n, hi, q);
    }
  }

  lemma FloorBracket(total: int, n: int)
    requires n > 0
    ensures (total / n) * n <= total < (total / n) * n + n
  {
    assert total == n * (total / n) + total % n;
  }

  /**
   * For a non-empty list: the count, the sum of the durations, the floored
   * average, and the shortest and longest durations, with
   * `shortest <= average <= longest`.
   */
  lemma StatsCorrect(sessions: seq<ToiletSession>)
    requires sessions != []
    ensures var st := CalculateStats(sessions).value;
      && st.totalSessions == |sessions|
      && st.totalTime == TotalTime(sessions)
      && st.avgDuration * |sessions| <= st.totalTime < st.avgDuration * |sessions| + |sessions|
      && st.shortestSession <= st.avgDuration <= st.longestSession
      && (forall i :: 0 <= i < |sessions| ==> st.shortestSession <= sessions[i].duration <= st.longestSession)
  {
    var lo := Shortest(sessions);
    var hi := Longest(sessions);
    var total := TotalTime(sessions);
    TotalBetween(sessions, lo, hi);
    FloorBetween(total, |sessions|, lo, hi);
    FloorBracket(total, |sessions|);
  }

  // ---------------------------------------------------------------------------
  // List updates
  // ---------------------------------------------------------------------------

  /** `sessions.filter(s => s.id !== id)`. */
  function DeleteSession(sessions: seq<ToiletSession>, id: string): (r: seq<ToiletSession>)
    ensures |r| <= |sessions|
    ensures forall i :: 0 <= i < |r| ==> r[i].id != id
  {
    if sessions == [] then []
    else (if sessions[0].id != id then [sessions[0]] else []) + DeleteSession(sessions[1..], id)
  }

  /** Deleting keeps exactly the sessions with another id. */
  lemma {:induction false} DeleteSessionMembers(sessions: seq<ToiletSession>, id: string)
    ensures forall x :: x in DeleteSession(sessions, id) <==> x in sessions && x.id != id
  {
    if sessions != [] {
      DeleteSessionMembers(sessions[1..], id);
      assert sessions == [sessions[0]] + sessions[1..];
    }
  }

  /** Deleting works piecewise, so the kept sessions stay in their order. */
  lemma {:induction false} DeleteSessionAppend(a: seq<ToiletSession>, b: seq<ToiletSession>, id: string)
    ensures DeleteSession(a + b, id) == DeleteSession(a, id) + DeleteSession(b, id)
  {
    if a != [] {
      DeleteSessionAppend(a[1..], b, id);
      assert (a + b)[1..] == a[1..] + b;
    } else {
      assert a + b == b;
    }
  }

  /** Deleting an id nobody has changes nothing; deleting twice is deleting once. */
  lemma {:induction false} DeleteSessionAbsent(sessions: seq<ToiletSession>, id: string)
    ensures (forall x :: x in sessions ==> x.id != id) ==> DeleteSession(sessions, id) == sessions
    ensures DeleteSession(DeleteSession(sessions, id), id) == DeleteSession(sessions, id)
  {
    if sessions != [] {
      DeleteSessionAbsent(sessions[1..], id);
      assert sessions == [sessions[0]] + sessions[1..];
      var rest := DeleteSession(sessions[1..], id);
      if sessions[0].id != id {
        assert ([sessions[0]] + rest)[1..] == rest;
      } else {
        assert [] + rest == rest;
      }
    }
  }

  /**
   * Ending a session (the browser-storage branch): with no session started
   * nothing happens; otherwise a session whose duration is the elapsed whole
   * seconds, with notes only when non-empty, goes to the head of the list.
   * The notes arrive already trimmed and the id is the caller's.
   */
  function EndSession(sessions: seq<ToiletSession>, sessionStart: Option<int>, endTime: int,
                      id: string, kind: SessionType, trimmedNotes: string): (r: seq<ToiletSession>)
    ensures sessionStart.None? ==> r == sessions
    ensures sessionStart.Some? ==> |r| == |sessions| + 1 && r[1..] == sessions && r[0].id == id
    ensures sessionStart.Some? ==> r[0].startTime == sessionStart.value && r[0].endTime == endTime
    ensures sessionStart.Some? ==> (r[0].notes.Some? <==> trimmedNotes != "")
  {
    match sessionStart
    case None => sessions
    case Some(start) =>
      var notes := if trimmedNotes == "" then None else Some(trimmedNotes);
      [ToiletSession(id, start, endTime, (endTime - start) / 1000, kind, notes)] + sessions
  }

  /**
   * Ending a started session prepends one entry and keeps the rest; its
   * duration is the floor of the elapsed milliseconds over 1000. Deleting the
   * new id afterwards (when it was not in use) restores the old list.
   */
  lemma EndSessionPrepends(sessions: seq<ToiletSession>, sessionStart: Option<int>, endTime: int,
                           id: string, kind: SessionType, trimmedNotes: string)
    ensures var r := EndSession(sessions, sessionStart, endTime, id, kind, trimmedNotes);
      && (sessionStart.None? ==> r == sessions)
      && (sessionStart.Some? ==>
            && |r| == |sessions| + 1 && r[1..] == sessions
            && r[0].id == id && r[0].startTime == sessionStart.value && r[0].endTime == endTime
            && r[0].duration * 1000 <= endTime - sessionStart.value < (r[0].duration + 1) * 1000
            && (r[0].notes.None? <==> trimmedNotes == "")
            && ((forall x :: x in sessions ==> x.id != id) ==> DeleteSession(r, id) == sessions))
  {
    if sessionStart.Some? {
      var r := EndSession(sessions, sessionStart, endTime, id, kind, trimmedNotes);
      assert r == [r[0]] + sessions;
      DeleteSessionAbsent(sessions, id);
    }
  }

  // ---------------------------------------------------------------------------
  // Dedication level
  // ---------------------------------------------------------------------------

  function DedicationLevel(totalSessions: int): (r: string)
    ensures r == "LEGENDARY" <==> totalSessions > 20
    ensures r == "EXPERT" <==> 10 < totalSessions <= 20
    ensures r == "REGULAR" <==> 5 < totalSessions <= 10
    ensures r == "NEWBIE" <==> totalSessions <= 5
  {
    if totalSessions > 20 then "LEGENDARY"
    else if totalSessions > 10 then "EXPERT"
    else if totalSessions > 5 then "REGULAR"
    else "NEWBIE"
  }

  function LevelRank(level: string): nat
  {
    if level == "LEGENDARY" then 3
    else if level == "EXPERT" then 2
    else if level == "REGULAR" then 1
    else 0
  }

  /** More sessions never lower the level. */
  lemma DedicationLadder(n: int, m: int)
    ensures n <= m ==> LevelRank(DedicationLevel(n)) <= LevelRank(DedicationLevel(m))
  {
  }
}
