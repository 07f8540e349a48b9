/** Following ffmpeg's `-stats` output while the encoders run: each line
    that carries a `time=` field moves a cursor forward to that time, and
    the progress bar advances by how far the cursor moved. */
module Progress {
  import opened Wrappers
  import opened Text
  import opened Timestamps
  import opened Patterns

  /** The end of the run of non-whitespace that starts at `i`: `\S+`
      taking as much as it can. */
  function WordRunEnd(s: string, i: nat): (j: nat)
    requires i <= |s|
    ensures i <= j <= |s|
    decreases |s| - i
  {
    if i < |s| && !IsSpace(s[i]) then WordRunEnd(s, i + 1) else i
  }

  lemma {:induction false} WordRunEndSpec(s: string, i: nat)
    requires i <= |s|
    ensures var j := WordRunEnd(s, i);
      (forall k | i <= k < j :: !IsSpace(s[k])) && (j < |s| ==> IsSpace(s[j]))
    decreases |s| - i
  {
    if i < |s| && !IsSpace(s[i]) {
      WordRunEndSpec(s, i + 1);
    }
  }

  /** The word "time" at `i` (the pattern is case-sensitive). */
  predicate TimeWordAt(s: string, i: nat) {
    && i + 4 <= |s|
    && s[i] == 't' && s[i + 1] == 'i' && s[i + 2] == 'm' && s[i + 3] == 'e'
  }

  /** Where the group of `\s*time\s*=\s*(\S+)\s*` is when the pattern is
      tried at `i`. No `\s*` can stop short of the end of its run, since
      what must follow it ("t", "=", or the first character of `\S+`) is
      not whitespace, and `\S+` takes the whole run of non-whitespace; the
      trailing `\s*` always matches and does not move the group. */
  function TimeGroupAt(s: string, i: nat): Option<(nat, nat)> {
    if i > |s| then None
    else
      var j := SpaceRunEnd(s, i);
      if TimeWordAt(s, j) then
        var k := SpaceRunEnd(s, j + 4);
        if k < |s| && s[k] == '=' then
          var m := SpaceRunEnd(s, k + 1);
          var e := WordRunEnd(s, m);
          if e > m then Some((m, e)) else None
        else None
      else None
  }

  /** The positions where the progress pattern matches. */
  function TimeMatches(s: string): nat -> bool {
    (i: nat) => TimeGroupAt(s, i).Some?
  }

  /** `progress_rx.search(line)` and `m.group(1)`: the time text of the
      first match, if any. */
  function TimeField(line: string): (r: Option<string>) {
    match FirstFrom(TimeMatches(line), 0, |line|)
    case None => None
    case Some(p) =>
      match TimeGroupAt(line, p)
      case None => None
      case Some((m, e)) => Some(line[m..e])
  }

  /** A match is optional whitespace, "time", optional whitespace, "=",
      optional whitespace and a maximal, non-empty run of characters that
      are not whitespace, which is the group. */
  lemma {:induction false} TimeGroupSpec(s: string, i: nat, m: nat, e: nat)
    requires TimeGroupAt(s, i) == Some((m, e))
    ensures i <= |s|
    ensures var j := SpaceRunEnd(s, i);
      && (forall x | i <= x < j :: IsSpace(s[x]))
      && TimeWordAt(s, j)
      && var k := SpaceRunEnd(s, j + 4);
      && (forall x | j + 4 <= x < k :: IsSpace(s[x]))
      && k < |s| && s[k] == '='
      && (forall x | k + 1 <= x < m :: IsSpace(s[x]))
    ensures m < e <= |s|
    ensures forall x | m <= x < e :: !IsSpace(s[x])
    ensures e < |s| ==> IsSpace(s[e])
  {
    var j := SpaceRunEnd(s, i);
    SpaceRunEndSpec(s, i);
    SpaceRunEndSpec(s, j + 4);
    var k := SpaceRunEnd(s, j + 4);
    SpaceRunEndSpec(s, k + 1);
    WordRunEndSpec(s, m);
  }

  /** The time text found is never empty and holds no whitespace. */
  lemma {:induction false} TimeFieldWord(line: string)
    requires TimeField(line).Some?
    ensures TimeField(line).value != []
    ensures forall x | 0 <= x < |TimeField(line).value| :: !IsSpace(TimeField(line).value[x])
  {
    var p := FirstFrom(TimeMatches(line), 0, |line|).value;
    var (m, e) := TimeGroupAt(line, p).value;
    assert TimeField(line).value == line[m..e];
    TimeGroupSpec(line, p, m, e);
  }

  /** There is no time text exactly when the pattern matches nowhere in
      the line. */
  lemma {:induction false} TimeFieldNone(line: string)
    ensures TimeField(line).None? <==> forall p | 0 <= p < |line| :: TimeGroupAt(line, p).None?
  {
    FirstFromSpec(TimeMatches(line), 0, |line|);
    if FirstFrom(TimeMatches(line), 0, |line|).None? {
      forall p | 0 <= p < |line|
        ensures TimeGroupAt(line, p).None?
      {
        assert !TimeMatches(line)(p);
      }
    } else {
      var p := FirstFrom(TimeMatches(line), 0, |line|).value;
      assert TimeMatches(line)(p);
    }
  }

  /** The group of the first position where the pattern matches is the
      time text. */
  lemma {:induction false} TimeFieldFirst(line: string, p: nat)
    requires p < |line| && TimeGroupAt(line, p).Some?
    requires forall q | 0 <= q < p :: TimeGroupAt(line, q).None?
    ensures var (m, e) := TimeGroupAt(line, p).value;
      m <= e <= |line| && TimeField(line) == Some(line[m..e])
  {
    forall q | 0 <= q < p
      ensures !TimeMatches(line)(q)
    {
    }
    FirstFromAt(TimeMatches(line), 0, |line|, p);
  }

  /** A line that holds no "t" has no time field. */
  lemma {:induction false} NoTimeWord(line: string)
    requires forall x | 0 <= x < |line| :: line[x] != 't'
    ensures TimeField(line) == None
  {
    forall p | 0 <= p < |line|
      ensures !TimeMatches(line)(p)
    {
      var j := SpaceRunEnd(line, p);
      assert !TimeWordAt(line, j);
    }
    FirstFromSpec(TimeMatches(line), 0, |line|);
  }

  /** In a stats line such as "size=  1kB time=00:00:05.00 bitrate=...",
      the time text is what follows "time=", up to the next whitespace,
      whatever precedes it as long as no 't' does. */
  lemma {:induction false} TimeFieldOfStats(pre: string, text: string, rest: string)
    requires forall x | 0 <= x < |pre| :: pre[x] != 't'
    requires text != [] && forall x | 0 <= x < |text| :: !IsSpace(text[x])
    requires rest == [] || IsSpace(rest[0])
    ensures TimeField(pre + "time=" + text + rest) == Some(text)
  {
    var s := pre + "time=" + text + rest;
    var p := |pre|;
    var e := p + 5 + |text|;
    assert forall x | 0 <= x < p :: s[x] == pre[x];
    assert forall x | p + 5 <= x < e :: s[x] == text[x - p - 5];
    assert TimeWordAt(s, p) && s[p + 4] == '=';
    assert WordRunEnd(s, p + 5) == e by {
      WordRunEndUntil(s, p + 5, e);
    }
    assert TimeGroupAt(s, p) == Some((p + 5, e));
    TimeFieldAt(s, p);
    assert s[p + 5..e] == text;
  }

  /** When no 't' comes before a position where the pattern matches, the
      group found there is the time text: an earlier match can only start
      in the whitespace just before it. */
  lemma {:induction false} TimeFieldAt(s: string, p: nat)
    requires p < |s| && TimeGroupAt(s, p).Some?
    requires forall x | 0 <= x < p :: s[x] != 't'
    ensures var (m, e) := TimeGroupAt(s, p).value;
      m <= e <= |s| && TimeField(s) == Some(s[m..e])
  {
    assert TimeMatches(s)(p);
    FirstFromSpec(TimeMatches(s), 0, |s|);
    var q := FirstFrom(TimeMatches(s), 0, |s|).value;
    assert TimeMatches(s)(q);
    assert TimeGroupAt(s, q) == TimeGroupAt(s, p) by {
      SameGroup(s, q, p);
    }
  }

  /** Two matches with no 't' before the later one find the same group. */
  lemma {:induction false} SameGroup(s: string, q: nat, p: nat)
    requires q <= p < |s| && TimeGroupAt(s, q).Some? && TimeGroupAt(s, p).Some?
    requires forall x | 0 <= x < p :: s[x] != 't'
    ensures TimeGroupAt(s, q) == TimeGroupAt(s, p)
  {
    var j := SpaceRunEnd(s, q);
    assert s[j] == 't';
    SpaceRunEndInside(s, q, p);
  }

  /** Starting later inside the same run of whitespace ends the run at the
      same place. */
  lemma {:induction false} SpaceRunEndInside(s: string, q: nat, p: nat)
    requires q <= |s| && q <= p <= SpaceRunEnd(s, q)
    ensures SpaceRunEnd(s, p) == SpaceRunEnd(s, q)
    decreases p - q
  {
    if q < p {
      SpaceRunEndInside(s, q + 1, p);
    }
  }

  /** A run of non-whitespace from `i` followed by whitespace or the end
      ends there. */
  lemma {:induction false} WordRunEndUntil(s: string, i: nat, e: nat)
    requires i <= e <= |s|
    requires forall k | i <= k < e :: !IsSpace(s[k])
    requires e < |s| ==> IsSpace(s[e])
    ensures WordRunEnd(s, i) == e
    decreases e - i
  {
    if i < e {
      WordRunEndUntil(s, i + 1, e);
    }
  }

  /** What one line of ffmpeg's output says: no time, a time that reads as
      seconds, or a time text that `_ts_from_time` rejects. */
  datatype Stat = NoTime | Time(seconds: real) | BadTime(text: string)

  function StatOf(line: string): Stat {
    match TimeField(line)
    case None => NoTime
    case Some(t) =>
      match ParseTime(t)
      case None => BadTime(t)
      case Some(v) => Time(v)
  }

  function Stats(lines: seq<string>): (r: seq<Stat>)
    ensures |r| == |lines|
  {
    seq(|lines|, i requires 0 <= i < |lines| => StatOf(lines[i]))
  }

  /** The state of the loop: `_progress_time`, the advances given to the
      bar so far, and the time text whose ValueError ended the loop. */
  datatype Outcome = Outcome(cursor: real, advances: seq<real>, failure: Option<string>)

  /** The loop over the lines, as a fold: a time strictly past the cursor
      moves it there and advances the bar by the difference; a time text
      that does not read stops everything. */
  function Follow(stats: seq<Stat>): Outcome {
    if stats == [] then Outcome(0.0, [], None)
    else Step(Follow(stats[..|stats| - 1]), stats[|stats| - 1])
  }

  /** One line of the loop. */
  function Step(o: Outcome, s: Stat): Outcome {
    if o.failure.Some? then o
    else
      match s
      case NoTime => o
      case BadTime(t) => o.(failure := Some(t))
      case Time(v) =>
        if v - o.cursor > 0.0 then Outcome(v, o.advances + [v - o.cursor], None) else o
  }

  lemma {:induction false} FollowPrefix(stats: seq<Stat>, i: nat)
    requires i < |stats|
    ensures Follow(stats[..i + 1]) == Step(Follow(stats[..i]), stats[i])
  {
    assert stats[..i + 1][..i] == stats[..i];
  }

  /** The progress loop of `encode`, over the lines ffmpeg printed. With
      progress off every line is skipped. */
  method FollowProgress(lines: seq<string>, progress: bool) returns (o: Outcome)
    ensures o == (if progress then Follow(Stats(lines)) else Outcome(0.0, [], None))
  {
    ghost var stats := Stats(lines);
    var cursor := 0.0;
    var advances: seq<real> := [];
    for i := 0 to |lines|
      invariant progress ==> Follow(stats[..i]) == Outcome(cursor, advances, None)
      invariant !progress ==> cursor == 0.0 && advances == []
    {
      if !progress {
        continue;
      }
      FollowPrefix(stats, i);
      var m := TimeField(lines[i]);
      if m.Some? {
        var t := TsFromTime(m.value);
        if t.None? {
          assert stats[i] == BadTime(m.value);
          FailureStays(stats, i + 1);
          assert stats[..|stats|] == stats;
          return Outcome(cursor, advances, Some(m.value));
        }
        var delta := t.value - cursor;
        if delta > 0.0 {
          cursor := t.value;
          advances := advances + [delta];
        }
      }
    }
    assert stats[..|lines|] == stats;
    return Outcome(cursor, advances, None);
  }

  /** Once a time has failed to read, later lines change nothing. */
  lemma {:induction false} FailureStays(stats: seq<Stat>, i: nat)
    requires i <= |stats|
    requires Follow(stats[..i]).failure.Some?
    ensures Follow(stats) == Follow(stats[..i])
    decreases |stats| - i
  {
    if i < |stats| {
      var init := stats[..|stats| - 1];
      assert init[..i] == stats[..i];
      FailureStays(init, i);
    } else {
      assert stats[..i] == stats;
    }
  }

  /** Whether some line holds a time text that does not read. */
  predicate HasBad(stats: seq<Stat>) {
    exists k | 0 <= k < |stats| :: stats[k].BadTime?
  }

  /** The loop fails exactly when some line's time does not read. */
  lemma {:induction false} FailureIffBad(stats: seq<Stat>)
    ensures Follow(stats).failure.Some? <==> HasBad(stats)
  {
    if stats != [] {
      var init := stats[..|stats| - 1];
      FailureIffBad(init);
      assert forall x | 0 <= x < |init| :: init[x] == stats[x];
      if HasBad(init) {
        var k :| 0 <= k < |init| && init[k].BadTime?;
        assert stats[k] == init[k];
      }
      if HasBad(stats) && !HasBad(init) {
        var k :| 0 <= k < |stats| && stats[k].BadTime?;
        assert k == |init|;
      }
    }
  }

  /** The times read before the loop stopped, in order. */
  function Read(stats: seq<Stat>): seq<real> {
    if stats == [] then []
    else if HasBad(stats[..|stats| - 1]) then Read(stats[..|stats| - 1])
    else
      match stats[|stats| - 1]
      case Time(v) => Read(stats[..|stats| - 1]) + [v]
      case _ => Read(stats[..|stats| - 1])
  }

  /** The cursor ends at the largest time read, or at 0 when none is
      positive: it is at least 0 and every time read, and is 0 or one of
      them. */
  lemma {:induction false} CursorIsMax(stats: seq<Stat>)
    ensures var o := Follow(stats);
      && o.cursor >= 0.0
      && (forall k | 0 <= k < |Read(stats)| :: Read(stats)[k] <= o.cursor)
      && (o.cursor == 0.0 || exists k | 0 <= k < |Read(stats)| :: Read(stats)[k] == o.cursor)
  {
    if stats != [] {
      var init := stats[..|stats| - 1];
      CursorIsMax(init);
      FailureIffBad(init);
      var o := Follow(init);
      var r := Read(init);
      if !HasBad(init) && stats[|stats| - 1].Time? {
        var v := stats[|stats| - 1].seconds;
        assert Read(stats) == r + [v];
        if o.cursor == 0.0 {
        } else {
          var k :| 0 <= k < |r| && r[k] == o.cursor;
          assert Read(stats)[k] == o.cursor;
        }
        assert Read(stats)[|r|] == v;
      } else {
        assert Read(stats) == r;
      }
    }
  }

  /** Every advance given to the bar is positive. */
  lemma {:induction false} AdvancesPositive(stats: seq<Stat>)
    ensures forall k | 0 <= k < |Follow(stats).advances| :: Follow(stats).advances[k] > 0.0
  {
    if stats != [] {
      AdvancesPositive(stats[..|stats| - 1]);
    }
  }

  function Sum(xs: seq<real>): real {
    if xs == [] then 0.0 else Sum(xs[..|xs| - 1]) + xs[|xs| - 1]
  }

  /** The advances add up to the final cursor: the bar ends where the
      cursor does. */
  lemma {:induction false} AdvancesSum(stats: seq<Stat>)
    ensures Sum(Follow(stats).advances) == Follow(stats).cursor
  {
    if stats != [] {
      var init := stats[..|stats| - 1];
      AdvancesSum(init);
      var o := Follow(init);
      if o.failure.None? && stats[|stats| - 1].Time? {
        var v := stats[|stats| - 1].seconds;
        if v - o.cursor > 0.0 {
          var xs := o.advances + [v - o.cursor];
          assert xs[..|xs| - 1] == o.advances;
        }
      }
    }
  }

  /** The cursor never moves back: after more lines it is at least where
      it was. */
  lemma {:induction false} CursorMonotone(stats: seq<Stat>, i: nat)
    requires i <= |stats|
    ensures Follow(stats[..i]).cursor <= Follow(stats).cursor
    decreases |stats| - i
  {
    if i < |stats| {
      var init := stats[..|stats| - 1];
      assert init[..i] == stats[..i];
      CursorMonotone(init, i);
    } else {
      assert stats[..i] == stats;
    }
  }
}
