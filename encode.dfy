/** `encode`: the argument lists of the two programs the script pipes
    together, opusenc (tags, chapter comments, cover) and ffmpeg (inputs
    and the filter graph), built from the folder's record. Starting the
    programs is not modelled; the noise model's path is given. */
module Encode {
  import opened Wrappers
  import opened Text
  import opened Timestamps
  import opened Patterns
  import opened Probe
  import opened Folder

  /** The speed option: a value below -99 is replaced by -50 (the script's
      warning speaks of -99). */
  function ClampSpeed(speed: int): (r: int)
    ensures r >= -99
    ensures speed >= -99 ==> r == speed
    ensures speed < -99 ==> r == -50
    ensures r == 0 <==> speed == 0
  {
    if speed < -99 then -50 else speed
  }

  /** `speed_float`: the playback rate 1 + speed / 100, never below 0.01,
      and 1 only for speed 0. */
  function SpeedFactor(speed: int): (f: real)
    ensures f >= 0.01
    ensures f == 1.0 <==> speed == 0
  {
    1.0 + ClampSpeed(speed) as real / 100.0
  }

  /** `len(name) and name[0].isspace()`: an indented sub-chapter. */
  predicate Indented(name: string) {
    |name| > 0 && IsSpace(name[0])
  }

  /** Whether the chapter loop drops a chapter named `name` when the last
      chapter it kept was named `prev`: indented, ending in a "(HH:MM)"
      stamp, or repeating the last kept name. */
  predicate Dropped(name: string, prev: Option<string>) {
    Indented(name) || SearchStamp(name) || prev == Some(name)
  }

  /** A chapter the loop keeps whatever came before: neither indented nor
      stamped. */
  predicate Clean(c: Chapter) {
    !Indented(c.name) && !SearchStamp(c.name)
  }

  /** Chapter `j` is the last clean one among the first `n`. */
  predicate LastCleanBefore(chapters: seq<Chapter>, n: nat, j: int)
    requires n <= |chapters|
  {
    0 <= j < n && Clean(chapters[j]) && forall k | j < k < n :: !Clean(chapters[k])
  }

  /** The rule of the chapter loop stated on the input alone: chapter `i`
      is kept iff it is clean and the nearest clean chapter before it, if
      any, has another name. */
  predicate NewName(chapters: seq<Chapter>, i: nat)
    requires i < |chapters|
  {
    Clean(chapters[i]) && forall j | 0 <= j < i && LastCleanBefore(chapters, i, j) :: chapters[j].name != chapters[i].name
  }

  /** `prev_name`: the name of the last chapter kept. */
  function LastName(kept: seq<Chapter>): Option<string> {
    if kept == [] then None else Some(kept[|kept| - 1].name)
  }

  /** The chapters kept with sub-chapters off, in order. */
  function Kept(chapters: seq<Chapter>): seq<Chapter> {
    if chapters == [] then []
    else
      var kept := Kept(chapters[..|chapters| - 1]);
      var c := chapters[|chapters| - 1];
      if Dropped(c.name, LastName(kept)) then kept else kept + [c]
  }

  /** The chapters written: all of them with sub-chapters on. */
  function Selected(chapters: seq<Chapter>, subchapters: bool): seq<Chapter> {
    if subchapters then chapters else Kept(chapters)
  }

  /** `'CHAPTER%02d' % n`. */
  function ChapterKey(n: nat): string {
    "CHAPTER" + FormatInt(n, 2)
  }

  /** The two comments of the `n`-th chapter written: its start, scaled to
      the new speed, and its name. */
  function ChapterComments(n: nat, c: Chapter, speed: int): seq<string> {
    ["--comment", ChapterKey(n) + "=" + Time2Str(c.time / SpeedFactor(speed), 3),
     "--comment", ChapterKey(n) + "NAME=" + c.name]
  }

  /** The comments of the chapters written, numbered from 1. */
  function CommentsOf(chapters: seq<Chapter>, speed: int): seq<string> {
    if chapters == [] then []
    else CommentsOf(chapters[..|chapters| - 1], speed) + ChapterComments(|chapters|, chapters[|chapters| - 1], speed)
  }

  /** The fixed options and the tags of the opusenc command. */
  function OpusHead(meta: FolderMeta, bitrate: int): seq<string> {
    ["opusenc", "--quiet", "--ignorelength", "--framesize", "60", "--downmix-mono", "--comp", "10", "--vbr",
     "--bitrate", Str(bitrate), "--speech",
     "--title", meta.title, "--artist", meta.artist, "--album", meta.album, "--genre", meta.genre,
     "--comment", "description=" + meta.comment,
     "--comment", "publisher=" + meta.publisher,
     "--comment", "copyright=" + meta.copyright]
  }

  function PictureArgs(image: Option<FileEntry>): seq<string> {
    match image
    case Some(f) => ["--picture", f.path]
    case None => []
  }

  /** The whole opusenc command: reading from standard input, writing `opus`. */
  function OpusParams(meta: FolderMeta, bitrate: int, subchapters: bool, speed: int, opus: string): seq<string> {
    OpusHead(meta, bitrate) + CommentsOf(Selected(meta.chapters, subchapters), speed)
    + PictureArgs(meta.image) + ["-", opus]
  }

  /** The opusenc command as `encode` builds it: the tags, the chapter
      loop, the cover, and the input and output. */
  method OpusArgs(meta: FolderMeta, bitrate: int, subchapters: bool, speed: int, opus: string)
    returns (params: seq<string>)
    ensures params == OpusParams(meta, bitrate, subchapters, speed, opus)
  {
    params := OpusHead(meta, bitrate);
    params := AddChapters(params, meta.chapters, subchapters, speed);
    params := params + PictureArgs(meta.image) + ["-", opus];
  }

  /** The chapter loop of `encode`, adding to `start` the comments of each
      chapter it keeps, with a counter and the last kept name. */
  method AddChapters(start: seq<string>, chapters: seq<Chapter>, subchapters: bool, speed: int)
    returns (params: seq<string>)
    ensures params == start + CommentsOf(Selected(chapters, subchapters), speed)
  {
    params := start;
    var chapterN := 0;
    var prevName: Option<string> := None;
    ghost var kept: seq<Chapter> := [];
    for i := 0 to |chapters|
      invariant kept == Selected(chapters[..i], subchapters)
      invariant chapterN == |kept|
      invariant !subchapters ==> prevName == LastName(kept)
      invariant params == start + CommentsOf(kept, speed)
    {
      var c := chapters[i];
      SelectedStep(chapters, i, subchapters);
      if !subchapters {
        assert StampSuffix(c.name) <==> SearchStamp(c.name) by {
          StampSuffixIsSearch(c.name);
        }
        if |c.name| > 0 && IsSpace(c.name[0]) {
          continue;
        } else if StampSuffix(c.name) {
          continue;
        } else if prevName.Some? && prevName.value == c.name {
          continue;
        }
      }
      chapterN := chapterN + 1;
      CommentsSnoc(kept, c, speed);
      Associative(start, CommentsOf(kept, speed), ChapterComments(chapterN, c, speed));
      params := params + ChapterComments(chapterN, c, speed);
      prevName := Some(c.name);
      kept := kept + [c];
    }
    assert chapters[..|chapters|] == chapters;
  }

  /** One more chapter read: kept unless it is dropped. */
  lemma {:induction false} SelectedStep(chapters: seq<Chapter>, i: nat, subchapters: bool)
    requires i < |chapters|
    ensures var before := Selected(chapters[..i], subchapters);
      var c := chapters[i];
      Selected(chapters[..i + 1], subchapters) ==
        if !subchapters && Dropped(c.name, LastName(before)) then before else before + [c]
  {
    assert chapters[..i + 1][..i] == chapters[..i];
  }

  /** One more chapter written adds its two comments, numbered next. */
  lemma {:induction false} CommentsSnoc(chapters: seq<Chapter>, c: Chapter, speed: int)
    ensures CommentsOf(chapters + [c], speed) == CommentsOf(chapters, speed) + ChapterComments(|chapters| + 1, c, speed)
  {
    assert (chapters + [c])[..|chapters|] == chapters;
  }

  /** The kept chapters are chapters of the input, none indented or
      stamped, and no two in a row share a name. */
  lemma {:induction false} KeptClean(chapters: seq<Chapter>)
    ensures var k := Kept(chapters);
      && |k| <= |chapters|
      && (forall c | c in k :: c in chapters)
      && (forall i | 0 <= i < |k| :: !Indented(k[i].name) && !SearchStamp(k[i].name))
      && (forall i | 0 < i < |k| :: k[i - 1].name != k[i].name)
  {
    if chapters != [] {
      var init := chapters[..|chapters| - 1];
      KeptClean(init);
      assert chapters == init + [chapters[|chapters| - 1]];
    }
  }

  /** No name is lost that is neither indented nor stamped: a chapter
      dropped for repeating a name leaves that name among the kept ones. */
  lemma {:induction false} KeptNames(chapters: seq<Chapter>, i: nat)
    requires i < |chapters| && !Indented(chapters[i].name) && !SearchStamp(chapters[i].name)
    ensures exists j | 0 <= j < |Kept(chapters)| :: Kept(chapters)[j].name == chapters[i].name
  {
    var n := |chapters|;
    var init := chapters[..n - 1];
    var kept := Kept(init);
    if i < n - 1 {
      assert init[i] == chapters[i];
      KeptNames(init, i);
      var j :| 0 <= j < |kept| && kept[j].name == chapters[i].name;
      assert Kept(chapters)[j] == kept[j];
    } else if LastName(kept) == Some(chapters[i].name) {
      assert Kept(chapters)[|kept| - 1].name == chapters[i].name;
    } else {
      assert Kept(chapters)[|kept|].name == chapters[i].name;
    }
  }

  /** Clean chapters are all kept. */
  lemma {:induction false} CleanKept(chapters: seq<Chapter>)
    requires forall i | 0 <= i < |chapters| :: !Indented(chapters[i].name) && !SearchStamp(chapters[i].name)
    requires forall i | 0 < i < |chapters| :: chapters[i - 1].name != chapters[i].name
    ensures Kept(chapters) == chapters
  {
    if chapters != [] {
      var init := chapters[..|chapters| - 1];
      CleanKept(init);
    }
  }

  /** Filtering the kept chapters again drops nothing. */
  lemma {:induction false} KeptIdempotent(chapters: seq<Chapter>)
    ensures Kept(Kept(chapters)) == Kept(chapters)
  {
    KeptClean(chapters);
    CleanKept(Kept(chapters));
  }

  /** `prev_name` after the first `n` chapters is the name of the last
      clean one among them, and is `None` iff there is none. */
  lemma {:induction false} KeptLast(chapters: seq<Chapter>, n: nat)
    requires n <= |chapters|
    ensures LastName(Kept(chapters[..n])).None? <==> forall j | 0 <= j < n :: !Clean(chapters[j])
    ensures forall j | LastCleanBefore(chapters, n, j) :: LastName(Kept(chapters[..n])) == Some(chapters[j].name)
    ensures LastName(Kept(chapters[..n])).Some? ==> exists j :: LastCleanBefore(chapters, n, j)
  {
    if n > 0 {
      KeptLast(chapters, n - 1);
      assert chapters[..n][..n - 1] == chapters[..n - 1];
      var c := chapters[n - 1];
      if Clean(c) {
        assert LastName(Kept(chapters[..n])) == Some(c.name);
        LastCleanAt(chapters, n - 1, n);
      } else {
        assert Kept(chapters[..n]) == Kept(chapters[..n - 1]);
        LastCleanSkip(chapters, n - 1, n, LastName(Kept(chapters[..n - 1])));
      }
    }
  }

  /** A clean chapter `m` is the last clean one among the first `m + 1`,
      and the only one. */
  lemma {:induction false} LastCleanAt(chapters: seq<Chapter>, m: nat, n: nat)
    requires n == m + 1 && n <= |chapters| && Clean(chapters[m])
    ensures LastCleanBefore(chapters, n, m)
    ensures forall j | LastCleanBefore(chapters, n, j) :: j == m
  {
  }

  /** A chapter that is not clean changes neither the last clean chapter
      nor whether there is one: what `last` is to the first `m` chapters,
      it is to the first `n = m + 1`. */
  lemma {:induction false} LastCleanSkip(chapters: seq<Chapter>, m: nat, n: nat, last: Option<string>)
    requires n == m + 1 && n <= |chapters| && !Clean(chapters[m])
    requires last.None? <==> forall j | 0 <= j < m :: !Clean(chapters[j])
    requires forall j | LastCleanBefore(chapters, m, j) :: last == Some(chapters[j].name)
    requires last.Some? ==> exists j :: LastCleanBefore(chapters, m, j)
    ensures last.None? <==> forall j | 0 <= j < n :: !Clean(chapters[j])
    ensures forall j | LastCleanBefore(chapters, n, j) :: last == Some(chapters[j].name)
    ensures last.Some? ==> exists j :: LastCleanBefore(chapters, n, j)
  {
    forall j | LastCleanBefore(chapters, n, j)
      ensures last == Some(chapters[j].name)
    {
      assert LastCleanBefore(chapters, m, j);
    }
    if last.Some? {
      var j :| LastCleanBefore(chapters, m, j);
      LastCleanExtend(chapters, m, n, j);
    }
  }

  /** The last clean chapter among the first `m` is still the last among
      the first `m + 1` when chapter `m` is not clean. */
  lemma {:induction false} LastCleanExtend(chapters: seq<Chapter>, m: nat, n: nat, j: int)
    requires n == m + 1 && n <= |chapters| && !Clean(chapters[m])
    requires LastCleanBefore(chapters, m, j)
    ensures LastCleanBefore(chapters, n, j)
  {
  }

  /** One more chapter read: it is kept, at the end, iff its name is new in
      the sense of `NewName`. */
  lemma {:induction false} KeptStep(chapters: seq<Chapter>, i: nat)
    requires i < |chapters|
    ensures Kept(chapters[..i + 1]) == if NewName(chapters, i) then Kept(chapters[..i]) + [chapters[i]] else Kept(chapters[..i])
  {
    KeptLast(chapters, i);
    assert chapters[..i + 1][..i] == chapters[..i];
    if LastName(Kept(chapters[..i])).Some? {
      var j :| LastCleanBefore(chapters, i, j);
    }
  }

  /** The kept chapters are the chapters with a new name, in their input
      order: each lands at the place the chapters before it had reached,
      places grow strictly from one kept chapter to a later one, and every
      place holds such a chapter. */
  lemma {:induction false} KeptPlaces(chapters: seq<Chapter>)
    ensures forall i | 0 <= i < |chapters| && NewName(chapters, i) ::
      |Kept(chapters[..i])| < |Kept(chapters)| && Kept(chapters)[|Kept(chapters[..i])|] == chapters[i]
    ensures forall i, j | 0 <= i < j <= |chapters| && NewName(chapters, i) :: |Kept(chapters[..i])| < |Kept(chapters[..j])|
    ensures forall k | 0 <= k < |Kept(chapters)| :: KeptFrom(chapters, k)
  {
    var n := |chapters|;
    var keep := seq(n, i requires 0 <= i < n => NewName(chapters, i));
    var outs := seq(n + 1, i requires 0 <= i <= n => Kept(chapters[..i]));
    KeptRun(chapters, keep, outs);
    FilterPlaces(chapters, keep, outs);
    forall i | 0 <= i < n && NewName(chapters, i)
      ensures |Kept(chapters[..i])| < |Kept(chapters)| && Kept(chapters)[|Kept(chapters[..i])|] == chapters[i]
    {
      assert keep[i] && outs[i] == Kept(chapters[..i]);
    }
    forall i, j | 0 <= i < j <= n && NewName(chapters, i)
      ensures |Kept(chapters[..i])| < |Kept(chapters[..j])|
    {
      assert keep[i] && outs[i] == Kept(chapters[..i]) && outs[j] == Kept(chapters[..j]);
    }
    forall k | 0 <= k < |Kept(chapters)|
      ensures KeptFrom(chapters, k)
    {
      assert FilterPlaced(chapters, keep, outs, n, k);
      var i :| 0 <= i < n && keep[i] && |outs[i]| == k && outs[n][k] == chapters[i];
      assert NewName(chapters, i) && |Kept(chapters[..i])| == k && Kept(chapters)[k] == chapters[i];
    }
  }

  /** Place `k` of the kept chapters holds a chapter `i` with a new name,
      placed there when the chapters before it had given `k`. */
  ghost predicate KeptFrom(chapters: seq<Chapter>, k: nat)
    requires k < |Kept(chapters)|
  {
    exists i | 0 <= i < |chapters| && NewName(chapters, i) :: |Kept(chapters[..i])| == k && Kept(chapters)[k] == chapters[i]
  }

  /** The kept prefixes are a run of the filter that keeps new names. */
  lemma {:induction false} KeptRun(chapters: seq<Chapter>, keep: seq<bool>, outs: seq<seq<Chapter>>)
    requires keep == seq(|chapters|, i requires 0 <= i < |chapters| => NewName(chapters, i))
    requires outs == seq(|chapters| + 1, i requires 0 <= i <= |chapters| => Kept(chapters[..i]))
    ensures FilterRun(chapters, keep, outs)
    ensures outs[|chapters|] == Kept(chapters)
  {
    forall i | 0 <= i < |chapters|
      ensures outs[i + 1] == if keep[i] then outs[i] + [chapters[i]] else outs[i]
    {
      KeptStep(chapters, i);
      assert outs[i] == Kept(chapters[..i]) && outs[i + 1] == Kept(chapters[..i + 1]);
      assert keep[i] == NewName(chapters, i);
    }
    assert chapters[..|chapters|] == chapters;
  }

  /** Every chapter written gets exactly two comments, numbered 1, 2, ...
      without gaps: chapter i's start, then its name. */
  lemma {:induction false} CommentsNumbered(chapters: seq<Chapter>, speed: int, i: nat)
    requires i < |chapters|
    ensures |CommentsOf(chapters, speed)| == 4 * |chapters|
    ensures CommentsOf(chapters, speed)[4 * i..4 * i + 4] == ChapterComments(i + 1, chapters[i], speed)
  {
    CommentsLength(chapters, speed);
    if i < |chapters| - 1 {
      var init := chapters[..|chapters| - 1];
      assert init[i] == chapters[i];
      CommentsNumbered(init, speed, i);
      CommentsPrefix(chapters, speed, i);
    } else {
      CommentsLast(chapters, speed);
    }
  }

  /** The comments of the chapters before the last are a prefix. */
  lemma {:induction false} CommentsPrefix(chapters: seq<Chapter>, speed: int, i: nat)
    requires i < |chapters| - 1
    ensures |CommentsOf(chapters[..|chapters| - 1], speed)| == 4 * (|chapters| - 1)
    ensures CommentsOf(chapters, speed)[4 * i..4 * i + 4] == CommentsOf(chapters[..|chapters| - 1], speed)[4 * i..4 * i + 4]
  {
    var a := CommentsOf(chapters[..|chapters| - 1], speed);
    var b := ChapterComments(|chapters|, chapters[|chapters| - 1], speed);
    CommentsLength(chapters[..|chapters| - 1], speed);
    assert CommentsOf(chapters, speed) == a + b;
    SliceOfConcat(a, b, 4 * i, 4 * i + 4);
  }

  /** The last four comments are the last chapter's. */
  lemma {:induction false} CommentsLast(chapters: seq<Chapter>, speed: int)
    requires chapters != []
    ensures |CommentsOf(chapters, speed)| == 4 * |chapters|
    ensures CommentsOf(chapters, speed)[4 * (|chapters| - 1)..4 * |chapters|]
      == ChapterComments(|chapters|, chapters[|chapters| - 1], speed)
  {
    var a := CommentsOf(chapters[..|chapters| - 1], speed);
    var b := ChapterComments(|chapters|, chapters[|chapters| - 1], speed);
    CommentsLength(chapters[..|chapters| - 1], speed);
    assert CommentsOf(chapters, speed) == a + b;
    LastBlock(a, b, |chapters|);
  }

  /** After 4(n-1) items, four more are the n-th block of four. */
  lemma {:induction false} LastBlock<T>(a: seq<T>, b: seq<T>, n: nat)
    requires n >= 1 && |a| == 4 * (n - 1) && |b| == 4
    ensures (a + b)[4 * (n - 1)..4 * n] == b
  {
    assert (a + b)[|a|..] == b;
  }

  lemma {:induction false} CommentsLength(chapters: seq<Chapter>, speed: int)
    ensures |CommentsOf(chapters, speed)| == 4 * |chapters|
  {
    if chapters != [] {
      CommentsLength(chapters[..|chapters| - 1], speed);
    }
  }

  /** `%02d` is a minimum width: the 100th chapter is "CHAPTER100", and
      every chapter number reads back from its key. */
  lemma {:induction false} ChapterKeys(n: nat)
    ensures ChapterKey(100) == "CHAPTER100"
    ensures ParseInt(ChapterKey(n)[7..]) == Some(n)
  {
    assert Decimal(100) == "100" by {
      assert Decimal(1) == "1";
      assert Decimal(10) == "10";
    }
    assert ChapterKey(n)[7..] == FormatInt(n, 2);
    IntRoundTrip(n, 2);
  }

  /** `max(0, min(100, normalize))`. */
  function ClampPercent(n: int): (r: int)
    ensures 0 <= r <= 100
    ensures 0 <= n <= 100 ==> r == n
  {
    if n > 100 then 100 else if n < 0 then 0 else n
  }

  /** `str(n / 100.0)` for n in 0..100: the shortest decimal that reads back
      as the quotient, "0.0", "0.07", "0.5", "1.0". */
  function PeakText(n: int): (r: string)
    requires 0 <= n <= 100
  {
    if n % 10 == 0 then FixedDigits(n / 10, 1) else FixedDigits(n, 2)
  }

  /** The peak written reads back as the clamped percentage over 100, a
      value between 0 and 1. */
  lemma {:induction false} PeakReadsBack(n: int)
    ensures var p := ClampPercent(n);
      && ParseFloat(PeakText(p)) == Some(p as real / 100.0)
      && 0.0 <= p as real / 100.0 <= 1.0
  {
    var p := ClampPercent(n);
    var x := p as real / 100.0;
    PeakText100(p, PeakText(p), x);
    PercentUnit(p, x);
  }

  /** A percentage over 100 lies between 0 and 1. */
  lemma {:induction false} PercentUnit(p: int, x: real)
    requires 0 <= p <= 100 && x == p as real / 100.0
    ensures 0.0 <= x <= 1.0
  {
  }

  /** The text of a percentage `p` reads back as `x`, which is `p / 100`. */
  lemma {:induction false} PeakText100(p: int, t: string, x: real)
    requires 0 <= p <= 100 && t == PeakText(p) && x == p as real / 100.0
    ensures ParseFloat(t) == Some(x)
  {
    if p % 10 == 0 {
      PeakTenths(p / 10, p, t, x);
    } else {
      PeakHundredths(p, t, x);
    }
  }

  /** A multiple of ten percent is written with one decimal. */
  lemma {:induction false} PeakTenths(k: nat, p: int, t: string, x: real)
    requires p == 10 * k && t == FixedDigits(k, 1) && x == p as real / 100.0
    ensures ParseFloat(t) == Some(x)
  {
    assert x == Shifted(k, 1) by {
      ShiftedOneTwo(k);
      assert p as real == 10.0 * k as real;
    }
    FloatOfFixedDigits(k, 1, x);
  }

  /** Any other percentage is written with two decimals. */
  lemma {:induction false} PeakHundredths(p: nat, t: string, x: real)
    requires t == FixedDigits(p, 2) && x == p as real / 100.0
    ensures ParseFloat(t) == Some(x)
  {
    assert x == Shifted(p, 2) by {
      ShiftedOneTwo(p);
    }
    FloatOfFixedDigits(p, 2, x);
  }

  /** `'%f' % speed_float` reads back as the speed factor. */
  lemma {:induction false} AtempoReadsBack(speed: int)
    ensures ParseFloat(FormatFixed(SpeedFactor(speed), 6, 0)) == Some(SpeedFactor(speed))
  {
    var m := (100 + ClampSpeed(speed)) * 10000;
    assert SpeedFactor(speed) == Shifted(m, 6) by {
      assert Shifted(m, 1) == m as real / 10.0;
      assert Shifted(m, 2) == m as real / 100.0;
      assert Shifted(m, 3) == m as real / 1000.0;
      assert Shifted(m, 4) == m as real / 10000.0;
      assert Shifted(m, 5) == m as real / 100000.0;
      assert Shifted(m, 6) == m as real / 1000000.0;
    }
    FloatOfFormatFixed(m, 6, 0);
  }

  /** `[0:a][1:a]...[n-1:a]`, the audio of every input. */
  function InputLabels(n: nat): string {
    if n == 0 then "" else InputLabels(n - 1) + Label(n - 1)
  }

  /** `f"[{n}:a]"`: the audio stream of input `n`. */
  function Label(n: nat): string {
    "[" + Str(n) + ":a]"
  }

  /** `-i <file>` for every file, in order. */
  function InputArgs(files: seq<Track>): seq<string> {
    if files == [] then []
    else InputArgs(files[..|files| - 1]) + ["-i", files[|files| - 1].file]
  }

  /** The filter graph: the inputs concatenated, then the voice isolation
      when a noise model is given, the loudness normalisation when a
      target is given, the tempo change when the speed is not 0, and the
      caller's filter last. */
  function FilterGraph(count: nat, noise: Option<string>, normalize: Option<int>, speed: int,
                       af: Option<string>): string
  {
    InputLabels(count) + ConcatStage(count) + NoiseStage(noise) + NormalizeStage(normalize)
    + TempoStage(speed) + UserStage(af)
  }

  function ConcatStage(count: nat): string {
    "concat=n=" + Str(count) + ":v=0:a=1"
  }

  function NoiseStage(noise: Option<string>): string {
    match noise
    case Some(m) => ",arnndn=m=" + m
    case None => ""
  }

  /** The "widest" loudness normalisation, its peak the clamped target. */
  function NormalizeStage(normalize: Option<int>): string {
    match normalize
    case Some(n) => ",dynaudnorm=peak=" + PeakText(ClampPercent(n)) + ":framelen=8000:gausssize=301:correctdc=1"
    case None => ""
  }

  function TempoStage(speed: int): string {
    if ClampSpeed(speed) != 0 then ",atempo=" + FormatFixed(SpeedFactor(speed), 6, 0) else ""
  }

  function UserStage(af: Option<string>): string {
    match af
    case Some(a) => "," + a
    case None => ""
  }

  const FfmpegHead: seq<string> := ["ffmpeg", "-loglevel", "quiet", "-hide_banner", "-stats", "-stats_period", "1"]

  /** The ffmpeg command: the inputs, the filter graph, and 16-bit WAV on
      standard output. */
  function FfmpegParams(files: seq<Track>, noise: Option<string>, normalize: Option<int>, speed: int,
                        af: Option<string>): seq<string>
  {
    FfmpegHead + InputArgs(files)
    + ["-filter_complex", FilterGraph(|files|, noise, normalize, speed, af), "-f", "wav", "-acodec", "pcm_s16le", "-"]
  }

  /** The ffmpeg command as `encode` builds it: one loop adding each
      input and its label, then the filter stages in turn. */
  method FfmpegArgs(files: seq<Track>, noise: Option<string>, normalize: Option<int>, speed: int,
                    af: Option<string>) returns (params: seq<string>)
    ensures params == FfmpegParams(files, noise, normalize, speed, af)
  {
    var labels;
    params, labels := AddInputs(FfmpegHead, files);
    var filt := AddStages(labels, |files|, noise, normalize, speed, af);
    Associative(FfmpegHead, InputArgs(files), ["-filter_complex", filt, "-f", "wav", "-acodec", "pcm_s16le", "-"]);
    params := params + ["-filter_complex", filt, "-f", "wav", "-acodec", "pcm_s16le", "-"];
  }

  /** The filter stages of `encode` appended in turn to the input labels:
      concat, then each optional stage the options ask for. */
  method AddStages(labels: string, n: nat, noise: Option<string>, normalize: Option<int>, speed: int,
                   af: Option<string>) returns (filt: string)
    requires labels == InputLabels(n)
    ensures filt == FilterGraph(n, noise, normalize, speed, af)
  {
    filt := labels + ConcatStage(n);
    ghost var graph := InputLabels(n) + ConcatStage(n);
    if noise.Some? {
      filt := filt + (",arnndn=m=" + noise.value);
    }
    assert filt == graph + NoiseStage(noise);
    graph := graph + NoiseStage(noise);
    if normalize.Some? {
      var peak := ClampPercent(normalize.value);
      filt := filt + (",dynaudnorm=peak=" + PeakText(peak) + ":framelen=8000:gausssize=301:correctdc=1");
    }
    assert filt == graph + NormalizeStage(normalize);
    graph := graph + NormalizeStage(normalize);
    if ClampSpeed(speed) != 0 {
      filt := filt + (",atempo=" + FormatFixed(SpeedFactor(speed), 6, 0));
    }
    assert filt == graph + TempoStage(speed);
    graph := graph + TempoStage(speed);
    if af.Some? {
      filt := filt + ("," + af.value);
    }
    assert filt == graph + UserStage(af);
    graph := graph + UserStage(af);
  }

  /** The input loop of `encode`: `-i <file>` added to `start` and the
      label `[n:a]` to the filter graph, for each file in turn. */
  method AddInputs(start: seq<string>, files: seq<Track>) returns (params: seq<string>, labels: string)
    ensures params == start + InputArgs(files)
    ensures labels == InputLabels(|files|)
  {
    params := start;
    labels := "";
    var n := 0;
    while n < |files|
      invariant 0 <= n <= |files|
      invariant params == start + InputArgs(files[..n])
      invariant labels == InputLabels(n)
    {
      assert files[..n + 1][..n] == files[..n];
      Associative(start, InputArgs(files[..n]), ["-i", files[n].file]);
      params := params + ["-i", files[n].file];
      labels := labels + Label(n);
      n := n + 1;
    }
    assert files[..n] == files;
  }

  /** Every input file appears as `-i <file>`, in track order. */
  lemma {:induction false} InputArgsSpec(files: seq<Track>, i: nat)
    requires i < |files|
    ensures |InputArgs(files)| == 2 * |files|
    ensures InputArgs(files)[2 * i] == "-i" && InputArgs(files)[2 * i + 1] == files[i].file
  {
    var n := |files|;
    var init := files[..n - 1];
    InputArgsLength(init);
    if i < n - 1 {
      assert init[i] == files[i];
      InputArgsSpec(init, i);
    }
  }

  lemma {:induction false} InputArgsLength(files: seq<Track>)
    ensures |InputArgs(files)| == 2 * |files|
  {
    if files != [] {
      InputArgsLength(files[..|files| - 1]);
    }
  }

  /** Why `encode` stops before starting any program. */
  datatype EncodeError = NoInput // FileNotFoundError: no mp3 files

  /** The two commands, and the progress bar's total: the book's duration
      at the new speed. */
  datatype Commands = Commands(opusenc: seq<string>, ffmpeg: seq<string>, total: real)

  /** What `encode` sets up for a folder's record. */
  function EncodePlan(meta: FolderMeta, opus: string, bitrate: int, subchapters: bool, af: Option<string>,
                      speed: int, normalize: Option<int>, noise: Option<string>): Result<Commands, EncodeError>
  {
    if |meta.files| == 0 then Err(NoInput)
    else Ok(Commands(OpusParams(meta, bitrate, subchapters, speed, opus),
                     FfmpegParams(meta.files, noise, normalize, speed, af),
                     meta.duration / SpeedFactor(speed)))
  }

  /** `encode` up to starting the programs. */
  method Encode(meta: FolderMeta, opus: string, bitrate: int, subchapters: bool, af: Option<string>,
                speed: int, normalize: Option<int>, noise: Option<string>) returns (r: Result<Commands, EncodeError>)
    ensures r == EncodePlan(meta, opus, bitrate, subchapters, af, speed, normalize, noise)
  {
    var speedFloat := SpeedFactor(speed);
    if |meta.files| == 0 {
      return Err(NoInput);
    }
    var opusParams := OpusArgs(meta, bitrate, subchapters, speed, opus);
    var ffmpegParams := FfmpegArgs(meta.files, noise, normalize, speed, af);
    return Ok(Commands(opusParams, ffmpegParams, meta.duration / speedFloat));
  }

  /** A folder with files gets both commands. The opusenc command gives
      the chapter written i-th the start "CHAPTERnn=" its time divided by
      `speed_float`, and the progress total is the duration divided by the
      same factor: a chapter that starts within the book starts within the
      progress total. */
  lemma {:induction false} ScaledWithinTotal(meta: FolderMeta, opus: string, bitrate: int, subchapters: bool,
                                             af: Option<string>, speed: int, normalize: Option<int>,
                                             noise: Option<string>)
    requires |meta.files| > 0
    ensures EncodePlan(meta, opus, bitrate, subchapters, af, speed, normalize, noise).Ok?
    ensures var c := EncodePlan(meta, opus, bitrate, subchapters, af, speed, normalize, noise).value;
      var chapters := Selected(meta.chapters, subchapters);
      forall i | 0 <= i < |chapters| ::
        && |OpusHead(meta, bitrate)| + 4 * i + 1 < |c.opusenc|
        && c.opusenc[|OpusHead(meta, bitrate)| + 4 * i + 1]
           == ChapterKey(i + 1) + "=" + Time2Str(chapters[i].time / SpeedFactor(speed), 3)
        && (0.0 <= chapters[i].time <= meta.duration ==> 0.0 <= chapters[i].time / SpeedFactor(speed) <= c.total)
  {
    PlanParts(meta, opus, bitrate, subchapters, af, speed, normalize, noise);
    StartsOf(EncodePlan(meta, opus, bitrate, subchapters, af, speed, normalize, noise).value,
             OpusHead(meta, bitrate), Selected(meta.chapters, subchapters),
             PictureArgs(meta.image) + ["-", opus], speed, meta.duration);
  }

  /** `ChapterStart` for every chapter written. */
  lemma {:induction false} StartsOf(c: Commands, head: seq<string>, chapters: seq<Chapter>, tail: seq<string>,
                                    speed: int, duration: real)
    requires c.opusenc == head + CommentsOf(chapters, speed) + tail && c.total == duration / SpeedFactor(speed)
    ensures forall i | 0 <= i < |chapters| ::
      && |head| + 4 * i + 1 < |c.opusenc|
      && c.opusenc[|head| + 4 * i + 1] == ChapterKey(i + 1) + "=" + Time2Str(chapters[i].time / SpeedFactor(speed), 3)
      && (0.0 <= chapters[i].time <= duration ==> 0.0 <= chapters[i].time / SpeedFactor(speed) <= c.total)
  {
    forall i | 0 <= i < |chapters|
      ensures |head| + 4 * i + 1 < |c.opusenc|
      ensures c.opusenc[|head| + 4 * i + 1] == ChapterKey(i + 1) + "=" + Time2Str(chapters[i].time / SpeedFactor(speed), 3)
      ensures 0.0 <= chapters[i].time <= duration ==> 0.0 <= chapters[i].time / SpeedFactor(speed) <= c.total
    {
      ChapterStart(c.opusenc, c.total, head, chapters, tail, speed, duration, i);
    }
  }

  /** In a command made of a head, the chapter comments and a tail, item
      4i + 1 after the head is chapter i's scaled start; a start within
      the duration is within the scaled duration. */
  lemma {:induction false} ChapterStart(params: seq<string>, total: real, head: seq<string>, chapters: seq<Chapter>,
                                        tail: seq<string>, speed: int, duration: real, i: nat)
    requires params == head + CommentsOf(chapters, speed) + tail && total == duration / SpeedFactor(speed)
    requires i < |chapters|
    ensures |head| + 4 * i + 1 < |params|
    ensures params[|head| + 4 * i + 1] == ChapterKey(i + 1) + "=" + Time2Str(chapters[i].time / SpeedFactor(speed), 3)
    ensures 0.0 <= chapters[i].time <= duration ==> 0.0 <= chapters[i].time / SpeedFactor(speed) <= total
  {
    ChapterStartAt(head, chapters, speed, tail, i);
    assert ChapterComments(i + 1, chapters[i], speed)[1]
      == ChapterKey(i + 1) + "=" + Time2Str(chapters[i].time / SpeedFactor(speed), 3);
    if 0.0 <= chapters[i].time <= duration {
      ScaledBelow(duration, chapters[i].time, SpeedFactor(speed));
    }
  }

  /** The opusenc command is the head, the chapter comments and the tail;
      the progress total is the scaled duration. */
  lemma {:induction false} PlanParts(meta: FolderMeta, opus: string, bitrate: int, subchapters: bool,
                                     af: Option<string>, speed: int, normalize: Option<int>, noise: Option<string>)
    requires EncodePlan(meta, opus, bitrate, subchapters, af, speed, normalize, noise).Ok?
    ensures var c := EncodePlan(meta, opus, bitrate, subchapters, af, speed, normalize, noise).value;
      && c.opusenc == OpusHead(meta, bitrate) + CommentsOf(Selected(meta.chapters, subchapters), speed)
                      + (PictureArgs(meta.image) + ["-", opus])
      && c.total == meta.duration / SpeedFactor(speed)
  {
    var head := OpusHead(meta, bitrate);
    var comments := CommentsOf(Selected(meta.chapters, subchapters), speed);
    var tail := PictureArgs(meta.image);
    Associative(head + comments, tail, ["-", opus]);
  }

  /** Item 4i + 1 after the head is the start comment of chapter i. */
  lemma {:induction false} ChapterStartAt(head: seq<string>, chapters: seq<Chapter>, speed: int, tail: seq<string>, i: nat)
    requires i < |chapters|
    ensures var params := head + CommentsOf(chapters, speed) + tail;
      && |head| + 4 * i + 1 < |params|
      && params[|head| + 4 * i + 1] == ChapterComments(i + 1, chapters[i], speed)[1]
  {
    var comments := CommentsOf(chapters, speed);
    CommentsNumbered(chapters, speed, i);
    BlockItem(comments, ChapterComments(i + 1, chapters[i], speed), 4 * i, 1);
    ConcatItem(head, comments, tail, 4 * i + 1);
  }

  lemma {:induction false} ScaledBelow(duration: real, time: real, f: real)
    requires 0.0 <= time <= duration && f > 0.0
    ensures 0.0 <= time / f <= duration / f
  {
    assert duration / f - time / f == (duration - time) / f;
  }
}
