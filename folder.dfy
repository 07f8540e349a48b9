/** `get_folder_metadata`: the folder's mp3 files read one by one, ordered
    by track, joined into one timeline, and the folder's own fields chosen
    from theirs. The directory listing is given as a sequence of entries. */
module Folder {
  import opened Wrappers
  import opened Text
  import opened Patterns
  import opened Probe

  /** A regular file of the folder: its path, its suffix (".mp3", with the
      dot, as `Path.suffix` gives it) and its size in bytes. */
  datatype FileEntry = FileEntry(path: string, suffix: string, size: nat)

  /** The extension argument of `_list_files`: none selects every file, and
      a leading '.' is added when it is missing. */
  function NormalizeExt(ext: Option<string>): string {
    match ext
    case None => ""
    case Some(e) => if |e| > 0 && e[0] != '.' then "." + e else e
  }

  /** The normalised extension is empty only when no extension is given,
      otherwise it starts with '.' and ends with the one given, which it
      is exactly when that already starts with '.', with at most the one
      '.' added otherwise; normalising it again changes nothing. */
  lemma {:induction false} NormalizeExtSpec(ext: Option<string>)
    ensures var r := NormalizeExt(ext);
      && (r == "" <==> ext.None? || ext.value == "")
      && (r != "" ==> r[0] == '.' && |ext.value| <= |r| <= |ext.value| + 1 && r[|r| - |ext.value|..] == ext.value)
      && (r != "" ==> (r == ext.value <==> ext.value[0] == '.'))
      && NormalizeExt(Some(r)) == r
  {
    if ext.Some? && |ext.value| > 0 && ext.value[0] != '.' {
      var r := "." + ext.value;
      assert r[|r| - |ext.value|..] == ext.value;
    }
  }

  /** A file has the extension: exactly, or ignoring letter case. */
  predicate HasExt(f: FileEntry, ext: string, caseSensitive: bool) {
    if caseSensitive then ext == f.suffix else Lower(ext) == Lower(f.suffix)
  }

  /** The files with the extension, in listing order. */
  function WithExt(files: seq<FileEntry>, ext: string, caseSensitive: bool): seq<FileEntry> {
    if files == [] then []
    else
      var f := files[|files| - 1];
      WithExt(files[..|files| - 1], ext, caseSensitive) + (if HasExt(f, ext, caseSensitive) then [f] else [])
  }

  /** `_list_files(path, ext, case)` over the folder's regular files. */
  function ListFiles(files: seq<FileEntry>, ext: Option<string>, caseSensitive: bool): seq<FileEntry> {
    var e := NormalizeExt(ext);
    if e == "" then files else WithExt(files, e, caseSensitive)
  }

  /** The files with the extension, and only those. */
  lemma {:induction false} WithExtSpec(files: seq<FileEntry>, ext: string, caseSensitive: bool)
    ensures forall f :: f in WithExt(files, ext, caseSensitive) <==> f in files && HasExt(f, ext, caseSensitive)
  {
    if files != [] {
      var init := files[..|files| - 1];
      WithExtSpec(init, ext, caseSensitive);
      assert files == init + [files[|files| - 1]];
    }
  }

  /** The files with the extension in listing order: file i, when it has
      the extension, lies at the place counted by the matching files before
      it; those places grow from one matching file to any later file; and
      every place holds a matching file put there. */
  lemma {:induction false} WithExtPlaces(files: seq<FileEntry>, ext: string, caseSensitive: bool)
    ensures var r := WithExt(files, ext, caseSensitive);
      forall i | 0 <= i < |files| && HasExt(files[i], ext, caseSensitive) ::
        |WithExt(files[..i], ext, caseSensitive)| < |r| && r[|WithExt(files[..i], ext, caseSensitive)|] == files[i]
    ensures forall i, j | 0 <= i < j <= |files| && HasExt(files[i], ext, caseSensitive) ::
      |WithExt(files[..i], ext, caseSensitive)| < |WithExt(files[..j], ext, caseSensitive)|
    ensures forall k | 0 <= k < |WithExt(files, ext, caseSensitive)| :: WithExtFrom(files, ext, caseSensitive, k)
  {
    var n := |files|;
    var keep := seq(n, i requires 0 <= i < n => HasExt(files[i], ext, caseSensitive));
    var outs := seq(n + 1, i requires 0 <= i <= n => WithExt(files[..i], ext, caseSensitive));
    WithExtRun(files, ext, caseSensitive, keep, outs);
    FilterPlaces(files, keep, outs);
    forall i | 0 <= i < n && HasExt(files[i], ext, caseSensitive)
      ensures |WithExt(files[..i], ext, caseSensitive)| < |WithExt(files, ext, caseSensitive)|
        && WithExt(files, ext, caseSensitive)[|WithExt(files[..i], ext, caseSensitive)|] == files[i]
    {
      assert keep[i] && outs[i] == WithExt(files[..i], ext, caseSensitive);
    }
    forall i, j | 0 <= i < j <= n && HasExt(files[i], ext, caseSensitive)
      ensures |WithExt(files[..i], ext, caseSensitive)| < |WithExt(files[..j], ext, caseSensitive)|
    {
      assert keep[i] && outs[i] == WithExt(files[..i], ext, caseSensitive) && outs[j] == WithExt(files[..j], ext, caseSensitive);
    }
    forall k | 0 <= k < |WithExt(files, ext, caseSensitive)| ensures WithExtFrom(files, ext, caseSensitive, k) {
      assert FilterPlaced(files, keep, outs, n, k);
      var i :| 0 <= i < n && keep[i] && |outs[i]| == k && outs[n][k] == files[i];
      assert HasExt(files[i], ext, caseSensitive) && |WithExt(files[..i], ext, caseSensitive)| == k
        && WithExt(files, ext, caseSensitive)[k] == files[i];
    }
  }

  /** Place k of the filtered listing holds a matching file i with k
      matching files before it. */
  ghost predicate WithExtFrom(files: seq<FileEntry>, ext: string, caseSensitive: bool, k: nat)
    requires k < |WithExt(files, ext, caseSensitive)|
  {
    exists i | 0 <= i < |files| && HasExt(files[i], ext, caseSensitive) ::
      |WithExt(files[..i], ext, caseSensitive)| == k && WithExt(files, ext, caseSensitive)[k] == files[i]
  }

  lemma {:induction false} WithExtRun(files: seq<FileEntry>, ext: string, caseSensitive: bool,
                                      keep: seq<bool>, outs: seq<seq<FileEntry>>)
    requires keep == seq(|files|, i requires 0 <= i < |files| => HasExt(files[i], ext, caseSensitive))
    requires outs == seq(|files| + 1, i requires 0 <= i <= |files| => WithExt(files[..i], ext, caseSensitive))
    ensures FilterRun(files, keep, outs)
    ensures outs[|files|] == WithExt(files, ext, caseSensitive)
  {
    forall i | 0 <= i < |files| ensures outs[i + 1] == if keep[i] then outs[i] + [files[i]] else outs[i] {
      assert files[..i + 1][..i] == files[..i];
      assert outs[i] == WithExt(files[..i], ext, caseSensitive) && outs[i + 1] == WithExt(files[..i + 1], ext, caseSensitive);
      assert keep[i] == HasExt(files[i], ext, caseSensitive);
    }
    assert files[..|files|] == files;
  }

  /** A file `_list_files` keeps: any file when no extension is asked for,
      otherwise one with the normalised extension. */
  predicate Listed(f: FileEntry, ext: Option<string>, caseSensitive: bool) {
    var e := NormalizeExt(ext);
    e == "" || HasExt(f, e, caseSensitive)
  }

  /** A listing keeps exactly the listed files, in listing order: file i,
      when listed, lies at the place counted by the listed files before it;
      those places grow from one listed file to any later file; and every
      place holds a listed file put there. */
  lemma {:induction false} ListFilesSpec(files: seq<FileEntry>, ext: Option<string>, caseSensitive: bool)
    ensures forall f :: f in ListFiles(files, ext, caseSensitive) <==> f in files && Listed(f, ext, caseSensitive)
    ensures var r := ListFiles(files, ext, caseSensitive);
      forall i | 0 <= i < |files| && Listed(files[i], ext, caseSensitive) ::
        |ListFiles(files[..i], ext, caseSensitive)| < |r| && r[|ListFiles(files[..i], ext, caseSensitive)|] == files[i]
    ensures forall i, j | 0 <= i < j <= |files| && Listed(files[i], ext, caseSensitive) ::
      |ListFiles(files[..i], ext, caseSensitive)| < |ListFiles(files[..j], ext, caseSensitive)|
    ensures forall k | 0 <= k < |ListFiles(files, ext, caseSensitive)| :: ListedFrom(files, ext, caseSensitive, k)
  {
    var e := NormalizeExt(ext);
    if e == "" {
      forall k | 0 <= k < |files| ensures ListedFrom(files, ext, caseSensitive, k) {
        assert |ListFiles(files[..k], ext, caseSensitive)| == k;
      }
    } else {
      WithExtSpec(files, e, caseSensitive);
      WithExtPlaces(files, e, caseSensitive);
      forall k | 0 <= k < |ListFiles(files, ext, caseSensitive)| ensures ListedFrom(files, ext, caseSensitive, k) {
        assert WithExtFrom(files, e, caseSensitive, k);
      }
    }
  }

  /** Place k of the listing holds a listed file i with k listed files
      before it. */
  ghost predicate ListedFrom(files: seq<FileEntry>, ext: Option<string>, caseSensitive: bool, k: nat)
    requires k < |ListFiles(files, ext, caseSensitive)|
  {
    exists i | 0 <= i < |files| && Listed(files[i], ext, caseSensitive) ::
      |ListFiles(files[..i], ext, caseSensitive)| == k && ListFiles(files, ext, caseSensitive)[k] == files[i]
  }

  /** "mp3" selects ".MP3" files too when case is ignored. */
  lemma {:induction false} UpperCaseSuffix(path: string, size: nat)
    ensures ListFiles([FileEntry(path, ".MP3", size)], Some("mp3"), false) == [FileEntry(path, ".MP3", size)]
  {
    var f := FileEntry(path, ".MP3", size);
    assert NormalizeExt(Some("mp3")) == ".mp3";
    assert Lower(".mp3") == ".mp3" && Lower(".MP3") == ".mp3";
    assert HasExt(f, ".mp3", false);
    assert [f][..0] == [];
    assert WithExt([f], ".mp3", false) == WithExt([], ".mp3", false) + [f];
  }

  /** Strict code-point order on strings, as Python compares `str`. */
  predicate LexLess(a: string, b: string)
    decreases |a|
  {
    if a == [] then b != []
    else if b == [] then false
    else if a[0] != b[0] then a[0] < b[0]
    else LexLess(a[1..], b[1..])
  }

  lemma {:induction false} LexLessIrreflexive(a: string)
    ensures !LexLess(a, a)
    decreases |a|
  {
    if a != [] {
      LexLessIrreflexive(a[1..]);
    }
  }

  lemma {:induction false} LexLessTransitive(a: string, b: string, c: string)
    requires LexLess(a, b) && LexLess(b, c)
    ensures LexLess(a, c)
    decreases |a|
  {
    if a != [] && b != [] && c != [] && a[0] == b[0] && b[0] == c[0] {
      LexLessTransitive(a[1..], b[1..], c[1..]);
    }
  }

  /** `(a.size, a.path) < (b.size, b.path)`. Paths of one folder differ
      only in the file name, so comparing them compares the names. */
  predicate Smaller(a: FileEntry, b: FileEntry) {
    a.size < b.size || (a.size == b.size && LexLess(a.path, b.path))
  }

  lemma {:induction false} SmallerTransitive(a: FileEntry, b: FileEntry, c: FileEntry)
    requires Smaller(a, b) && Smaller(b, c)
    ensures Smaller(a, c)
  {
    if a.size == b.size && b.size == c.size {
      LexLessTransitive(a.path, b.path, c.path);
    }
  }

  /** `max()` over the (size, path) pairs: the first pair, replaced by each
      later one that is greater. */
  function Largest(files: seq<FileEntry>): FileEntry
    requires files != []
  {
    if |files| == 1 then files[0]
    else
      var best := Largest(files[..|files| - 1]);
      var f := files[|files| - 1];
      if Smaller(best, f) then f else best
  }

  /** The largest file is one of the files, and no file is greater. */
  lemma {:induction false} LargestSpec(files: seq<FileEntry>)
    requires files != []
    ensures Largest(files) in files
    ensures forall f | f in files :: !Smaller(Largest(files), f)
  {
    LexLessIrreflexive(Largest(files).path);
    if |files| > 1 {
      var init := files[..|files| - 1];
      var last := files[|files| - 1];
      LargestSpec(init);
      var best := Largest(init);
      assert files == init + [last];
      if Smaller(best, last) {
        forall f | f in init ensures !Smaller(last, f) {
          if Smaller(last, f) {
            SmallerTransitive(best, last, f);
          }
        }
      }
    }
  }

  /** The cover image: the largest ".jpg" file by size, then by path;
      `None` when there is none, where `max()` raises ValueError. */
  function ChooseImage(files: seq<FileEntry>): Option<FileEntry> {
    var jpgs := ListFiles(files, Some("jpg"), false);
    if jpgs == [] then None else Some(Largest(jpgs))
  }

  /** The image is a ".jpg" file of the folder that no other one exceeds,
      and there is one exactly when the folder has a ".jpg" file. */
  lemma {:induction false} ChooseImageSpec(files: seq<FileEntry>)
    ensures var jpg := NormalizeExt(Some("jpg"));
      && (ChooseImage(files).None? <==> forall f | f in files :: !HasExt(f, jpg, false))
      && (ChooseImage(files).Some? ==>
            var image := ChooseImage(files).value;
            && image in files && HasExt(image, jpg, false)
            && forall f | f in files && HasExt(f, jpg, false) :: !Smaller(image, f))
  {
    var jpg := NormalizeExt(Some("jpg"));
    assert jpg == ".jpg";
    var jpgs := ListFiles(files, Some("jpg"), false);
    ListFilesSpec(files, Some("jpg"), false);
    if jpgs != [] {
      LargestSpec(jpgs);
    } else {
      forall f | f in files ensures !HasExt(f, jpg, false) {
        assert f !in jpgs;
      }
    }
  }

  /** Ordered by track number. */
  predicate SortedByTrack(s: seq<Track>) {
    forall i, j | 0 <= i < j < |s| :: s[i].track <= s[j].track
  }

  /** `s` with `x` placed after every element whose track is not greater,
      and before the greater ones. */
  function Insert(s: seq<Track>, x: Track): (r: seq<Track>)
    ensures |r| == |s| + 1
  {
    if s == [] || s[|s| - 1].track <= x.track then s + [x]
    else Insert(s[..|s| - 1], x) + [s[|s| - 1]]
  }

  /** `files_meta.sort(key=lambda f: int(f['track']))`: a stable sort by
      track number, written as an insertion sort. */
  function SortByTrack(s: seq<Track>): (r: seq<Track>)
    ensures |r| == |s|
  {
    if s == [] then [] else Insert(SortByTrack(s[..|s| - 1]), s[|s| - 1])
  }

  /** The elements of `s` with track `n`, in order. */
  function WithTrack(s: seq<Track>, n: int): seq<Track> {
    if s == [] then []
    else
      var x := s[|s| - 1];
      WithTrack(s[..|s| - 1], n) + (if x.track == n then [x] else [])
  }

  /** Placing `x` adds it and loses nothing. */
  lemma {:induction false} InsertPermutes(s: seq<Track>, x: Track)
    ensures multiset(Insert(s, x)) == multiset(s) + multiset{x}
  {
    if s != [] && s[|s| - 1].track > x.track {
      var init := s[..|s| - 1];
      InsertPermutes(init, x);
      assert s == init + [s[|s| - 1]];
    }
  }

  /** Placing `x` in an ordered sequence keeps it ordered. */
  lemma {:induction false} InsertSorted(s: seq<Track>, x: Track)
    requires SortedByTrack(s)
    ensures SortedByTrack(Insert(s, x))
  {
    if s != [] && s[|s| - 1].track > x.track {
      var init := s[..|s| - 1];
      var last := s[|s| - 1];
      assert SortedByTrack(init);
      InsertSorted(init, x);
      InsertBounded(init, x, last.track);
      SortedSnoc(Insert(init, x), last);
    }
  }

  /** Inserting below a bound every element keeps stays below it. */
  lemma {:induction false} InsertBounded(s: seq<Track>, x: Track, bound: int)
    requires forall i | 0 <= i < |s| :: s[i].track <= bound
    requires x.track <= bound
    ensures forall i | 0 <= i < |Insert(s, x)| :: Insert(s, x)[i].track <= bound
  {
    InsertPermutes(s, x);
    var r := Insert(s, x);
    forall i | 0 <= i < |r| ensures r[i].track <= bound {
      var y := r[i];
      assert y in multiset(s) + multiset{x};
      if y != x {
        assert y in s;
      }
    }
  }

  /** A sorted sequence stays sorted with an element added at or above
      all of it. */
  lemma {:induction false} SortedSnoc(r: seq<Track>, last: Track)
    requires SortedByTrack(r)
    requires forall i | 0 <= i < |r| :: r[i].track <= last.track
    ensures SortedByTrack(r + [last])
  {
    var r2 := r + [last];
    forall i, j | 0 <= i < j < |r2| ensures r2[i].track <= r2[j].track {
      assert r2[i] == r[i];
      if j < |r| {
        assert r2[j] == r[j];
      }
    }
  }

  /** Placing `x` keeps, for every track number, the order of the elements
      with that number, `x` coming after those already there. */
  lemma {:induction false} InsertStable(s: seq<Track>, x: Track, n: int)
    requires SortedByTrack(s)
    ensures WithTrack(Insert(s, x), n) == WithTrack(s, n) + (if x.track == n then [x] else [])
  {
    var r := Insert(s, x);
    if s == [] || s[|s| - 1].track <= x.track {
      assert r[..|r| - 1] == s;
    } else {
      var init := s[..|s| - 1];
      var last := s[|s| - 1];
      InsertStable(init, x, n);
      assert r[..|r| - 1] == Insert(init, x);
    }
  }

  /** The sort orders by track and rearranges nothing else. */
  lemma {:induction false} SortSpec(s: seq<Track>)
    ensures SortedByTrack(SortByTrack(s))
    ensures multiset(SortByTrack(s)) == multiset(s)
  {
    if s != [] {
      var init := s[..|s| - 1];
      SortSpec(init);
      InsertSorted(SortByTrack(init), s[|s| - 1]);
      InsertPermutes(SortByTrack(init), s[|s| - 1]);
      assert s == init + [s[|s| - 1]];
    }
  }

  /** The sort is stable: tracks with the same number keep their order. */
  lemma {:induction false} SortStable(s: seq<Track>, n: int)
    ensures WithTrack(SortByTrack(s), n) == WithTrack(s, n)
  {
    if s != [] {
      var init := s[..|s| - 1];
      SortStable(init, n);
      SortSpec(init);
      InsertStable(SortByTrack(init), s[|s| - 1], n);
    }
  }

  /** Tracks already in order are left as they are. */
  lemma {:induction false} SortSorted(s: seq<Track>)
    requires SortedByTrack(s)
    ensures SortByTrack(s) == s
  {
    if s != [] {
      var init := s[..|s| - 1];
      assert SortedByTrack(init);
      SortSorted(init);
      assert s == init + [s[|s| - 1]];
    }
  }

  /** A track's chapters moved later by `delta` seconds. */
  function Shift(cs: seq<Chapter>, delta: real): (r: seq<Chapter>)
    ensures |r| == |cs|
  {
    seq(|cs|, i requires 0 <= i < |cs| => Chapter(cs[i].name, cs[i].time + delta))
  }

  /** The durations of the tracks added up. */
  function TotalDuration(tracks: seq<Track>): real {
    if tracks == [] then 0.0
    else TotalDuration(tracks[..|tracks| - 1]) + tracks[|tracks| - 1].duration
  }

  /** The number of chapters of all the tracks. */
  function ChapterCount(tracks: seq<Track>): nat {
    if tracks == [] then 0
    else ChapterCount(tracks[..|tracks| - 1]) + |tracks[|tracks| - 1].chapters|
  }

  /** The folder's chapters: each track's chapters in order, moved by the
      duration of the tracks before it. */
  function Timeline(tracks: seq<Track>): seq<Chapter> {
    if tracks == [] then []
    else
      var init := tracks[..|tracks| - 1];
      Timeline(init) + Shift(tracks[|tracks| - 1].chapters, TotalDuration(init))
  }

  /** The loop of `get_folder_metadata` that appends every track's chapters
      with the running offset `delta` and then adds the track's duration. */
  method Aggregate(tracks: seq<Track>) returns (chapters: seq<Chapter>, delta: real)
    ensures chapters == Timeline(tracks)
    ensures delta == TotalDuration(tracks)
  {
    chapters := [];
    delta := 0.0;
    var i := 0;
    while i < |tracks|
      invariant 0 <= i <= |tracks|
      invariant chapters == Timeline(tracks[..i])
      invariant delta == TotalDuration(tracks[..i])
    {
      var f := tracks[i];
      assert tracks[..i + 1][..i] == tracks[..i];
      var j := 0;
      while j < |f.chapters|
        invariant 0 <= j <= |f.chapters|
        invariant chapters == Timeline(tracks[..i]) + Shift(f.chapters[..j], delta)
      {
        var c := f.chapters[j];
        assert Shift(f.chapters[..j + 1], delta) == Shift(f.chapters[..j], delta) + [Chapter(c.name, c.time + delta)];
        chapters := chapters + [Chapter(c.name, c.time + delta)];
        j := j + 1;
      }
      assert f.chapters[..j] == f.chapters;
      delta := delta + f.duration;
      i := i + 1;
    }
    assert tracks[..i] == tracks;
  }

  /** One folder chapter per track chapter. */
  lemma {:induction false} TimelineLength(tracks: seq<Track>)
    ensures |Timeline(tracks)| == ChapterCount(tracks)
  {
    if tracks != [] {
      TimelineLength(tracks[..|tracks| - 1]);
    }
  }

  /** Chapter `i` of track `k` comes after the chapters of the tracks
      before it, with its time moved by their total duration. */
  lemma {:induction false} TimelineAt(tracks: seq<Track>, k: nat, i: nat)
    requires k < |tracks| && i < |tracks[k].chapters|
    ensures ChapterCount(tracks[..k]) + i < |Timeline(tracks)|
    ensures var c := tracks[k].chapters[i];
      Timeline(tracks)[ChapterCount(tracks[..k]) + i] == Chapter(c.name, c.time + TotalDuration(tracks[..k]))
  {
    var n := |tracks|;
    var init := tracks[..n - 1];
    TimelineLength(init);
    if k < n - 1 {
      assert init[..k] == tracks[..k] && init[k] == tracks[k];
      TimelineAt(init, k, i);
    }
  }

  /** Chapters that lie within their own track lie within the folder's
      total duration. */
  lemma {:induction false} TimelineBounded(tracks: seq<Track>)
    requires forall k | 0 <= k < |tracks| :: tracks[k].duration >= 0.0
    requires forall k, i | 0 <= k < |tracks| && 0 <= i < |tracks[k].chapters| ::
      0.0 <= tracks[k].chapters[i].time <= tracks[k].duration
    ensures TotalDuration(tracks) >= 0.0
    ensures forall c | c in Timeline(tracks) :: 0.0 <= c.time <= TotalDuration(tracks)
  {
    if tracks != [] {
      var n := |tracks|;
      var init := tracks[..n - 1];
      var last := tracks[n - 1];
      assert forall k | 0 <= k < |init| :: init[k] == tracks[k];
      TimelineBounded(init);
      var before := TotalDuration(init);
      forall c | c in Timeline(tracks) ensures 0.0 <= c.time <= TotalDuration(tracks) {
        if c !in Timeline(init) {
          var shifted := Shift(last.chapters, before);
          assert c in shifted;
          var i :| 0 <= i < |shifted| && shifted[i] == c;
          assert c.time == last.chapters[i].time + before;
        }
      }
    }
  }

  /** Tracks whose chapters are in time order and lie within the track
      give a folder timeline in time order: each track starts where the
      tracks before it end. */
  lemma {:induction false} TimelineSorted(tracks: seq<Track>)
    requires forall k | 0 <= k < |tracks| :: tracks[k].duration >= 0.0
    requires forall k, i | 0 <= k < |tracks| && 0 <= i < |tracks[k].chapters| ::
      0.0 <= tracks[k].chapters[i].time <= tracks[k].duration
    requires forall k, i, j | 0 <= k < |tracks| && 0 <= i < j < |tracks[k].chapters| ::
      tracks[k].chapters[i].time <= tracks[k].chapters[j].time
    ensures forall i, j | 0 <= i < j < |Timeline(tracks)| :: Timeline(tracks)[i].time <= Timeline(tracks)[j].time
  {
    if tracks != [] {
      var n := |tracks|;
      var init := tracks[..n - 1];
      var last := tracks[n - 1];
      assert forall k | 0 <= k < |init| :: init[k] == tracks[k];
      TimelineSorted(init);
      TimelineBounded(init);
      var before := Timeline(init);
      var shifted := Shift(last.chapters, TotalDuration(init));
      var all := Timeline(tracks);
      assert all == before + shifted;
      SortedAppend(before, last.chapters, TotalDuration(init));
    }
  }

  /** A timeline in time order that ends by `delta`, followed by the next
      track's chapters in time order shifted by `delta`, is in time order. */
  lemma {:induction false} SortedAppend(before: seq<Chapter>, next: seq<Chapter>, delta: real)
    requires forall i, j | 0 <= i < j < |before| :: before[i].time <= before[j].time
    requires forall c | c in before :: c.time <= delta
    requires forall k | 0 <= k < |next| :: 0.0 <= next[k].time
    requires forall i, j | 0 <= i < j < |next| :: next[i].time <= next[j].time
    ensures var all := before + Shift(next, delta);
      forall i, j | 0 <= i < j < |all| :: all[i].time <= all[j].time
  {
    var shifted := Shift(next, delta);
    var all := before + shifted;
    forall i, j | 0 <= i < j < |all| ensures all[i].time <= all[j].time {
      if j < |before| {
        assert all[i] == before[i] && all[j] == before[j];
      } else if i >= |before| {
        assert all[i] == shifted[i - |before|] && all[j] == shifted[j - |before|];
      } else {
        assert before[i] in before && all[i] == before[i] && all[j] == shifted[j - |before|];
      }
    }
  }

  /** Placing a track adds its duration and its chapters. */
  lemma {:induction false} InsertCounts(s: seq<Track>, x: Track)
    ensures TotalDuration(Insert(s, x)) == TotalDuration(s) + x.duration
    ensures ChapterCount(Insert(s, x)) == ChapterCount(s) + |x.chapters|
  {
    var r := Insert(s, x);
    if s == [] || s[|s| - 1].track <= x.track {
      assert r[..|r| - 1] == s;
    } else {
      InsertCounts(s[..|s| - 1], x);
      assert r[..|r| - 1] == Insert(s[..|s| - 1], x);
    }
  }

  /** Ordering the tracks changes neither the total duration nor the
      number of chapters. */
  lemma {:induction false} SortCounts(s: seq<Track>)
    ensures TotalDuration(SortByTrack(s)) == TotalDuration(s)
    ensures ChapterCount(SortByTrack(s)) == ChapterCount(s)
  {
    if s != [] {
      SortCounts(s[..|s| - 1]);
      InsertCounts(SortByTrack(s[..|s| - 1]), s[|s| - 1]);
    }
  }

  /** `f.get(field, None)`. */
  function Field(t: Track, k: string): Option<string> {
    if k in t.fields then t.fields[k] else None
  }

  /** The tracks that have a value for the field. */
  function HasField(tracks: seq<Track>, k: string): nat -> bool {
    (i: nat) => i < |tracks| && Field(tracks[i], k).Some?
  }

  /** `_get_field(k)`: the value of the first track that has one, even an
      empty one, otherwise "Unknown". */
  function GetField(tracks: seq<Track>, k: string): string {
    match FirstFrom(HasField(tracks, k), 0, |tracks|)
    case None => "Unknown"
    case Some(i) =>
      assert HasField(tracks, k)(i) by {
        FirstFromSpec(HasField(tracks, k), 0, |tracks|);
      }
      Field(tracks[i], k).value
  }

  /** The first track with a value for the field gives it. */
  lemma {:induction false} GetFieldFirst(tracks: seq<Track>, k: string, j: nat)
    requires j < |tracks| && Field(tracks[j], k).Some?
    requires forall i | 0 <= i < j :: Field(tracks[i], k).None?
    ensures GetField(tracks, k) == Field(tracks[j], k).value
  {
    forall i | 0 <= i < j ensures !HasField(tracks, k)(i) {
      assert Field(tracks[i], k).None?;
    }
    FirstFromAt(HasField(tracks, k), 0, |tracks|, j);
  }

  /** Without a value in any track the field is "Unknown". */
  lemma {:induction false} GetFieldUnknown(tracks: seq<Track>, k: string)
    requires forall i | 0 <= i < |tracks| :: Field(tracks[i], k).None?
    ensures GetField(tracks, k) == "Unknown"
  {
    forall i | 0 <= i < |tracks| ensures !HasField(tracks, k)(i) {
      assert Field(tracks[i], k).None?;
    }
    FirstFromSpec(HasField(tracks, k), 0, |tracks|);
  }

  /** An empty value in the first track wins over values further on. */
  lemma {:induction false} EmptyValueWins(tracks: seq<Track>, k: string)
    requires |tracks| > 0 && Field(tracks[0], k) == Some("")
    ensures GetField(tracks, k) == ""
  {
    GetFieldFirst(tracks, k, 0);
  }

  /** The folder title: the album field, unless it is "Unknown"; then the
      title field with its trailing "Part N" cut off. */
  function FolderTitle(tracks: seq<Track>): string {
    var album := GetField(tracks, "album");
    if album == "Unknown" then StripPart(GetField(tracks, "title")) else album
  }

  /** A known album is the title. An unknown one makes the title a prefix
      of the title field, cut where the "Part N" suffix starts, if any. */
  lemma {:induction false} FolderTitleSpec(tracks: seq<Track>)
    ensures var album := GetField(tracks, "album");
      var title := FolderTitle(tracks);
      var field := GetField(tracks, "title");
      && (album != "Unknown" ==> title == album)
      && (album == "Unknown" ==>
            && title <= field
            && (|title| < |field| <==> exists i | 0 <= i < |field| :: PartSuffixAt(field, i))
            && (|title| < |field| ==> PartSuffixAt(field, |title|))
            && forall i | 0 <= i < |title| :: !PartSuffixAt(field, i))
  {
    StripPartSpec(GetField(tracks, "title"));
  }

  /** Files without an album tag whose first title reads "My Book - Part 3"
      make a folder titled "My Book". */
  lemma {:induction false} GuessedTitle(tracks: seq<Track>)
    requires |tracks| > 0 && Field(tracks[0], "title") == Some("My Book - Part 3")
    requires forall i | 0 <= i < |tracks| :: Field(tracks[i], "album").None?
    ensures FolderTitle(tracks) == "My Book"
  {
    GetFieldUnknown(tracks, "album");
    GetFieldFirst(tracks, "title", 0);
    MyBookStripPart();
  }

  /** The dictionary `get_folder_metadata` returns. */
  datatype FolderMeta = FolderMeta(
    files: seq<Track>,
    chapters: seq<Chapter>,
    duration: real,
    title: string,
    album: string,
    image: Option<FileEntry>,
    artist: string,
    genre: string,
    comment: string,
    publisher: string,
    copyright: string)

  /** `get_metadata` of a file, for the given tool output, unescaping and
      XML parser. */
  function Reader(probe: string -> Option<Format>, unescape: string -> string,
                  parse: string -> Option<Element>): string -> Result<Track, ProbeError>
  {
    (path: string) => Metadata(path, probe(path), unescape, parse)
  }

  /** `[get_metadata(f) for f in files]`: the records in order, or the
      first error. */
  function AllMetadata(files: seq<FileEntry>, read: string -> Result<Track, ProbeError>): Result<seq<Track>, ProbeError> {
    if files == [] then Ok([])
    else
      match AllMetadata(files[..|files| - 1], read)
      case Err(e) => Err(e)
      case Ok(ts) =>
        match read(files[|files| - 1].path)
        case Err(e) => Err(e)
        case Ok(t) => Ok(ts + [t])
  }

  /** All files read gives one record per file, in order; one file that
      fails makes the whole call fail, with the error of the first file
      that fails. */
  lemma {:induction false} AllMetadataSpec(files: seq<FileEntry>, read: string -> Result<Track, ProbeError>)
    ensures var r := AllMetadata(files, read);
      && (r.Ok? <==> forall i | 0 <= i < |files| :: read(files[i].path).Ok?)
      && (r.Ok? ==> (|r.value| == |files| && forall i | 0 <= i < |files| :: read(files[i].path) == Ok(r.value[i])))
      && (r.Err? ==> exists j | 0 <= j < |files| ::
            read(files[j].path) == Err(r.error) && forall i | 0 <= i < j :: read(files[i].path).Ok?)
  {
    if files != [] {
      var n := |files| - 1;
      var init := files[..n];
      assert forall i | 0 <= i < |init| :: init[i] == files[i];
      AllMetadataSpec(init, read);
      var r := AllMetadata(files, read);
      if r.Err? {
        if AllMetadata(init, read).Err? {
          var j :| 0 <= j < |init| && read(init[j].path) == Err(r.error) && forall i | 0 <= i < j :: read(init[i].path).Ok?;
          assert read(files[j].path) == Err(r.error) && forall i | 0 <= i < j :: read(files[i].path).Ok?;
        } else {
          assert read(files[n].path) == Err(r.error) && forall i | 0 <= i < n :: read(files[i].path).Ok?;
        }
      }
    }
  }

  /** `get_folder_metadata(folder)`. */
  function FolderMetadata(entries: seq<FileEntry>, probe: string -> Option<Format>, unescape: string -> string,
                          parse: string -> Option<Element>): Result<FolderMeta, ProbeError>
  {
    var image := ChooseImage(entries);
    match AllMetadata(ListFiles(entries, Some("mp3"), false), Reader(probe, unescape, parse))
    case Err(e) => Err(e)
    case Ok(tracks) =>
      var sorted := SortByTrack(tracks);
      var title := FolderTitle(sorted);
      Ok(FolderMeta(sorted, Timeline(sorted), TotalDuration(sorted), title, title + " - Overdrive", image,
                    GetField(sorted, "artist"), GetField(sorted, "genre"), GetField(sorted, "comment"),
                    GetField(sorted, "publisher"), GetField(sorted, "copyright")))
  }

  /** `get_folder_metadata`, running the timeline loop. */
  method GetFolderMetadata(entries: seq<FileEntry>, probe: string -> Option<Format>, unescape: string -> string,
                           parse: string -> Option<Element>) returns (r: Result<FolderMeta, ProbeError>)
    ensures r == FolderMetadata(entries, probe, unescape, parse)
  {
    var files := ListFiles(entries, Some("mp3"), false);
    var image := ChooseImage(entries);
    var meta := AllMetadata(files, Reader(probe, unescape, parse));
    if meta.Err? {
      return Err(meta.error);
    }
    var sorted := SortByTrack(meta.value);
    var chapters, duration := Aggregate(sorted);
    var title := FolderTitle(sorted);
    return Ok(FolderMeta(sorted, chapters, duration, title, title + " - Overdrive", image,
                         GetField(sorted, "artist"), GetField(sorted, "genre"), GetField(sorted, "comment"),
                         GetField(sorted, "publisher"), GetField(sorted, "copyright")));
  }

  /** The folder's record: its tracks ordered stably by track number, as
      many chapters as the tracks have, the tracks' total duration, and the
      album named after the title. */
  lemma {:induction false} FolderMetadataSpec(entries: seq<FileEntry>, probe: string -> Option<Format>,
                                              unescape: string -> string, parse: string -> Option<Element>)
    requires FolderMetadata(entries, probe, unescape, parse).Ok?
    ensures var m := FolderMetadata(entries, probe, unescape, parse).value;
      var tracks := AllMetadata(ListFiles(entries, Some("mp3"), false), Reader(probe, unescape, parse)).value;
      && SortedByTrack(m.files)
      && multiset(m.files) == multiset(tracks)
      && (forall n :: WithTrack(m.files, n) == WithTrack(tracks, n))
      && |m.chapters| == ChapterCount(tracks)
      && m.duration == TotalDuration(tracks)
      && m.album == m.title + " - Overdrive"
  {
    var tracks := AllMetadata(ListFiles(entries, Some("mp3"), false), Reader(probe, unescape, parse)).value;
    SortSpec(tracks);
    SortCounts(tracks);
    TimelineLength(SortByTrack(tracks));
    forall n ensures WithTrack(SortByTrack(tracks), n) == WithTrack(tracks, n) {
      SortStable(tracks, n);
    }
  }
}
