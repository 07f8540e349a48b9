/** `get_metadata`: one audio file's record, built from what ffprobe reports
    about it. The JSON document, the XML parser and `html.unescape` are
    given: the `format` object arrives as a `Format` value, and the parser
    and the unescaping are parameters. */
module Probe {
  import opened Wrappers
  import opened Text
  import opened Timestamps
  import opened Patterns

  /** An XML element as ElementTree presents it: its tag, its text (`None`
      when there is none) and its child elements in document order. */
  datatype Element = Element(tag: string, text: Option<string>, children: seq<Element>)

  /** The `format` object of ffprobe's output: the tag dictionary and the
      duration, each `None` when the key is missing. */
  datatype Format = Format(tags: Option<map<string, string>>, duration: Option<string>)

  /** One chapter of a file: its name and its start in seconds. */
  datatype Chapter = Chapter(name: string, time: real)

  /** The record `get_metadata` returns. `fields` maps each of the seven
      text fields to its unescaped value, `None` when the tag is missing. */
  datatype Track = Track(
    file: string,
    fields: map<string, Option<string>>,
    track: int,
    duration: real,
    chapters: seq<Chapter>)

  /** Why `get_metadata` raises. */
  datatype ProbeError =
    | NoFormat      // KeyError: no 'format' object
    | NoTags        // KeyError: no 'tags' in it
    | NoTitle       // KeyError: no track tag and no title to guess from
    | NoTrackNumber // LookupError: the title has no "- Part N"
    | NoDuration    // KeyError: no 'duration'
    | BadDuration   // ValueError: float() rejects the duration
    | BadMarkers    // ParseError: the media markers are not XML
    | BadTime       // ValueError: a marker time is not a clock time

  /** The text fields copied from the tags, in the script's order. */
  const FieldNames: seq<string> := ["title", "artist", "genre", "publisher", "comment", "album", "copyright"]

  /** The tag holding OverDrive's chapter list. */
  const MarkersTag: string := "OverDrive MediaMarkers"

  /** What is parsed when that tag is missing: an empty `metadata` element. */
  const DefaultMarkers: string := "<?xml version=\"1.0\" ?>\n<metadata/>"

  /** `t.get(k)`. */
  function Get(tags: map<string, string>, k: string): Option<string> {
    if k in tags then Some(tags[k]) else None
  }

  /** `_int(s)`: `int()` of the text, `None` when there is no text or
      `int()` rejects it. */
  function IntOf(s: Option<string>): Option<int> {
    match s
    case None => None
    case Some(x) => ParseInt(x)
  }

  /** A track tag the way a tagger writes it with `%d` (zero-padded or not)
      is read back as the same number. */
  lemma {:induction false} IntOfFormatted(n: int, w: nat)
    ensures IntOf(Some(FormatInt(n, w))) == Some(n)
  {
    IntRoundTrip(n, w);
  }

  /** Track-number resolution: the `track` tag when `int()` accepts it,
      otherwise the number after the first "- Part" in the title. */
  function ResolveTrack(tags: map<string, string>): Result<int, ProbeError> {
    match IntOf(Get(tags, "track"))
    case Some(n) => Ok(n)
    case None =>
      if "title" !in tags then Err(NoTitle)
      else
        match PartNumber(tags["title"])
        case Some(n) => Ok(n)
        case None => Err(NoTrackNumber)
  }

  /** Each of the four outcomes of track resolution, and when it happens. */
  lemma {:induction false} ResolveTrackSpec(tags: map<string, string>)
    ensures var r := ResolveTrack(tags);
      var tagged := IntOf(Get(tags, "track"));
      && (tagged.Some? ==> r == Ok(tagged.value))
      && (r == Err(NoTitle) <==> tagged.None? && "title" !in tags)
      && (r == Err(NoTrackNumber) <==>
            && tagged.None? && "title" in tags
            && forall i | 0 <= i < |tags["title"]| :: PartGroupAt(tags["title"], i).None?)
      && (tagged.None? && r.Ok? ==> "title" in tags && Some(r.value) == PartNumber(tags["title"]))
  {
    if "title" in tags {
      PartNumberSpec(tags["title"]);
    }
  }

  /** A title like "My Book - Part 3" without a track tag gives track 3. */
  lemma {:induction false} TrackFromTitle()
    ensures ResolveTrack(map["title" := "My Book - Part 3"]) == Ok(3)
  {
    var tags := map["title" := "My Book - Part 3"];
    assert Get(tags, "track") == None;
    MyBookPartNumber();
  }

  /** A `Name` child that sets the chapter name. */
  predicate Names(e: Element) {
    e.tag == "Name" && e.text.Some?
  }

  /** A `Time` child that sets the chapter time. */
  predicate Times(e: Element) {
    e.tag == "Time" && e.text.Some?
  }

  /** The name a marker ends up with after its children are read in order:
      the last `Name` with text, by default "Unknown name". */
  function MarkerName(children: seq<Element>): string {
    if children == [] then "Unknown name"
    else
      var c := children[|children| - 1];
      if Names(c) then c.text.value else MarkerName(children[..|children| - 1])
  }

  /** The time a marker ends up with: the last `Time` with text read as a
      clock time, by default 0; `None` once any such text fails to read,
      since that raises before the loop ends. */
  function MarkerTime(children: seq<Element>): Option<real> {
    if children == [] then Some(0.0)
    else
      match MarkerTime(children[..|children| - 1])
      case None => None
      case Some(t) =>
        var c := children[|children| - 1];
        if Times(c) then ParseTime(c.text.value) else Some(t)
  }

  /** The chapters of the top-level elements read in order: one per
      `Marker`, other elements skipped; `None` when a time fails to read. */
  function Chapters(markers: seq<Element>): Option<seq<Chapter>> {
    if markers == [] then Some([])
    else
      match Chapters(markers[..|markers| - 1])
      case None => None
      case Some(cs) =>
        var m := markers[|markers| - 1];
        if m.tag != "Marker" then Some(cs)
        else
          match MarkerTime(m.children)
          case None => None
          case Some(t) => Some(cs + [Chapter(MarkerName(m.children), t)])
  }

  /** The marker loop of `get_metadata`: for every `Marker` element, start
      from the defaults and let each `Name` and `Time` child overwrite
      them. */
  method ExtractMarkers(root: Element) returns (r: Option<seq<Chapter>>)
    ensures r == Chapters(root.children)
  {
    var markers := root.children;
    var chapters: seq<Chapter> := [];
    var i := 0;
    while i < |markers|
      invariant 0 <= i <= |markers|
      invariant Chapters(markers[..i]) == Some(chapters)
    {
      var marker := markers[i];
      assert markers[..i + 1][..i] == markers[..i];
      if marker.tag == "Marker" {
        var name := "Unknown name";
        var time := 0.0;
        var children := marker.children;
        var j := 0;
        while j < |children|
          invariant 0 <= j <= |children|
          invariant MarkerName(children[..j]) == name
          invariant MarkerTime(children[..j]) == Some(time)
        {
          var child := children[j];
          assert children[..j + 1][..j] == children[..j];
          if child.tag == "Name" && child.text.Some? {
            name := child.text.value;
          }
          if child.tag == "Time" && child.text.Some? {
            var parsed := TsFromTime(child.text.value);
            if parsed.None? {
              assert MarkerTime(children[..j + 1]) == None;
              assert MarkerTime(marker.children) == None by {
                NoTimeAfterFailure(children, j + 1);
              }
              assert Chapters(markers[..i + 1]) == None;
              NoChaptersAfterFailure(markers, i + 1);
              assert markers[..|markers|] == markers;
              return None;
            }
            time := parsed.value;
          }
          j := j + 1;
        }
        assert children[..j] == children;
        chapters := chapters + [Chapter(name, time)];
      }
      i := i + 1;
    }
    assert markers[..i] == markers;
    return Some(chapters);
  }

  /** Once a time has failed to read, reading more children does not help. */
  lemma {:induction false} NoTimeAfterFailure(children: seq<Element>, j: nat)
    requires j <= |children| && MarkerTime(children[..j]) == None
    ensures MarkerTime(children) == None
    decreases |children| - j
  {
    if j < |children| {
      assert children[..j + 1][..j] == children[..j];
      NoTimeAfterFailure(children, j + 1);
    } else {
      assert children[..j] == children;
    }
  }

  /** Once a marker has failed, reading more elements does not help. */
  lemma {:induction false} NoChaptersAfterFailure(markers: seq<Element>, i: nat)
    requires i <= |markers| && Chapters(markers[..i]) == None
    ensures Chapters(markers[..|markers|]) == None
    decreases |markers| - i
  {
    if i < |markers| {
      assert markers[..i + 1][..i] == markers[..i];
      NoChaptersAfterFailure(markers, i + 1);
    }
  }

  /** The last `Name` child with text names the marker. */
  lemma {:induction false} LastNameWins(children: seq<Element>, j: nat)
    requires j < |children| && Names(children[j])
    requires forall k | j < k < |children| :: !Names(children[k])
    ensures MarkerName(children) == children[j].text.value
  {
    var n := |children|;
    if j < n - 1 {
      var init := children[..n - 1];
      assert forall k | j < k < |init| :: init[k] == children[k];
      LastNameWins(init, j);
    }
  }

  /** A marker without a `Name` child with text is "Unknown name". */
  lemma {:induction false} NameDefault(children: seq<Element>)
    requires forall k | 0 <= k < |children| :: !Names(children[k])
    ensures MarkerName(children) == "Unknown name"
  {
    if children != [] {
      var init := children[..|children| - 1];
      assert forall k | 0 <= k < |init| :: init[k] == children[k];
      NameDefault(init);
    }
  }

  /** A marker's time fails exactly when one of its `Time` children has
      text that is not a clock time, even one a later child would replace. */
  lemma {:induction false} TimeFails(children: seq<Element>)
    ensures MarkerTime(children).None? <==>
      exists k | 0 <= k < |children| :: Times(children[k]) && ParseTime(children[k].text.value).None?
  {
    if children != [] {
      var n := |children|;
      var init := children[..n - 1];
      assert forall k | 0 <= k < |init| :: init[k] == children[k];
      TimeFails(init);
      if MarkerTime(init).None? {
        var k :| 0 <= k < |init| && Times(init[k]) && ParseTime(init[k].text.value).None?;
        assert Times(children[k]) && ParseTime(children[k].text.value).None?;
      }
    }
  }

  /** When the time reads, the last `Time` child with text sets it. */
  lemma {:induction false} LastTimeWins(children: seq<Element>, j: nat)
    requires j < |children| && Times(children[j])
    requires forall k | j < k < |children| :: !Times(children[k])
    requires MarkerTime(children).Some?
    ensures MarkerTime(children) == ParseTime(children[j].text.value)
  {
    var n := |children|;
    if j < n - 1 {
      var init := children[..n - 1];
      assert !Times(children[n - 1]);
      assert MarkerTime(init).Some? && MarkerTime(children) == MarkerTime(init);
      assert forall k | j < k < |init| :: init[k] == children[k];
      LastTimeWins(init, j);
    }
  }

  /** A marker without a `Time` child with text starts at 0. */
  lemma {:induction false} TimeDefault(children: seq<Element>)
    requires forall k | 0 <= k < |children| :: !Times(children[k])
    ensures MarkerTime(children) == Some(0.0)
  {
    if children != [] {
      var init := children[..|children| - 1];
      assert forall k | 0 <= k < |init| :: init[k] == children[k];
      TimeDefault(init);
    }
  }

  /** The `Marker` elements among the top-level elements, in order. */
  function Markers(elements: seq<Element>): (r: seq<Element>)
    ensures forall i | 0 <= i < |r| :: r[i].tag == "Marker"
  {
    if elements == [] then []
    else
      var e := elements[|elements| - 1];
      Markers(elements[..|elements| - 1]) + (if e.tag == "Marker" then [e] else [])
  }

  /** Every `Marker` element lands in the marker list at the place the
      elements before it had reached, places grow strictly from one marker
      to a later element, and every place holds a marker placed so: the
      list is the `Marker` elements, all of them, in their order. */
  lemma {:induction false} MarkersPlaces(elements: seq<Element>)
    ensures forall i | 0 <= i < |elements| && elements[i].tag == "Marker" ::
      |Markers(elements[..i])| < |Markers(elements)| && Markers(elements)[|Markers(elements[..i])|] == elements[i]
    ensures forall i, j | 0 <= i < j <= |elements| && elements[i].tag == "Marker" ::
      |Markers(elements[..i])| < |Markers(elements[..j])|
    ensures forall k | 0 <= k < |Markers(elements)| :: MarkerFrom(elements, k)
  {
    var n := |elements|;
    var keep := seq(n, i requires 0 <= i < n => elements[i].tag == "Marker");
    var outs := seq(n + 1, i requires 0 <= i <= n => Markers(elements[..i]));
    MarkersRun(elements, keep, outs);
    FilterPlaces(elements, keep, outs);
    forall i | 0 <= i < n && elements[i].tag == "Marker"
      ensures |Markers(elements[..i])| < |Markers(elements)| && Markers(elements)[|Markers(elements[..i])|] == elements[i]
    {
      assert keep[i] && outs[i] == Markers(elements[..i]);
    }
    forall i, j | 0 <= i < j <= n && elements[i].tag == "Marker"
      ensures |Markers(elements[..i])| < |Markers(elements[..j])|
    {
      assert keep[i] && outs[i] == Markers(elements[..i]) && outs[j] == Markers(elements[..j]);
    }
    forall k | 0 <= k < |Markers(elements)|
      ensures MarkerFrom(elements, k)
    {
      assert FilterPlaced(elements, keep, outs, n, k);
      var i :| 0 <= i < n && keep[i] && |outs[i]| == k && outs[n][k] == elements[i];
      assert elements[i].tag == "Marker" && |Markers(elements[..i])| == k && Markers(elements)[k] == elements[i];
    }
  }

  /** Place `k` of the marker list holds a `Marker` element `i`, placed
      there when the elements before it had given `k`. */
  ghost predicate MarkerFrom(elements: seq<Element>, k: nat)
    requires k < |Markers(elements)|
  {
    exists i | 0 <= i < |elements| && elements[i].tag == "Marker" ::
      |Markers(elements[..i])| == k && Markers(elements)[k] == elements[i]
  }

  /** The marker lists of the prefixes are a run of the filter that keeps
      `Marker` elements. */
  lemma {:induction false} MarkersRun(elements: seq<Element>, keep: seq<bool>, outs: seq<seq<Element>>)
    requires keep == seq(|elements|, i requires 0 <= i < |elements| => elements[i].tag == "Marker")
    requires outs == seq(|elements| + 1, i requires 0 <= i <= |elements| => Markers(elements[..i]))
    ensures FilterRun(elements, keep, outs)
    ensures outs[|elements|] == Markers(elements)
  {
    forall i | 0 <= i < |elements|
      ensures outs[i + 1] == if keep[i] then outs[i] + [elements[i]] else outs[i]
    {
      assert elements[..i + 1][..i] == elements[..i];
      assert outs[i] == Markers(elements[..i]) && outs[i + 1] == Markers(elements[..i + 1]);
      assert keep[i] == (elements[i].tag == "Marker");
    }
    assert elements[..|elements|] == elements;
  }

  /** Elements that are not markers are skipped without failing: the
      chapters are those of the markers alone. */
  lemma {:induction false} OthersSkipped(elements: seq<Element>)
    ensures Chapters(elements) == Chapters(Markers(elements))
  {
    if elements != [] {
      var n := |elements|;
      var init := elements[..n - 1];
      var e := elements[n - 1];
      OthersSkipped(init);
      if e.tag == "Marker" {
        var ms := Markers(init) + [e];
        assert Markers(elements) == ms;
        assert ms[..|ms| - 1] == Markers(init) && ms[|ms| - 1] == e;
      } else {
        assert Markers(elements) == Markers(init);
      }
    }
  }

  /** Markers yield chapters exactly when every marker's time reads. */
  lemma {:induction false} ChaptersFail(markers: seq<Element>)
    requires forall i | 0 <= i < |markers| :: markers[i].tag == "Marker"
    ensures Chapters(markers).Some? <==>
      forall i | 0 <= i < |markers| :: MarkerTime(markers[i].children).Some?
  {
    if markers != [] {
      var n := |markers|;
      var init := markers[..n - 1];
      assert forall i | 0 <= i < |init| :: init[i] == markers[i];
      ChaptersFail(init);
    }
  }

  /** One chapter per marker, in document order, with the marker's name
      and time. */
  lemma {:induction false} ChapterPerMarker(markers: seq<Element>)
    requires forall i | 0 <= i < |markers| :: markers[i].tag == "Marker"
    requires Chapters(markers).Some?
    ensures var cs := Chapters(markers).value;
      && |cs| == |markers|
      && forall i | 0 <= i < |markers| ::
           MarkerTime(markers[i].children).Some?
           && cs[i] == Chapter(MarkerName(markers[i].children), MarkerTime(markers[i].children).value)
  {
    if markers != [] {
      var n := |markers|;
      var init := markers[..n - 1];
      assert forall i | 0 <= i < |init| :: init[i] == markers[i];
      ChapterPerMarker(init);
    }
  }

  /** The seven text fields: the unescaped tag, `None` when it is missing. */
  function Fields(tags: map<string, string>, unescape: string -> string): (r: map<string, Option<string>>)
    ensures r.Keys == set k | k in FieldNames
  {
    map k | k in FieldNames :: if k in tags then Some(unescape(tags[k])) else None
  }

  /** The media-marker document: the tag, or an empty `metadata` document. */
  function MarkersText(tags: map<string, string>): string {
    if MarkersTag in tags then tags[MarkersTag] else DefaultMarkers
  }

  /** `get_metadata(fname)` given ffprobe's `format` object, in the order
      the script fails: tags, track, duration, marker document, marker
      times. */
  function Metadata(file: string, probe: Option<Format>, unescape: string -> string,
                    parse: string -> Option<Element>): Result<Track, ProbeError>
  {
    match probe
    case None => Err(NoFormat)
    case Some(f) =>
      match f.tags
      case None => Err(NoTags)
      case Some(tags) =>
        match ResolveTrack(tags)
        case Err(e) => Err(e)
        case Ok(n) =>
          match f.duration
          case None => Err(NoDuration)
          case Some(d) =>
            match ParseFloat(d)
            case None => Err(BadDuration)
            case Some(duration) =>
              match parse(MarkersText(tags))
              case None => Err(BadMarkers)
              case Some(root) =>
                match Chapters(root.children)
                case None => Err(BadTime)
                case Some(cs) => Ok(Track(file, Fields(tags, unescape), n, duration, cs))
  }

  /** `get_metadata`, running the marker loop. */
  method GetMetadata(file: string, probe: Option<Format>, unescape: string -> string,
                     parse: string -> Option<Element>) returns (r: Result<Track, ProbeError>)
    ensures r == Metadata(file, probe, unescape, parse)
  {
    if probe.None? {
      return Err(NoFormat);
    }
    var f := probe.value;
    if f.tags.None? {
      return Err(NoTags);
    }
    var tags := f.tags.value;
    var track := ResolveTrack(tags);
    if track.Err? {
      return Err(track.error);
    }
    if f.duration.None? {
      return Err(NoDuration);
    }
    var duration := ParseFloat(f.duration.value);
    if duration.None? {
      return Err(BadDuration);
    }
    var root := parse(MarkersText(tags));
    if root.None? {
      return Err(BadMarkers);
    }
    var chapters := ExtractMarkers(root.value);
    if chapters.None? {
      return Err(BadTime);
    }
    return Ok(Track(file, Fields(tags, unescape), track.value, duration.value, chapters.value));
  }

  /** A file's record, when there is one: the file's own name, the
      resolved track, the duration read from its text, a field per tag, and
      one chapter per `Marker` element of the marker document, in order,
      with that marker's name and time. */
  lemma {:induction false} MetadataOk(file: string, probe: Option<Format>, unescape: string -> string,
                                      parse: string -> Option<Element>)
    requires Metadata(file, probe, unescape, parse).Ok?
    ensures var t := Metadata(file, probe, unescape, parse).value;
      && t.file == file
      && probe.Some? && probe.value.tags.Some? && probe.value.duration.Some?
      && var tags := probe.value.tags.value;
      && ResolveTrack(tags) == Ok(t.track)
      && ParseFloat(probe.value.duration.value) == Some(t.duration)
      && (forall k | k in FieldNames :: t.fields[k] == if k in tags then Some(unescape(tags[k])) else None)
      && parse(MarkersText(tags)).Some?
      && var ms := Markers(parse(MarkersText(tags)).value.children);
      && |t.chapters| == |ms|
      && forall i | 0 <= i < |ms| ::
           MarkerTime(ms[i].children).Some?
           && t.chapters[i] == Chapter(MarkerName(ms[i].children), MarkerTime(ms[i].children).value)
  {
    var tags := probe.value.tags.value;
    var root := parse(MarkersText(tags)).value;
    OthersSkipped(root.children);
    ChapterPerMarker(Markers(root.children));
  }

  /** With no marker tag the record has no chapters, given that the default
      document parses as an element without children. */
  lemma {:induction false} NoMarkersNoChapters(file: string, probe: Option<Format>, unescape: string -> string,
                                               parse: string -> Option<Element>)
    requires parse(DefaultMarkers).Some? && parse(DefaultMarkers).value.children == []
    requires probe.Some? && probe.value.tags.Some? && MarkersTag !in probe.value.tags.value
    ensures var r := Metadata(file, probe, unescape, parse);
      r.Ok? <==> (ResolveTrack(probe.value.tags.value).Ok?
                  && probe.value.duration.Some? && ParseFloat(probe.value.duration.value).Some?)
    ensures var r := Metadata(file, probe, unescape, parse);
      r.Ok? ==> r.value.chapters == []
  {
  }

  /** The record fails with a bad time exactly when everything before the
      markers succeeds and some marker has a `Time` child whose text is not
      a clock time. */
  lemma {:induction false} BadTimeSpec(file: string, probe: Option<Format>, unescape: string -> string,
                                       parse: string -> Option<Element>)
    requires probe.Some? && probe.value.tags.Some?
    requires ResolveTrack(probe.value.tags.value).Ok?
    requires probe.value.duration.Some? && ParseFloat(probe.value.duration.value).Some?
    requires parse(MarkersText(probe.value.tags.value)).Some?
    ensures var ms := Markers(parse(MarkersText(probe.value.tags.value)).value.children);
      Metadata(file, probe, unescape, parse) == Err(BadTime) <==>
      exists i, k | 0 <= i < |ms| && 0 <= k < |ms[i].children| ::
        Times(ms[i].children[k]) && ParseTime(ms[i].children[k].text.value).None?
  {
    var root := parse(MarkersText(probe.value.tags.value)).value;
    var ms := Markers(root.children);
    OthersSkipped(root.children);
    ChaptersFail(ms);
    forall i | 0 <= i < |ms| ensures MarkerTime(ms[i].children).None? <==>
      exists k | 0 <= k < |ms[i].children| ::
        Times(ms[i].children[k]) && ParseTime(ms[i].children[k].text.value).None?
    {
      TimeFails(ms[i].children);
    }
  }
}
