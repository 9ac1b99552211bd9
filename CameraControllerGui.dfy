/** The capture window's saving logic: the output path built from the Saving
    tab, the counters a save advances, the `.yaml` sidecar name, the
    slow-time-series trigger in the timer event, the metadata mapping, and the
    format file named when the ROI changes.  Widget texts and check states
    are the fields of a plain record; the clock readings, the dialog replies
    and the random frames are inputs. */
module CameraControllerGui {
  import opened PyText
  import DummyImageSource
  import EpixFramegrabber

  /** The Saving tab. */
  datatype SavingFields = SavingFields(
    root: string,          // typingspace
    dirNumberOn: bool,     // numberincrementdir
    dirNumber: string,     // keynumberdir
    dirTextOn: bool,       // keyworddir
    dirText: string,       // keywordvaldir
    dateOn: bool,          // currentdatelabel
    timeOn: bool,          // currenttimelabel
    keywordOn: bool,       // imageKeywordToggle
    keyword: string,       // imageKeyword
    numberOn: bool,        // numberincrement
    number: string,        // keynumber
    format: string,        // outputformat.currentText()
    saveMeta: bool)        // saveMetaYes

  /** `time.strftime("%y%m%d")` and `time.strftime("%H%M%S")`. */
  datatype Clock = Clock(date: string, time: string)

  function Opt(on: bool, s: string): string
  {
    if on then s else ""
  }

  /** The root followed by the directory part, each closed by one '/'. */
  function DirPrefix(f: SavingFields): string
  {
    var base := f.root + "/";
    if f.dirNumberOn && f.dirTextOn then base + f.dirNumber + f.dirText + "/"
    else if f.dirNumberOn then base + f.dirNumber + "/"
    else if f.dirTextOn then base + f.dirText + "/"
    else base
  }

  /** Only the two offered formats add an extension. */
  function Extension(format: string): string
  {
    (if format == ".tif" then ".tif" else "") + (if format == ".png" then ".png" else "")
  }

  /** Everything before the file counter. */
  function Stem(f: SavingFields, clock: Clock): string
  {
    DirPrefix(f) + Opt(f.dateOn, clock.date) + Opt(f.timeOn, clock.time) + Opt(f.keywordOn, f.keyword)
  }

  lemma ExtensionAppend(x: string, format: string)
    ensures x + Opt(format == ".tif", ".tif") + Opt(format == ".png", ".png") == x + Extension(format)
  {
    var t := Opt(format == ".tif", ".tif");
    var p := Opt(format == ".png", ".png");
    assert x + t + p == x + (t + p);
  }

  /** The output path `createFilename` builds. */
  function FileName(f: SavingFields, clock: Clock): string
  {
    Stem(f, clock) + Opt(f.numberOn, f.number) + Extension(f.format)
  }

  /** The path is the parts in order: root and '/', the directory part, date,
      time, keyword, file counter, extension. */
  lemma FileNameParts(f: SavingFields, clock: Clock)
    ensures var dir :=
              if f.dirNumberOn && f.dirTextOn then f.dirNumber + f.dirText + "/"
              else if f.dirNumberOn then f.dirNumber + "/"
              else if f.dirTextOn then f.dirText + "/"
              else "";
            FileName(f, clock)
              == f.root + "/" + dir + Opt(f.dateOn, clock.date) + Opt(f.timeOn, clock.time)
                 + Opt(f.keywordOn, f.keyword) + Opt(f.numberOn, f.number) + Extension(f.format)
  {
    var base := f.root + "/";
    if f.dirNumberOn && f.dirTextOn {
      assert base + f.dirNumber + f.dirText + "/" == base + (f.dirNumber + f.dirText + "/");
    } else if f.dirNumberOn {
      assert base + f.dirNumber + "/" == base + (f.dirNumber + "/");
    } else if f.dirTextOn {
      assert base + f.dirText + "/" == base + (f.dirText + "/");
    } else {
      assert base + "" == base;
    }
  }

  /** ".tif" and ".png" are appended as they are; any other selection appends
      nothing, so all other selections give the same path. */
  lemma ExtensionChoice(f: SavingFields, clock: Clock, other: string)
    requires other != ".tif" && other != ".png"
    ensures FileName(f.(format := ".tif"), clock) == FileName(f.(format := other), clock) + ".tif"
    ensures FileName(f.(format := ".png"), clock) == FileName(f.(format := other), clock) + ".png"
    ensures FileName(f.(format := other), clock) == Stem(f, clock) + Opt(f.numberOn, f.number)
  {
    var sn := Stem(f, clock) + Opt(f.numberOn, f.number);
    StemIgnoresFormat(f, clock, other);
    StemIgnoresFormat(f, clock, ".tif");
    StemIgnoresFormat(f, clock, ".png");
    assert Extension(other) == "" + "";
    assert sn + ("" + "") == sn;
    assert Extension(".tif") == ".tif" + "";
    assert Extension(".png") == "" + ".png";
  }

  lemma StemIgnoresFormat(f: SavingFields, clock: Clock, x: string)
    ensures Stem(f.(format := x), clock) + Opt(f.numberOn, f.number) == Stem(f, clock) + Opt(f.numberOn, f.number)
  {
    assert DirPrefix(f.(format := x)) == DirPrefix(f);
  }

  const DefaultRoot: string := "C:/Users/manoharanlab/data/[YOUR NAME]"
  const ZeroCount: string := "0000"
  const ZeroDir: string := "00"

  /** `str(0).zfill(4)` and `str(0).zfill(2)`. */
  lemma ZeroCounts()
    ensures Pad(0, 4) == ZeroCount && Pad(0, 2) == ZeroDir
  {
    assert NatToDec(0) == "0";
    assert Zeros(3) == "000";
    assert Zeros(1) == "0";
  }

  /** The fields `resetSavingOptions` writes; the directory text and the
      metadata box keep their values. */
  function ResetFields(f: SavingFields): SavingFields
  {
    f.(format := ".tif", keywordOn := true, keyword := "image", dateOn := false, timeOn := false,
       numberOn := true, number := ZeroCount, dirNumberOn := true, dirNumber := ZeroDir,
       dirTextOn := false, root := DefaultRoot)
  }

  /** Whether writing `g` over `f` changes a widget whose change signal
      re-runs `createFilename` (all but the format box, which only reacts to a
      user's choice). */
  predicate SignalledChange(f: SavingFields, g: SavingFields)
  {
    || f.root != g.root || f.dirNumberOn != g.dirNumberOn || f.dirNumber != g.dirNumber
    || f.dirTextOn != g.dirTextOn || f.dirText != g.dirText || f.dateOn != g.dateOn
    || f.timeOn != g.timeOn || f.keywordOn != g.keywordOn || f.keyword != g.keyword
    || f.numberOn != g.numberOn || f.number != g.number
  }

  /** With the defaults and root R the path is R + "/00/image0000.tif",
      whatever the clock and the directory text. */
  lemma DefaultFileName(f: SavingFields, clock: Clock, r: string)
    ensures FileName(ResetFields(f).(root := r), clock) == r + "/00/image0000.tif"
  {
    var g := ResetFields(f).(root := r);
    assert DirPrefix(g) == r + "/" + "00" + "/";
    assert Stem(g, clock) == r + "/" + "00" + "/" + "" + "" + "image";
    assert r + "/" + "00" + "/" + "" + "" + "image" + "0000" + ".tif" == r + "/00/image0000.tif";
  }

  /** The default path itself. */
  lemma DefaultPath(f: SavingFields, clock: Clock)
    ensures FileName(ResetFields(f), clock) == "C:/Users/manoharanlab/data/[YOUR NAME]/00/image0000.tif"
  {
    DefaultFileName(f, clock, DefaultRoot);
    assert ResetFields(f).(root := DefaultRoot) == ResetFields(f);
  }

  /** Two clock readings whose date and time strings have the same widths,
      as `%y%m%d` and `%H%M%S` always do. */
  predicate SameWidths(c1: Clock, c2: Clock)
  {
    |c1.date| == |c2.date| && |c1.time| == |c2.time|
  }

  lemma StemWidths(f: SavingFields, g: SavingFields, c1: Clock, c2: Clock)
    requires SameWidths(c1, c2) && g == f.(number := g.number)
    ensures |Stem(f, c1)| == |Stem(g, c2)|
  {
    assert DirPrefix(f) == DirPrefix(g);
  }

  /** Distinct counter values give distinct paths, all else equal, even
      when the two paths are built at different times. */
  lemma NumberedNamesDistinct(f: SavingFields, c1: Clock, c2: Clock, j: nat, k: nat)
    requires f.numberOn && j != k && SameWidths(c1, c2)
    ensures FileName(f.(number := Pad(j, 4)), c1) != FileName(f.(number := Pad(k, 4)), c2)
  {
    var fj, fk := f.(number := Pad(j, 4)), f.(number := Pad(k, 4));
    PadInjective(j, k, 4);
    StemWidths(fj, fk, c1, c2);
    assert Extension(fj.format) == Extension(fk.format);
    if FileName(fj, c1) == FileName(fk, c2) {
      CancelSuffix(Stem(fj, c1) + Pad(j, 4), Stem(fk, c2) + Pad(k, 4), Extension(f.format));
      SplitAt(Stem(fj, c1), Pad(j, 4), Stem(fk, c2), Pad(k, 4));
    }
  }

  /** Without the date and time boxes the path does not depend on the
      clock. */
  lemma ClockFree(f: SavingFields, c1: Clock, c2: Clock)
    requires !f.dateOn && !f.timeOn
    ensures FileName(f, c1) == FileName(f, c2)
  {
  }

  /** With the time box checked, two readings of different times (of the
      same widths) give different paths. */
  /** With the time box checked the path is what precedes the time, the time,
      and what follows it. */
  lemma TimeSplit(f: SavingFields, c: Clock, rest: string)
    requires f.timeOn && rest == Opt(f.keywordOn, f.keyword) + Opt(f.numberOn, f.number) + Extension(f.format)
    ensures FileName(f, c) == (DirPrefix(f) + Opt(f.dateOn, c.date)) + (c.time + rest)
  {
    var a, d, k, n, e := DirPrefix(f), Opt(f.dateOn, c.date), Opt(f.keywordOn, f.keyword), Opt(f.numberOn, f.number), Extension(f.format);
    calc {
      FileName(f, c);
      a + d + c.time + k + n + e;
      { Regroup(a + d, c.time, k, n, e); }
      (a + d) + (c.time + (k + n + e));
    }
  }

  lemma Regroup(p: string, t: string, k: string, n: string, e: string)
    ensures p + t + k + n + e == p + (t + (k + n + e))
  {
    assert p + t + k == p + (t + k);
    assert (t + k) + n + e == t + (k + n + e);
  }

  lemma TimeInPath(f: SavingFields, c1: Clock, c2: Clock)
    requires f.timeOn && SameWidths(c1, c2) && c1.time != c2.time
    ensures FileName(f, c1) != FileName(f, c2)
  {
    var rest := Opt(f.keywordOn, f.keyword) + Opt(f.numberOn, f.number) + Extension(f.format);
    var p1 := DirPrefix(f) + Opt(f.dateOn, c1.date);
    var p2 := DirPrefix(f) + Opt(f.dateOn, c2.date);
    var x1 := FileName(f, c1);
    var x2 := FileName(f, c2);
    TimeSplit(f, c1, rest);
    TimeSplit(f, c2, rest);
    if x1 == x2 {
      SplitAt(p1, c1.time + rest, p2, c2.time + rest);
      CancelSuffix(c1.time, c2.time, rest);
    }
  }

  /** The sidecar name: `tempname[:-len(ext)] + 'yaml'` with `ext` the last
      dot-separated part.  Python's `[:-0]` is empty, so a name ending in '.'
      gives just "yaml"; so does a name without any dot. */
  function Sidecar(name: string): string
  {
    var parts := Split(name, '.');
    var ext := parts[|parts| - 1];
    (if |ext| == 0 || |ext| >= |name| then "" else name[..|name| - |ext|]) + "yaml"
  }

  /** The last dot-separated part of `t.e` is `e` when `e` has no dot. */
  lemma LastPart(t: string, e: string)
    requires '.' !in e
    ensures var parts := Split(t + "." + e, '.'); parts[|parts| - 1] == e
  {
    assert t + "." + e == t + ['.'] + e;
    SplitAround(t, e, '.');
    SplitNoSep(e, '.');
  }

  /** The extension is replaced by "yaml": "d/image0000.tif" gives
      "d/image0000.yaml". */
  lemma SidecarReplacesExtension(t: string, e: string)
    requires '.' !in e && |e| > 0
    ensures Sidecar(t + "." + e) == t + ".yaml"
  {
    var name := t + "." + e;
    LastPart(t, e);
    assert name[..|name| - |e|] == t + ".";
  }

  /** A name ending in '.' has an empty extension and gives "yaml". */
  lemma SidecarTrailingDot(t: string)
    ensures Sidecar(t + ".") == "yaml"
  {
    LastPart(t, "");
    assert t + "." + "" == t + ".";
  }

  /** A name without a dot is its own last part and gives "yaml". */
  lemma SidecarNoDot(name: string)
    requires '.' !in name
    ensures Sidecar(name) == "yaml"
  {
    SplitNoSep(name, '.');
  }

  lemma SidecarExample()
    ensures Sidecar("d/image0000.tif") == "d/image0000.yaml"
  {
    SidecarReplacesExtension("d/image0000", "tif");
    assert "d/image0000" + "." + "tif" == "d/image0000.tif";
    assert "d/image0000" + ".yaml" == "d/image0000.yaml";
  }

  /** With a .tif or .png selection the sidecar of the path is the path with
      its extension replaced by "yaml". */
  lemma SidecarOfFileName(f: SavingFields, clock: Clock)
    requires f.format == ".tif" || f.format == ".png"
    ensures Sidecar(FileName(f, clock)) == FileName(f.(format := ""), clock) + ".yaml"
  {
    var base := FileName(f.(format := ""), clock);
    ExtensionChoice(f, clock, "");
    if f.format == ".tif" {
      assert f.(format := ".tif") == f;
      assert base + ".tif" == base + "." + "tif";
      SidecarReplacesExtension(base, "tif");
    } else {
      assert f.(format := ".png") == f;
      assert base + ".png" == base + "." + "png";
      SidecarReplacesExtension(base, "png");
    }
  }

  /** The ROI sizes offered, by combo-box index. */
  const RoiSizes: seq<int> := [1024, 512, 256, 128, 64]

  /** Python list indexing: negative indices count from the end; out of
      range is an IndexError (None). */
  function PyIndex(s: seq<int>, i: int): Option<int>
  {
    if 0 <= i < |s| then Some(s[i])
    else if -|s| <= i < 0 then Some(s[|s| + i])
    else None
  }

  /** The format file `changeROISize` names for bit-depth text `depth` and
      ROI index `index`. */
  function RoiFormatFile(depth: string, index: int): Option<string>
  {
    match PyIndex(RoiSizes, index)
    case None => None
    case Some(s) => Some("PhotonFocus_" + (depth + ("_" + (Str(s) + ("x" + (Str(s) + ".fmt"))))))
  }

  lemma RoiNameShape(bd: int, rest: string)
    ensures "PhotonFocus_" + ((Str(bd) + "bit") + ("_" + rest))
            == "PhotonFocus" + ("_" + (Str(bd) + ("bit_" + rest)))
  {
    assert (Str(bd) + "bit") + ("_" + rest) == Str(bd) + ("bit_" + rest);
    assert "PhotonFocus_" + (Str(bd) + ("bit_" + rest)) == "PhotonFocus" + ("_" + (Str(bd) + ("bit_" + rest)));
  }

  /** For a bit-depth entry "<b>bit" and an offered ROI size s, the name is
      the one the frame grabber builds for camera "PhotonFocus", depth b and
      an s-by-s ROI. */
  lemma RoiFormatMatchesGrabber(bd: int, index: int)
    requires 0 <= index < |RoiSizes|
    ensures RoiFormatFile(Str(bd) + "bit", index)
            == Some(EpixFramegrabber.FormatName(Some("PhotonFocus"), bd, RoiSizes[index], RoiSizes[index]))
  {
    var s := RoiSizes[index];
    RoiNameShape(bd, Str(s) + ("x" + (Str(s) + ".fmt")));
  }

  /** `size[current]` fails only outside -5..4. */
  lemma RoiIndexRange(depth: string, index: int)
    ensures RoiFormatFile(depth, index).Some? <==> -5 <= index < 5
    ensures -5 <= index < 0 ==> RoiFormatFile(depth, index) == RoiFormatFile(depth, index + 5)
  {
  }

  /** The Meta Data tab: each exclusive group's checked button text and the
      text fields beside it. */
  datatype MetadataForm = MetadataForm(
    microscope: string, otherScope: string,
    light: string, otherLight: string,
    objective: string, otherObjective: string, collar: string,
    tubeYes: bool, notes: string)

  const CollarObjective: string := "Nikon 60x Water Immersion, Correction Collar:"

  /** `createYaml`'s dictionary: always the same five keys, and a tube
      entry that is one of the two magnifications. */
  function CreateYaml(m: MetadataForm): (r: map<string, string>)
    ensures r.Keys == {"Microscope", "Light", "Objective", "TubeMagnification", "Notes"}
    ensures r["TubeMagnification"] == "1.0X" || r["TubeMagnification"] == "1.5X"
  {
    var micro := if m.microscope == "Other:" then m.otherScope else m.microscope;
    var light := if m.light == "Other:" then m.otherLight else m.light;
    var obj := if m.objective == "Other:" then m.otherObjective
               else if m.objective == CollarObjective then m.objective + m.collar
               else m.objective;
    map["Microscope" := micro, "Light" := light, "Objective" := obj,
        "TubeMagnification" := if m.tubeYes then "1.5X" else "1.0X", "Notes" := m.notes]
  }

  /** A text field whose button is not checked never reaches the metadata:
      changing it leaves the whole dictionary as it was. */
  lemma CreateYamlIgnoresUnselected(m: MetadataForm, x: string)
    ensures m.microscope != "Other:" ==> CreateYaml(m.(otherScope := x)) == CreateYaml(m)
    ensures m.light != "Other:" ==> CreateYaml(m.(otherLight := x)) == CreateYaml(m)
    ensures m.objective != "Other:" ==> CreateYaml(m.(otherObjective := x)) == CreateYaml(m)
    ensures m.objective != CollarObjective ==> CreateYaml(m.(collar := x)) == CreateYaml(m)
  {
  }

  /** The text typed beside a checked "Other:" button is recorded as it is,
      the collar text follows the collar objective's name, the box decides
      the tube entry, and the notes are copied. */
  lemma CreateYamlRecordsSelected(m: MetadataForm, x: string)
    ensures m.microscope == "Other:" ==> CreateYaml(m.(otherScope := x))["Microscope"] == x
    ensures m.light == "Other:" ==> CreateYaml(m.(otherLight := x))["Light"] == x
    ensures m.objective == "Other:" ==> CreateYaml(m.(otherObjective := x))["Objective"] == x
    ensures m.objective == CollarObjective ==> CreateYaml(m.(collar := x))["Objective"] == CollarObjective + x
    ensures CreateYaml(m)["TubeMagnification"] == "1.5X" <==> m.tubeYes
    ensures CreateYaml(m.(notes := x))["Notes"] == x
  {
  }

  /** A checked button other than "Other:" and the collar objective is
      recorded by its own text, whatever the text fields hold. */
  lemma CreateYamlRecordsButton(m: MetadataForm)
    ensures m.microscope != "Other:" ==> CreateYaml(m)["Microscope"] == m.microscope
    ensures m.light != "Other:" ==> CreateYaml(m)["Light"] == m.light
    ensures m.objective != "Other:" && m.objective != CollarObjective ==>
              CreateYaml(m)["Objective"] == m.objective
  {
  }

  /** The exclusive group of the five capture buttons: the checked one. */
  datatype Mode = LiveMode | FreezeMode | SaveMode | FastSeriesMode | SlowSeriesMode

  /** The Python exceptions a save or a tick can raise. */
  datatype PyError = ValueError | NameError | AttributeError | TypeError | IndexError

  /** The reply to the "Output Filename" dialog, whose text starts as the
      proposed name: OK on it unchanged, OK on another text, or Cancel. */
  datatype Reply = Accept | Rename(text: string) | Cancel

  function DialogName(r: Reply, proposed: string): string
  {
    match r
    case Rename(t) => t
    case _ => proposed
  }

  /** The window's state that saving and the timer change. */
  datatype GuiState = GuiState(
    fields: SavingFields, filename: string, mode: Mode,
    lastmod: real, imageCounter: int, lastimageflag: bool)

  /** A state, the paths written (in order) and the exception raised, if any. */
  datatype Step = Step(state: GuiState, written: seq<string>, error: Option<PyError>)

  /** The path shown is the one the saving fields give. */
  predicate Consistent(s: GuiState, clock: Clock)
  {
    s.filename == FileName(s.fields, clock)
  }

  /** The clock readings seen by the `createFilename` calls of one save,
      each taken when its call runs: at the series restart, in the nested
      sidecar save (after its dialog is answered), and after the save's own
      dialog. */
  datatype Readings = Readings(restart: Clock, sidecar: Clock, after: Clock)

  /** Every call of a save sees the same reading. */
  function Same(c: Clock): Readings
  {
    Readings(c, c, c)
  }

  /** `t` keeps the path and the fields of `s`, or its path is the one its
      fields give at one of the readings. */
  predicate PathFrom(s: GuiState, t: GuiState, rd: Readings)
  {
    || (t.filename == s.filename && t.fields == s.fields)
    || Consistent(t, rd.restart) || Consistent(t, rd.sidecar) || Consistent(t, rd.after)
  }

  /** `t` differs from `s` at most in the two counters, the path, and (at
      the end of a slow series) the checked button turned to Live. */
  predicate Keeps(s: GuiState, t: GuiState, slowseries: bool)
  {
    && t.fields == s.fields.(number := t.fields.number, dirNumber := t.fields.dirNumber)
    && t.lastmod == s.lastmod && t.imageCounter == s.imageCounter && t.lastimageflag == s.lastimageflag
    && (t.mode == s.mode || (slowseries && s.lastimageflag && t.mode == LiveMode))
  }

  /** `createFilename` on a state. */
  function Recreate(s: GuiState, clock: Clock): GuiState
  {
    s.(filename := FileName(s.fields, clock))
  }

  /** The directory counter step that ends a save: `int(keynumberdir) + 1`,
      the file counter back to "0000", then a new path. */
  function DirStep(s: GuiState, img: bool, clock: Clock): (r: Step)
    ensures r.written == [] && Keeps(s, r.state, false)
    ensures Consistent(s, clock) ==> Consistent(r.state, clock)
  {
    if img && s.fields.dirNumberOn then
      match Bump(s.fields.dirNumber, 2)
      case None => Step(s, [], Some(ValueError))
      case Some(d) => Step(Recreate(s.(fields := s.fields.(number := ZeroCount, dirNumber := d)), clock), [], None)
    else Step(Recreate(s, clock), [], None)
  }

  /** What follows a successful write of the one frame of a non-series save:
      the file counter step, a new path, then the directory step unless this
      is a slow-series frame that is not the last. */
  function AfterWrite(s: GuiState, img: bool, slowseries: bool, clock: Clock): (r: Step)
    ensures r.written == [] && Keeps(s, r.state, slowseries)
    ensures r.state == s || Consistent(r.state, clock)
  {
    var next := if img && s.fields.numberOn then Bump(s.fields.number, 4) else Some(s.fields.number);
    match next
    case None => Step(s, [], Some(ValueError))
    case Some(t) => AfterNumber(Recreate(s.(fields := s.fields.(number := t)), clock), img, slowseries, clock)
  }

  /** After the file counter step: the directory step, except within a slow
      series before its last frame, which turns the checked button to Live. */
  function AfterNumber(s: GuiState, img: bool, slowseries: bool, clock: Clock): (r: Step)
    ensures r.written == [] && Keeps(s, r.state, slowseries)
    ensures Consistent(s, clock) ==> Consistent(r.state, clock)
  {
    if !slowseries then DirStep(s, img, clock)
    else if s.lastimageflag then DirStep(s.(mode := LiveMode), img, clock)
    else Step(s, [], None)
  }

  /** `saveImageOrYaml(img, series, slowseries)`: `reply` answers its dialog,
      `metaReply` the dialog of the nested metadata save, `framesText` is the
      fast-series frame count, and `rd` the clock readings. */
  function Save(s: GuiState, img: bool, series: bool, slowseries: bool, reply: Reply, metaReply: Reply,
                framesText: string, rd: Readings): (r: Step)
    ensures Keeps(s, r.state, slowseries)
    ensures PathFrom(s, r.state, rd)
    decreases if img then 1 else 0, 1
  {
    var m := Prepare(s, img, series, metaReply, framesText, rd.restart, rd.sidecar);
    if m.error.Some? then m else Finish(m.state, m.written, img, series, slowseries, reply, framesText, rd.after)
  }

  /** The start of a save: a series restarts the file counter (a new path
      at reading `restart`), and an image save first writes the metadata
      sidecar when that is asked for (its own path at reading `sidecar`). */
  function Prepare(s: GuiState, img: bool, series: bool, metaReply: Reply, framesText: string,
                   restart: Clock, sidecar: Clock): (r: Step)
    ensures Keeps(s, r.state, false)
    ensures r.state == s || Consistent(r.state, restart) || Consistent(r.state, sidecar)
    decreases if img then 1 else 0, 0
  {
    var s1 := if img && series && s.fields.numberOn
              then Recreate(s.(fields := s.fields.(number := ZeroCount)), restart) else s;
    if img && s1.fields.saveMeta
    then Save(s1, false, false, false, metaReply, metaReply, framesText, Same(sidecar))
    else Step(s1, [], None)
  }

  /** The rest of a save, after `written`: the dialog, then the frames. */
  function Finish(s: GuiState, written: seq<string>, img: bool, series: bool, slowseries: bool, reply: Reply,
                  framesText: string, clock: Clock): (r: Step)
    ensures Keeps(s, r.state, slowseries)
    ensures r.state == s || Consistent(r.state, clock)
  {
    var proposed := if img then s.filename else Sidecar(s.filename);
    var name := if slowseries then proposed else DialogName(reply, proposed);
    if !slowseries && reply.Cancel? then Step(s, written, None)
    else if !series then
      var w := AfterWrite(s, img, slowseries, clock);
      Step(w.state, written + [name], w.error)
    else
      match ParseInt(framesText)
      case None => Step(s, written, Some(ValueError))
      case Some(k) => Step(s, written, if k >= 1 then Some(NameError) else None)
  }

  /** The slow-series part of `timerEvent`, with `currentmod` the clock
      reading modulo the interval and `requested` the frame count as a
      float (None when it does not parse). */
  function Tick(s: GuiState, currentmod: real, requested: Option<real>, metaReply: Reply, rd: Readings): Step
  {
    if !(s.mode == SlowSeriesMode && !s.lastimageflag) then Step(s, [], None)
    else if currentmod == 0.0 && s.lastmod != 0.0 then Fire(s, currentmod, requested, metaReply, rd)
    else Step(s.(lastmod := currentmod), [], None)
  }

  /** A tick at a recording time: count the frame, mark it the last when the
      count reaches the requested number, save it without a dialog. */
  function Fire(s: GuiState, currentmod: real, requested: Option<real>, metaReply: Reply, rd: Readings): Step
  {
    var c := s.imageCounter + 1;
    match requested
    case None => Step(s.(imageCounter := c), [], Some(ValueError))
    case Some(r) =>
      var s1 := if c as real == r then s.(imageCounter := c, lastimageflag := true) else s.(imageCounter := c);
      var sv := Save(s1, true, false, true, Accept, metaReply, "", rd);
      if sv.error.Some? then sv else Step(sv.state.(lastmod := currentmod), sv.written, None)
  }

  /** `resetSavingOptions`: the defaults, and a new path when some widget
      with a change signal changed. */
  function AfterReset(s: GuiState, clock: Clock): GuiState
  {
    var g := ResetFields(s.fields);
    s.(fields := g, filename := if SignalledChange(s.fields, g) then FileName(g, clock) else s.filename)
  }

  /** A metadata save never fails; unless cancelled it writes the sidecar
      of the current path and only rebuilds the path, at the reading after
      its dialog; cancelled it changes nothing. */
  lemma MetadataSave(s: GuiState, reply: Reply, rd: Readings)
    ensures var r := Save(s, false, false, false, reply, reply, "", rd);
            && r.error == None
            && r.state == (if reply.Cancel? then s else Recreate(s, rd.after))
            && r.written == if reply.Cancel? then [] else [DialogName(reply, Sidecar(s.filename))]
  {
    assert s.fields.(number := s.fields.number) == s.fields;
    assert Prepare(s, false, false, reply, "", rd.restart, rd.sidecar) == Step(s, [], None);
    var w := AfterWrite(s, false, false, rd.after);
    assert w == DirStep(Recreate(s, rd.after), false, rd.after);
    assert w == Step(Recreate(s, rd.after), [], None);
  }

  /** One accepted image save, its sidecar off and the counters holding
      padded numbers: the path (or the typed one) is written, the file
      counter advances by one, or with the directory counter on that
      advances instead and the file counter restarts at "0000"; the new path
      is built at the reading after the dialog. */
  lemma ImageSave(s: GuiState, reply: Reply, metaReply: Reply, rd: Readings, n: nat, d: nat)
    requires !reply.Cancel? && !s.fields.saveMeta
    requires s.fields.numberOn ==> s.fields.number == Pad(n, 4)
    requires s.fields.dirNumberOn ==> s.fields.dirNumber == Pad(d, 2)
    ensures var r := Save(s, true, false, false, reply, metaReply, "", rd);
            var g := if s.fields.dirNumberOn then s.fields.(number := Pad(0, 4), dirNumber := Pad(d + 1, 2))
                     else if s.fields.numberOn then s.fields.(number := Pad(n + 1, 4))
                     else s.fields;
            && r.error == None
            && r.written == [DialogName(reply, s.filename)]
            && r.state == s.(fields := g, filename := FileName(g, rd.after))
  {
    BumpPad(n, 4);
    BumpPad(d, 2);
    ZeroCounts();
  }

  /** Two accepted image saves in a row, numbered files in a fixed
      directory: the second writes a different path from the first, at
      whatever times the paths were built. */
  lemma ConsecutiveSavesDistinct(s: GuiState, clock: Clock, rd1: Readings, rd2: Readings, n: nat)
    requires Consistent(s, clock) && !s.fields.saveMeta && SameWidths(clock, rd1.after)
    requires s.fields.numberOn && !s.fields.dirNumberOn && s.fields.number == Pad(n, 4)
    ensures var r1 := Save(s, true, false, false, Accept, Accept, "", rd1);
            var r2 := Save(r1.state, true, false, false, Accept, Accept, "", rd2);
            && r1.written == [s.filename] && r2.written == [r1.state.filename]
            && s.filename != r1.state.filename
  {
    ImageSave(s, Accept, Accept, rd1, n, 0);
    var r1 := Save(s, true, false, false, Accept, Accept, "", rd1);
    ImageSave(r1.state, Accept, Accept, rd2, n + 1, 0);
    NumberedNamesDistinct(s.fields, clock, rd1.after, n, n + 1);
    assert s.fields == s.fields.(number := Pad(n, 4));
  }

  /** A file counter `int` rejects: the frame is written, then the save
      stops with a ValueError before any counter or the path moves. */
  lemma CounterTextRejected(s: GuiState, reply: Reply, metaReply: Reply, rd: Readings)
    requires !reply.Cancel? && !s.fields.saveMeta
    requires s.fields.numberOn && ParseInt(s.fields.number).None?
    ensures var r := Save(s, true, false, false, reply, metaReply, "", rd);
            r.error == Some(ValueError) && r.written == [DialogName(reply, s.filename)] && r.state == s
  {
  }

  /** Cancelling the dialog of a single save writes nothing and changes
      nothing. */
  lemma CancelledSave(s: GuiState, img: bool, metaReply: Reply, rd: Readings)
    requires !(img && s.fields.saveMeta)
    ensures Save(s, img, false, false, Cancel, metaReply, "", rd) == Step(s, [], None)
  {
  }

  /** With the sidecar box checked, an accepted image save writes the sidecar
      first, named after the path shown before the save, and then the image
      at the path rebuilt with the reading taken after the sidecar dialog. */
  lemma ImageWithMetadata(s: GuiState, metaReply: Reply, rd: Readings)
    requires s.fields.saveMeta && !metaReply.Cancel?
    ensures Save(s, true, false, false, Accept, metaReply, "", rd).written
            == [DialogName(metaReply, Sidecar(s.filename)), FileName(s.fields, rd.sidecar)]
  {
    MetadataSave(s, metaReply, Same(rd.sidecar));
  }

  /** Without the date and time boxes the sidecar accepted as proposed and
      the image share their stem: the sidecar is the image path with its
      extension replaced by "yaml". */
  lemma SidecarBesideImage(s: GuiState, clock: Clock, rd: Readings)
    requires Consistent(s, clock) && s.fields.saveMeta && !s.fields.dateOn && !s.fields.timeOn
    requires s.fields.format == ".tif" || s.fields.format == ".png"
    ensures var w := Save(s, true, false, false, Accept, Accept, "", rd).written;
            && w == [Sidecar(s.filename), s.filename]
            && Sidecar(s.filename) == FileName(s.fields.(format := ""), clock) + ".yaml"
  {
    ImageWithMetadata(s, Accept, rd);
    ClockFree(s.fields, clock, rd.sidecar);
    SidecarOfFileName(s.fields, clock);
  }

  /** With the time box checked, an answer to the sidecar dialog given at a
      later time than the path shown was built puts the image at another
      path than the one the sidecar is named after. */
  lemma SidecarAndImageApart(s: GuiState, clock: Clock, metaReply: Reply, rd: Readings)
    requires Consistent(s, clock) && s.fields.saveMeta && !metaReply.Cancel?
    requires s.fields.timeOn && SameWidths(clock, rd.sidecar) && clock.time != rd.sidecar.time
    ensures var w := Save(s, true, false, false, Accept, metaReply, "", rd).written;
            |w| == 2 && w[1] != s.filename
  {
    ImageWithMetadata(s, metaReply, rd);
    TimeInPath(s.fields, clock, rd.sidecar);
  }

  /** A fast-series save (sidecar off) restarts the file counter and writes
      no file: a frame count `int` rejects is a ValueError, a positive one
      reaches the undefined `frameToArray`, any other count ends quietly. */
  lemma SeriesSave(s: GuiState, reply: Reply, metaReply: Reply, framesText: string, rd: Readings)
    requires !s.fields.saveMeta
    ensures var r := Save(s, true, true, false, reply, metaReply, framesText, rd);
            && r.written == []
            && r.state.fields.number == (if s.fields.numberOn then ZeroCount else s.fields.number)
            && r.error == if reply.Cancel? then None
                          else match ParseInt(framesText)
                               case None => Some(ValueError)
                               case Some(k) => if k >= 1 then Some(NameError) else None
  {
  }

  /** When every call of a save sees the same reading, a path consistent
      before stays consistent. */
  lemma SameReadingConsistent(s: GuiState, img: bool, series: bool, slowseries: bool, reply: Reply,
                              metaReply: Reply, framesText: string, clock: Clock)
    requires Consistent(s, clock)
    ensures Consistent(Save(s, img, series, slowseries, reply, metaReply, framesText, Same(clock)).state, clock)
  {
  }

  /** The three slow-series variables of the window. */
  datatype Counters = Counters(lastmod: real, imageCounter: int, lastimageflag: bool)

  function CountersOf(s: GuiState): Counters
  {
    Counters(s.lastmod, s.imageCounter, s.lastimageflag)
  }

  /** As `collectTimeSeries` arms a slow series. */
  const Armed: Counters := Counters(1.0, 0, false)

  /** A tick at reading `currentmod` records a frame. */
  predicate Fires(c: Counters, currentmod: real)
  {
    !c.lastimageflag && currentmod == 0.0 && c.lastmod != 0.0
  }

  /** The counters after one tick, `r` the requested frame count. */
  function CounterStep(c: Counters, currentmod: real, r: real): Counters
  {
    if c.lastimageflag then c
    else if Fires(c, currentmod) then
      var k := c.imageCounter + 1;
      Counters(currentmod, k, k as real == r)
    else c.(lastmod := currentmod)
  }

  /** One tick per reading in `mods`. */
  function CounterRun(c: Counters, mods: seq<real>, r: real): Counters
    decreases |mods|
  {
    if mods == [] then c else CounterRun(CounterStep(c, mods[0], r), mods[1..], r)
  }

  /** How many of those ticks record a frame. */
  function Firings(c: Counters, mods: seq<real>, r: real): nat
    decreases |mods|
  {
    if mods == [] then 0
    else (if Fires(c, mods[0]) then 1 else 0) + Firings(CounterStep(c, mods[0], r), mods[1..], r)
  }

  /** Outside a running slow series a tick does nothing. */
  lemma TickIdle(s: GuiState, currentmod: real, requested: Option<real>, metaReply: Reply, rd: Readings)
    requires s.mode != SlowSeriesMode || s.lastimageflag
    ensures Tick(s, currentmod, requested, metaReply, rd) == Step(s, [], None)
  {
  }

  /** A tick in a running slow series with a readable frame count: it writes
      files exactly when it records a frame, a successful tick moves the
      counters as `CounterStep` does, and a recorded frame that is the last
      turns the checked button to Live. */
  lemma TickCounters(s: GuiState, currentmod: real, r: real, metaReply: Reply, rd: Readings)
    requires s.mode == SlowSeriesMode
    ensures var t := Tick(s, currentmod, Some(r), metaReply, rd);
            && (t.written != [] <==> Fires(CountersOf(s), currentmod))
            && (t.error == None ==> CountersOf(t.state) == CounterStep(CountersOf(s), currentmod, r))
            && (Fires(CountersOf(s), currentmod) && t.error == None ==>
                  t.state.mode == (if t.state.lastimageflag then LiveMode else SlowSeriesMode))
            && PathFrom(s, t.state, rd)
  {
    if Fires(CountersOf(s), currentmod) {
      TickFires(s, currentmod, r, metaReply, rd);
    }
  }

  /** A recording tick: the frame is counted and saved, and on success the
      reading becomes `lastmod`. */
  lemma TickFires(s: GuiState, currentmod: real, r: real, metaReply: Reply, rd: Readings)
    requires s.mode == SlowSeriesMode && Fires(CountersOf(s), currentmod)
    ensures var t := Tick(s, currentmod, Some(r), metaReply, rd);
            && t.written != []
            && (t.error == None ==> CountersOf(t.state) == CounterStep(CountersOf(s), currentmod, r))
            && (t.error == None ==> t.state.mode == (if t.state.lastimageflag then LiveMode else SlowSeriesMode))
            && PathFrom(s, t.state, rd)
  {
    var c := s.imageCounter + 1;
    var s1 := if c as real == r then s.(imageCounter := c, lastimageflag := true) else s.(imageCounter := c);
    SlowSave(s1, metaReply, rd);
    var sv := Save(s1, true, false, true, Accept, metaReply, "", rd);
    assert Keeps(s1, sv.state, true) && PathFrom(s1, sv.state, rd);
    assert Tick(s, currentmod, Some(r), metaReply, rd)
        == if sv.error.Some? then sv else Step(sv.state.(lastmod := currentmod), sv.written, None);
  }

  /** The save of a slow-series frame writes at least the image and, when
      it succeeds, leaves Live checked after the last frame and the slow
      series checked otherwise. */
  lemma SlowSave(s: GuiState, metaReply: Reply, rd: Readings)
    requires s.mode == SlowSeriesMode
    ensures var sv := Save(s, true, false, true, Accept, metaReply, "", rd);
            && sv.written != []
            && (sv.error == None ==> sv.state.mode == if s.lastimageflag then LiveMode else SlowSeriesMode)
  {
    var m := Prepare(s, true, false, metaReply, "", rd.restart, rd.sidecar);
    if s.fields.saveMeta {
      MetadataSave(s, metaReply, Same(rd.sidecar));
    }
    assert m.error == None;
    var f := Finish(m.state, m.written, true, false, true, Accept, "", rd.after);
    var w := AfterWrite(m.state, true, true, rd.after);
    assert f.written == m.written + [m.state.filename] && f.state == w.state && f.error == w.error;
    if m.state.lastimageflag {
      LastSlowFrameGoesLive(m.state, rd.after);
    }
  }

  /** The last frame of a slow series, once written without error, leaves
      Live checked. */
  lemma LastSlowFrameGoesLive(s: GuiState, clock: Clock)
    requires s.lastimageflag
    ensures var w := AfterWrite(s, true, true, clock); w.error == None ==> w.state.mode == LiveMode
  {
    var next := if s.fields.numberOn then Bump(s.fields.number, 4) else Some(s.fields.number);
    if next.Some? {
      var s1 := Recreate(s.(fields := s.fields.(number := next.value)), clock);
      assert AfterWrite(s, true, true, clock) == DirStep(s1.(mode := LiveMode), true, clock);
    }
  }

  /** From `start` with the flag exactly when the count is reached, the
      counter adds the firings, never passes the requested count k, and the
      flag is set exactly when the counter equals k. */
  lemma {:induction false} RunCounts(c: Counters, mods: seq<real>, k: nat)
    requires 0 <= c.imageCounter <= k && (c.lastimageflag <==> c.imageCounter == k)
    ensures var e := CounterRun(c, mods, k as real);
            && e.imageCounter == c.imageCounter + Firings(c, mods, k as real)
            && 0 <= e.imageCounter <= k
            && (e.lastimageflag <==> e.imageCounter == k)
    decreases |mods|
  {
    if mods != [] {
      var c1 := CounterStep(c, mods[0], k as real);
      assert c1.imageCounter <= k;
      RunCounts(c1, mods[1..], k);
    }
  }

  /** A slow series of k >= 1 frames armed by `collectTimeSeries` records at
      most k frames, the counter counts the recorded frames, and it stops
      (its flag set) exactly when k have been recorded. */
  lemma SlowSeriesRun(mods: seq<real>, k: nat)
    requires k >= 1
    ensures var e := CounterRun(Armed, mods, k as real);
            && e.imageCounter == Firings(Armed, mods, k as real) <= k
            && (e.lastimageflag <==> e.imageCounter == k)
  {
    RunCounts(Armed, mods, k);
  }

  /** Once the flag is set no tick records anything or changes a counter. */
  lemma {:induction false} StoppedRun(c: Counters, mods: seq<real>, r: real)
    requires c.lastimageflag
    ensures CounterRun(c, mods, r) == c && Firings(c, mods, r) == 0
    decreases |mods|
  {
    if mods != [] {
      StoppedRun(c, mods[1..], r);
    }
  }

  /** A requested count that is not a whole number above the counter (a
      fraction, or one already passed) never stops the series. */
  lemma {:induction false} EndlessRun(c: Counters, mods: seq<real>, r: real)
    requires !c.lastimageflag
    requires r != r.Floor as real || r.Floor <= c.imageCounter
    ensures var e := CounterRun(c, mods, r);
            !e.lastimageflag && e.imageCounter == c.imageCounter + Firings(c, mods, r)
    decreases |mods|
  {
    if mods != [] {
      var c1 := CounterStep(c, mods[0], r);
      if Fires(c, mods[0]) {
        var k := c.imageCounter + 1;
        assert (k as real).Floor == k;
        assert k as real != r;
      }
      EndlessRun(c1, mods[1..], r);
    }
  }

  /** A reset that moves any widget with a change signal leaves the default
      path; one that moves none keeps the old path. */
  lemma ResetPath(s: GuiState, clock: Clock)
    ensures var t := AfterReset(s, clock);
            && t.fields == ResetFields(s.fields)
            && (SignalledChange(s.fields, t.fields) ==>
                  Consistent(t, clock) && t.filename == DefaultRoot + "/00/image0000.tif")
            && (!SignalledChange(s.fields, t.fields) ==> t.filename == s.filename)
  {
    var g := ResetFields(s.fields);
    var t := AfterReset(s, clock);
    assert t.fields == g;
    if SignalledChange(s.fields, g) {
      DefaultFileName(s.fields, clock, DefaultRoot);
      assert g.(root := DefaultRoot) == g;
      assert t.filename == FileName(g, clock);
    }
  }

  /** The format box reacts only to a user's choice, so resetting a window
      whose only non-default widget is the PNG format keeps the ".png" path
      of the default fields beside the ".tif" format. */
  lemma ResetKeepsPngPath(f: SavingFields, clock: Clock)
    requires f == ResetFields(f).(format := ".png")
    ensures var s := GuiState(f, FileName(f, clock), LiveMode, 0.0, 0, false);
            var t := AfterReset(s, clock);
            && Consistent(s, clock) && !Consistent(t, clock)
            && t.fields.format == ".tif" && t.filename == FileName(t.fields.(format := ".png"), clock)
  {
    var g := ResetFields(f);
    assert !SignalledChange(f, g);
    ExtensionChoice(g, clock, "");
    var bare := FileName(g.(format := ""), clock);
    assert f == g.(format := ".png") && g.(format := ".tif") == g;
    var png := bare + ".png";
    var tif := bare + ".tif";
    assert png[|png| - 2] != tif[|tif| - 2];
  }

  /** The widget values before the window's own two resets. */
  const InitialFields: SavingFields :=
    SavingFields("", true, "", false, "", false, false, true, "", true, "", ".tif", false)

  class CaptureFrames {
    var fields: SavingFields
    var filename: string
    var mode: Mode
    var lastmod: real
    var imageCounter: int
    var lastimageflag: bool
    const cam: DummyImageSource.DummyCamera

    function Snapshot(): GuiState
      reads this
    {
      GuiState(fields, filename, mode, lastmod, imageCounter, lastimageflag)
    }

    /** The window as `initUI` leaves it: Live checked, the saving defaults
        and their path, and the camera started by the closing `live()`.  The
        slow-series counters, which the source first assigns in
        `collectTimeSeries`, start at 0. */
    constructor (camera: DummyImageSource.DummyCamera, clock: Clock)
      modifies camera
      ensures cam == camera
      ensures camera.Snapshot() == DummyImageSource.AfterStartContinuous(old(camera.Snapshot()))
      ensures Snapshot() == GuiState(ResetFields(InitialFields), FileName(ResetFields(InitialFields), clock),
                                     LiveMode, 0.0, 0, false)
    {
      cam := camera;
      fields := InitialFields;
      filename := "";
      mode := LiveMode;
      lastmod := 0.0;
      imageCounter := 0;
      lastimageflag := false;
      new;
      ResetSavingOptions(clock);
      ResetSavingOptions(clock);
      Live();
    }

    /** `filename += text + "//"` then `filename = filename[:-1]`. */
    method AppendDirectory(text: string)
      modifies this
      ensures Snapshot() == old(Snapshot()).(filename := old(filename) + text + "/")
    {
      filename := filename + text;
      filename := filename + "//";
      filename := filename[0..|filename| - 1];
    }

    /** `if on: filename += text`. */
    method AppendIf(on: bool, text: string)
      modifies this
      ensures Snapshot() == old(Snapshot()).(filename := old(filename) + Opt(on, text))
    {
      if on {
        filename := filename + text;
      } else {
        assert filename + "" == filename;
      }
    }

    method AppendDirectoryPart()
      modifies this
      ensures Snapshot() == old(Snapshot()).(filename := DirPrefix(fields))
    {
      filename := fields.root;
      AppendDirectory("");
      assert filename == fields.root + "/";
      if fields.dirNumberOn && fields.dirTextOn {
        AppendIf(true, fields.dirNumber);
        AppendDirectory(fields.dirText);
      } else if fields.dirNumberOn {
        AppendDirectory(fields.dirNumber);
      } else if fields.dirTextOn {
        AppendDirectory(fields.dirText);
      }
    }

    /** Builds the path by successive appends, as the source does. */
    method CreateFilename(clock: Clock)
      modifies this
      ensures Snapshot() == Recreate(old(Snapshot()), clock)
    {
      AppendDirectoryPart();
      AppendIf(fields.dateOn, clock.date);
      AppendIf(fields.timeOn, clock.time);
      AppendIf(fields.keywordOn, fields.keyword);
      assert filename == Stem(fields, clock);
      AppendIf(fields.numberOn, fields.number);
      ghost var counted := filename;
      AppendIf(fields.format == ".tif", ".tif");
      AppendIf(fields.format == ".png", ".png");
      ExtensionAppend(counted, fields.format);
    }

    method ResetSavingOptions(clock: Clock)
      modifies this
      ensures Snapshot() == AfterReset(old(Snapshot()), clock)
    {
      var g := ResetFields(fields);
      var changed := SignalledChange(fields, g);
      fields := g;
      if changed {
        CreateFilename(clock);
      }
    }

    /** The directory counter step (`keynumberdir` plus one, `keynumber`
        back to "0000"), then `createFilename`. */
    method StepDirectory(img: bool, clock: Clock) returns (error: Option<PyError>)
      modifies this
      ensures var r := DirStep(old(Snapshot()), img, clock); Snapshot() == r.state && error == r.error
    {
      error := None;
      if img && fields.dirNumberOn {
        var d := Bump(fields.dirNumber, 2);
        if d.None? {
          error := Some(ValueError);
          return;
        }
        fields := fields.(number := ZeroCount);
        fields := fields.(dirNumber := d.value);
      }
      CreateFilename(clock);
    }

    /** The counter updates after a frame is written. */
    method AdvanceCounters(img: bool, slowseries: bool, clock: Clock) returns (error: Option<PyError>)
      modifies this
      ensures var r := AfterWrite(old(Snapshot()), img, slowseries, clock); Snapshot() == r.state && error == r.error
    {
      error := None;
      if img && fields.numberOn {
        var t := Bump(fields.number, 4);
        if t.None? {
          error := Some(ValueError);
          return;
        }
        fields := fields.(number := t.value);
      }
      CreateFilename(clock);
      error := FinishCounters(img, slowseries, clock);
    }

    /** The directory step that follows the file counter step. */
    method FinishCounters(img: bool, slowseries: bool, clock: Clock) returns (error: Option<PyError>)
      modifies this
      ensures var r := AfterNumber(old(Snapshot()), img, slowseries, clock); Snapshot() == r.state && error == r.error
    {
      error := None;
      if !slowseries {
        error := StepDirectory(img, clock);
      } else if lastimageflag {
        mode := LiveMode;
        error := StepDirectory(img, clock);
      }
    }

    /** `saveImageOrYaml`, for a file that does not exist yet in a directory
        that can be made. */
    method SaveImageOrYaml(img: bool, series: bool, slowseries: bool, reply: Reply, metaReply: Reply,
                           framesText: string, rd: Readings) returns (written: seq<string>, error: Option<PyError>)
      modifies this
      ensures var r := Save(old(Snapshot()), img, series, slowseries, reply, metaReply, framesText, rd);
              Snapshot() == r.state && written == r.written && error == r.error
      decreases if img then 1 else 0, 1
    {
      written, error := PrepareSave(img, series, metaReply, framesText, rd.restart, rd.sidecar);
      if error.Some? {
        return;
      }
      written, error := WriteFrames(written, img, series, slowseries, reply, framesText, rd.after);
    }

    /** The counter restart of a series and the nested metadata save. */
    method PrepareSave(img: bool, series: bool, metaReply: Reply, framesText: string, restart: Clock, sidecar: Clock)
      returns (written: seq<string>, error: Option<PyError>)
      modifies this
      ensures var r := Prepare(old(Snapshot()), img, series, metaReply, framesText, restart, sidecar);
              Snapshot() == r.state && written == r.written && error == r.error
      decreases if img then 1 else 0, 0
    {
      written, error := [], None;
      if img && series && fields.numberOn {
        fields := fields.(number := ZeroCount);
        CreateFilename(restart);
      }
      if img && fields.saveMeta {
        written, error := SaveImageOrYaml(false, false, false, metaReply, metaReply, framesText, Same(sidecar));
      }
    }

    /** The dialog and the frame loop of `saveImageOrYaml`. */
    method WriteFrames(done: seq<string>, img: bool, series: bool, slowseries: bool, reply: Reply,
                       framesText: string, clock: Clock) returns (written: seq<string>, error: Option<PyError>)
      modifies this
      ensures var r := Finish(old(Snapshot()), done, img, series, slowseries, reply, framesText, clock);
              Snapshot() == r.state && written == r.written && error == r.error
    {
      written, error := done, None;
      var fname := if img then filename else Sidecar(filename);
      var ok := false;
      var usersfilename := fname;
      if !slowseries {
        usersfilename, ok := DialogName(reply, fname), !reply.Cancel?;
      }
      if ok || slowseries {
        var numOfFrames := 1;
        if series {
          var parsed := ParseInt(framesText);
          if parsed.None? {
            error := Some(ValueError);
            return;
          }
          numOfFrames := parsed.value;
        }
        ghost var before := Snapshot();
        var i := 1;
        while i <= numOfFrames
          invariant i == 1 ==> Snapshot() == before && written == done && error == None
          invariant i != 1 ==> !series && i == 2 && error == None
                               && Snapshot() == AfterWrite(before, img, slowseries, clock).state
                               && written == done + [usersfilename]
          invariant i != 1 ==> AfterWrite(before, img, slowseries, clock).error == None
          invariant 1 <= i && (!series ==> i <= 2)
          decreases numOfFrames - i
        {
          if series {
            // the frame comes from `frameToArray`, a name the module never defines
            error := Some(NameError);
            return;
          }
          written := written + [usersfilename];
          // only a non-series save gets here, so this frame is the last
          error := AdvanceCounters(img, slowseries, clock);
          if error.Some? {
            return;
          }
          i := i + 1;
        }
      }
    }

    method SaveImage(reply: Reply, metaReply: Reply, rd: Readings) returns (written: seq<string>, error: Option<PyError>)
      modifies this
      ensures var r := Save(old(Snapshot()), true, false, false, reply, metaReply, "", rd);
              Snapshot() == r.state && written == r.written && error == r.error
    {
      written, error := SaveImageOrYaml(true, false, false, reply, metaReply, "", rd);
    }

    method SaveImages(metaReply: Reply, rd: Readings) returns (written: seq<string>, error: Option<PyError>)
      modifies this
      ensures var r := Save(old(Snapshot()), true, false, true, Accept, metaReply, "", rd);
              Snapshot() == r.state && written == r.written && error == r.error
    {
      written, error := SaveImageOrYaml(true, false, true, Accept, metaReply, "", rd);
    }

    method SaveMetadata(reply: Reply, rd: Readings) returns (written: seq<string>, error: Option<PyError>)
      modifies this
      ensures var r := Save(old(Snapshot()), false, false, false, reply, reply, "", rd);
              Snapshot() == r.state && written == r.written && error == r.error
    {
      written, error := SaveImageOrYaml(false, false, false, reply, reply, "", rd);
    }

    /** `timerEvent`: the camera's frame number, then its next image, then
        the slow-series tick, then the check for a finished fast series,
        which calls a function the simulated camera does not have.
        `currentmod` is the clock reading modulo the interval and
        `requested` the slow-series frame count as a float. */
    method TimerEvent(drawn: DummyImageSource.Image, currentmod: real, requested: Option<real>, metaReply: Reply,
                      rd: Readings)
      returns (frameNumber: int, image: DummyImageSource.Image, written: seq<string>, error: Option<PyError>)
      modifies this, cam
      ensures frameNumber == old(cam.frameNumber)
      ensures cam.Snapshot() == DummyImageSource.AfterGetImage(old(cam.Snapshot()), drawn) && image == cam.lastimage
      ensures var r := Tick(old(Snapshot()), currentmod, requested, metaReply, rd);
              && Snapshot() == r.state && written == r.written
              && error == (if r.error.Some? then r.error
                           else if r.state.mode == FastSeriesMode then Some(AttributeError) else None)
    {
      frameNumber := cam.GetFrameNumber();
      image := cam.GetImage(drawn);
      written, error := SlowTick(currentmod, requested, metaReply, rd);
      if error.None? && mode == FastSeriesMode {
        error := Some(AttributeError);
      }
    }

    /** The slow-series part of `timerEvent`. */
    method SlowTick(currentmod: real, requested: Option<real>, metaReply: Reply, rd: Readings)
      returns (written: seq<string>, error: Option<PyError>)
      modifies this
      ensures var r := Tick(old(Snapshot()), currentmod, requested, metaReply, rd);
              Snapshot() == r.state && written == r.written && error == r.error
    {
      written, error := [], None;
      if mode == SlowSeriesMode && !lastimageflag {
        if currentmod == 0.0 && lastmod != 0.0 {
          written, error := FireFrame(currentmod, requested, metaReply, rd);
          return;
        }
        lastmod := currentmod;
      }
    }

    method FireFrame(currentmod: real, requested: Option<real>, metaReply: Reply, rd: Readings)
      returns (written: seq<string>, error: Option<PyError>)
      modifies this
      ensures var r := Fire(old(Snapshot()), currentmod, requested, metaReply, rd);
              Snapshot() == r.state && written == r.written && error == r.error
    {
      imageCounter := imageCounter + 1;
      if requested.None? {
        written, error := [], Some(ValueError);
        return;
      }
      if imageCounter as real == requested.value {
        lastimageflag := true;
      }
      ghost var counted := Snapshot();
      assert counted == (var s := old(Snapshot()); var c := s.imageCounter + 1;
                         if c as real == requested.value then s.(imageCounter := c, lastimageflag := true)
                         else s.(imageCounter := c));
      written, error := SaveImages(metaReply, rd);
      if error.Some? {
        return;
      }
      lastmod := currentmod;
    }

    /** `collectTimeSeries`: a fast series starts the camera's sequence
        capture; a slow one arms the tick counters. */
    method CollectTimeSeries(framesText: string) returns (error: Option<PyError>)
      modifies this, cam
      ensures fields == old(fields) && filename == old(filename) && mode == old(mode)
      ensures mode == FastSeriesMode ==>
                && unchanged(this)
                && (ParseInt(framesText).None? ==> error == Some(ValueError) && unchanged(cam))
                && (ParseInt(framesText).Some? ==>
                      error == None
                      && cam.Snapshot() == DummyImageSource.AfterStartSequence(old(cam.Snapshot()), ParseInt(framesText).value))
      ensures mode == SlowSeriesMode ==>
                error == None && unchanged(cam) && lastmod == 1.0 && !lastimageflag && imageCounter == 0
      ensures mode != FastSeriesMode && mode != SlowSeriesMode ==> error == None && unchanged(this) && unchanged(cam)
    {
      error := None;
      if mode == FastSeriesMode {
        var numberOfImages := ParseInt(framesText);
        if numberOfImages.None? {
          error := Some(ValueError);
          return;
        }
        cam.StartSequenceCapture(numberOfImages.value);
      }
      if mode == SlowSeriesMode {
        lastmod := 1.0;
        lastimageflag := false;
        imageCounter := 0;
      }
    }

    /** `live`, the handler of both the Live and the Freeze button. */
    method Live()
      modifies cam
      ensures cam.Snapshot() == if mode == LiveMode then DummyImageSource.AfterStartContinuous(old(cam.Snapshot()))
                                else DummyImageSource.AfterStop(old(cam.Snapshot()))
    {
      if mode == LiveMode {
        cam.StartContinuousCapture();
      } else {
        cam.StopLiveCapture();
      }
    }

    /** `changeROISize`: the size list is indexed by the chosen entry; the
        simulated camera's `open_camera` then rejects the `formatfile`
        keyword, so the handler ends there. */
    method ChangeRoiSize(index: int, depth: string) returns (ffile: Option<string>, error: PyError)
      ensures ffile.Some? <==> -|RoiSizes| <= index < |RoiSizes|
      ensures ffile == RoiFormatFile(depth, index)
      ensures error == if ffile.None? then IndexError else TypeError
    {
      var size := PyIndex(RoiSizes, index);
      if size.None? {
        ffile, error := None, IndexError;
        return;
      }
      ffile := Some("PhotonFocus_" + (depth + ("_" + (Str(size.value) + ("x" + (Str(size.value) + ".fmt"))))));
      error := TypeError;
    }
  }
}
