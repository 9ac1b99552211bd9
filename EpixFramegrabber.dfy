/** The EPIX frame-grabber `Camera` object: the configuration fields that
    `open`, `close` and the `set_*` methods assign, the format-file name
    `open` builds, the way it reads the driver's return code, and the
    bit-depth rescale of `get_image`.  Every driver call is replaced by the
    return code (or the samples) it delivers, given as a parameter. */
module EpixFramegrabber {
  import opened PyText

  /** Success of `open`, or the `CameraOpenError` it raises with its message. */
  datatype OpenOutcome = Opened | CameraOpenError(mesg: string)

  const GenericOpenFailure: string := "Opening the frame grabber failed with error code "

  /** How `open` reads the return code of `pxd_PIXCIopen`. */
  function ClassifyOpen(code: int): (r: OpenOutcome)
    ensures r.Opened? <==> code == 0
  {
    if code == 0 then Opened
    else if code == -13 then CameraOpenError("Frame grabber can't find format file.")
    else if code == -23 then CameraOpenError("Frame grabber is already open.")
    else CameraOpenError(GenericOpenFailure + Str(code))
  }

  /** The return code a generic open-failure message reports, read back. */
  function ReportedCode(mesg: string): Option<int>
  {
    if |mesg| >= |GenericOpenFailure| && mesg[..|GenericOpenFailure|] == GenericOpenFailure
    then ParseInt(mesg[|GenericOpenFailure|..])
    else None
  }

  /** The two driver codes with a message of their own are told apart from
      each other and from every other failure. */
  lemma OpenFailuresDistinct(code: int)
    requires code != 0
    ensures ClassifyOpen(code) != ClassifyOpen(-13) <==> code != -13
    ensures ClassifyOpen(code) != ClassifyOpen(-23) <==> code != -23
  {
    assert |GenericOpenFailure + Str(code)| > 37;
  }

  /** Every other failing code can be read back from its message. */
  lemma ReportedCodeRoundTrip(code: int)
    requires code != 0 && code != -13 && code != -23
    ensures ReportedCode(ClassifyOpen(code).mesg) == Some(code)
  {
    var g := GenericOpenFailure;
    var m := g + Str(code);
    assert m[..|g|] == g;
    assert m[|g|..] == Str(code);
    ParseZFillStr(code, 0);
  }

  const GenericCloseFailure: string := "Closing the frame grabber" + " failed with error code "
  const CloseNotOpen: string := "Failed to close the frame grabber" + " because it wasn't open."

  /** What `close` prints for the return code of `pxd_PIXCIclose`. */
  function CloseMessage(code: int): string
  {
    if code == 0 then "Frame grabber closed successfully."
    else if code == -25 then CloseNotOpen
    else GenericCloseFailure + Str(code)
  }

  /** Success and "wasn't open" each have their own message, and any other
      return code can be read back from the message printed for it. */
  lemma CloseMessagesDistinct(code: int)
    ensures CloseMessage(code) == CloseMessage(0) <==> code == 0
    ensures CloseMessage(code) == CloseMessage(-25) <==> code == -25
    ensures code != 0 && code != -25 ==>
              && |CloseMessage(code)| > |GenericCloseFailure|
              && CloseMessage(code)[..|GenericCloseFailure|] == GenericCloseFailure
              && ParseInt(CloseMessage(code)[|GenericCloseFailure|..]) == Some(code)
  {
    var g := GenericCloseFailure;
    var m := g + Str(code);
    assert m[..|g|] == g;
    assert m[0] == g[0] == 'C' && CloseNotOpen[0] == 'F';
    assert m[|g|..] == Str(code);
    ParseZFillStr(code, 0);
  }

  /** Python's `str.format` of `camera`, which may be None. */
  function CameraText(camera: Option<string>): string
  {
    match camera
    case None => "None"
    case Some(c) => c
  }

  predicate IsSep(c: char)
  {
    c == '\\' || c == '/'
  }

  /** A name that `ntpath.join` keeps whole: it starts with a separator
      (a rooted or UNC name) or carries a drive such as `C:`. */
  predicate Replaces(name: string)
  {
    (|name| > 0 && IsSep(name[0])) || (|name| > 1 && name[1] == ':')
  }

  /** Python 2.7's `os.path.join(dir, name)` on Windows (`ntpath`), for a
      `dir` without a drive: a name that `Replaces` is the result; else the
      two are joined by a backslash unless `dir` is empty or already ends
      in a separator. */
  function PathJoin(dir: string, name: string): string
  {
    if Replaces(name) then name
    else if dir == [] || IsSep(dir[|dir| - 1]) then dir + name
    else dir + "\\" + name
  }

  /** The bare name `{camera}_{bit_depth}bit_{w}x{h}.fmt`. */
  function FormatName(camera: Option<string>, bitDepth: int, w: int, h: int): string
  {
    CameraText(camera) + ("_" + (Str(bitDepth) + ("bit_" + (Str(w) + ("x" + (Str(h) + ".fmt"))))))
  }

  /** The format file `open` hands to the driver. */
  function FormatFile(camera: Option<string>, bitDepth: int, w: int, h: int): (path: string)
  {
    PathJoin("formatFiles", FormatName(camera, bitDepth, w, h))
  }

  predicate EndsWith(s: string, suffix: string)
  {
    |s| >= |suffix| && s[|s| - |suffix|..] == suffix
  }

  lemma EndsWithAppend(a: string, s: string, suffix: string)
    requires EndsWith(s, suffix)
    ensures EndsWith(a + s, suffix)
  {
    assert (a + s)[|a + s| - |suffix|..] == s[|s| - |suffix|..];
  }

  lemma FormatNameEndsFmt(camera: Option<string>, bitDepth: int, w: int, h: int)
    ensures EndsWith(FormatName(camera, bitDepth, w, h), ".fmt")
  {
    var e5 := Str(h) + ".fmt";
    EndsWithAppend(Str(h), ".fmt", ".fmt");
    EndsWithAppend("x", e5, ".fmt");
    var e4 := "x" + e5;
    EndsWithAppend(Str(w), e4, ".fmt");
    var e3 := Str(w) + e4;
    EndsWithAppend("bit_", e3, ".fmt");
    var e2 := "bit_" + e3;
    EndsWithAppend(Str(bitDepth), e2, ".fmt");
    var e1 := Str(bitDepth) + e2;
    EndsWithAppend("_", e1, ".fmt");
    EndsWithAppend(CameraText(camera), "_" + e1, ".fmt");
  }

  lemma JoinRelative(name: string)
    requires !Replaces(name)
    ensures PathJoin("formatFiles", name) == "formatFiles\\" + name
  {
    var dir := "formatFiles";
    assert dir[|dir| - 1] == 's';
  }

  /** `open`'s camera text makes the format-file name replace the directory
      exactly when the text itself starts with a separator or has a drive. */
  lemma CameraReplaces(camera: Option<string>, bitDepth: int, w: int, h: int)
    ensures Replaces(FormatName(camera, bitDepth, w, h)) <==> Replaces(CameraText(camera))
  {
    var c := CameraText(camera);
    var name := FormatName(camera, bitDepth, w, h);
    var rest := "_" + (Str(bitDepth) + ("bit_" + (Str(w) + ("x" + (Str(h) + ".fmt")))));
    assert name == c + rest;
    var d := Str(bitDepth);
    assert d[0] == '-' || IsDigit(d[0]);
    assert rest[1] == d[0];
    if |c| == 0 {
      assert name[0] == '_' && name[1] == d[0];
    } else if |c| == 1 {
      assert name[0] == c[0] && name[1] == '_';
    } else {
      assert name[0] == c[0] && name[1] == c[1];
    }
  }

  /** On Windows, unless the camera text starts with a separator or has a
      drive, the format file is `formatFiles\<name>` and ends in `.fmt`. */
  lemma FormatFileInDirectory(camera: Option<string>, bitDepth: int, w: int, h: int)
    requires !Replaces(CameraText(camera))
    ensures FormatFile(camera, bitDepth, w, h) == "formatFiles\\" + FormatName(camera, bitDepth, w, h)
    ensures EndsWith(FormatFile(camera, bitDepth, w, h), ".fmt")
  {
    var name := FormatName(camera, bitDepth, w, h);
    CameraReplaces(camera, bitDepth, w, h);
    JoinRelative(name);
    FormatNameEndsFmt(camera, bitDepth, w, h);
    EndsWithAppend("formatFiles\\", name, ".fmt");
  }

  /** A camera text that starts with a separator or has a drive throws the
      directory away: the format file is the bare name. */
  lemma FormatFileReplaced(camera: Option<string>, bitDepth: int, w: int, h: int)
    requires Replaces(CameraText(camera))
    ensures FormatFile(camera, bitDepth, w, h) == FormatName(camera, bitDepth, w, h)
  {
    CameraReplaces(camera, bitDepth, w, h);
  }

  /** Length of the leading run of decimal digits. */
  function DigitRun(s: string): (n: nat)
    ensures n <= |s|
  {
    if |s| == 0 || !IsDigit(s[0]) then 0 else 1 + DigitRun(s[1..])
  }

  lemma {:induction false} DigitRunOf(a: string, x: string)
    requires AllDigits(a) && |x| > 0 && !IsDigit(x[0])
    ensures DigitRun(a + x) == |a|
    decreases |a|
  {
    if |a| > 0 {
      assert (a + x)[1..] == a[1..] + x;
      DigitRunOf(a[1..], x);
    } else {
      assert a + x == x;
    }
  }

  /** A digit string followed by a non-digit splits back uniquely. */
  lemma DigitsPrefix(a: string, x: string, b: string, y: string)
    requires AllDigits(a) && AllDigits(b)
    requires |x| > 0 && |y| > 0 && !IsDigit(x[0]) && !IsDigit(y[0])
    requires a + x == b + y
    ensures a == b && x == y
  {
    DigitRunOf(a, x);
    DigitRunOf(b, y);
    assert a == (a + x)[..|a|] && b == (b + y)[..|b|];
    assert x == (a + x)[|a|..] && y == (b + y)[|b|..];
  }

  lemma DecInjective(j: nat, k: nat)
    requires NatToDec(j) == NatToDec(k)
    ensures j == k
  {
  }

  /** For one camera model, distinct bit depths or ROI shapes select distinct
      format files. */
  lemma FormatNameInjective(camera: Option<string>, b1: nat, w1: nat, h1: nat, b2: nat, w2: nat, h2: nat)
    requires FormatName(camera, b1, w1, h1) == FormatName(camera, b2, w2, h2)
    ensures b1 == b2 && w1 == w2 && h1 == h2
  {
    var u1, u2 := "x" + (Str(h1) + ".fmt"), "x" + (Str(h2) + ".fmt");
    var t1, t2 := "bit_" + (Str(w1) + u1), "bit_" + (Str(w2) + u2);
    CancelPrefix(CameraText(camera), "_" + (Str(b1) + t1), "_" + (Str(b2) + t2));
    CancelPrefix("_", Str(b1) + t1, Str(b2) + t2);
    DigitsPrefix(Str(b1), t1, Str(b2), t2);
    DecInjective(b1, b2);
    CancelPrefix("bit_", Str(w1) + u1, Str(w2) + u2);
    DigitsPrefix(Str(w1), u1, Str(w2), u2);
    DecInjective(w1, w2);
    CancelPrefix("x", Str(h1) + ".fmt", Str(h2) + ".fmt");
    DigitsPrefix(Str(h1), ".fmt", Str(h2), ".fmt");
    DecInjective(h1, h2);
  }

  function Pow2(k: nat): (p: nat)
    ensures p >= 1
  {
    if k == 0 then 1 else 2 * Pow2(k - 1)
  }

  lemma {:induction false} Pow2Add(a: nat, b: nat)
    ensures Pow2(a) * Pow2(b) == Pow2(a + b)
    decreases a
  {
    if a > 0 {
      Pow2Add(a - 1, b);
      assert Pow2(a) * Pow2(b) == 2 * (Pow2(a - 1) * Pow2(b));
    }
  }

  /** A 16-bit sample, as `c_ushort` holds it. */
  predicate Is16Bit(v: int) { 0 <= v < 65536 }

  /** `get_image` after the driver read: for a reported bit depth above 8 the
      uint16 samples are multiplied by 2^(16 - bit_depth), in uint16 arithmetic;
      for 8 bits or fewer they are returned as read. */
  function Rescale(samples: seq<int>, bitDepth: int): (im: seq<int>)
    requires bitDepth <= 16
    requires forall i :: 0 <= i < |samples| ==> Is16Bit(samples[i])
    ensures |im| == |samples|
    ensures forall i :: 0 <= i < |im| ==> Is16Bit(im[i])
  {
    if bitDepth > 8 then
      seq(|samples|, i requires 0 <= i < |samples| => (samples[i] * Pow2(16 - bitDepth)) % 65536)
    else samples
  }

  lemma MulMono(a: nat, c: nat, p: nat)
    requires a <= c
    ensures a * p <= c * p
  {
  }

  lemma MulStrict(a: nat, c: nat, p: nat)
    requires a < c && p >= 1
    ensures a * p < c * p
  {
    MulMono(a + 1, c, p);
    assert (a + 1) * p == a * p + p;
  }

  lemma Pow2Sixteen()
    ensures Pow2(16) == 65536
  {
    assert Pow2(4) == 16;
    Pow2Add(4, 4);
    Pow2Add(8, 8);
  }

  lemma ScaleBelow(v: nat, b: nat)
    requires b <= 16 && v < Pow2(b)
    ensures v * Pow2(16 - b) <= Pow2(16) - Pow2(16 - b)
  {
    var p := Pow2(16 - b);
    Pow2Add(b, 16 - b);
    MulMono(v + 1, Pow2(b), p);
    assert (v + 1) * p == v * p + p;
  }

  lemma FitsIs16Bit(samples: seq<int>, b: int)
    requires 8 < b <= 16
    requires forall k :: 0 <= k < |samples| ==> 0 <= samples[k] < Pow2(b)
    ensures forall k :: 0 <= k < |samples| ==> Is16Bit(samples[k])
  {
    Pow2Add(b, 16 - b);
    Pow2Sixteen();
    MulMono(1, Pow2(16 - b), Pow2(b));
  }

  /** On samples that fit the reported bit depth b > 8 the rescale is an exact
      multiplication by 2^(16 - b), and the result stays below 2^16. */
  lemma RescaleExact(samples: seq<int>, b: int, i: nat)
    requires 8 < b <= 16
    requires forall k :: 0 <= k < |samples| ==> 0 <= samples[k] < Pow2(b)
    requires i < |samples|
    ensures forall k :: 0 <= k < |samples| ==> Is16Bit(samples[k])
    ensures Rescale(samples, b)[i] == samples[i] * Pow2(16 - b) < 65536
  {
    FitsIs16Bit(samples, b);
    Pow2Sixteen();
    ScaleBelow(samples[i], b);
  }

  /** On fitting samples the rescale keeps the order of samples. */
  lemma RescaleMonotone(samples: seq<int>, b: int, i: nat, j: nat)
    requires 8 < b <= 16
    requires forall k :: 0 <= k < |samples| ==> 0 <= samples[k] < Pow2(b)
    requires i < |samples| && j < |samples|
    ensures forall k :: 0 <= k < |samples| ==> Is16Bit(samples[k])
    ensures samples[i] < samples[j] <==> Rescale(samples, b)[i] < Rescale(samples, b)[j]
  {
    RescaleExact(samples, b, i);
    RescaleExact(samples, b, j);
    var p := Pow2(16 - b);
    if samples[i] < samples[j] {
      MulStrict(samples[i], samples[j], p);
    } else {
      MulMono(samples[j], samples[i], p);
    }
  }

  /** The largest sample 2^b - 1 becomes 2^16 - 2^(16 - b), not 65535. */
  lemma RescaleMaxSample(samples: seq<int>, b: int, i: nat)
    requires 8 < b <= 16
    requires forall k :: 0 <= k < |samples| ==> 0 <= samples[k] < Pow2(b)
    requires i < |samples| && samples[i] == Pow2(b) - 1
    ensures forall k :: 0 <= k < |samples| ==> Is16Bit(samples[k])
    ensures Rescale(samples, b)[i] == 65536 - Pow2(16 - b)
  {
    RescaleExact(samples, b, i);
    Pow2Add(b, 16 - b);
    Pow2Sixteen();
    var p := Pow2(16 - b);
    assert (Pow2(b) - 1) * p == Pow2(b) * p - p;
  }

  /** At 8 bits or fewer the samples are returned as read. */
  lemma RescaleLowDepth(samples: seq<int>, b: int)
    requires b <= 8
    requires forall k :: 0 <= k < |samples| ==> 0 <= samples[k] < 256
    ensures Rescale(samples, b) == samples
  {
  }

  /** The frame-grabber camera object with its configuration fields. */
  class Camera {
    var pixciOpened: bool
    var bitDepth: Option<int>
    var roiShape: Option<(int, int)>
    var camera: Option<string>
    var exposure: Option<int>
    var roiPos: Option<(int, int)>
    var frametime: Option<int>

    /** `__init__`: nothing opened, every setting None. */
    constructor ()
      ensures !pixciOpened
      ensures bitDepth == None && roiShape == None && camera == None
      ensures exposure == None && roiPos == None && frametime == None
    {
      pixciOpened := false;
      bitDepth, roiShape, camera := None, None, None;
      exposure, roiPos, frametime := None, None, None;
    }

    /** `close`: its guard `self.open` is a bound method and always true, so
        the driver's close is issued every time and the object is unchanged;
        `mesg` is what it prints for the driver's return code. */
    method Close(code: int) returns (issued: bool, mesg: string)
      ensures issued
      ensures code == 0 <==> mesg == CloseMessage(0)
      ensures mesg == CloseMessage(code)
    {
      issued := true;
      if code == 0 {
        mesg := "Frame grabber closed successfully.";
      } else if code == -25 {
        mesg := CloseNotOpen;
      } else {
        mesg := GenericCloseFailure + Str(code);
      }
      CloseMessagesDistinct(code);
    }

    /** `open`: closes first when already open, records every setting, then
        asks the driver (`openCode` is its return code) to open `formatfile`. */
    method Open(bitDepth: int, roiShape: (int, int), roiPos: (int, int), camera: Option<string>,
                exposure: int, frametime: int, closeCode: int, openCode: int)
      returns (closeMesg: Option<string>, formatfile: string, outcome: OpenOutcome)
      modifies this
      ensures closeMesg == if old(pixciOpened) then Some(CloseMessage(closeCode)) else None
      ensures this.bitDepth == Some(bitDepth) && this.roiShape == Some(roiShape)
      ensures this.camera == camera && this.roiPos == Some(roiPos)
      ensures this.exposure == Some(exposure) && this.frametime == Some(frametime)
      ensures formatfile == FormatFile(camera, bitDepth, roiShape.0, roiShape.1)
      ensures outcome == ClassifyOpen(openCode)
      ensures pixciOpened == (old(pixciOpened) || openCode == 0)
    {
      closeMesg := None;
      if pixciOpened {
        var _, m := Close(closeCode);
        closeMesg := Some(m);
      }
      Record(bitDepth, roiShape, roiPos, camera, exposure, frametime);
      formatfile := FormatFile(this.camera, bitDepth, roiShape.0, roiShape.1);
      outcome := ClassifyOpen(openCode);
      if openCode == 0 {
        pixciOpened := true;
      }
    }

    /** The settings `open` stores before calling the driver. */
    method Record(bitDepth: int, roiShape: (int, int), roiPos: (int, int), camera: Option<string>,
                  exposure: int, frametime: int)
      modifies this
      ensures this.bitDepth == Some(bitDepth) && this.roiShape == Some(roiShape)
      ensures this.camera == camera && this.roiPos == Some(roiPos)
      ensures this.exposure == Some(exposure) && this.frametime == Some(frametime)
      ensures pixciOpened == old(pixciOpened)
    {
      this.bitDepth := Some(bitDepth);
      this.roiShape := Some(roiShape);
      this.camera := camera;
      this.roiPos := Some(roiPos);
      this.exposure := Some(exposure);
      this.frametime := Some(frametime);
    }

    /** Not implemented in the source: the argument is ignored. */
    method SetRoiPos(pos: (int, int))
      modifies this`roiPos
      ensures roiPos == Some((0, 0))
    {
      roiPos := Some((0, 0));
    }

    /** Not implemented in the source: the argument is ignored. */
    method SetExposure(exposure: int)
      modifies this`exposure
      ensures this.exposure == Some(0)
    {
      this.exposure := Some(0);
    }

    /** Not implemented in the source: the argument is ignored. */
    method SetFrametime(frametime: int)
      modifies this`frametime
      ensures this.frametime == Some(0)
    {
      this.frametime := Some(0);
    }
  }

  /** Opening a fresh camera leaves it open exactly when the driver returns 0,
      and a failed open still records the requested settings. */
  method OpenFresh(bitDepth: int, w: int, h: int, openCode: int) returns (isOpen: bool, recorded: bool)
    ensures isOpen <==> openCode == 0
    ensures recorded
  {
    var cam := new Camera();
    var closeMesg, formatfile, outcome := cam.Open(bitDepth, (w, h), (0, 0), None, 0, 0, 0, openCode);
    assert closeMesg == None;
    isOpen := cam.pixciOpened;
    recorded := cam.bitDepth == Some(bitDepth) && cam.roiShape == Some((w, h));
  }
}
