/**
 * The decision logic of the local-OCR scanner (book_scanner.py): filtering
 * Tesseract's word detections by confidence and length, mapping their boxes
 * from the doubled image back to the camera frame, and the key-driven choice
 * of preprocessing mode.
 */
module TesseractScanner {
  import opened Strings

  // ---------------------------------------------------------------------------
  // Detections

  /** The columns of `pytesseract.image_to_data(..., output_type=DICT)` the scan reads. */
  datatype OcrData = OcrData(
    text: seq<String>,
    conf: seq<int>,
    left: seq<int>,
    top: seq<int>,
    width: seq<int>,
    height: seq<int>)

  /** The loop reads `conf` at every index of `text`, so it must be at least as long. */
  predicate ConfidenceCovers(d: OcrData) {
    |d.conf| >= |d.text|
  }

  /**
   * The box columns are read only for the detections the filter keeps, so
   * each of them must reach every accepted index; a shorter column raises
   * in the script only when an accepted detection lies beyond its end.
   */
  predicate Covers(d: OcrData) {
    ConfidenceCovers(d)
    && forall i :: 0 <= i < |d.text| && Accepted(d, i) ==>
         i < |d.left| && i < |d.top| && i < |d.width| && i < |d.height|
  }

  /** Factor by which preprocessing enlarges the frame before OCR (the cubic resize to twice the size). */
  const Upscale: int := 2

  /** A detection is kept only with a confidence strictly above this. */
  const MinConfidence: int := 40

  /** A box in camera-frame coordinates. */
  datatype Box = Box(x: int, y: int, w: int, h: int)

  /** A kept detection: its stripped text, its confidence and its box in the frame. */
  datatype TextRegion = TextRegion(text: String, conf: int, box: Box)

  /** The filter: `conf > 40 and len(text.strip()) > 1`. */
  predicate Accepted(d: OcrData, i: int)
    requires ConfidenceCovers(d) && 0 <= i < |d.text|
  {
    d.conf[i] > MinConfidence && |Strip(d.text[i])| > 1
  }

  /**
   * Python's `v // 2`: rounds toward minus infinity, which for a positive
   * divisor is Dafny's `/`. The original coordinate is recovered to within one.
   */
  function ToFrame(v: int): (r: int)
    ensures Upscale * r <= v <= Upscale * r + 1
  {
    v / Upscale
  }

  /** A box that lies inside the doubled image lies, once mapped back, inside the frame. */
  lemma ToFrameInside(pos: int, size: int, frameSize: int)
    requires 0 <= pos && 0 <= size && pos + size <= Upscale * frameSize
    ensures 0 <= ToFrame(pos) && 0 <= ToFrame(size) && ToFrame(pos) + ToFrame(size) <= frameSize
  {
  }

  /** The region drawn for detection `i`. */
  function RegionAt(d: OcrData, i: int): TextRegion
    requires Covers(d) && 0 <= i < |d.text| && Accepted(d, i)
  {
    TextRegion(Strip(d.text[i]), d.conf[i],
      Box(ToFrame(d.left[i]), ToFrame(d.top[i]), ToFrame(d.width[i]), ToFrame(d.height[i])))
  }

  /** The indices below `n` that pass the filter, in increasing order. */
  function AcceptedIndices(d: OcrData, n: nat): (ks: seq<nat>)
    requires ConfidenceCovers(d) && n <= |d.text|
    ensures forall j :: 0 <= j < |ks| ==> ks[j] < n && Accepted(d, ks[j])
    ensures forall j, j' :: 0 <= j < j' < |ks| ==> ks[j] < ks[j']
  {
    if n == 0 then []
    else AcceptedIndices(d, n - 1) + (if Accepted(d, n - 1) then [n - 1] else [])
  }

  /** One more detection: its index is appended when it passes the filter. */
  lemma AcceptedIndicesStep(d: OcrData, i: nat)
    requires ConfidenceCovers(d) && i < |d.text|
    ensures AcceptedIndices(d, i + 1) == AcceptedIndices(d, i) + (if Accepted(d, i) then [i] else [])
  {
  }

  /** An index is listed iff it is in range and passes the filter. */
  lemma {:induction false} AcceptedIndicesComplete(d: OcrData, n: nat, i: int)
    requires ConfidenceCovers(d) && n <= |d.text|
    ensures i in AcceptedIndices(d, n) <==> 0 <= i < n && Accepted(d, i)
  {
    if n > 0 {
      AcceptedIndicesComplete(d, n - 1, i);
    }
  }

  /** Something passes the filter iff the list of accepted indices is not empty. */
  lemma AnyAccepted(d: OcrData)
    requires ConfidenceCovers(d)
    ensures AcceptedIndices(d, |d.text|) != [] <==> exists i :: 0 <= i < |d.text| && Accepted(d, i)
  {
    var ks := AcceptedIndices(d, |d.text|);
    if ks != [] {
      assert Accepted(d, ks[0]);
    } else {
      forall i | 0 <= i < |d.text|
        ensures !Accepted(d, i)
      {
        AcceptedIndicesComplete(d, |d.text|, i);
      }
    }
  }

  /** The regions drawn for the detections `ks`, in that order. */
  function RegionsOf(d: OcrData, ks: seq<nat>): (rs: seq<TextRegion>)
    requires Covers(d) && forall j :: 0 <= j < |ks| ==> ks[j] < |d.text| && Accepted(d, ks[j])
    ensures |rs| == |ks| && forall j :: 0 <= j < |ks| ==> rs[j] == RegionAt(d, ks[j])
  {
    if ks == [] then [] else RegionsOf(d, ks[..|ks| - 1]) + [RegionAt(d, ks[|ks| - 1])]
  }

  /** The texts of `rs`, in order. */
  function TextsOf(rs: seq<TextRegion>): (texts: seq<String>)
    ensures |texts| == |rs| && forall j :: 0 <= j < |rs| ==> texts[j] == rs[j].text
  {
    if rs == [] then [] else TextsOf(rs[..|rs| - 1]) + [rs[|rs| - 1].text]
  }

  /**
   * What the scan has built after the first `i` detections: the regions of
   * the accepted ones, their texts, and the flag saying whether any was kept.
   */
  predicate ScannedUpTo(d: OcrData, i: nat, regions: seq<TextRegion>, allText: seq<String>, found: bool)
    requires Covers(d) && i <= |d.text|
  {
    regions == RegionsOf(d, AcceptedIndices(d, i)) && allText == TextsOf(regions) && (found <==> allText != [])
  }

  /** An accepted detection appends its region and its text and raises the flag. */
  lemma ScanKeeps(d: OcrData, i: nat, regions: seq<TextRegion>, allText: seq<String>, found: bool)
    requires Covers(d) && i < |d.text| && Accepted(d, i)
    requires ScannedUpTo(d, i, regions, allText, found)
    ensures ScannedUpTo(d, i + 1, regions + [RegionAt(d, i)], allText + [Strip(d.text[i])], true)
  {
    AcceptedIndicesStep(d, i);
    var ks := AcceptedIndices(d, i) + [i];
    assert ks[..|ks| - 1] == AcceptedIndices(d, i);
    var rs := regions + [RegionAt(d, i)];
    assert rs[..|rs| - 1] == regions;
  }

  /** A rejected detection changes nothing. */
  lemma ScanSkips(d: OcrData, i: nat, regions: seq<TextRegion>, allText: seq<String>, found: bool)
    requires Covers(d) && i < |d.text| && !Accepted(d, i)
    requires ScannedUpTo(d, i, regions, allText, found)
    ensures ScannedUpTo(d, i + 1, regions, allText, found)
  {
    AcceptedIndicesStep(d, i);
  }

  /** After the whole scan the flag says whether any detection passed the filter, and every text has two characters or more. */
  lemma ScanComplete(d: OcrData, regions: seq<TextRegion>, allText: seq<String>, found: bool)
    requires Covers(d) && ScannedUpTo(d, |d.text|, regions, allText, found)
    ensures found <==> exists i :: 0 <= i < |d.text| && Accepted(d, i)
    ensures forall j :: 0 <= j < |allText| ==> |allText[j]| > 1
  {
    AnyAccepted(d);
  }

  /**
   * The scan branch: walks the detections in order, keeps those the filter
   * accepts, maps each kept box back to the frame, collects the kept texts
   * and raises the found flag once anything is kept. The summary is the
   * space-joined text printed when something was found.
   */
  method ScanDetections(d: OcrData) returns (regions: seq<TextRegion>, allText: seq<String>, found: bool, summary: String)
    requires Covers(d)
    ensures regions == RegionsOf(d, AcceptedIndices(d, |d.text|))
    ensures allText == TextsOf(regions)
    ensures found <==> allText != []
    ensures found <==> exists i :: 0 <= i < |d.text| && Accepted(d, i)
    ensures forall j :: 0 <= j < |allText| ==> |allText[j]| > 1
    ensures summary == Join(allText, " ")
  {
    found := false;
    regions := [];
    allText := [];
    for i := 0 to |d.text|
      invariant ScannedUpTo(d, i, regions, allText, found)
    {
      var text := Strip(d.text[i]);
      var conf := d.conf[i];
      if conf > MinConfidence && |text| > 1 {
        assert Accepted(d, i);
        var box := Box(d.left[i] / Upscale, d.top[i] / Upscale, d.width[i] / Upscale, d.height[i] / Upscale);
        assert TextRegion(text, conf, box) == RegionAt(d, i);
        ScanKeeps(d, i, regions, allText, found);
        found := true;
        regions := regions + [TextRegion(text, conf, box)];
        allText := allText + [text];
      } else {
        ScanSkips(d, i, regions, allText, found);
      }
    }
    ScanComplete(d, regions, allText, found);
    summary := Join(allText, " ");
  }

  // ---------------------------------------------------------------------------
  // The processing mode

  /** The label shown for each mode; every value `process_mode` takes is a key. */
  const ModeNames: map<String, String> :=
    map["minimal" := "1-Minimal", "balanced" := "2-Balanced+Binary", "tophat" := "3-TopHat"]

  /** The mode the scanner starts in. */
  const DefaultMode: String := "minimal"

  /** `cv2.waitKey(1) & 0xFF`: the low byte of the raw key code (`-1`, no key, becomes 255). */
  function KeyCode(raw: int): (k: int)
    ensures 0 <= k < 256 && (raw - k) % 256 == 0
  {
    raw % 256
  }

  /** The keys that select a mode. */
  predicate IsModeKey(key: int) {
    key == '1' as int || key == '2' as int || key == '3' as int
  }

  /** The mode a mode key selects. */
  function ModeOfKey(key: int): (mode: String)
    requires IsModeKey(key)
    ensures mode in ModeNames
  {
    if key == '1' as int then "minimal"
    else if key == '2' as int then "balanced"
    else "tophat"
  }

  /** The mode after one key code: a mode key selects its mode, every other key keeps the current one. */
  function NextMode(mode: String, key: int): (next: String)
    ensures IsModeKey(key) ==> next == ModeOfKey(key)
    ensures !IsModeKey(key) ==> next == mode
    ensures mode in ModeNames ==> next in ModeNames
  {
    if IsModeKey(key) then ModeOfKey(key) else mode
  }

  /**
   * The mode after the raw key events `keys`, starting from the default. It
   * is always one of the labelled modes, so the label lookup never fails.
   */
  function ModeAfter(keys: seq<int>): (mode: String)
    ensures mode in ModeNames
  {
    if keys == [] then DefaultMode
    else NextMode(ModeAfter(keys[..|keys| - 1]), KeyCode(keys[|keys| - 1]))
  }

  /** With no mode key among the events the mode is still the default. */
  lemma {:induction false} ModeAfterNoModeKey(keys: seq<int>)
    requires forall j :: 0 <= j < |keys| ==> !IsModeKey(KeyCode(keys[j]))
    ensures ModeAfter(keys) == DefaultMode
  {
    if keys != [] {
      ModeAfterNoModeKey(keys[..|keys| - 1]);
    }
  }

  /** The last mode key pressed decides the mode. */
  lemma {:induction false} ModeAfterLastModeKey(keys: seq<int>, i: nat)
    requires i < |keys| && IsModeKey(KeyCode(keys[i]))
    requires forall j :: i < j < |keys| ==> !IsModeKey(KeyCode(keys[j]))
    ensures ModeAfter(keys) == ModeOfKey(KeyCode(keys[i]))
  {
    if i < |keys| - 1 {
      var init := keys[..|keys| - 1];
      assert init[i] == keys[i];
      ModeAfterLastModeKey(init, i);
    }
  }

  /** Number of key events before the first `q`, or all of them if there is none. */
  function QuitIndex(keys: seq<int>): (n: nat)
    ensures n <= |keys|
    ensures forall j :: 0 <= j < n ==> KeyCode(keys[j]) != 'q' as int
    ensures n < |keys| ==> KeyCode(keys[n]) == 'q' as int
  {
    if keys == [] then 0
    else if KeyCode(keys[0]) == 'q' as int then 0
    else 1 + QuitIndex(keys[1..])
  }

  /** The modes in which `s` started a scan, in order, over the key events `keys`. */
  function ScanModes(keys: seq<int>): (modes: seq<String>)
    ensures |modes| <= |keys|
  {
    if keys == [] then []
    else
      var init := keys[..|keys| - 1];
      if KeyCode(keys[|keys| - 1]) == 's' as int then ScanModes(init) + [ModeAfter(init)]
      else ScanModes(init)
  }

  /** Every scan runs in a labelled mode: preprocessing never sees an unknown mode from this loop. */
  lemma {:induction false} ScanModesKnown(keys: seq<int>)
    ensures forall j :: 0 <= j < |ScanModes(keys)| ==> ScanModes(keys)[j] in ModeNames
  {
    if keys != [] {
      var init := keys[..|keys| - 1];
      ScanModesKnown(init);
    }
  }

  /**
   * The display loop over the key events read one per frame: each frame is
   * labelled with the current mode, `1`/`2`/`3` switch modes, `s` scans in the
   * current mode and `q` ends the loop; running out of events ends it too.
   */
  method RunModeLoop(keys: seq<int>) returns (labels: seq<String>, scans: seq<String>, mode: String)
    ensures var n := if QuitIndex(keys) < |keys| then QuitIndex(keys) + 1 else |keys|;
      |labels| == n
      && (forall j :: 0 <= j < n ==> labels[j] == ModeNames[ModeAfter(keys[..j])])
      && mode == ModeAfter(keys[..n])
      && scans == ScanModes(keys[..n])
    ensures mode in ModeNames
  {
    mode := DefaultMode;
    labels := [];
    scans := [];
    var i := 0;
    var quit := false;
    while i < |keys| && !quit
      invariant 0 <= i <= |keys|
      invariant !quit ==> i <= QuitIndex(keys)
      invariant quit ==> i == QuitIndex(keys) + 1
      invariant mode == ModeAfter(keys[..i]) && mode in ModeNames
      invariant |labels| == i
      invariant forall j :: 0 <= j < i ==> labels[j] == ModeNames[ModeAfter(keys[..j])]
      invariant scans == ScanModes(keys[..i])
    {
      labels := labels + [ModeNames[mode]];
      var key := keys[i] % 256;
      assert keys[..i + 1][..i] == keys[..i];
      if key == '1' as int {
        mode := "minimal";
      } else if key == '2' as int {
        mode := "balanced";
      } else if key == '3' as int {
        mode := "tophat";
      } else if key == 's' as int {
        scans := scans + [mode];
      } else if key == 'q' as int {
        quit := true;
      }
      i := i + 1;
    }
  }
}
