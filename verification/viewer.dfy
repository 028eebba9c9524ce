/** The state of the viewer window (`ThermalCameraApp`) that is more than
    widgets: the camera-model guess shown after opening, and the per-tick frame
    handler with its FPS counters. */
module ThermalViewer {
  import opened Wrappers
  import opened FormatBlocks
  import opened FormatCatalog
  import opened Tokens
  import opened FrameStats

  /** Shown when no catalog format has the camera's thermal resolution. */
  const UnknownModel: string := "Неизвестная модель"
  /** Shown when the first matching format's name has no word at all. */
  const UnknownName: string := "Неизвестная"

  /** What the centre-temperature and mean-temperature labels are given. */
  datatype Readout = Readout(centerRaw: int, centerTenths: int, meanCelsius: real)

  /** How one timer tick ends. */
  datatype FrameOutcome =
    | AcquisitionFailed(status: int)  // non-zero SDK status: early return, nothing counted
    | HandlerRaised                   // the centre index fell outside the buffer; caught and logged
    | Shown(readout: Readout)

  /** The model word of the first catalog format at the given resolution is a
      key of the by-model grouping, and that format is in its group. */
  lemma DetectedModelHasGroup(fs: seq<VideoFormat>, width: int, height: int)
    requires ByResolution(fs, width, height) != []
    requires ByResolution(fs, width, height)[0].name.Some?
    requires ModelOf(ByResolution(fs, width, height)[0]).Some?
    requires GroupByModel(fs).Some?
    ensures ModelOf(ByResolution(fs, width, height)[0]).value in GroupByModel(fs).value.groups
    ensures ByResolution(fs, width, height)[0]
              in GroupByModel(fs).value.groups[ModelOf(ByResolution(fs, width, height)[0]).value]
  {
    var f := ByResolution(fs, width, height)[0];
    ByResolutionMembers(fs, width, height);
    assert f in ByResolution(fs, width, height);
    GroupingPartitions(fs, f, ModelOf(f).value);
  }

  /** A model word has no whitespace, so it is never the two-word "unknown model" marker. */
  lemma WordIsNotUnknownModel(w: string)
    requires NoSpace(w)
    ensures w != UnknownModel
  {
    if |w| == |UnknownModel| {
      assert IsSpace(UnknownModel[11]);
      assert !IsSpace(w[11]);
    }
  }

  lemma UnknownMarkersDiffer()
    ensures UnknownName != UnknownModel
  {
    assert |UnknownName| == 11 && |UnknownModel| == 18;
  }

  class ThermalCameraApp {
    var formatsParser: FormatsDefParser
    var thermalWidth: nat
    var thermalHeight: nat
    var frameCount: nat
    var fps: real
    var lastUpdateMs: int

    /** The window after a successful camera opening at time `nowMs`. */
    constructor (parser: FormatsDefParser, thermalWidth: nat, thermalHeight: nat, nowMs: int)
      ensures formatsParser == parser
      ensures this.thermalWidth == thermalWidth && this.thermalHeight == thermalHeight
      ensures Window() == FpsWindow(0, 0.0, nowMs)
    {
      formatsParser := parser;
      this.thermalWidth := thermalWidth;
      this.thermalHeight := thermalHeight;
      frameCount := 0;
      fps := 0.0;
      lastUpdateMs := nowMs;
    }

    /** The FPS counters as one value. */
    function Window(): FpsWindow
      reads this
    {
      FpsWindow(frameCount, fps, lastUpdateMs)
    }

    /** `detect_camera_model`; `None` when the first matching format has no
        name, where the source raises `KeyError`. */
    method DetectCameraModel() returns (model: Option<string>)
      ensures model == Some(UnknownModel) <==>
        forall f :: f in formatsParser.formats ==> !HasResolution(f, thermalWidth, thermalHeight)
      ensures model.None? <==>
        ByResolution(formatsParser.formats, thermalWidth, thermalHeight) != []
        && ByResolution(formatsParser.formats, thermalWidth, thermalHeight)[0].name.None?
      ensures ByResolution(formatsParser.formats, thermalWidth, thermalHeight) != [] ==>
        var first := ByResolution(formatsParser.formats, thermalWidth, thermalHeight)[0];
        && HasResolution(first, thermalWidth, thermalHeight)
        && (first.name.Some? ==>
              model == Some(if ModelOf(first).Some? then ModelOf(first).value else UnknownName))
    {
      var matching := formatsParser.GetFormatsByResolution(thermalWidth, thermalHeight);
      if matching != [] {
        assert matching[0] in matching;
        var name := matching[0].name;
        if name.None? {
          return None;
        }
        var parts := FirstToken(name.value);
        if parts.Some? {
          WordIsNotUnknownModel(parts.value);
          return Some(parts.value);
        }
        UnknownMarkersDiffer();
        return Some(UnknownName);
      }
      return Some(UnknownModel);
    }

    /** `update_frame`: `status` is the acquisition call's return code and
        `thermal` the thermal buffer it filled, at time `nowMs`. */
    method UpdateFrame(status: int, thermal: seq<int>, nowMs: int) returns (outcome: FrameOutcome)
      modifies this`frameCount, this`fps, this`lastUpdateMs
      ensures status != 0 ==> outcome == AcquisitionFailed(status) && Window() == old(Window())
      ensures status == 0 ==> Window() == Tick(old(Window()), nowMs)
      ensures status == 0 && CenterIndex(thermalWidth, thermalHeight) < |thermal| ==>
        var raw := thermal[CenterIndex(thermalWidth, thermalHeight)];
        outcome == Shown(Readout(raw, TenthsOfDegree(raw), MeanCelsius(thermal)))
      ensures status == 0 && CenterIndex(thermalWidth, thermalHeight) >= |thermal| ==> outcome == HandlerRaised
      ensures status == 0 && thermalWidth >= 1 && thermalHeight >= 1 && |thermal| == thermalWidth * thermalHeight ==>
        outcome.Shown?
    {
      if status != 0 {
        return AcquisitionFailed(status);
      }
      frameCount := frameCount + 1;
      var elapsed := nowMs - lastUpdateMs;
      if elapsed > FpsWindowMs {
        fps := frameCount as real * 1000.0 / elapsed as real;
        lastUpdateMs := nowMs;
        frameCount := 0;
      }
      var centerIndex := CenterIndex(thermalWidth, thermalHeight);
      if thermalWidth >= 1 && thermalHeight >= 1 {
        CenterIndexInBounds(thermalWidth, thermalHeight);
      }
      if centerIndex >= |thermal| {
        return HandlerRaised;
      }
      var rawTemp := thermal[centerIndex];
      var tempTenths := TenthsOfDegree(rawTemp);
      var avgTemp := MeanCelsius(thermal);
      return Shown(Readout(rawTemp, tempTenths, avgTemp));
    }
  }
}
