/** `CameraManager`: opening the camera through the vendor library and
    choosing the formats offered for the reported thermal resolution. The
    library's answers are parameters: what it does inside is not modelled. */
module CameraSession {
  import opened Wrappers
  import opened FormatBlocks
  import opened FormatCatalog

  /** What the vendor library reports during one `init_camera` call. */
  datatype SdkAnswers = SdkAnswers(
    libraryLoads: bool,   // loading libirimager.dll succeeds (only tried while not yet loaded)
    initStatus: int,      // evo_irimager_usb_init's return code
    thermalWidth: int,
    thermalHeight: int,
    paletteWidth: int,
    paletteHeight: int,
    serialStatus: int,    // evo_irimager_get_serial's return code
    serial: nat)          // the serial number it wrote, meaningful when serialStatus == 0

  /** The summary `init_camera` returns on success. */
  datatype CameraInfo = CameraInfo(
    thermalWidth: int,
    thermalHeight: int,
    paletteWidth: int,
    paletteHeight: int,
    serial: nat)

  /** The formats offered for a thermal resolution: the exact matches, or the
      whole catalog when there are none. */
  function AvailableFormats(catalog: seq<VideoFormat>, width: int, height: int): seq<VideoFormat>
  {
    var exact := ByResolution(catalog, width, height);
    if exact == [] then catalog else exact
  }

  lemma FallbackSpec(catalog: seq<VideoFormat>, width: int, height: int)
    ensures (exists f :: f in catalog && HasResolution(f, width, height)) ==>
      && AvailableFormats(catalog, width, height) == ByResolution(catalog, width, height)
      && forall f :: f in AvailableFormats(catalog, width, height) ==> HasResolution(f, width, height)
    ensures (forall f :: f in catalog ==> !HasResolution(f, width, height)) ==>
      AvailableFormats(catalog, width, height) == catalog
    ensures AvailableFormats(catalog, width, height) == [] <==> catalog == []
  {
    ByResolutionMembers(catalog, width, height);
    if catalog != [] && ByResolution(catalog, width, height) == [] {
      assert catalog[0] in catalog;
    }
    if exists f :: f in catalog && HasResolution(f, width, height) {
      var f :| f in catalog && HasResolution(f, width, height);
      assert f in ByResolution(catalog, width, height);
    }
  }

  class CameraManager {
    var libraryLoaded: bool
    var formatsParser: FormatsDefParser
    var currentFormatIndex: int
    var availableFormats: seq<VideoFormat>

    /** `content` is the format file's block list, as for `FormatsDefParser`. */
    constructor (content: Option<seq<Block>>)
      ensures !libraryLoaded && fresh(formatsParser)
      ensures formatsParser.formats == if content.Some? then Catalog(content.value) else []
      ensures currentFormatIndex == 0 && availableFormats == []
    {
      libraryLoaded := false;
      formatsParser := new FormatsDefParser(content);
      currentFormatIndex := 0;
      availableFormats := [];
    }

    method InitCamera(sdk: SdkAnswers) returns (info: Option<CameraInfo>)
      modifies this`libraryLoaded, this`availableFormats
      ensures libraryLoaded == (old(libraryLoaded) || sdk.libraryLoads)
      ensures info.Some? <==> libraryLoaded && sdk.initStatus == 0
      ensures info.Some? ==>
        && info.value.thermalWidth == sdk.thermalWidth && info.value.thermalHeight == sdk.thermalHeight
        && info.value.paletteWidth == sdk.paletteWidth && info.value.paletteHeight == sdk.paletteHeight
        && info.value.serial == (if sdk.serialStatus == 0 then sdk.serial else 0)
        && availableFormats == AvailableFormats(formatsParser.formats, sdk.thermalWidth, sdk.thermalHeight)
      ensures info.None? ==> availableFormats == old(availableFormats)
    {
      if !libraryLoaded {
        if !sdk.libraryLoads {
          return None;
        }
        libraryLoaded := true;
      }
      if sdk.initStatus != 0 {
        return None;
      }
      // a failed serial query is reported as serial 0
      var serial := if sdk.serialStatus == 0 then sdk.serial else 0;
      availableFormats := formatsParser.GetFormatsByResolution(sdk.thermalWidth, sdk.thermalHeight);
      if availableFormats == [] {
        availableFormats := formatsParser.GetAllFormats();
      }
      info := Some(CameraInfo(sdk.thermalWidth, sdk.thermalHeight, sdk.paletteWidth, sdk.paletteHeight, serial));
    }
  }
}
