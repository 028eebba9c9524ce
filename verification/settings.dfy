/** `PaletteManager`'s name-to-id table and the shutter mode chosen by the
    auto-calibration checkbox. */
module CameraSettings {

  /** `PALETTE_MAP`, in its declaration order (the order `get_available_palettes` lists). */
  const PaletteNames: seq<string> := [
    "Alarm Blue", "Pinkblue", "Bone", "Grayblack", "Alarm Green", "Iron",
    "Orange", "Medical", "Rain", "Rainbow", "Alarm Red"]

  const PaletteMap: map<string, int> := map[
    "Alarm Blue" := 1, "Pinkblue" := 2, "Bone" := 3, "Grayblack" := 4, "Alarm Green" := 5, "Iron" := 6,
    "Orange" := 7, "Medical" := 8, "Rain" := 9, "Rainbow" := 10, "Alarm Red" := 11]

  const DefaultPaletteId: int := 6

  const ShutterModeAuto: int := 1
  const ShutterModeManual: int := 0

  /** `get_palette_id`: the table's id, or the default for a name it lacks. */
  function PaletteId(name: string): (id: int)
    ensures 1 <= id <= 11
    ensures name !in PaletteMap ==> id == DefaultPaletteId
  {
    if name in PaletteMap then PaletteMap[name] else DefaultPaletteId
  }

  /** `get_available_palettes`: the table's names in declaration order. */
  function AvailablePalettes(): (names: seq<string>)
    ensures forall n :: n in names <==> n in PaletteMap
  {
    PaletteNames
  }

  /** The k-th listed palette has id k + 1, so the eleven names have eleven distinct ids. */
  lemma PaletteIdsFollowListing()
    ensures |PaletteNames| == 11
    ensures forall k :: 0 <= k < 11 ==> PaletteId(PaletteNames[k]) == k + 1
    ensures forall i, j :: 0 <= i < j < 11 ==> PaletteId(PaletteNames[i]) != PaletteId(PaletteNames[j])
  {
  }

  /** The default id is Iron's: only "Iron" and unlisted names select palette 6. */
  lemma DefaultIsIron(name: string)
    ensures PaletteId(name) == DefaultPaletteId <==> name == "Iron" || name !in PaletteMap
  {
  }

  /** The mode `toggle_auto_calib` sends: automatic for checkbox state 2 (checked), manual otherwise. */
  function ShutterModeFor(checkState: int): (mode: int)
    ensures mode == ShutterModeAuto <==> checkState == 2
    ensures mode == ShutterModeAuto || mode == ShutterModeManual
  {
    if checkState == 2 then ShutterModeAuto else ShutterModeManual
  }
}
