/**
 * getMarkerColor: the colour of a sighting's map marker by its age in
 * minutes. The map page and the admin page each define their own copy; the
 * map's legend and the help text describe the same four bands.
 */
module MarkerColor {
  import opened Wrappers

  /** The four age bands, youngest first. */
  datatype Band = Red | Orange | Yellow | Blue

  /** getMarkerColor of the map page. */
  function MapMarkerColor(ageMinutes: int): string {
    if ageMinutes < 30 then "#ef4444"
    else if ageMinutes < 60 then "#f97316"
    else if ageMinutes < 120 then "#eab308"
    else "#3b82f6"
  }

  /** getMarkerColor of the admin page, written out separately there. */
  function AdminMarkerColor(ageMinutes: int): string {
    if ageMinutes < 30 then "#ef4444"
    else if ageMinutes < 60 then "#f97316"
    else if ageMinutes < 120 then "#eab308"
    else "#3b82f6"
  }

  /** The band a marker colour stands for; None for any other colour. */
  function BandOf(color: string): Option<Band> {
    if color == "#ef4444" then Some(Red)
    else if color == "#f97316" then Some(Orange)
    else if color == "#eab308" then Some(Yellow)
    else if color == "#3b82f6" then Some(Blue)
    else None
  }

  function Rank(b: Band): nat {
    match b
    case Red => 0
    case Orange => 1
    case Yellow => 2
    case Blue => 3
  }

  /** The two copies agree on every age. */
  lemma CopiesAgree(ageMinutes: int)
    ensures AdminMarkerColor(ageMinutes) == MapMarkerColor(ageMinutes)
  {
  }

  /** The bands and their bounds: under 30 minutes red, under an hour orange, under two hours yellow, else blue. */
  lemma MarkerBands(ageMinutes: int)
    ensures BandOf(MapMarkerColor(ageMinutes)).Some?
    ensures BandOf(MapMarkerColor(ageMinutes)) == Some(Red) <==> ageMinutes < 30
    ensures BandOf(MapMarkerColor(ageMinutes)) == Some(Orange) <==> 30 <= ageMinutes < 60
    ensures BandOf(MapMarkerColor(ageMinutes)) == Some(Yellow) <==> 60 <= ageMinutes < 120
    ensures BandOf(MapMarkerColor(ageMinutes)) == Some(Blue) <==> 120 <= ageMinutes
  {
    assert "#ef4444"[1] != "#f97316"[1] && "#ef4444"[1] != "#3b82f6"[1] && "#f97316"[1] != "#3b82f6"[1];
    assert "#ef4444"[1] == "#eab308"[1] && "#ef4444"[2] != "#eab308"[2];
  }

  /** As a sighting ages its marker only moves on, red to orange to yellow to blue, never back. */
  lemma ColorMonotone(a1: int, a2: int)
    requires a1 <= a2
    ensures BandOf(MapMarkerColor(a1)).Some? && BandOf(MapMarkerColor(a2)).Some?
    ensures Rank(BandOf(MapMarkerColor(a1)).value) <= Rank(BandOf(MapMarkerColor(a2)).value)
  {
    MarkerBands(a1);
    MarkerBands(a2);
  }

  /**
   * A row of the map's legend, or of the help text: the colour it shows, its caption, and the age in
   * minutes the caption says the band ends before (None for the last, open-ended band).
   */
  datatype LegendRow = LegendRow(color: string, caption: string, endsBefore: Option<int>)

  /** The legend drawn on the map. */
  const MapLegend: seq<LegendRow> := [
    LegendRow("#ef4444", "< 30 min", Some(30)),
    LegendRow("#f97316", "< 1 hour", Some(60)),
    LegendRow("#eab308", "1-2 hours", Some(120)),
    LegendRow("#3b82f6", "> 2 hours", None)
  ]

  /** The help text, whose colour names are the Tailwind 500 shades the markers use. */
  const HelpLegend: seq<LegendRow> := [
    LegendRow("#ef4444", "Red: Less than 30 minutes ago", Some(30)),
    LegendRow("#f97316", "Orange: Less than 1 hour ago", Some(60)),
    LegendRow("#eab308", "Yellow: 1-2 hours ago", Some(120)),
    LegendRow("#3b82f6", "Blue: Over 2 hours ago", None)
  ]

  /** The colour a legend gives an age: that of its first row whose band has not yet ended. */
  function LegendColor(rows: seq<LegendRow>, ageMinutes: int): Option<string> {
    if rows == [] then None
    else if rows[0].endsBefore.None? || ageMinutes < rows[0].endsBefore.value then Some(rows[0].color)
    else LegendColor(rows[1..], ageMinutes)
  }

  /** The map's legend and the help text give every age the colour its marker has. */
  lemma LegendsMatchMarkers(ageMinutes: int)
    ensures LegendColor(MapLegend, ageMinutes) == Some(MapMarkerColor(ageMinutes))
    ensures LegendColor(HelpLegend, ageMinutes) == Some(MapMarkerColor(ageMinutes))
  {
    FourBands(MapLegend, ageMinutes);
    FourBands(HelpLegend, ageMinutes);
  }

  /** Four rows with the marker colours, ending before 30, 60 and 120 minutes and then open, colour as the markers do. */
  lemma FourBands(rows: seq<LegendRow>, ageMinutes: int)
    requires |rows| == 4
    requires rows[0].color == "#ef4444" && rows[1].color == "#f97316" && rows[2].color == "#eab308" && rows[3].color == "#3b82f6"
    requires rows[0].endsBefore == Some(30) && rows[1].endsBefore == Some(60) && rows[2].endsBefore == Some(120)
    requires rows[3].endsBefore == None
    ensures LegendColor(rows, ageMinutes) == Some(MapMarkerColor(ageMinutes))
  {
    var r1 := rows[1..];
    var r2 := r1[1..];
    var r3 := r2[1..];
    assert r1[0] == rows[1] && r2[0] == rows[2] && r3[0] == rows[3];
    assert LegendColor(r3, ageMinutes) == Some("#3b82f6");
    assert LegendColor(r2, ageMinutes) == if ageMinutes < 120 then Some("#eab308") else LegendColor(r3, ageMinutes);
    assert LegendColor(r1, ageMinutes) == if ageMinutes < 60 then Some("#f97316") else LegendColor(r2, ageMinutes);
  }
}
