/** Leaving the raid from an extraction tile. */
module Extraction {
  import opened Common
  import opened State
  import opened Schemas
  import opened Grid

  /** `canExtract`: the unit stands on a tile flagged for extraction. */
  function CanExtract(s: GameState, unit: Unit): (r: bool)
    ensures r <==> GetTile(s.grid, unit.pos).Some? && GetTile(s.grid, unit.pos).value.extraction
  {
    match GetTile(s.grid, unit.pos)
    case None => false
    case Some(t) => t.extraction
  }

  /** `applyExtraction`: from an extraction tile the mission becomes
      extracted and the success is reported; elsewhere nothing happens. */
  function ApplyExtraction(s: GameState, unit: Unit): (r: (GameState, seq<Event>))
    ensures CanExtract(s, unit) ==> r.0 == s.(mission := s.mission.(status := Extracted)) && r.1 == [ExtractionSuccess(unit.id)]
    ensures !CanExtract(s, unit) ==> r == (s, [])
  {
    if !CanExtract(s, unit) then (s, [])
    else (s.(mission := s.mission.(status := Extracted)), [ExtractionSuccess(unit.id)])
  }

  /** Extraction touches nothing but the mission status, and repeating it
      from the same tile changes nothing more. */
  lemma ExtractionIdempotent(s: GameState, unit: Unit)
    ensures ApplyExtraction(ApplyExtraction(s, unit).0, unit).0 == ApplyExtraction(s, unit).0
    ensures ApplyExtraction(s, unit).0.(mission := s.mission) == s
  {
  }
}
