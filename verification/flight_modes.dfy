/**
 * The fourteen flight modes a pattern can be tied to, with their names and
 * ordinals. The editor parses a mode's name back to its ordinal through the
 * runtime's enum reflection; here the same mapping is an explicit table.
 */
module FlightModes {
  import opened Results

  datatype Mode =
    | STAB | ACRO | ALTH | AUTO | LOIT | GUID | RETL
    | CIRC | POSI | LAND | OFLO | MANU | FBWA | FBWB

  /** The enum in declaration order: the ordinal of a mode is its index here. */
  const AllModes: seq<Mode> := [STAB, ACRO, ALTH, AUTO, LOIT, GUID, RETL, CIRC, POSI, LAND, OFLO, MANU, FBWA, FBWB]

  const ModeCount: nat := 14

  function Ordinal(m: Mode): (n: nat)
    ensures n < ModeCount && AllModes[n] == m
  {
    match m
    case STAB => 0
    case ACRO => 1
    case ALTH => 2
    case AUTO => 3
    case LOIT => 4
    case GUID => 5
    case RETL => 6
    case CIRC => 7
    case POSI => 8
    case LAND => 9
    case OFLO => 10
    case MANU => 11
    case FBWA => 12
    case FBWB => 13
  }

  /** The mode with a given ordinal; None for a number the enum does not define. */
  function FromOrdinal(n: nat): (r: Option<Mode>)
    ensures r.Some? <==> n < ModeCount
    ensures r.Some? ==> Ordinal(r.value) == n
  {
    if n < |AllModes| then Some(AllModes[n]) else None
  }

  /** The name the mode is shown under in the editor's drop-down. */
  function Name(m: Mode): (r: string)
    ensures |r| == 4 && forall i :: 0 <= i < |r| ==> 'A' <= r[i] <= 'Z'
  {
    match m
    case STAB => "STAB"
    case ACRO => "ACRO"
    case ALTH => "ALTH"
    case AUTO => "AUTO"
    case LOIT => "LOIT"
    case GUID => "GUID"
    case RETL => "RETL"
    case CIRC => "CIRC"
    case POSI => "POSI"
    case LAND => "LAND"
    case OFLO => "OFLO"
    case MANU => "MANU"
    case FBWA => "FBWA"
    case FBWB => "FBWB"
  }

  /**
   * Name lookup, as the getter of the editor's flight mode does it: the mode
   * whose name is exactly `s`, or None where the runtime would throw.
   */
  function Parse(s: string): (r: Option<Mode>)
    ensures r.Some? ==> Name(r.value) == s
  {
    ParseFrom(s, 0)
  }

  function ParseFrom(s: string, n: nat): (r: Option<Mode>)
    requires n <= |AllModes|
    ensures r.Some? ==> Name(r.value) == s
    decreases |AllModes| - n
  {
    if n == |AllModes| then None
    else if Name(AllModes[n]) == s then Some(AllModes[n])
    else ParseFrom(s, n + 1)
  }

  /** The table has fourteen modes, no two of them alike, and no two with the same name. */
  lemma TableDistinct()
    ensures |AllModes| == ModeCount
    ensures forall i, j :: 0 <= i < j < |AllModes| ==> AllModes[i] != AllModes[j]
    ensures forall m, m' :: Name(m) == Name(m') ==> m == m'
  {
    forall i, j | 0 <= i < j < |AllModes|
      ensures AllModes[i] != AllModes[j]
    {
      assert Ordinal(AllModes[i]) == i && Ordinal(AllModes[j]) == j;
    }
  }

  /** Looking up a mode's own name finds that mode. */
  lemma ParseName(m: Mode)
    ensures Parse(Name(m)) == Some(m)
  {
    ParseFindsFrom(m, 0);
  }

  lemma {:induction false} ParseFindsFrom(m: Mode, n: nat)
    requires n <= Ordinal(m)
    ensures ParseFrom(Name(m), n) == Some(m)
    decreases |AllModes| - n
  {
    if Name(AllModes[n]) != Name(m) {
      ParseFindsFrom(m, n + 1);
    } else {
      TableDistinct();
    }
  }

  /** Every ordinal of the table goes to a mode and back to itself, by number and by name. */
  lemma OrdinalRoundTrip(n: nat)
    requires n < ModeCount
    ensures FromOrdinal(n).Some? && Ordinal(FromOrdinal(n).value) == n
    ensures Parse(Name(FromOrdinal(n).value)) == FromOrdinal(n)
  {
    ParseName(FromOrdinal(n).value);
  }

  /** Every mode goes to its ordinal and back to itself. */
  lemma ModeRoundTrip(m: Mode)
    ensures FromOrdinal(Ordinal(m)) == Some(m)
  {
  }

  /**
   * A flight-mode byte the enum defines. Nothing in the editor checks this
   * of a byte read from the board: it is a property a byte may lack.
   */
  predicate ValidModeByte(b: nat) {
    b < ModeCount
  }
}
