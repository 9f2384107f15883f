/**
 * The sixteen pattern editors between the board's EEPROM and the user. The
 * read handler shows each decoded slot on an editor (mask on the checkboxes,
 * flight mode as its name); the write handler reads each editor back into a
 * slot before encoding. Editors are addressed by slot index, not by name.
 */
module Editor {
  import opened Results
  import opened Ints
  import opened ConfigCodec
  import opened PatternMask
  import opened FlightModes

  /** One pattern editor: its sixteen checkboxes and the text of its flight-mode box. */
  datatype Control = Control(boxes: seq<bool>, modeText: string)

  predicate WellShaped(c: Control) {
    |c.boxes| == BoxCount
  }

  /**
   * The setters the read handler calls: `Value` ticks the checkboxes, and
   * `FlightMode` writes the mode's name. None when the number is not one of
   * the enum's ordinals: what the drop-down then shows is not modelled.
   */
  function Show(s: Slot): (r: Option<Control>)
    ensures r.Some? <==> ValidModeByte(s.mode)
    ensures r.Some? ==> WellShaped(r.value) && r.value.boxes == SetStatus(s.mask)
  {
    match FromOrdinal(s.mode)
    case Some(m) => Some(Control(SetStatus(s.mask), Name(m)))
    case None => None
  }

  /**
   * The getters the write handler calls: `Value` adds up the checkboxes, and
   * `FlightMode` looks the shown name up in the enum; None where the lookup
   * would throw.
   */
  function ReadBack(c: Control): (r: Option<Slot>)
    requires WellShaped(c)
    ensures r.Some? <==> Parse(c.modeText).Some?
    ensures r.Some? ==> r.value.mask == Pack(c.boxes) && ValidModeByte(r.value.mode)
  {
    PackFits(c.boxes);
    match Parse(c.modeText)
    case Some(m) => Some(Slot(Pack(c.boxes), Ordinal(m)))
    case None => None
  }

  /** A slot whose mode is in the enum is shown and read back unchanged. */
  lemma ShowThenReadBack(s: Slot)
    requires ValidModeByte(s.mode)
    ensures Show(s).Some? && ReadBack(Show(s).value) == Some(s)
  {
    var m := FromOrdinal(s.mode).value;
    ParseName(m);
    GetAfterSet(s.mask);
  }

  /** An editor whose text names a mode survives being read back and shown again. */
  lemma ReadBackThenShow(c: Control)
    requires WellShaped(c) && Parse(c.modeText).Some?
    ensures Show(ReadBack(c).value) == Some(c)
  {
    SetAfterGet(c.boxes);
    ModeRoundTrip(Parse(c.modeText).value);
  }

  /** Every slot of the image has a mode byte the enum defines. */
  predicate ModesValid(e: Image) {
    forall i :: 0 <= i < SlotCount ==> ValidModeByte(e[ModeBase + 2 * i])
  }

  /**
   * The read handler after a successful download: every decoded slot shown
   * on the editor with the same number.
   */
  function ShowAll(t: seq<Slot>): (r: Option<seq<Control>>)
    ensures r.Some? <==> forall i :: 0 <= i < |t| ==> ValidModeByte(t[i].mode)
    ensures r.Some? ==> |r.value| == |t| && forall i :: 0 <= i < |t| ==> Show(t[i]) == Some(r.value[i])
  {
    if forall i :: 0 <= i < |t| ==> Show(t[i]).Some? then
      Some(seq(|t|, i requires 0 <= i < |t| => Show(t[i]).value))
    else None
  }

  /** The write handler's loop over the editors, before encoding. */
  function ReadAll(cs: seq<Control>): (r: Option<seq<Slot>>)
    requires forall i :: 0 <= i < |cs| ==> WellShaped(cs[i])
    ensures r.Some? <==> forall i :: 0 <= i < |cs| ==> Parse(cs[i].modeText).Some?
    ensures r.Some? ==> |r.value| == |cs| && forall i :: 0 <= i < |cs| ==> ReadBack(cs[i]) == Some(r.value[i])
  {
    if forall i :: 0 <= i < |cs| ==> ReadBack(cs[i]).Some? then
      Some(seq(|cs|, i requires 0 <= i < |cs| => ReadBack(cs[i]).value))
    else None
  }

  /**
   * Reading the board into the editors and writing the editors straight back
   * leaves the image unchanged, for an image whose modes are all in the enum
   * and whose two copies of each mode agree.
   */
  lemma ReadThenWriteUnchanged(e: Image)
    requires ModesValid(e) && ModesDuplicated(e)
    ensures ShowAll(Decode(e)).Some?
    ensures var cs := ShowAll(Decode(e)).value;
      && (forall i :: 0 <= i < |cs| ==> WellShaped(cs[i]))
      && ReadAll(cs) == Some(Decode(e))
      && Encode(Decode(e), e) == e
  {
    var t := Decode(e);
    TableRoundTrip(t);
    EncodeDecode(e);
  }

  /** A table whose modes are all in the enum is shown and read back unchanged. */
  lemma TableRoundTrip(t: seq<Slot>)
    requires forall i :: 0 <= i < |t| ==> ValidModeByte(t[i].mode)
    ensures ShowAll(t).Some?
    ensures var cs := ShowAll(t).value;
      (forall i :: 0 <= i < |cs| ==> WellShaped(cs[i])) && ReadAll(cs) == Some(t)
  {
    forall i | 0 <= i < |t|
      ensures Show(t[i]).Some? && ReadBack(Show(t[i]).value) == Some(t[i])
    {
      ShowThenReadBack(t[i]);
    }
    var cs := ShowAll(t).value;
    assert ReadAll(cs).Some?;
    assert ReadAll(cs).value == t;
  }
}
