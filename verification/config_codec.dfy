/**
 * The board's settings as they sit in its 1024-byte EEPROM. Slot `i` of the
 * sixteen output patterns keeps its 16-bit mask big-endian in bytes `2i` and
 * `2i + 1`, and its flight-mode number in byte `64 + 2i`, written twice (also
 * into `65 + 2i`) but read back only from the first copy. The write handler
 * uploads the first 126 bytes; the reset handler uploads 1024 zeros.
 */
module ConfigCodec {
  import opened Ints

  const EepromSize: nat := 1024
  const SlotCount: nat := 16
  /** First byte of the flight-mode area. */
  const ModeBase: nat := 64
  /** How many bytes the write handler sends to the board. */
  const UploadLength: nat := 126

  /** One output pattern as the editor holds it: the checkbox mask and the flight mode. */
  datatype Slot = Slot(mask: u16, mode: u16)

  type Image = e: seq<byte> | |e| == EepromSize witness seq(EepromSize, _ => 0)

  /**
   * Two bytes read as a big-endian 16-bit number: the high byte shifted left
   * by 8 plus the low byte. The read handler casts both the shifted byte and
   * the sum to `ushort`; neither cast can lose a bit, and the two bytes come
   * back out of the result.
   */
  function BigEndian(high: byte, low: byte): (r: u16)
    ensures r / 0x100 == high && r % 0x100 == low
  {
    0x100 * high + low
  }

  /** A 16-bit value cut into its high and low byte and put back together is itself. */
  lemma BigEndianSplit(m: u16)
    ensures m / 0x100 < 0x100
    ensures BigEndian(m / 0x100, m % 0x100) == m
  {
  }

  predicate IsTable(t: seq<Slot>) {
    |t| == SlotCount
  }

  /** The byte stored for a flight mode: the code's `(byte)` cast keeps the low 8 bits. */
  function ModeByte(mode: u16): (b: byte)
    ensures mode < 0x100 ==> b == mode
  {
    mode % 0x100
  }

  /** The four bytes of slot `i` in `e` hold `s`: the mask high byte first, then the mode twice. */
  predicate SlotStored(e: Image, i: nat, s: Slot)
    requires i < SlotCount
  {
    && e[2 * i] == s.mask / 0x100
    && e[2 * i + 1] == s.mask % 0x100
    && e[ModeBase + 2 * i] == ModeByte(s.mode)
    && e[ModeBase + 2 * i + 1] == ModeByte(s.mode)
  }

  /** Position `p` is one of the bytes slots `0 .. n - 1` occupy. */
  predicate InFirstSlots(p: nat, n: nat) {
    p < 2 * n || ModeBase <= p < ModeBase + 2 * n
  }

  /** The body of the write handler's loop for the pattern numbered `i + 1`. */
  function WriteSlot(e: Image, i: nat, s: Slot): (r: Image)
    requires i < SlotCount
    ensures SlotStored(r, i, s)
    ensures BigEndian(r[2 * i], r[2 * i + 1]) == s.mask
    ensures forall p :: 0 <= p < EepromSize ==>
      (p != 2 * i && p != 2 * i + 1 && p != ModeBase + 2 * i && p != ModeBase + 2 * i + 1) ==> r[p] == e[p]
  {
    e[2 * i := s.mask / 0x100][2 * i + 1 := s.mask % 0x100]
     [ModeBase + 2 * i := ModeByte(s.mode)][ModeBase + 2 * i + 1 := ModeByte(s.mode)]
  }

  /**
   * The controls are visited in whatever order the form lists them; writing
   * two different slots gives the same image in either order.
   */
  lemma WriteSlotsCommute(e: Image, i: nat, j: nat, s: Slot, s': Slot)
    requires i < SlotCount && j < SlotCount && i != j
    ensures WriteSlot(WriteSlot(e, i, s), j, s') == WriteSlot(WriteSlot(e, j, s'), i, s)
  {
    var a := WriteSlot(WriteSlot(e, i, s), j, s');
    var b := WriteSlot(WriteSlot(e, j, s'), i, s);
    forall p | 0 <= p < EepromSize
      ensures a[p] == b[p]
    {
    }
  }

  /**
   * Slots `0 .. n - 1` of `t` written over `e`, lowest slot first: each of
   * them is stored, and every byte outside their positions is as in `e`.
   */
  function EncodeUpTo(t: seq<Slot>, e: Image, n: nat): (r: Image)
    requires IsTable(t) && n <= SlotCount
    ensures forall i :: 0 <= i < n ==> SlotStored(r, i, t[i])
    ensures forall p :: 0 <= p < EepromSize && !InFirstSlots(p, n) ==> r[p] == e[p]
    decreases n
  {
    if n == 0 then e
    else
      var before := EncodeUpTo(t, e, n - 1);
      var r := WriteSlot(before, n - 1, t[n - 1]);
      assert forall i :: 0 <= i < n ==> SlotStored(r, i, t[i]) by {
        forall i | 0 <= i < n - 1
          ensures SlotStored(r, i, t[i])
        {
          assert SlotStored(before, i, t[i]);
        }
      }
      r
  }

  /**
   * The write handler's encoding of a whole table into the image: every
   * slot is stored at its place, and no byte outside the 32 mask bytes and
   * the 32 mode bytes changes.
   */
  function Encode(t: seq<Slot>, e: Image): (r: Image)
    requires IsTable(t)
    ensures forall i :: 0 <= i < SlotCount ==> SlotStored(r, i, t[i])
    ensures forall p :: 0 <= p < EepromSize && !InFirstSlots(p, SlotCount) ==> r[p] == e[p]
  {
    EncodeUpTo(t, e, |t|)
  }

  /**
   * The read handler's decoding: each mask from its two bytes, high byte
   * first, and each mode from the first of its two copies only.
   */
  function Decode(e: Image): (t: seq<Slot>)
    ensures IsTable(t)
    ensures forall i :: 0 <= i < SlotCount ==> t[i].mode < 0x100
  {
    seq(SlotCount, i requires 0 <= i < SlotCount =>
      Slot(BigEndian(e[2 * i], e[2 * i + 1]), e[ModeBase + 2 * i]))
  }

  /** Slot `i` takes its mode from the first of its two mode bytes. */
  lemma DecodeStoredMode(e: Image, i: nat)
    requires i < SlotCount
    ensures Decode(e)[i].mode == e[ModeBase + 2 * i]
  {
  }

  /*
   * Round trips.
   */

  /** A slot stored in an image is read back as written, its mode cut to the stored byte. */
  lemma DecodeStoredSlot(e: Image, i: nat, s: Slot)
    requires i < SlotCount && SlotStored(e, i, s)
    ensures Decode(e)[i] == Slot(s.mask, ModeByte(s.mode))
  {
    BigEndianSplit(s.mask);
  }

  /** Decoding an encoded table gives it back, with each mode cut to its low byte. */
  lemma DecodeEncode(t: seq<Slot>, e: Image, i: nat)
    requires IsTable(t) && i < SlotCount
    ensures Decode(Encode(t, e))[i] == Slot(t[i].mask, ModeByte(t[i].mode))
  {
    var r := Encode(t, e);
    assert SlotStored(r, i, t[i]);
    DecodeStoredSlot(r, i, t[i]);
  }

  /** Every table whose modes fit in a byte survives encoding and decoding unchanged. */
  lemma RoundTrip(t: seq<Slot>, e: Image)
    requires IsTable(t)
    requires forall i :: 0 <= i < SlotCount ==> t[i].mode < 0x100
    ensures Decode(Encode(t, e)) == t
  {
    forall i | 0 <= i < SlotCount
      ensures Decode(Encode(t, e))[i] == t[i]
    {
      DecodeEncode(t, e, i);
    }
  }

  /**
   * A mode number of 256 or more does not survive: only its low byte comes
   * back, so the table read back is not the table written.
   */
  lemma ModeAbove255IsTruncated(t: seq<Slot>, e: Image, i: nat)
    requires IsTable(t) && i < SlotCount && t[i].mode >= 0x100
    ensures Decode(Encode(t, e))[i].mode == t[i].mode % 0x100 != t[i].mode
    ensures Decode(Encode(t, e)) != t
  {
    DecodeEncode(t, e, i);
  }

  /** The two copies of every slot's mode agree. */
  predicate ModesDuplicated(e: Image) {
    forall i :: 0 <= i < SlotCount ==> e[ModeBase + 2 * i + 1] == e[ModeBase + 2 * i]
  }

  /**
   * Encoding what was just decoded changes nothing exactly when every mode's
   * second copy already equals its first.
   */
  lemma EncodeDecode(e: Image)
    ensures Encode(Decode(e), e) == e <==> ModesDuplicated(e)
  {
    if ModesDuplicated(e) {
      ReencodeUnchanged(e);
    }
    var t := Decode(e);
    var r := Encode(t, e);
    if r == e {
      forall i | 0 <= i < SlotCount
        ensures e[ModeBase + 2 * i + 1] == e[ModeBase + 2 * i]
      {
        assert SlotStored(r, i, t[i]);
      }
    }
  }

  lemma ReencodeUnchanged(e: Image)
    requires ModesDuplicated(e)
    ensures Encode(Decode(e), e) == e
  {
    var t := Decode(e);
    var r := Encode(t, e);
    forall p | 0 <= p < EepromSize
      ensures r[p] == e[p]
    {
      if InFirstSlots(p, SlotCount) {
        var i := SlotOfPosition(p);
        assert SlotStored(r, i, t[i]);
        DecodedSlotStored(e, i);
        SameSlotSameBytes(r, e, i, t[i], p);
      }
    }
  }

  /** The slot a byte of the mask or mode area belongs to. */
  lemma SlotOfPosition(p: nat) returns (i: nat)
    requires InFirstSlots(p, SlotCount)
    ensures i < SlotCount
    ensures p == 2 * i || p == 2 * i + 1 || p == ModeBase + 2 * i || p == ModeBase + 2 * i + 1
  {
    i := if p < 2 * SlotCount then p / 2 else (p - ModeBase) / 2;
  }

  /** Two images storing the same slot agree on its four bytes. */
  lemma SameSlotSameBytes(a: Image, b: Image, i: nat, s: Slot, p: nat)
    requires i < SlotCount && SlotStored(a, i, s) && SlotStored(b, i, s)
    requires p == 2 * i || p == 2 * i + 1 || p == ModeBase + 2 * i || p == ModeBase + 2 * i + 1
    ensures a[p] == b[p]
  {
  }

  /** An image whose mode copies agree already stores each slot it decodes to. */
  lemma DecodedSlotStored(e: Image, i: nat)
    requires i < SlotCount && ModesDuplicated(e)
    ensures SlotStored(e, i, Decode(e)[i])
  {
  }

  /** The decoder looks at the 32 mask bytes and the first copy of each mode, and nothing else. */
  lemma DecodeReadsOnly(e: Image, e': Image)
    requires forall p :: 0 <= p < 2 * SlotCount ==> e'[p] == e[p]
    requires forall i :: 0 <= i < SlotCount ==> e'[ModeBase + 2 * i] == e[ModeBase + 2 * i]
    ensures Decode(e') == Decode(e)
  {
    forall i | 0 <= i < SlotCount
      ensures Decode(e')[i] == Decode(e)[i]
    {
      assert e'[2 * i] == e[2 * i] && e'[2 * i + 1] == e[2 * i + 1];
    }
  }

  /*
   * What reaches the board.
   */

  /** The board's EEPROM after the write handler uploads the first 126 bytes of `e`. */
  function Upload(board: Image, e: Image): (r: Image)
    ensures forall p :: 0 <= p < UploadLength ==> r[p] == e[p]
    ensures forall p :: UploadLength <= p < EepromSize ==> r[p] == board[p]
  {
    e[..UploadLength] + board[UploadLength..]
  }

  /** Encoding writes only inside the uploaded prefix: bytes from 96 on are left as they were. */
  lemma EncodeStaysInUpload(t: seq<Slot>, e: Image)
    requires IsTable(t)
    ensures ModeBase + 2 * SlotCount <= UploadLength
    ensures forall p :: ModeBase + 2 * SlotCount <= p < EepromSize ==> Encode(t, e)[p] == e[p]
    ensures forall p :: 2 * SlotCount <= p < ModeBase ==> Encode(t, e)[p] == e[p]
  {
  }

  /**
   * Writing a table to a board and reading the board back gives the table,
   * whatever the board held before, when every mode fits in a byte.
   */
  lemma WriteThenRead(t: seq<Slot>, e: Image, board: Image)
    requires IsTable(t)
    requires forall i :: 0 <= i < SlotCount ==> t[i].mode < 0x100
    ensures Decode(Upload(board, Encode(t, e))) == t
  {
    var image := Encode(t, e);
    DecodeReadsOnly(image, Upload(board, image));
    RoundTrip(t, e);
  }

  /** The image the reset handler uploads, all 1024 bytes of it. */
  const ResetImage: Image := seq(EepromSize, _ => 0)

  /** After a reset every slot reads back as an empty mask with mode 0. */
  lemma ResetReadsEmpty()
    ensures Decode(ResetImage) == seq(SlotCount, _ => Slot(0, 0))
  {
  }

  /*
   * The form's `patterns` array.
   */

  /**
   * The values the form's `patterns` array starts with. The editors
   * themselves start at 0, and the write handler never reads this array: it
   * encodes what the editors show. The table below pairs each value with
   * mode 0.
   */
  const DefaultMasks: seq<u16> :=
    [0xF000, 0xF0F0, 0xF804, 0xCCCC, 0x8888, 0xAAA0, 0xAAAA, 0, 0, 0, 0, 0, 0, 0, 0, 0]

  const DefaultTable: seq<Slot> := seq(SlotCount, i requires 0 <= i < SlotCount => Slot(DefaultMasks[i], 0))

  /**
   * The table of the `patterns` array's starting values would survive a write
   * and a read; its slot 1 would be stored as F0 00. The program itself never
   * encodes this table.
   */
  lemma DefaultTableRoundTrip(e: Image)
    ensures IsTable(DefaultTable)
    ensures Decode(Encode(DefaultTable, e)) == DefaultTable
    ensures Encode(DefaultTable, e)[0] == 0xF0 && Encode(DefaultTable, e)[1] == 0x00
  {
    RoundTrip(DefaultTable, e);
    var r := Encode(DefaultTable, e);
    assert DefaultTable[0] == Slot(0xF000, 0);
    assert SlotStored(r, 0, DefaultTable[0]);
    FirstSlotBytes(r);
  }

  lemma FirstSlotBytes(r: Image)
    requires SlotStored(r, 0, Slot(0xF000, 0))
    ensures r[0] == 0xF0 && r[1] == 0x00
  {
  }
}
