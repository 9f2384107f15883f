/**
 * Intel HEX records as values, and the text line each one is written as.
 * This is the inverse the reader is measured against: formatting a record
 * and handing the line to the reader has exactly the record's meaning when
 * the checksum is right, and fails with BadChecksum when it is not.
 */
module HexRecords {
  import opened Results
  import opened Ints
  import opened HexText
  import opened IntelHex

  /** One record: its type, its 16-bit address field and its payload. */
  datatype Record = Record(kind: byte, address: u16, payload: seq<byte>)

  /**
   * A record the line format can carry: the length field is one byte, and an
   * Extended Segment Address record carries the two bytes of the segment.
   */
  predicate WellFormed(r: Record) {
    |r.payload| < 0x100 && (r.kind == 2 ==> |r.payload| == 2)
  }

  /** The bytes of a record in line order: length, address high, address low, type, payload. */
  function RecordBytes(r: Record): (bs: seq<byte>)
    requires WellFormed(r)
    ensures |bs| == 4 + |r.payload|
  {
    [|r.payload|, r.address / 0x100, r.address % 0x100, r.kind] + r.payload
  }

  /** The checksum byte of a record: the two's complement of the low byte of its sum. */
  function Checksum(r: Record): (c: byte)
    requires WellFormed(r)
    ensures ChecksumHolds(RecordBytes(r), c)
  {
    var s := Sum(RecordBytes(r));
    var c := (0x100 - s % 0x100) % 0x100;
    NegationModulo256(s, s % 0x100, c);
    c
  }

  /** No other checksum byte makes a record's bytes add up to 0 modulo 256. */
  lemma ChecksumIsUnique(r: Record, c: byte)
    requires WellFormed(r)
    ensures ChecksumHolds(RecordBytes(r), c) <==> c == Checksum(r)
  {
    var s := Sum(RecordBytes(r));
    NegationModulo256(s, s % 0x100, c);
  }

  /** A record written as a line, with checksum byte `c` (which need not be right). */
  function FormatRecord(r: Record, c: byte): (line: string)
    requires WellFormed(r)
    ensures |line| == 11 + 2 * |r.payload|
    ensures IsRecordLine(line)
  {
    ":" + HexBytes(RecordBytes(r) + [c])
  }

  /** The header the reader finds in front of the payload. */
  function HeaderOf(r: Record): Header
    requires WellFormed(r)
  {
    Header(|r.payload|, r.address, r.kind)
  }

  /**
   * What a record means to the reader, stated without any text: data is
   * copied to the segment base plus the address unless it runs past the 1 MiB
   * buffer; a segment record moves the base; End of File raises the end flag;
   * every other type is ignored.
   */
  function Apply(st: State, r: Record): (res: Result<State, Error>)
    requires WellFormed(r)
    ensures res.Failure? ==> res.error == AddressOutOfRange && r.kind == 0
  {
    var at := st.segmentBase + r.address;
    var n := |r.payload|;
    if r.kind == 0 then
      if n > 0 && at + n > FlashSize then Failure(AddressOutOfRange)
      else Success(st.(mem := Overlay(st.mem, at, r.payload), total := if n == 0 then st.total else Max(st.total, at + n)))
    else if r.kind == 2 then
      Success(st.(segmentBase := 16 * (0x100 * (r.payload[0] as int) + r.payload[1] as int)))
    else if r.kind == 1 then
      Success(st.(hitEnd := true))
    else
      Success(st)
  }

  /** The header of a formatted line reads back as the record's. */
  lemma FormattedHeader(r: Record, c: byte)
    requires WellFormed(r)
    ensures ReadHeader(FormatRecord(r, c)) == Success(HeaderOf(r))
  {
    var line := FormatRecord(r, c);
    var bs := RecordBytes(r) + [c];
    HexBytesSpell(":", bs);
    SpelledPair(line, 1, bs, 0);
    SpelledField(line, 1, bs, 1);
    assert 0x100 * (bs[1] as int) + bs[2] as int == r.address;
    SpelledPair(line, 1, bs, 3);
    assert Pow16(4) == 0x1_0000;
  }

  /** The payload of a formatted line reads back as the record's; so does a segment record's segment. */
  lemma FormattedPayload(r: Record, c: byte)
    requires WellFormed(r)
    ensures Payload(FormatRecord(r, c), |r.payload|) == Some(r.payload)
    ensures r.kind == 2 ==> Field(FormatRecord(r, c), 9, 4) == Some(0x100 * (r.payload[0] as int) + r.payload[1] as int)
  {
    var line := FormatRecord(r, c);
    var bs := RecordBytes(r) + [c];
    var n := |r.payload|;
    HexBytesSpell(":", bs);
    SpelledPairs(line, 1, bs, 4, n);
    assert bs[4..4 + n] == r.payload;
    if r.kind == 2 {
      SpelledField(line, 1, bs, 4);
    }
  }

  /** The checksum pair and the bytes it covers read back as written. */
  lemma FormattedChecksum(r: Record, c: byte)
    requires WellFormed(r)
    ensures var line := FormatRecord(r, c);
      && Pair(line, |line| - 2) == Some(c)
      && CheckedBytes(line) == Some(RecordBytes(r))
  {
    var line := FormatRecord(r, c);
    var bs := RecordBytes(r) + [c];
    var n := |r.payload|;
    HexBytesSpell(":", bs);
    SpelledPair(line, 1, bs, 4 + n);
    SpelledPairs(line, 1, bs, 0, 4 + n);
    assert bs[0..4 + n] == RecordBytes(r);
  }

  /** The reader's record step on a well-formed record's fields is the record's meaning. */
  lemma ApplyRecordMeans(st: State, line: string, r: Record)
    requires WellFormed(r)
    requires 9 + 2 * |r.payload| <= |line|
    requires Payload(line, |r.payload|) == Some(r.payload)
    requires r.kind == 2 ==> Field(line, 9, 4) == Some(0x100 * (r.payload[0] as int) + r.payload[1] as int)
    ensures ApplyRecord(st, line, HeaderOf(r)) == Apply(st, r)
  {
  }

  /** The checksum test on a formatted line passes exactly for the record's own checksum. */
  lemma CheckLineMeans(line: string, next: State, r: Record, c: byte)
    requires WellFormed(r) && |line| >= 3
    requires Pair(line, |line| - 2) == Some(c)
    requires CheckedBytes(line) == Some(RecordBytes(r))
    ensures CheckLine(line, next) == if c == Checksum(r) then Success(next) else Failure(BadChecksum)
  {
    ChecksumAcceptsIff(RecordBytes(r), c);
    ChecksumIsUnique(r, c);
  }

  /**
   * The round trip between the formatter and the reader: a formatted line
   * does what its record means when its checksum byte is the record's
   * checksum; with any other checksum byte it fails with BadChecksum unless
   * the record had already failed.
   */
  lemma FormattedLineStep(st: State, r: Record, c: byte)
    requires WellFormed(r)
    ensures StepLine(st, FormatRecord(r, c)) ==
      match Apply(st, r)
      case Failure(e) => Failure(e)
      case Success(next) => if c == Checksum(r) then Success(next) else Failure(BadChecksum)
  {
    var line := FormatRecord(r, c);
    FormattedHeader(r, c);
    FormattedPayload(r, c);
    FormattedChecksum(r, c);
    ApplyRecordMeans(st, line, r);
    if Apply(st, r).Success? {
      CheckLineMeans(line, Apply(st, r).value, r, c);
    }
  }

  /*
   * Whole files.
   */

  /** The reference reader: records applied in order, stopping at the first failure. */
  function ApplyAll(st: State, rs: seq<Record>): Result<State, Error>
    requires forall i :: 0 <= i < |rs| ==> WellFormed(rs[i])
    decreases |rs|
  {
    if |rs| == 0 then Success(st)
    else
      var next :- Apply(st, rs[0]);
      ApplyAll(next, rs[1..])
  }

  /** The reference decode: the records' effect, as an image, once End of File was seen. */
  function DecodeRecords(rs: seq<Record>): Result<seq<byte>, Error>
    requires forall i :: 0 <= i < |rs| ==> WellFormed(rs[i])
  {
    var last :- ApplyAll(Start, rs);
    if !last.hitEnd then Failure(MissingEndRecord) else Success(Image(last))
  }

  /** Records written one per line, each with its right checksum. */
  function FormatFile(rs: seq<Record>): (lines: seq<string>)
    requires forall i :: 0 <= i < |rs| ==> WellFormed(rs[i])
    ensures |lines| == |rs|
  {
    seq(|rs|, i requires 0 <= i < |rs| => FormatRecord(rs[i], Checksum(rs[i])))
  }

  /** Reading formatted records line by line is applying the records. */
  lemma {:induction false} RunFormattedFile(st: State, rs: seq<Record>)
    requires forall i :: 0 <= i < |rs| ==> WellFormed(rs[i])
    ensures Run(st, FormatFile(rs)) == ApplyAll(st, rs)
    decreases |rs|
  {
    if |rs| > 0 {
      var lines := FormatFile(rs);
      FormattedLineStep(st, rs[0], Checksum(rs[0]));
      assert lines[0] == FormatRecord(rs[0], Checksum(rs[0]));
      assert lines[1..] == FormatFile(rs[1..]);
      if Apply(st, rs[0]).Success? {
        RunFormattedFile(Apply(st, rs[0]).value, rs[1..]);
      }
    }
  }

  /** The file-level round trip: the reader decodes a formatted file to what its records mean. */
  lemma DecodeFormattedFile(rs: seq<Record>)
    requires forall i :: 0 <= i < |rs| ==> WellFormed(rs[i])
    ensures Decode(FormatFile(rs)) == DecodeRecords(rs)
  {
    RunFormattedFile(Start, rs);
  }
}
