/**
 * A worked file: one 16-byte data record at address 0 followed by the End of
 * File record, the example every description of the format uses.
 */
module HexSample {
  import opened Results
  import opened Ints
  import opened HexText
  import opened IntelHex
  import opened HexRecords

  const SampleData: seq<byte> :=
    [0x21, 0x46, 0x01, 0x36, 0x01, 0x21, 0x47, 0x01, 0x36, 0x00, 0x7E, 0xFE, 0x09, 0xD2, 0x19, 0x01]

  const SampleRecord := Record(0, 0, SampleData)

  /** The sum of a concatenation is the sum of its parts. */
  lemma {:induction false} SumAppend(a: seq<byte>, b: seq<byte>)
    ensures Sum(a + b) == Sum(a) + Sum(b)
    decreases |b|
  {
    if |b| > 0 {
      var init := b[..|b| - 1];
      assert (a + b)[..|a + b| - 1] == a + init;
      SumAppend(a, init);
    } else {
      assert a + b == a;
    }
  }

  /** The sum of four bytes, for adding up a literal record a few bytes at a time. */
  lemma SumFour(w: byte, x: byte, y: byte, z: byte)
    ensures Sum([w, x, y, z]) == w + x + y + z
  {
    assert [w][..0] == [];
    assert Sum([w]) == w;
    assert [w, x][..1] == [w];
    assert Sum([w, x]) == w + x;
    assert [w, x, y][..2] == [w, x];
    assert Sum([w, x, y]) == w + x + y;
    assert [w, x, y, z][..3] == [w, x, y];
  }

  /** The bytes the sample record's checksum covers add up to 959. */
  lemma SampleSum()
    ensures Sum([0x10, 0x00, 0x00, 0x00] + SampleData) == 959
  {
    var head: seq<byte> := [0x10, 0x00, 0x00, 0x00];
    var d0: seq<byte> := [0x21, 0x46, 0x01, 0x36];
    var d1: seq<byte> := [0x01, 0x21, 0x47, 0x01];
    var d2: seq<byte> := [0x36, 0x00, 0x7E, 0xFE];
    var d3: seq<byte> := [0x09, 0xD2, 0x19, 0x01];
    SumFour(0x10, 0x00, 0x00, 0x00);
    SumFour(0x21, 0x46, 0x01, 0x36);
    SumFour(0x01, 0x21, 0x47, 0x01);
    SumFour(0x36, 0x00, 0x7E, 0xFE);
    SumFour(0x09, 0xD2, 0x19, 0x01);
    SumAppend(head, d0);
    SumAppend(head + d0, d1);
    SumAppend(head + d0 + d1, d2);
    SumAppend(head + d0 + d1 + d2, d3);
    assert head + SampleData == head + d0 + d1 + d2 + d3;
  }

  /** The checksum of the sample record is 0x41: 959 is 0xBF modulo 256, and 0x100 - 0xBF is 0x41. */
  lemma SampleChecksum()
    ensures WellFormed(SampleRecord) && Checksum(SampleRecord) == 0x41
  {
    SampleSum();
    assert RecordBytes(SampleRecord) == [0x10, 0x00, 0x00, 0x00] + SampleData;
  }

  /**
   * As the first line of a file the sample record is kept with its checksum
   * 0x41, and the same line with checksum byte 0x40 is refused.
   */
  lemma SampleChecksumDecides()
    ensures StepLine(Start, FormatRecord(SampleRecord, 0x41)).Success?
    ensures StepLine(Start, FormatRecord(SampleRecord, 0x40)) == Failure(BadChecksum)
  {
    SampleChecksum();
    assert Apply(Start, SampleRecord).Success?;
    FormattedLineStep(Start, SampleRecord, 0x41);
    FormattedLineStep(Start, SampleRecord, 0x40);
  }
}
