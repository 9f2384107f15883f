/**
 * The firmware reader `readIntelHEXv2`: lines of an Intel HEX file in, a flat
 * memory image out. It understands Data (00), End of File (01) and Extended
 * Segment Address (02) records; a record of any other type is still
 * checksum-checked but changes nothing.
 *
 * Each line is cut into fields by fixed position: `:` at 0, the length at
 * 1-2, the address at 3-6, the type at 7-8, the payload from 9, the checksum
 * in the last two characters. Bytes go into a zeroed 1 MiB buffer that is
 * cut down to one past the highest address written.
 */
module IntelHex {
  import opened Results
  import opened Ints
  import opened HexText

  /** The reader assembles into a zeroed buffer of 1 MiB. */
  const FlashSize: nat := 1024 * 1024

  /** Why a decode is abandoned; in the code each one is an exception. */
  datatype Error =
    | Malformed          // Substring past the end of the line, or Convert on a non-hex character
    | AddressOutOfRange  // a data byte aimed at an index of the buffer that does not exist
    | BadChecksum
    | MissingEndRecord

  /**
   * What the reader carries from line to line: the bytes written so far (the
   * buffer, kept sparse: every address not in `mem` still holds 0), the base
   * set by the last type-02 record, whether a type-01 record was seen, and one
   * past the highest address written.
   */
  datatype State = State(mem: map<nat, byte>, segmentBase: nat, hitEnd: bool, total: nat)

  const Start := State(map[], 0, false, 0)

  /** What holds of the reader's state between lines. */
  ghost predicate Valid(st: State) {
    && st.segmentBase % 16 == 0 && st.segmentBase < 0x10_0000
    && st.total <= FlashSize
    && (forall a :: a in st.mem ==> a < st.total)
    && (st.total == 0 || st.total - 1 in st.mem)
  }

  /** The fixed-position fields in front of the payload. */
  datatype Header = Header(length: byte, address: u16, kind: byte)

  predicate IsRecordLine(line: string) {
    |line| > 0 && line[0] == ':'
  }

  function ReadHeader(line: string): (r: Result<Header, Error>)
    ensures r.Success? ==> |line| >= 9
  {
    var length :- Pair(line, 1).ToResult(Malformed);
    var address :- Field(line, 3, 4).ToResult(Malformed);
    var kind :- Pair(line, 7).ToResult(Malformed);
    assert Pow16(4) == 0x1_0000;
    Success(Header(length, address, kind))
  }

  /** A line whose header parses and names an End of File record. */
  predicate IsEndRecord(line: string) {
    IsRecordLine(line) && ReadHeader(line).Success? && ReadHeader(line).value.kind == 1
  }

  /** The addresses `at` up to, but not including, `at + n`. */
  function Span(at: nat, n: nat): (r: set<nat>)
    ensures forall a :: a in r <==> at <= a < at + n
    decreases n
  {
    if n == 0 then {} else {at} + Span(at + 1, n - 1)
  }

  /** The buffer `m` after `bs` is copied to it from address `at` on. */
  function Overlay(m: map<nat, byte>, at: nat, bs: seq<byte>): map<nat, byte> {
    map a | a in m.Keys + Span(at, |bs|) :: if at <= a < at + |bs| then bs[a - at] else m[a]
  }

  /** Overlay writes exactly the span it is given, and keeps every other address. */
  lemma OverlayFacts(m: map<nat, byte>, at: nat, bs: seq<byte>)
    ensures forall k :: 0 <= k < |bs| ==> at + k in Overlay(m, at, bs) && Overlay(m, at, bs)[at + k] == bs[k]
    ensures forall a :: !(at <= a < at + |bs|) ==> (a in Overlay(m, at, bs) <==> a in m)
    ensures forall a :: a in m && !(at <= a < at + |bs|) ==> Overlay(m, at, bs)[a] == m[a]
  {
    var o := Overlay(m, at, bs);
    forall k | 0 <= k < |bs|
      ensures at + k in o && o[at + k] == bs[k]
    {
      assert at + k in Span(at, |bs|);
    }
  }

  /** Writing one byte and then the rest is writing them all. */
  lemma OverlayCons(m: map<nat, byte>, at: nat, b: byte, rest: seq<byte>)
    ensures Overlay(m[at := b], at + 1, rest) == Overlay(m, at, [b] + rest)
  {
    var left := Overlay(m[at := b], at + 1, rest);
    var right := Overlay(m, at, [b] + rest);
    assert left.Keys == right.Keys;
    forall a | a in left.Keys
      ensures left[a] == right[a]
    {
      if at + 1 <= a < at + 1 + |rest| {
        assert ([b] + rest)[a - at] == rest[a - (at + 1)];
      }
    }
  }

  /** The payload of a record: `length` byte pairs from position 9. */
  function Payload(line: string, length: nat): (r: Option<seq<byte>>)
    ensures r.Some? ==> |r.value| == length
    ensures r.Some? && length > 0 ==> 9 + 2 * length <= |line|
  {
    Pairs(line, 9, length)
  }

  /**
   * The data loop from iteration `k` on, with `pos = 9 + 2k` the character
   * position of payload byte `k`, `at` its address and `n = length - k` the
   * bytes still to go. Each byte is parsed, stored and counted in `total`;
   * the loop stops at the first byte that is not hex or that would land
   * outside the buffer.
   */
  function WriteData(st: State, line: string, pos: nat, at: nat, n: nat): (r: Result<State, Error>)
    ensures r.Success? <==> Pairs(line, pos, n).Some? && (n == 0 || at + n <= FlashSize)
    ensures r.Success? ==> r == Success(st.(
      mem := Overlay(st.mem, at, Pairs(line, pos, n).value),
      total := if n == 0 then st.total else Max(st.total, at + n)))
    ensures r.Failure? && Pairs(line, pos, n).Some? ==> r.error == AddressOutOfRange
    ensures r.Failure? ==> r.error == Malformed || r.error == AddressOutOfRange
    decreases n
  {
    if n == 0 then
      assert Overlay(st.mem, at, []) == st.mem;
      Success(st)
    else
      var b :- Pair(line, pos).ToResult(Malformed);
      if at >= FlashSize then Failure(AddressOutOfRange)
      else
        var r := WriteData(st.(mem := st.mem[at := b], total := Max(st.total, at + 1)), line, pos + 2, at + 1, n - 1);
        if r.Success? then
          OverlayCons(st.mem, at, b, Pairs(line, pos + 2, n - 1).value);
          r
        else r
  }

  /** A Data record: its payload, which starts at column 9, is copied to the base plus its address. */
  function ApplyData(st: State, line: string, h: Header): (r: Result<State, Error>)
    ensures r.Failure? ==> r.error == Malformed || r.error == AddressOutOfRange
    ensures r.Success? ==> st.mem.Keys <= r.value.mem.Keys && st.total <= r.value.total
    ensures r.Success? ==> r.value.segmentBase == st.segmentBase && r.value.hitEnd == st.hitEnd
    ensures r.Success? && Valid(st) ==> Valid(r.value)
  {
    if 9 + 2 * h.length > |line| then Failure(Malformed)
    else
      var at := st.segmentBase + h.address;
      var r := WriteData(st, line, 9, at, h.length);
      WriteDataPreservesValid(st, line, 9, at, h.length);
      r
  }

  /** An Extended Segment Address record: its four digits, times 16, become the base. */
  function ApplySegment(st: State, line: string): (r: Result<State, Error>)
    ensures r.Failure? ==> r.error == Malformed
    ensures r.Success? ==> r.value.mem == st.mem && r.value.total == st.total && r.value.hitEnd == st.hitEnd
    ensures r.Success? ==> r.value.segmentBase % 16 == 0 && r.value.segmentBase < 0x10_0000
    ensures r.Success? && Valid(st) ==> Valid(r.value)
  {
    assert Pow16(4) == 0x1_0000;
    var segment :- Field(line, 9, 4).ToResult(Malformed);
    Success(st.(segmentBase := segment * 16))
  }

  /**
   * The branch of `readIntelHEXv2` on the record type: Data, Extended Segment
   * Address, End of File, and nothing for any other type.
   */
  function ApplyRecord(st: State, line: string, h: Header): (r: Result<State, Error>)
    ensures r.Failure? ==>
      || (h.kind == 0 && (r.error == Malformed || r.error == AddressOutOfRange))
      || (h.kind == 2 && r.error == Malformed)
    ensures r.Success? ==> st.mem.Keys <= r.value.mem.Keys && st.total <= r.value.total
    ensures r.Success? && h.kind != 0 ==> r.value.mem == st.mem && r.value.total == st.total
    ensures r.Success? ==> (r.value.hitEnd <==> st.hitEnd || h.kind == 1)
    ensures r.Success? && h.kind != 2 ==> r.value.segmentBase == st.segmentBase
    ensures r.Success? && h.kind == 2 ==> r.value.segmentBase % 16 == 0 && r.value.segmentBase < 0x10_0000
    ensures r.Success? && Valid(st) ==> Valid(r.value)
  {
    if h.kind == 0 then ApplyData(st, line, h)
    else if h.kind == 2 then ApplySegment(st, line)
    else if h.kind == 1 then
      Success(st.(hitEnd := true))
    else
      Success(st)
  }

  /** The code's running checksum: a C# `byte`, so each addition wraps and the result is the true sum modulo 256. */
  function WrappingSum(bs: seq<byte>): (r: byte)
    ensures r == Sum(bs) % 0x100
  {
    if |bs| == 0 then 0
    else
      var init := bs[..|bs| - 1];
      var w := WrappingSum(init);
      var q := Sum(init) / 0x100;
      assert Sum(init) == 0x100 * q + w;
      ModuloAbsorbs(q, w + bs[|bs| - 1]);
      (w + bs[|bs| - 1]) % 0x100
  }

  /** The plain sum, the reference the checksum rule is stated with. */
  function Sum(bs: seq<byte>): nat {
    if |bs| == 0 then 0 else Sum(bs[..|bs| - 1]) + bs[|bs| - 1]
  }

  lemma ModuloAbsorbs(q: nat, x: nat)
    ensures (0x100 * q + x) % 0x100 == x % 0x100
  {
  }

  /** `(0x100 - s % 0x100) % 0x100` is the byte that brings `s` to a multiple of 256. */
  lemma NegationModulo256(s: nat, w: byte, c: byte)
    requires w == s % 0x100
    ensures (0x100 - w) % 0x100 == c <==> (s + c) % 0x100 == 0
  {
    var q := s / 0x100;
    assert s == 0x100 * q + w;
    ModuloAbsorbs(q, w + c);
    assert (w + c) % 0x100 == 0 <==> w + c == 0 || w + c == 0x100;
  }

  /**
   * The bytes the checksum loop adds up: every pair between the colon and the
   * last two characters, (length - 3) / 2 of them.
   */
  function CheckedBytes(line: string): (r: Option<seq<byte>>)
    requires |line| >= 3
    ensures r.Some? ==> |r.value| == (|line| - 3) / 2
    ensures r.Some? ==> 1 + 2 * |r.value| <= |line| - 2
  {
    Pairs(line, 1, (|line| - 3) / 2)
  }

  /**
   * The checksum as the code applies it: `(byte)(0x100 - sum)` compared with
   * the last two characters of the line.
   */
  predicate ChecksumAccepts(wrappedSum: byte, checksum: byte) {
    (0x100 - wrappedSum) % 0x100 == checksum
  }

  /** The Intel HEX rule: the bytes and the checksum add up to 0 modulo 256. */
  predicate ChecksumHolds(bs: seq<byte>, checksum: byte) {
    (Sum(bs) + checksum) % 0x100 == 0
  }

  /** The code's test is the Intel HEX rule. */
  lemma ChecksumAcceptsIff(bs: seq<byte>, checksum: byte)
    ensures ChecksumAccepts(WrappingSum(bs), checksum) <==> ChecksumHolds(bs, checksum)
  {
    NegationModulo256(Sum(bs), WrappingSum(bs), checksum);
  }

  /** One turn of the reader's loop over the lines of the file. */
  function StepLine(st: State, line: string): (r: Result<State, Error>)
    ensures !IsRecordLine(line) ==> r == Success(st)
    ensures r.Success? ==> st.mem.Keys <= r.value.mem.Keys && st.total <= r.value.total
    ensures r.Success? && st.hitEnd ==> r.value.hitEnd
    ensures r.Failure? ==> r.error != MissingEndRecord
  {
    if !IsRecordLine(line) then Success(st)
    else
      var h :- ReadHeader(line);
      var next :- ApplyRecord(st, line, h);
      CheckLine(line, next)
  }

  /** The checksum test that closes each turn; the record's effect is kept only if it passes. */
  function CheckLine(line: string, next: State): (r: Result<State, Error>)
    requires |line| >= 3
    ensures r.Success? ==> r.value == next
    ensures r.Failure? ==> r.error == Malformed || r.error == BadChecksum
  {
    var checksum :- Pair(line, |line| - 2).ToResult(Malformed);
    var bytes :- CheckedBytes(line).ToResult(Malformed);
    if !ChecksumAccepts(WrappingSum(bytes), checksum) then Failure(BadChecksum)
    else Success(next)
  }

  /** The reader's loop: lines in file order, stopping at the first exception. */
  function Run(st: State, lines: seq<string>): (r: Result<State, Error>)
    ensures r.Success? ==> st.mem.Keys <= r.value.mem.Keys && st.total <= r.value.total
    ensures r.Success? && st.hitEnd ==> r.value.hitEnd
    ensures r.Failure? ==> r.error != MissingEndRecord
    decreases |lines|
  {
    if |lines| == 0 then Success(st)
    else
      var next :- StepLine(st, lines[0]);
      Run(next, lines[1..])
  }

  /** The reader's whole 1 MiB buffer: 0 wherever nothing was written. */
  function Buffer(st: State): (b: seq<byte>)
    ensures |b| == FlashSize
  {
    seq(FlashSize, i requires 0 <= i < FlashSize => if i in st.mem then st.mem[i] else 0)
  }

  /**
   * The buffer resized to `total` bytes: the bytes written below `total`,
   * and 0 at every other index.
   */
  function Image(st: State): (r: seq<byte>)
    ensures |r| == st.total
    ensures forall a :: a in st.mem && a < st.total ==> r[a] == st.mem[a]
    ensures forall i :: 0 <= i < |r| && i !in st.mem ==> r[i] == 0
    ensures st.total <= FlashSize ==> r == Buffer(st)[..st.total]
  {
    seq(st.total, i requires 0 <= i < st.total => if i in st.mem then st.mem[i] else 0)
  }

  /** A successful step on a record line is its record's effect. */
  lemma StepLineParts(st: State, line: string)
    requires IsRecordLine(line) && StepLine(st, line).Success?
    ensures ReadHeader(line).Success?
    ensures ApplyRecord(st, line, ReadHeader(line).value) == StepLine(st, line)
  {
  }

  /** A data loop that runs to the end keeps the state valid. */
  lemma WriteDataPreservesValid(st: State, line: string, pos: nat, at: nat, n: nat)
    ensures Valid(st) && WriteData(st, line, pos, at, n).Success? ==> Valid(WriteData(st, line, pos, at, n).value)
  {
    if Valid(st) && WriteData(st, line, pos, at, n).Success? {
      OverlayPreservesValid(st, at, Pairs(line, pos, n).value);
    }
  }

  /** Copying a payload that fits in the buffer keeps the state valid. */
  lemma OverlayPreservesValid(st: State, at: nat, bs: seq<byte>)
    requires Valid(st)
    requires |bs| == 0 || at + |bs| <= FlashSize
    ensures Valid(st.(mem := Overlay(st.mem, at, bs), total := if |bs| == 0 then st.total else Max(st.total, at + |bs|)))
  {
    OverlayFacts(st.mem, at, bs);
    if |bs| > 0 {
      assert at + (|bs| - 1) in Overlay(st.mem, at, bs);
    }
  }

  lemma StepPreservesValid(st: State, line: string)
    requires Valid(st)
    requires StepLine(st, line).Success?
    ensures Valid(StepLine(st, line).value)
  {
    if IsRecordLine(line) {
      StepLineParts(st, line);
    }
  }

  lemma {:induction false} RunPreservesValid(st: State, lines: seq<string>)
    requires Valid(st)
    requires Run(st, lines).Success?
    ensures Valid(Run(st, lines).value)
    decreases |lines|
  {
    if |lines| > 0 {
      StepPreservesValid(st, lines[0]);
      RunPreservesValid(StepLine(st, lines[0]).value, lines[1..]);
    }
  }

  /**
   * `readIntelHEXv2`. On success the image is exactly as long as one past the
   * highest address written, holds the last byte written at each written
   * address and 0 everywhere else; it fails when no End of File record was
   * processed, and no partial image is ever returned.
   */
  function Decode(lines: seq<string>): (r: Result<seq<byte>, Error>)
    ensures r.Success? <==> Run(Start, lines).Success? && Run(Start, lines).value.hitEnd
    ensures r.Failure? && Run(Start, lines).Success? ==> r.error == MissingEndRecord
    ensures r.Success? ==>
      var written := Run(Start, lines).value.mem;
      && |r.value| <= FlashSize
      && (forall a :: a in written ==> a < |r.value| && r.value[a] == written[a])
      && (forall i :: 0 <= i < |r.value| && i !in written ==> r.value[i] == 0)
      && (|r.value| == 0 <==> written == map[])
      && (|r.value| > 0 ==> |r.value| - 1 in written)
  {
    var last :- Run(Start, lines);
    if !last.hitEnd then Failure(MissingEndRecord)
    else
      RunPreservesValid(Start, lines);
      Success(Image(last))
  }

  /*
   * What one line does.
   */

  lemma StepLineOfParsedLine(st: State, line: string)
    requires IsRecordLine(line) && ReadHeader(line).Success?
    requires ApplyRecord(st, line, ReadHeader(line).value).Success?
    requires Pair(line, |line| - 2).Some? && CheckedBytes(line).Some?
    ensures StepLine(st, line) ==
      if !ChecksumAccepts(WrappingSum(CheckedBytes(line).value), Pair(line, |line| - 2).value)
      then Failure(BadChecksum)
      else ApplyRecord(st, line, ReadHeader(line).value)
  {
  }

  /**
   * A line whose fields all parse is accepted exactly when its bytes and its
   * checksum add up to 0 modulo 256; a rejected line fails with BadChecksum
   * and an accepted one has its record's effect.
   */
  lemma ChecksumRule(st: State, line: string)
    requires IsRecordLine(line) && ReadHeader(line).Success?
    requires ApplyRecord(st, line, ReadHeader(line).value).Success?
    requires Pair(line, |line| - 2).Some? && CheckedBytes(line).Some?
    ensures StepLine(st, line).Success? <==> ChecksumHolds(CheckedBytes(line).value, Pair(line, |line| - 2).value)
    ensures StepLine(st, line).Success? ==> StepLine(st, line) == ApplyRecord(st, line, ReadHeader(line).value)
    ensures StepLine(st, line).Failure? ==> StepLine(st, line).error == BadChecksum
  {
    StepLineOfParsedLine(st, line);
    ChecksumAcceptsIff(CheckedBytes(line).value, Pair(line, |line| - 2).value);
  }

  /** A record of a type other than 00, 01 and 02 leaves the state alone, but is still checked. */
  lemma UnknownTypeIgnored(st: State, line: string)
    requires IsRecordLine(line) && ReadHeader(line).Success?
    requires ReadHeader(line).value.kind !in {0, 1, 2}
    ensures ApplyRecord(st, line, ReadHeader(line).value) == Success(st)
    ensures StepLine(st, line).Success? ==> StepLine(st, line).value == st
  {
  }

  /**
   * A data record of length L copies its L payload bytes to segmentBase +
   * address onwards and nothing else: the segment base and the end flag stay,
   * and `total` grows to cover the last byte written. (A whole line has this
   * effect when its checksum holds, by StepLineParts and ChecksumRule.)
   */
  lemma DataRecordEffect(st: State, line: string, h: Header)
    requires h.kind == 0 && ApplyRecord(st, line, h).Success?
    ensures
      var at := st.segmentBase + h.address;
      && Payload(line, h.length).Some?
      && (h.length > 0 ==> at + h.length <= FlashSize)
      && ApplyRecord(st, line, h).value == st.(
           mem := Overlay(st.mem, at, Payload(line, h.length).value),
           total := if h.length == 0 then st.total else Max(st.total, at + h.length))
  {
  }

  /**
   * A data record reaching past the 1 MiB buffer is refused, even when its
   * text is otherwise well formed.
   */
  lemma DataBeyondFlashRejected(st: State, line: string)
    requires IsRecordLine(line) && ReadHeader(line).Success? && ReadHeader(line).value.kind == 0
    requires var h := ReadHeader(line).value;
      && 9 + 2 * h.length <= |line| && Payload(line, h.length).Some?
      && h.length > 0 && st.segmentBase + h.address + h.length > FlashSize
    ensures StepLine(st, line) == Failure(AddressOutOfRange)
  {
  }

  /**
   * An Extended Segment Address record sets the base to its four payload
   * digits shifted left by 4, so below 2^20, and changes nothing else; data
   * records that follow are placed relative to it.
   */
  lemma SegmentRecordEffect(st: State, line: string)
    requires IsRecordLine(line) && ReadHeader(line).Success? && ReadHeader(line).value.kind == 2
    requires StepLine(st, line).Success?
    ensures Field(line, 9, 4).Some?
    ensures StepLine(st, line).value == st.(segmentBase := Field(line, 9, 4).value * 16)
    ensures StepLine(st, line).value.segmentBase < 0x10_0000
  {
    StepLineParts(st, line);
    assert Pow16(4) == 0x1_0000;
  }

  /** An End of File record only raises the end flag. */
  lemma EndRecordEffect(st: State, line: string)
    requires IsEndRecord(line)
    requires StepLine(st, line).Success?
    ensures StepLine(st, line).value == st.(hitEnd := true)
  {
    StepLineParts(st, line);
  }

  /** The end flag is only raised by an End of File record. */
  lemma EndFlagRaisedOnlyByEndRecord(st: State, line: string)
    requires !st.hitEnd
    requires StepLine(st, line).Success? && StepLine(st, line).value.hitEnd
    ensures IsEndRecord(line)
  {
    if IsRecordLine(line) {
      StepLineParts(st, line);
    }
  }

  /*
   * What a whole file does.
   */

  /** Reading A then B is reading A, then reading B from where A left off. */
  lemma {:induction false} RunAppend(st: State, a: seq<string>, b: seq<string>)
    ensures Run(st, a + b) ==
      match Run(st, a)
      case Failure(e) => Failure(e)
      case Success(mid) => Run(mid, b)
    decreases |a|
  {
    if |a| == 0 {
      assert a + b == b;
    } else {
      assert (a + b)[0] == a[0];
      assert (a + b)[1..] == a[1..] + b;
      match StepLine(st, a[0])
      case Failure(_) =>
      case Success(next) => RunAppend(next, a[1..], b);
    }
  }

  lemma {:induction false} EndFlagNeedsEndRecord(st: State, lines: seq<string>)
    requires !st.hitEnd && Run(st, lines).Success? && Run(st, lines).value.hitEnd
    ensures exists i :: 0 <= i < |lines| && IsEndRecord(lines[i])
    decreases |lines|
  {
    var next := StepLine(st, lines[0]).value;
    if next.hitEnd {
      EndFlagRaisedOnlyByEndRecord(st, lines[0]);
      assert IsEndRecord(lines[0]);
    } else {
      EndFlagNeedsEndRecord(next, lines[1..]);
      var i :| 0 <= i < |lines[1..]| && IsEndRecord(lines[1..][i]);
      assert IsEndRecord(lines[i + 1]);
    }
  }

  /** A file decodes only if one of its lines is an End of File record. */
  lemma DecodeNeedsEndRecord(lines: seq<string>)
    requires Decode(lines).Success?
    ensures exists i :: 0 <= i < |lines| && IsEndRecord(lines[i])
  {
    EndFlagNeedsEndRecord(Start, lines);
  }

  /**
   * The End of File record does not stop the reader: the lines after it are
   * still read, written and checked, and any of them can still fail the decode.
   */
  lemma LinesAfterEndAreRead(a: seq<string>, b: seq<string>)
    requires Run(Start, a).Success? && Run(Start, a).value.hitEnd
    ensures Decode(a + b) ==
      match Run(Run(Start, a).value, b)
      case Failure(e) => Failure(e)
      case Success(last) => Success(Image(last))
  {
    RunAppend(Start, a, b);
    var mid := Run(Start, a).value;
    if Run(mid, b).Success? {
      RunPreservesValid(Start, a + b);
    }
  }

  /*
   * Letter case. The runtime converter takes `a`-`f` for `A`-`F`, so the
   * header, the payload and the checksum read the same whatever the case of
   * their hex letters.
   */

  /** A header in lower-case hex, such as that of `:0100000041be`, reads as its upper-case spelling. */
  lemma ReadHeaderIgnoresCase(line: string)
    ensures ReadHeader(Upper(line)) == ReadHeader(line)
  {
    PairIgnoresCase(line, 1);
    FieldIgnoresCase(line, 3, 4);
    PairIgnoresCase(line, 7);
  }

  /** The data loop stores the same bytes, or fails the same way, in either case. */
  lemma {:induction false} WriteDataIgnoresCase(st: State, line: string, pos: nat, at: nat, n: nat)
    ensures WriteData(st, Upper(line), pos, at, n) == WriteData(st, line, pos, at, n)
    decreases n
  {
    if n > 0 {
      PairIgnoresCase(line, pos);
      if Pair(line, pos).Some? && at < FlashSize {
        var b := Pair(line, pos).value;
        WriteDataIgnoresCase(st.(mem := st.mem[at := b], total := Max(st.total, at + 1)), line, pos + 2, at + 1, n - 1);
      }
    }
  }

  /** The checksum test passes or fails alike in either case. */
  lemma CheckLineIgnoresCase(line: string, next: State)
    requires |line| >= 3
    ensures CheckLine(Upper(line), next) == CheckLine(line, next)
  {
    var n := (|line| - 3) / 2;
    PairIgnoresCase(line, |line| - 2);
    PairsIgnoresCase(line, 1, n);
    CheckLineSameFields(Upper(line), line, next);
  }

  /** Two lines with the same checked bytes and checksum pair pass or fail the test alike. */
  lemma CheckLineSameFields(a: string, b: string, next: State)
    requires |a| == |b| >= 3
    requires Pair(a, |a| - 2) == Pair(b, |b| - 2) && CheckedBytes(a) == CheckedBytes(b)
    ensures CheckLine(a, next) == CheckLine(b, next)
  {
  }
}
