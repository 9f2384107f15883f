/**
 * Hexadecimal text as the firmware reader sees it: fixed-width fields cut out
 * of a line with `Substring` and converted with `Convert.ToInt32(_, 16)` or
 * `Convert.ToByte(_, 16)`, either of which throws on a non-hex character.
 */
module HexText {
  import opened Results
  import opened Ints

  /** Value of one hexadecimal digit; both letter cases are digits. */
  function DigitValue(c: char): (r: Option<nat>)
    ensures r.Some? <==> ('0' <= c <= '9' || 'a' <= c <= 'f' || 'A' <= c <= 'F')
    ensures r.Some? ==> r.value < 16
  {
    if '0' <= c <= '9' then Some(c as int - '0' as int)
    else if 'a' <= c <= 'f' then Some(c as int - 'a' as int + 10)
    else if 'A' <= c <= 'F' then Some(c as int - 'A' as int + 10)
    else None
  }

  predicate IsHexDigit(c: char) {
    DigitValue(c).Some?
  }

  /** The upper-case digit for `d`; the inverse of DigitValue. */
  function DigitChar(d: nat): (c: char)
    requires d < 16
    ensures DigitValue(c) == Some(d)
  {
    if d < 10 then ('0' as int + d) as char else ('A' as int + d - 10) as char
  }

  function Pow16(n: nat): (r: nat)
    ensures r >= 1
  {
    if n == 0 then 1 else 16 * Pow16(n - 1)
  }

  /**
   * The value of a big-endian hexadecimal numeral; None when the numeral is
   * empty or holds a character that is not a hex digit.
   */
  function ParseHex(s: string): (r: Option<nat>)
    ensures r.Some? <==> |s| > 0 && forall i :: 0 <= i < |s| ==> IsHexDigit(s[i])
    ensures r.Some? ==> r.value < Pow16(|s|)
    decreases |s|
  {
    if |s| == 0 then None
    else if |s| == 1 then DigitValue(s[0])
    else
      var init := s[..|s| - 1];
      assert forall i :: 0 <= i < |init| ==> init[i] == s[i];
      match (ParseHex(init), DigitValue(s[|s| - 1]))
      case (Some(high), Some(low)) => Some(16 * high + low)
      case _ => None
  }

  /** The field of `width` characters at `pos`; None when it runs past the line or is not hex. */
  function Field(line: string, pos: nat, width: nat): (r: Option<nat>)
    ensures r.Some? <==> width > 0 && pos + width <= |line| && forall i :: pos <= i < pos + width ==> IsHexDigit(line[i])
    ensures r.Some? ==> r.value < Pow16(width)
  {
    if pos + width <= |line| then
      var s := line[pos..pos + width];
      assert forall i :: pos <= i < pos + width ==> line[i] == s[i - pos];
      ParseHex(s)
    else None
  }

  /** Two hex characters at `pos`, read as one byte. */
  function Pair(line: string, pos: nat): (r: Option<byte>)
    ensures r.Some? <==> pos + 2 <= |line| && IsHexDigit(line[pos]) && IsHexDigit(line[pos + 1])
  {
    if pos + 2 <= |line| then
      match (DigitValue(line[pos]), DigitValue(line[pos + 1]))
      case (Some(high), Some(low)) => Some(16 * high + low)
      case _ => None
    else None
  }

  /** `n` consecutive byte pairs starting at `pos`; None if one of them is not hex or not there. */
  function Pairs(line: string, pos: nat, n: nat): (r: Option<seq<byte>>)
    ensures r.Some? ==> |r.value| == n
    ensures r.Some? && n > 0 ==> pos + 2 * n <= |line|
    decreases n
  {
    if n == 0 then Some([])
    else
      match (Pair(line, pos), Pairs(line, pos + 2, n - 1))
      case (Some(b), Some(rest)) => Some([b] + rest)
      case _ => None
  }

  /** Pairs succeeds exactly when every pair at `pos`, `pos + 2`, ... is there and is hex. */
  lemma PairsDefined(line: string, pos: nat, n: nat)
    ensures Pairs(line, pos, n).Some? <==> forall z :: 0 <= z < n ==> Pair(line, pos + 2 * z).Some?
  {
    if forall z :: 0 <= z < n ==> Pair(line, pos + 2 * z).Some? {
      PairsDefinedIf(line, pos, n);
    } else {
      var z :| 0 <= z < n && Pair(line, pos + 2 * z).None?;
      PairsUndefinedAt(line, pos, n, z);
    }
  }

  lemma {:induction false} PairsDefinedIf(line: string, pos: nat, n: nat)
    requires forall z :: 0 <= z < n ==> Pair(line, pos + 2 * z).Some?
    ensures Pairs(line, pos, n).Some?
    decreases n
  {
    if n > 0 {
      assert Pair(line, pos + 2 * 0).Some?;
      forall z | 0 <= z < n - 1
        ensures Pair(line, (pos + 2) + 2 * z).Some?
      {
        assert (pos + 2) + 2 * z == pos + 2 * (z + 1);
      }
      PairsDefinedIf(line, pos + 2, n - 1);
    }
  }

  lemma {:induction false} PairsUndefinedAt(line: string, pos: nat, n: nat, z: nat)
    requires z < n && Pair(line, pos + 2 * z).None?
    ensures Pairs(line, pos, n).None?
    decreases n
  {
    if z > 0 {
      assert pos + 2 * z == (pos + 2) + 2 * (z - 1);
      PairsUndefinedAt(line, pos + 2, n - 1, z - 1);
    }
  }

  /** Element `z` of Pairs is the pair at `pos + 2z`. */
  lemma {:induction false} PairsValues(line: string, pos: nat, n: nat)
    requires Pairs(line, pos, n).Some?
    ensures forall z :: 0 <= z < n ==> Pair(line, pos + 2 * z) == Some(Pairs(line, pos, n).value[z])
    decreases n
  {
    if n > 0 {
      PairsValues(line, pos + 2, n - 1);
      var r := Pairs(line, pos, n).value;
      var rest := Pairs(line, pos + 2, n - 1).value;
      assert r == [Pair(line, pos).value] + rest;
      forall z | 0 <= z < n
        ensures Pair(line, pos + 2 * z) == Some(r[z])
      {
        if z > 0 {
          assert r[z] == rest[z - 1];
          assert pos + 2 * z == (pos + 2) + 2 * (z - 1);
        }
      }
    }
  }

  /** A pair is the two-character field at the same place. */
  lemma PairIsField(line: string, pos: nat)
    ensures Field(line, pos, 2) == match Pair(line, pos) case Some(b) => Some(b as nat) case None => None
  {
    if pos + 2 <= |line| {
      var s := line[pos..pos + 2];
      assert s[..|s| - 1] == s[..1];
      assert ParseHex(s[..1]) == DigitValue(line[pos]);
      assert s[|s| - 1] == line[pos + 1];
    }
  }

  /*
   * Letter case. The runtime converter reads `a`-`f` as `A`-`F`, so a line
   * reads the same as its upper-case spelling.
   */

  /** The upper-case spelling of a hex letter; any other character is kept. */
  function UpperDigit(c: char): char {
    if 'a' <= c <= 'f' then (c as int - 'a' as int + 'A' as int) as char else c
  }

  /** A line with its hex letters spelled in upper case. */
  function Upper(line: string): (u: string)
    ensures |u| == |line|
  {
    seq(|line|, i requires 0 <= i < |line| => UpperDigit(line[i]))
  }

  /** A lower-case hex letter has the value of its upper-case spelling. */
  lemma DigitValueIgnoresCase(c: char)
    ensures DigitValue(UpperDigit(c)) == DigitValue(c)
  {
  }

  /** Two numerals whose characters have the same digit values, place by place, have the same value. */
  lemma {:induction false} ParseHexSameDigits(a: string, b: string)
    requires |a| == |b|
    requires forall i :: 0 <= i < |a| ==> DigitValue(a[i]) == DigitValue(b[i])
    ensures ParseHex(a) == ParseHex(b)
    decreases |a|
  {
    if |a| > 1 {
      var k := |a| - 1;
      assert DigitValue(a[k]) == DigitValue(b[k]);
      ParseHexSameDigits(a[..k], b[..k]);
    } else if |a| == 1 {
      assert DigitValue(a[0]) == DigitValue(b[0]);
    }
  }

  lemma ParseHexIgnoresCase(s: string)
    ensures ParseHex(Upper(s)) == ParseHex(s)
  {
    forall i | 0 <= i < |s|
      ensures DigitValue(Upper(s)[i]) == DigitValue(s[i])
    {
      DigitValueIgnoresCase(s[i]);
    }
    ParseHexSameDigits(Upper(s), s);
  }

  lemma PairIgnoresCase(line: string, pos: nat)
    ensures Pair(Upper(line), pos) == Pair(line, pos)
  {
    if pos + 2 <= |line| {
      DigitValueIgnoresCase(line[pos]);
      DigitValueIgnoresCase(line[pos + 1]);
    }
  }

  /** A field reads the same whatever the case of its hex letters. */
  lemma FieldIgnoresCase(line: string, pos: nat, width: nat)
    ensures Field(Upper(line), pos, width) == Field(line, pos, width)
  {
    if pos + width <= |line| {
      assert Upper(line)[pos..pos + width] == Upper(line[pos..pos + width]);
      ParseHexIgnoresCase(line[pos..pos + width]);
    }
  }

  lemma {:induction false} PairsIgnoresCase(line: string, pos: nat, n: nat)
    ensures Pairs(Upper(line), pos, n) == Pairs(line, pos, n)
    decreases n
  {
    if n > 0 {
      PairIgnoresCase(line, pos);
      PairsIgnoresCase(line, pos + 2, n - 1);
    }
  }

  /** A byte as two upper-case hex characters, most significant digit first. */
  function Hex2(b: byte): (s: string)
    ensures |s| == 2
    ensures ParseHex(s) == Some(b) && Pair(s, 0) == Some(b)
  {
    [DigitChar(b / 16), DigitChar(b % 16)]
  }

  /** Bytes written back to back as hex pairs, first byte first. */
  function HexBytes(bs: seq<byte>): (s: string)
    ensures |s| == 2 * |bs|
  {
    if |bs| == 0 then [] else Hex2(bs[0]) + HexBytes(bs[1..])
  }

  /** Characters `2j` and `2j + 1` of a hex-encoded byte string spell byte `j`. */
  lemma {:induction false} HexBytesAt(bs: seq<byte>, j: nat)
    requires j < |bs|
    ensures HexBytes(bs)[2 * j] == DigitChar(bs[j] / 16)
    ensures HexBytes(bs)[2 * j + 1] == DigitChar(bs[j] % 16)
    decreases j
  {
    if j > 0 {
      HexBytesAt(bs[1..], j - 1);
      assert HexBytes(bs)[2 * j] == HexBytes(bs[1..])[2 * (j - 1)];
      assert HexBytes(bs)[2 * j + 1] == HexBytes(bs[1..])[2 * (j - 1) + 1];
    }
  }

  /** `line` holds the hex spelling of `bs`, two upper-case digits per byte, from `pos` on. */
  predicate Spells(line: string, pos: nat, bs: seq<byte>) {
    && pos + 2 * |bs| <= |line|
    && forall k :: 0 <= k < |bs| ==>
      line[pos + 2 * k] == DigitChar(bs[k] / 16) && line[pos + 2 * k + 1] == DigitChar(bs[k] % 16)
  }

  /** Whatever precedes it, a hex-encoded byte string spells its bytes. */
  lemma HexBytesSpell(prefix: string, bs: seq<byte>)
    ensures Spells(prefix + HexBytes(bs), |prefix|, bs)
  {
    var hex := HexBytes(bs);
    forall k | 0 <= k < |bs|
      ensures (prefix + hex)[|prefix| + 2 * k] == DigitChar(bs[k] / 16)
      ensures (prefix + hex)[|prefix| + 2 * k + 1] == DigitChar(bs[k] % 16)
    {
      HexBytesAt(bs, k);
    }
  }

  lemma PairOfDigits(line: string, pos: nat, b: byte)
    requires pos + 2 <= |line|
    requires line[pos] == DigitChar(b / 16) && line[pos + 1] == DigitChar(b % 16)
    ensures Pair(line, pos) == Some(b)
  {
  }

  /** Every pair of a spelled byte string reads back as the byte it spells. */
  lemma SpelledPair(line: string, pos: nat, bs: seq<byte>, j: nat)
    requires Spells(line, pos, bs) && j < |bs|
    ensures Pair(line, pos + 2 * j) == Some(bs[j])
  {
    assert line[pos + 2 * j] == DigitChar(bs[j] / 16);
    PairOfDigits(line, pos + 2 * j, bs[j]);
  }

  /** Four hex digits spelling `hi` then `lo` read as a big-endian 16-bit value. */
  lemma FieldOfTwoPairs(line: string, pos: nat, hi: byte, lo: byte)
    requires pos + 4 <= |line|
    requires line[pos] == DigitChar(hi / 16) && line[pos + 1] == DigitChar(hi % 16)
    requires line[pos + 2] == DigitChar(lo / 16) && line[pos + 3] == DigitChar(lo % 16)
    ensures Field(line, pos, 4) == Some(256 * (hi as int) + lo as int)
  {
    var s := line[pos..pos + 4];
    var h := Hex2(hi);
    var l := Hex2(lo);
    assert s[0] == h[0] && s[1] == h[1] && s[2] == l[0] && s[3] == l[1];
    assert s[..3][..2] == h;
    assert s[..3][2] == l[0];
    assert ParseHex(s[..3]) == Some(16 * hi + DigitValue(l[0]).value);
    assert ParseHex(l[..1]) == DigitValue(l[0]);
  }

  /** `n` pairs that each read as the matching element of `want` read as `want` together. */
  lemma PairsAre(line: string, pos: nat, n: nat, want: seq<byte>)
    requires |want| == n
    requires forall z :: 0 <= z < n ==> Pair(line, pos + 2 * z) == Some(want[z])
    ensures Pairs(line, pos, n) == Some(want)
  {
    forall z | 0 <= z < n
      ensures Pair(line, pos + 2 * z).Some?
    {
      assert Pair(line, pos + 2 * z) == Some(want[z]);
    }
    PairsDefinedIf(line, pos, n);
    PairsValues(line, pos, n);
    var v := Pairs(line, pos, n).value;
    forall z | 0 <= z < n
      ensures v[z] == want[z]
    {
      assert Pair(line, pos + 2 * z) == Some(want[z]);
    }
    assert v == want;
  }

  /** A run of pairs inside a spelled byte string reads back as the bytes it spells. */
  lemma SpelledPairs(line: string, pos: nat, bs: seq<byte>, j: nat, n: nat)
    requires Spells(line, pos, bs) && j + n <= |bs|
    ensures Pairs(line, pos + 2 * j, n) == Some(bs[j..j + n])
  {
    var want := bs[j..j + n];
    forall z | 0 <= z < n
      ensures Pair(line, pos + 2 * j + 2 * z) == Some(want[z])
    {
      SpelledPair(line, pos, bs, j + z);
      assert pos + 2 * j + 2 * z == pos + 2 * (j + z);
    }
    PairsAre(line, pos + 2 * j, n, want);
  }

  /** Two consecutive bytes of a spelled byte string read back as one big-endian 16-bit field. */
  lemma SpelledField(line: string, pos: nat, bs: seq<byte>, j: nat)
    requires Spells(line, pos, bs) && j + 1 < |bs|
    ensures Field(line, pos + 2 * j, 4) == Some(256 * (bs[j] as int) + bs[j + 1] as int)
  {
    assert line[pos + 2 * j] == DigitChar(bs[j] / 16);
    assert line[pos + 2 * (j + 1)] == DigitChar(bs[j + 1] / 16);
    assert pos + 2 * (j + 1) == pos + 2 * j + 2;
    FieldOfTwoPairs(line, pos + 2 * j, bs[j], bs[j + 1]);
  }
}
