/**
 * The row of sixteen output checkboxes on a pattern editor and the 16-bit
 * mask it stands for. Checkbox `a` (numbered 1 to 16) is bit `16 - a`:
 * checkbox 1 is the most significant bit, checkbox 16 the least. The row is
 * a `seq<bool>` whose element `a - 1` is checkbox `a`.
 */
module PatternMask {
  import opened Ints

  const BoxCount: nat := 16

  /**
   * Bit `k` of `v`: what `(v & (1 << k)) != 0` tests, stated as `v` shifted
   * right `k` times ending in a 1.
   */
  predicate Bit(v: nat, k: nat) {
    if k == 0 then v % 2 == 1 else Bit(v / 2, k - 1)
  }

  /**
   * The reference reading of a row of flags as a binary numeral, first flag
   * most significant.
   */
  function Pack(flags: seq<bool>): (v: nat)
    ensures v < Pow2(|flags|)
  {
    if |flags| == 0 then 0
    else 2 * Pack(flags[..|flags| - 1]) + (if flags[|flags| - 1] then 1 else 0)
  }

  /** The reference writing of `v` as `n` binary digits, most significant first. */
  function Unpack(v: nat, n: nat): (flags: seq<bool>)
    ensures |flags| == n
  {
    if n == 0 then [] else Unpack(v / 2, n - 1) + [v % 2 == 1]
  }

  /** Digit `i` of `Unpack(v, n)` is bit `n - 1 - i` of `v`. */
  lemma {:induction false} UnpackBit(v: nat, n: nat, i: nat)
    requires i < n
    ensures Unpack(v, n)[i] == Bit(v, n - 1 - i)
    decreases n
  {
    if i < n - 1 {
      UnpackBit(v / 2, n - 1, i);
    }
  }

  /** Reading back the digits of a value that fits in `n` bits gives the value. */
  lemma {:induction false} PackUnpack(v: nat, n: nat)
    requires v < Pow2(n)
    ensures Pack(Unpack(v, n)) == v
    decreases n
  {
    if n > 0 {
      var u := Unpack(v, n);
      assert u[..|u| - 1] == Unpack(v / 2, n - 1);
      PackUnpack(v / 2, n - 1);
    }
  }

  /** Writing out the value of a row of flags gives the row back. */
  lemma {:induction false} UnpackPack(flags: seq<bool>)
    ensures Unpack(Pack(flags), |flags|) == flags
    decreases |flags|
  {
    if |flags| > 0 {
      var init := flags[..|flags| - 1];
      UnpackPack(init);
      assert Pack(flags) / 2 == Pack(init);
      assert flags == init + [flags[|flags| - 1]];
    }
  }

  /** Appending one flag to a row doubles its value and adds the flag. */
  lemma PackSnoc(flags: seq<bool>, k: nat)
    requires k < |flags|
    ensures Pack(flags[..k + 1]) == 2 * Pack(flags[..k]) + (if flags[k] then 1 else 0)
  {
    assert flags[..k + 1][..k] == flags[..k];
  }

  /** Weights: `p` doubled and shifted by `w` is `p` shifted by `2w`, plus the new digit. */
  lemma ShiftAdd(p: nat, b: nat, w: nat)
    ensures p * (2 * w) + b * w == (2 * p + b) * w
  {
  }

  /**
   * What `getStatus` adds up over checkboxes 1 to `k`: `1 << (16 - a)` for
   * every checked box `a`. Even with 2^(16 - k) added on top it stays
   * within 2^16, so the running `ushort` total never wraps.
   */
  function CheckedWeights(boxes: seq<bool>, k: nat): (r: nat)
    requires k <= |boxes| == BoxCount
    ensures r + Pow2(BoxCount - k) <= 0x1_0000
  {
    if k == 0 then
      Pow2Sixteen();
      0
    else
      var w := Pow2(BoxCount - k);
      var before := CheckedWeights(boxes, k - 1);
      assert Pow2(BoxCount - (k - 1)) == 2 * w;
      before + (if boxes[k - 1] then w else 0)
  }

  /**
   * The weights of the first `k` boxes are those boxes read as a binary
   * numeral and shifted into the top `k` bits, so they never reach 2^16.
   */
  lemma {:induction false} CheckedWeightsArePacked(boxes: seq<bool>, k: nat)
    requires k <= |boxes| == BoxCount
    ensures CheckedWeights(boxes, k) == Pack(boxes[..k]) * Pow2(BoxCount - k)
    ensures CheckedWeights(boxes, k) < 0x1_0000
    decreases k
  {
    var w := Pow2(BoxCount - k);
    if k == 0 {
      Pow2Sixteen();
    } else {
      CheckedWeightsArePacked(boxes, k - 1);
      var b := if boxes[k - 1] then 1 else 0;
      assert Pow2(BoxCount - (k - 1)) == 2 * w;
      PackSnoc(boxes, k - 1);
      ShiftAdd(Pack(boxes[..k - 1]), b, w);
    }
    MulStrict(Pack(boxes[..k]), Pow2(k), w);
    Pow2Add(k, BoxCount - k);
    Pow2Sixteen();
  }

  /** Over all sixteen boxes the weights add up to the row read as a binary numeral. */
  lemma CheckedWeightsTotal(boxes: seq<bool>)
    requires |boxes| == BoxCount
    ensures CheckedWeights(boxes, BoxCount) == Pack(boxes)
  {
    CheckedWeightsArePacked(boxes, BoxCount);
    assert boxes[..BoxCount] == boxes;
    assert Pow2(0) == 1;
  }

  /**
   * `getStatus`: for each checkbox `a` from 1 to 16, add `1 << (16 - a)` when
   * it is checked. The running total is a `ushort`, so every addition is
   * taken modulo 2^16; it never wraps, and the total is the row read as a
   * binary numeral.
   */
  method GetStatus(boxes: seq<bool>) returns (answer: u16)
    requires |boxes| == BoxCount
    ensures answer == Pack(boxes)
  {
    answer := 0;
    var a := 1;
    while a <= 16
      invariant 1 <= a <= 17
      invariant answer == CheckedWeights(boxes, a - 1)
    {
      Pow2Sixteen();
      answer := (answer + (if boxes[a - 1] then Pow2(16 - a) else 0)) % 0x1_0000;
      a := a + 1;
    }
    CheckedWeightsTotal(boxes);
  }

  /**
   * `setStatus`: checkbox `a` is checked exactly when bit `16 - a` of the
   * value is set.
   */
  function SetStatus(v: u16): (boxes: seq<bool>)
    ensures boxes == Unpack(v, BoxCount)
  {
    var boxes := seq(BoxCount, i requires 0 <= i < BoxCount => Bit(v, BoxCount - 1 - i));
    DigitsAreUnpack(v, BoxCount, boxes);
    boxes
  }

  /** Flags that are the bits of `v`, most significant first, are its `n`-digit writing. */
  lemma DigitsAreUnpack(v: nat, n: nat, flags: seq<bool>)
    requires |flags| == n
    requires forall i :: 0 <= i < n ==> flags[i] == Bit(v, n - 1 - i)
    ensures flags == Unpack(v, n)
  {
    forall i | 0 <= i < n
      ensures flags[i] == Unpack(v, n)[i]
    {
      UnpackBit(v, n, i);
    }
  }

  /** The value `getStatus` reports fits in a `ushort`. */
  lemma PackFits(boxes: seq<bool>)
    requires |boxes| == BoxCount
    ensures Pack(boxes) < 0x1_0000
  {
    Pow2Sixteen();
  }

  /** Checkbox `a` of a row is bit `16 - a` of the value `getStatus` reports for it. */
  lemma CheckboxIsBit(boxes: seq<bool>, a: nat)
    requires |boxes| == BoxCount && 1 <= a <= BoxCount
    ensures boxes[a - 1] == Bit(Pack(boxes), BoxCount - a)
  {
    UnpackPack(boxes);
    UnpackBit(Pack(boxes), BoxCount, a - 1);
  }

  /** The first flag of a row is worth 2^(n - 1), on top of the value of the others. */
  lemma {:induction false} PackFirst(flags: seq<bool>)
    requires |flags| > 0
    ensures Pack(flags) == (if flags[0] then Pow2(|flags| - 1) else 0) + Pack(flags[1..])
    decreases |flags|
  {
    if |flags| > 1 {
      var init := flags[..|flags| - 1];
      PackFirst(init);
      assert init[1..] == flags[1..][..|flags[1..]| - 1];
    } else {
      assert flags[1..] == [];
    }
  }

  /** Checkbox 1 is the most significant bit, worth 0x8000; checkbox 16 the least, worth 1. */
  lemma EndBoxesWeights(boxes: seq<bool>)
    requires |boxes| == BoxCount
    ensures boxes[0] <==> Pack(boxes) >= 0x8000
    ensures boxes[BoxCount - 1] <==> Pack(boxes) % 2 == 1
  {
    PackFirst(boxes);
    Pow2Sixteen();
    assert |boxes[1..]| == 15;
  }

  /** Showing a value on the checkboxes and reading them back gives the value. */
  lemma GetAfterSet(v: u16)
    ensures Pack(SetStatus(v)) == v
  {
    Pow2Sixteen();
    PackUnpack(v, BoxCount);
  }

  /** Reading a row of checkboxes and showing the value again reproduces the row. */
  lemma SetAfterGet(boxes: seq<bool>)
    requires |boxes| == BoxCount
    ensures Pack(boxes) < 0x1_0000 && SetStatus(Pack(boxes)) == boxes
  {
    PackFits(boxes);
    UnpackPack(boxes);
  }
}
