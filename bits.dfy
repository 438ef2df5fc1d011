/** Strings of '0' and '1' read as unsigned big-endian binary numbers: the
    meaning the codec's `toString(2)`, `parseInt(_, 2)` and zero padding
    preserve. */
module Bits {
  import opened Seqs
  import opened Arith

  function Pow2(n: nat): (r: nat)
    ensures r >= 1
  {
    if n == 0 then 1 else 2 * Pow2(n - 1)
  }

  lemma {:induction false} Pow2Monotone(a: nat, b: nat)
    requires a <= b
    ensures Pow2(a) <= Pow2(b)
  {
    if a < b {
      Pow2Monotone(a, b - 1);
    }
  }

  /** The powers of two the codec's widths use. */
  lemma Pow2Table()
    ensures Pow2(1) == 2 && Pow2(2) == 4 && Pow2(3) == 8 && Pow2(5) == 32
    ensures Pow2(6) == 64 && Pow2(8) == 256 && Pow2(9) == 512 && Pow2(11) == 2048
  {
  }

  predicate IsBit(c: char)
  {
    c == '0' || c == '1'
  }

  predicate IsBits(s: string)
  {
    forall k :: 0 <= k < |s| ==> IsBit(s[k])
  }

  lemma BitsAppend(a: string, b: string)
    requires IsBits(a) && IsBits(b)
    ensures IsBits(a + b)
  {
    forall k | 0 <= k < |a + b| ensures IsBit((a + b)[k]) {
      if k >= |a| {
        assert (a + b)[k] == b[k - |a|];
      }
    }
  }

  lemma {:induction false} BitsConcat(ss: seq<string>)
    requires forall k :: 0 <= k < |ss| ==> IsBits(ss[k])
    ensures IsBits(Concat(ss))
  {
    if ss != [] {
      BitsConcat(ss[1..]);
      BitsAppend(ss[0], Concat(ss[1..]));
    }
  }

  lemma BitsPrefix(s: string, n: nat)
    requires IsBits(s) && n <= |s|
    ensures IsBits(s[..n])
  {
    forall k | 0 <= k < n ensures IsBit(s[..n][k]) {
      assert s[..n][k] == s[k];
    }
  }

  /** Every string of a list is binary. */
  predicate AllBits(ss: seq<string>)
  {
    forall k :: 0 <= k < |ss| ==> IsBits(ss[k])
  }

  /** A string of binary digits. */
  type BitString = s: string | IsBits(s)

  function BitOf(c: char): nat
  {
    if c == '1' then 1 else 0
  }

  /** The positional value of a binary string, most significant digit first:
      each '1' is worth two to the power of the number of digits after it. */
  function BitsValue(s: string): nat
  {
    if s == [] then 0 else (if s[0] == '1' then Pow2(|s| - 1) else 0) + BitsValue(s[1..])
  }

  lemma {:induction false} BitsValueBound(s: string)
    ensures BitsValue(s) < Pow2(|s|)
  {
    if s != [] {
      BitsValueBound(s[1..]);
    }
  }

  /** Appending a digit doubles the value and adds the digit (Horner's rule). */
  lemma {:induction false} BitsValueSnoc(s: string, c: char)
    ensures BitsValue(s + [c]) == 2 * BitsValue(s) + BitOf(c)
  {
    if s == [] {
      assert [c][1..] == [];
    } else {
      assert (s + [c])[1..] == s[1..] + [c];
      BitsValueSnoc(s[1..], c);
    }
  }

  /** Leading zeros do not change the value. */
  lemma {:induction false} LeadingZeros(k: nat, s: string)
    ensures BitsValue(Repeat("0", k) + s) == BitsValue(s)
  {
    if k > 0 {
      LeadingZeros(k - 1, s);
      var t := Repeat("0", k - 1) + s;
      assert Repeat("0", k) + s == "0" + t;
      assert ("0" + t)[0] == '0' && ("0" + t)[1..] == t;
      assert BitsValue("0" + t) == BitsValue(t);
    } else {
      assert Repeat("0", k) + s == s;
    }
  }

  lemma {:induction false} ZerosAreBits(k: nat)
    ensures IsBits(Repeat("0", k))
  {
    RepeatSingle('0', k);
  }

  /** The digits of a non-negative integer, without leading zeros: JavaScript's
      `Number.prototype.toString(2)` on an integral value. */
  function Binary(n: nat): (r: string)
    ensures IsBits(r) && |r| >= 1
    ensures BitsValue(r) == n
    ensures r[0] == '0' ==> r == "0"
  {
    if n < 2 then
      (if n == 0 then "0" else "1")
    else
      var r := Binary(n / 2) + (if n % 2 == 0 then "0" else "1");
      BitsValueSnoc(Binary(n / 2), if n % 2 == 0 then '0' else '1');
      r
  }

  /** A number below 2^w (w >= 1) has at most w binary digits. */
  lemma {:induction false} BinaryLength(n: nat, w: nat)
    requires w >= 1 && n < Pow2(w)
    ensures |Binary(n)| <= w
  {
    if n >= 2 {
      assert w >= 2;
      BinaryLength(n / 2, w - 1);
    }
  }

  /** The value of a concatenation: the front part shifted left by the length
      of the back part. */
  lemma {:induction false} BitsValueAppend(a: string, b: string)
    ensures BitsValue(a + b) == BitsValue(a) * Pow2(|b|) + BitsValue(b)
    decreases |b|
  {
    if b == [] {
      assert a + b == a;
    } else {
      var init, last := b[..|b| - 1], b[|b| - 1];
      assert b == init + [last];
      assert a + b == (a + init) + [last];
      BitsValueAppend(a, init);
      BitsValueSnoc(a + init, last);
      BitsValueSnoc(init, last);
      var va, p := BitsValue(a), Pow2(|init|);
      assert Pow2(|b|) == 2 * p;
      MulTwice(va, p);
    }
  }

  /** Cutting a binary string after `k` digits splits its value into a
      quotient and a remainder by `2^(|s| - k)`. */
  lemma BitsValueSplit(s: string, k: nat)
    requires k <= |s|
    ensures BitsValue(s) == BitsValue(s[..k]) * Pow2(|s| - k) + BitsValue(s[k..])
    ensures BitsValue(s[k..]) < Pow2(|s| - k)
  {
    var a, b := s[..k], s[k..];
    assert s == a + b;
    assert |b| == |s| - k;
    BitsValueAppend(a, b);
    BitsValueBound(b);
    assert BitsValue(s) == BitsValue(a + b);
  }

  /** The digits before and after a cut are the quotient and the remainder
      of the value by `2^(|s| - k)`. */
  lemma BitsValueDivMod(s: string, k: nat)
    requires k <= |s|
    ensures BitsValue(s[..k]) == BitsValue(s) / Pow2(|s| - k)
    ensures BitsValue(s[k..]) == BitsValue(s) % Pow2(|s| - k)
  {
    BitsValueSplit(s, k);
    DivModUnique(BitsValue(s), Pow2(|s| - k), BitsValue(s[..k]), BitsValue(s[k..]));
  }

  /** A piece made of the tail of `x` after `k` digits and the first `j`
      digits of `y`: the low part of `x` shifted past the high part of `y`. */
  lemma Straddle(x: string, k: nat, y: string, j: nat)
    requires k <= |x| && j <= |y|
    ensures BitsValue(x[k..] + y[..j]) ==
      BitsValue(x) % Pow2(|x| - k) * Pow2(j) + BitsValue(y) / Pow2(|y| - j)
  {
    BitsValueAppend(x[k..], y[..j]);
    BitsValueDivMod(x, k);
    BitsValueDivMod(y, j);
  }
}
