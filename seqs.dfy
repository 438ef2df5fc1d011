/** Sequence operations the codec's JavaScript pipelines rely on: `join('')`,
    `reduce(concat)`, repeated prepending and `slice` with its index clamping. */
module Seqs {
  import opened Arith

  /** Concatenation of a sequence of sequences, in order: JavaScript's
      `join('')` on an array of strings and `reduce((all, x) => all.concat(x), [])`
      on an array of arrays. */
  function Concat<T>(ss: seq<seq<T>>): seq<T>
  {
    if ss == [] then [] else ss[0] + Concat(ss[1..])
  }

  lemma {:induction false} ConcatAppend<T>(a: seq<seq<T>>, b: seq<seq<T>>)
    ensures Concat(a + b) == Concat(a) + Concat(b)
  {
    if a == [] {
      assert a + b == b;
    } else {
      assert (a + b)[1..] == a[1..] + b;
      ConcatAppend(a[1..], b);
    }
  }

  lemma ConcatThree<T>(ss: seq<seq<T>>)
    requires |ss| == 3
    ensures Concat(ss) == ss[0] + ss[1] + ss[2]
  {
    var t := ss[1..];
    var u := t[1..];
    assert u == [ss[2]] && u[1..] == [];
    assert Concat(u) == ss[2];
    assert Concat(t) == ss[1] + Concat(u);
  }

  lemma ConcatFour<T>(ss: seq<seq<T>>)
    requires |ss| == 4
    ensures Concat(ss) == ss[0] + ss[1] + ss[2] + ss[3]
  {
    ConcatThree(ss[1..]);
    assert ss[1..][0] == ss[1] && ss[1..][1] == ss[2] && ss[1..][2] == ss[3];
  }

  lemma {:induction false} ConcatUniformLength<T>(ss: seq<seq<T>>, w: nat)
    requires forall k :: 0 <= k < |ss| ==> |ss[k]| == w
    ensures |Concat(ss)| == w * |ss|
  {
    if ss != [] {
      ConcatUniformLength(ss[1..], w);
      assert w * |ss| == w + w * |ss[1..]|;
    }
  }

  /** `k` copies of `s`, in a row. */
  function Repeat<T>(s: seq<T>, k: nat): seq<T>
  {
    if k == 0 then [] else s + Repeat(s, k - 1)
  }

  /** Position `i` of `k` copies of `s` holds `s[i % |s|]`. */
  lemma {:induction false} RepeatCycles<T>(s: seq<T>, k: nat)
    requires |s| > 0
    ensures |Repeat(s, k)| == k * |s|
    ensures forall i :: 0 <= i < |Repeat(s, k)| ==> Repeat(s, k)[i] == s[i % |s|]
  {
    if k > 0 {
      var rest := Repeat(s, k - 1);
      RepeatCycles(s, k - 1);
      MulSucc(|s|, k - 1);
      forall i | 0 <= i < |Repeat(s, k)| ensures Repeat(s, k)[i] == s[i % |s|] {
        if i < |s| {
          DivModUnique(i, |s|, 0, i);
        } else {
          assert Repeat(s, k)[i] == rest[i - |s|];
          ModStep(i - |s|, |s|);
        }
      }
    }
  }

  lemma {:induction false} RepeatSingle<T>(x: T, k: nat)
    ensures |Repeat([x], k)| == k
    ensures forall i :: 0 <= i < k ==> Repeat([x], k)[i] == x
  {
    if k > 0 {
      RepeatSingle(x, k - 1);
    }
  }

  /** How JavaScript's `slice` reads one of its arguments against a length:
      a negative index counts from the end, and the result is clamped to
      `0..len`. */
  function SliceIndex(i: int, len: nat): (r: nat)
    ensures r <= len
    ensures 0 <= i <= len ==> r == i
    ensures i > len ==> r == len
    ensures i < 0 ==> r == if len + i < 0 then 0 else len + i
  {
    if i < 0 then (if len + i < 0 then 0 else len + i)
    else if i > len then len
    else i
  }

  /** JavaScript's `s.slice(start, end)`: the items from the clamped start up to
      the clamped end, or nothing when the end does not come after the start. */
  function Slice<T>(s: seq<T>, start: int, end: int): (r: seq<T>)
    ensures var from, to := SliceIndex(start, |s|), SliceIndex(end, |s|);
      |r| == (if from < to then to - from else 0) &&
      forall k :: 0 <= k < |r| ==> r[k] == s[from + k]
  {
    var from, to := SliceIndex(start, |s|), SliceIndex(end, |s|);
    if from < to then s[from..to] else []
  }

  /** A sequence of three is the display of its elements. */
  lemma AsThree<T>(s: seq<T>)
    requires |s| == 3
    ensures s == [s[0], s[1], s[2]]
  {
  }

  lemma AppendAssoc<T>(a: seq<T>, b: seq<T>, c: seq<T>)
    ensures a + (b + c) == (a + b) + c
  {
  }

  /** A prefix reaching past `a` in `a + b` is `a` and a prefix of `b`. */
  lemma PrefixOfAppend<T>(a: seq<T>, b: seq<T>, n: nat)
    requires n <= |b|
    ensures (a + b)[..|a| + n] == a + b[..n]
  {
  }
}
