/** The bit-packing codec of `src/services/wordlist.ts`: every 4 bytes become
    32 bits, one '0' bit is appended, and the 33 bits are read as three 11-bit
    indices into a 2048-word vocabulary; decoding reverses this and an optional
    trailing word carries the byte sum modulo 2048.

    `leftPad`, `inGroupsOf` and `splitEvery` update local variables in loops and
    are methods here, each proved equal to a function (`Padded`, `Groups`,
    `Chunks`) that the expression-only parts of the file use in their place. */
module Wordlist {
  import opened Seqs
  import opened Bits
  import opened Arith

  /** An entry of a `Uint8Array`. */
  type byte = x: int | 0 <= x < 256

  /** A position in the vocabulary: exactly what eleven bits can hold. */
  type Index = i: int | 0 <= i < 2048

  type Word = string

  datatype Option<T> = None | Some(value: T)

  /** The two exceptions the codec throws. `UnknownWord(None)` is the lookup of
      JavaScript's `undefined`, which `parseWordsChecksum` makes when it is
      given no words at all. */
  datatype Error =
    | UnknownWord(word: Option<Word>)
    | ChecksumMismatch(checkWord: Word)

  datatype Result<T> = Success(value: T) | Failure(error: Error)

  const VocabularySize: nat := 2048

  /** The imported English word list: 2048 words, none of them twice. */
  predicate ValidVocabulary(vocab: seq<Word>)
  {
    |vocab| == VocabularySize &&
    forall i, j :: 0 <= i < j < |vocab| ==> vocab[i] != vocab[j]
  }

  // ---------------------------------------------------------------------------
  // Vocabulary lookup

  /** `Array.prototype.indexOf`: the first position that holds `word`, or -1. */
  function IndexOf(vocab: seq<Word>, word: Word): (r: int)
    ensures -1 <= r < |vocab|
    ensures r == -1 <==> word !in vocab
    ensures r >= 0 ==> vocab[r] == word && word !in vocab[..r]
  {
    if vocab == [] then -1
    else if vocab[0] == word then 0
    else
      var j := IndexOf(vocab[1..], word);
      if j == -1 then -1
      else
        assert vocab[..j + 1] == [vocab[0]] + vocab[1..][..j];
        j + 1
  }

  /** `to11Bit`: the position of a word in the vocabulary; an unknown word is an
      error. */
  function To11Bit(vocab: seq<Word>, word: Word): (r: Result<nat>)
    ensures r.Success? <==> word in vocab
    ensures r.Success? ==> r.value < |vocab| && vocab[r.value] == word && word !in vocab[..r.value]
    ensures r.Failure? ==> r.error == UnknownWord(Some(word))
  {
    var index := IndexOf(vocab, word);
    if index == -1 then Failure(UnknownWord(Some(word))) else Success(index)
  }

  // ---------------------------------------------------------------------------
  // Binary strings

  /** `toBin`: `(i >>> 0).toString(2)`. For a non-negative integer the unsigned
      shift keeps the low 32 bits, and the digits come without leading zeros. */
  function ToBin(i: nat): (r: BitString)
    ensures |r| >= 1 && BitsValue(r) == i % 0x1_0000_0000
    ensures r[0] == '0' ==> r == "0"
  {
    Binary(i % 0x1_0000_0000)
  }

  /** The number of times leftPad's loop prepends a filler of `width`
      characters when the item is `gap` characters short. */
  function Copies(width: nat, gap: int): nat
    requires width > 0
    decreases gap
  {
    if gap <= 0 then 0 else 1 + Copies(width, gap - width)
  }

  lemma {:induction false} RepeatCopies(filler: string, gap: int)
    requires |filler| > 0
    ensures gap <= |Repeat(filler, Copies(|filler|, gap))|
    ensures gap > 0 ==> |Repeat(filler, Copies(|filler|, gap))| < gap + |filler|
    ensures gap <= 0 ==> Copies(|filler|, gap) == 0
    decreases gap
  {
    if gap > 0 {
      RepeatCopies(filler, gap - |filler|);
    }
  }

  /** What `leftPad(filler, len, item)` returns: copies of `filler` in front of
      `item`, as few as bring it to at least `len` characters. */
  function Padded(filler: string, len: int, item: string): (r: string)
    requires |filler| > 0
    ensures |r| >= len && |r| >= |item| && r[|r| - |item|..] == item
    ensures |item| >= len ==> r == item
    ensures |item| < len ==> |r| < len + |filler|
    ensures (|r| - |item|) % |filler| == 0
    ensures forall k :: 0 <= k < |r| - |item| ==> r[k] == filler[k % |filler|]
  {
    var copies := Copies(|filler|, len - |item|);
    RepeatCopies(filler, len - |item|);
    RepeatCycles(filler, copies);
    DivModUnique(copies * |filler|, |filler|, copies, 0);
    Repeat(filler, copies) + item
  }

  /** `leftPad`: prepend `filler` while the result is shorter than `len`. An
      empty filler with a short item would never terminate, hence the
      precondition. */
  method LeftPad(filler: string, len: int, item: string) returns (result: string)
    requires |filler| > 0
    ensures result == Padded(filler, len, item)
  {
    result := item;
    ghost var added := 0;
    while |result| < len
      invariant result == Repeat(filler, added) + item
      invariant added + Copies(|filler|, len - |result|) == Copies(|filler|, len - |item|)
      decreases len - |result|
    {
      CopiesStep(|filler|, len - |result|);
      assert filler + Repeat(filler, added) == Repeat(filler, added + 1);
      result := filler + result;
      added := added + 1;
    }
    CopiesStep(|filler|, len - |result|);
  }

  /** One more copy of the filler closes the gap by its length. */
  lemma CopiesStep(width: nat, gap: int)
    requires width > 0
    ensures gap > 0 ==> Copies(width, gap) == 1 + Copies(width, gap - width)
    ensures gap <= 0 ==> Copies(width, gap) == 0
  {
  }

  /** With a one-character filler the result is exactly `max(len, |item|)`
      characters: filler in front, `item` unchanged at the end. */
  lemma {:induction false} PaddedSingle(c: char, len: int, item: string)
    ensures |Padded([c], len, item)| == if len < |item| then |item| else len
    ensures Padded([c], len, item)[|Padded([c], len, item)| - |item|..] == item
    ensures forall k :: 0 <= k < |Padded([c], len, item)| - |item| ==> Padded([c], len, item)[k] == c
  {
    var n := Copies(1, len - |item|);
    RepeatSingle(c, n);
    RepeatCopies([c], len - |item|);
    var r := Padded([c], len, item);
    assert r == Repeat([c], n) + item;
    forall k | 0 <= k < |r| - |item| ensures r[k] == c {
      assert r[k] == Repeat([c], n)[k];
    }
  }

  /** `padTo`: left-pad with '0' to `len` characters. */
  function PadTo(len: int, item: string): (r: string)
    ensures |r| == if len < |item| then |item| else len
    ensures r[|r| - |item|..] == item
    ensures forall k :: 0 <= k < |r| - |item| ==> r[k] == '0'
  {
    PaddedSingle('0', len, item);
    Padded("0", len, item)
  }

  /** Zero-padding the binary digits of `i` keeps a binary string with the
      same value. */
  lemma {:induction false} PaddedBinValue(w: nat, i: nat)
    ensures IsBits(Padded("0", w, ToBin(i)))
    ensures BitsValue(Padded("0", w, ToBin(i))) == i % 0x1_0000_0000
  {
    var b := ToBin(i);
    var n := Copies(1, w - |b|);
    assert Padded("0", w, b) == Repeat("0", n) + b;
    ZerosAreBits(n);
    BitsAppend(Repeat("0", n), b);
    LeadingZeros(n, b);
  }

  /** A number below `2^w` zero-padded to width `w` is exactly `w` digits. */
  lemma {:induction false} PaddedBinWidth(w: nat, i: nat)
    requires 1 <= w && i < Pow2(w) && i < 0x1_0000_0000
    ensures |Padded("0", w, ToBin(i))| == w
  {
    var b := ToBin(i);
    assert b == Binary(i) by {
      DivSmall(i, 0x1_0000_0000);
      assert i % 0x1_0000_0000 == i;
    }
    BinaryLength(i, w);
    assert |b| <= w;
    PaddedSingle('0', w, b);
  }

  /** The digits of `i` zero-padded to `w` characters: binary, worth `i`
      modulo 2^32, at least `w` long, and exactly `w` long when `i` fits. */
  lemma ZeroPadded(w: nat, i: nat)
    requires 1 <= w
    ensures var p := Padded("0", w, ToBin(i));
      IsBits(p) && BitsValue(p) == i % 0x1_0000_0000 && |p| >= w &&
      (i < Pow2(w) && i < 0x1_0000_0000 ==> |p| == w)
  {
    PaddedBinValue(w, i);
    if i < Pow2(w) && i < 0x1_0000_0000 {
      PaddedBinWidth(w, i);
    }
  }

  /** `to8BitBin`: the digits of `i`, zero-padded to 8 characters. */
  function To8BitBin(i: nat): (r: BitString)
    ensures BitsValue(r) == i % 0x1_0000_0000 && |r| >= 8
    ensures i < 256 ==> |r| == 8 && BitsValue(r) == i
  {
    ZeroPadded(8, i);
    Pow2Table();
    Padded("0", 8, ToBin(i))
  }

  /** `to11BitBin`: the digits of `i`, zero-padded to 11 characters. */
  function To11BitBin(i: nat): (r: BitString)
    ensures BitsValue(r) == i % 0x1_0000_0000 && |r| >= 11
    ensures i < 2048 ==> |r| == 11 && BitsValue(r) == i
  {
    ZeroPadded(11, i);
    Pow2Table();
    Padded("0", 11, ToBin(i))
  }

  /** `truncate`: `str.slice(0, len)`, the first `len` characters; a negative
      `len` drops that many characters from the end instead. */
  function Truncate(len: int, str: string): (r: string)
    ensures |r| == if len >= 0 then (if len < |str| then len else |str|)
                   else (if |str| + len < 0 then 0 else |str| + len)
    ensures r == str[..|r|]
  {
    Slice(str, 0, len)
  }

  /** `truncate32`: the first 32 characters. */
  function Truncate32(str: string): (r: string)
    ensures |r| == if |str| < 32 then |str| else 32
    ensures r == str[..|r|]
  {
    Truncate(32, str)
  }

  /** `parseBin`: `parseInt(str, 2)` on a non-empty string of binary digits,
      read from left to right, each digit doubling what was read before it. */
  function ParseBin(s: string): (r: nat)
    requires IsBits(s) && |s| > 0
    ensures r == BitsValue(s)
    ensures r < Pow2(|s|)
  {
    BitsValueBound(s);
    if |s| == 1 then
      BitOf(s[0])
    else
      var init, last := s[..|s| - 1], s[|s| - 1];
      assert s == init + [last];
      BitsValueSnoc(init, last);
      2 * ParseBin(init) + BitOf(last)
  }

  // ---------------------------------------------------------------------------
  // Grouping and splitting

  /** The groups `inGroupsOf` collects: consecutive runs of `m` items in order,
      the incomplete run at the end left out. */
  function Groups<T>(m: nat, items: seq<T>): (r: seq<seq<T>>)
    requires m > 0
    ensures forall k :: 0 <= k < |r| ==> |r[k]| == m
    decreases |items|
  {
    if |items| < m then [] else [items[..m]] + Groups(m, items[m..])
  }

  /** There are `|items| / m` groups. */
  lemma {:induction false} GroupsCount<T>(m: nat, items: seq<T>)
    requires m > 0
    ensures |Groups(m, items)| == |items| / m
    ensures m * |Groups(m, items)| <= |items|
    decreases |items|
  {
    if |items| < m {
      DivSmall(|items|, m);
    } else {
      GroupsCount(m, items[m..]);
      DivStep(|items| - m, m);
      var q := |items[m..]| / m;
      assert m * (q + 1) == m * q + m;
    }
  }

  /** Read back in order, the groups are the first `m` items per group. */
  lemma {:induction false} GroupsConcatPrefix<T>(m: nat, items: seq<T>)
    requires m > 0
    ensures m * |Groups(m, items)| <= |items|
    ensures Concat(Groups(m, items)) == items[..m * |Groups(m, items)|]
    decreases |items|
  {
    if |items| >= m {
      var first, after := items[..m], items[m..];
      assert items == first + after;
      GroupsCons(m, first, after);
      var rest := Groups(m, after);
      var groups := Groups(m, items);
      assert groups == [first] + rest;
      GroupsConcatPrefix(m, after);
      var q := |rest|;
      assert |groups| == q + 1;
      MulSucc(m, q);
      var n := m * q;
      ConcatCons(first, rest);
      PrefixOfAppend(first, after, n);
    }
  }

  /** Read back in order, the groups are the items up to the last complete
      group: only the trailing partial group is lost. */
  lemma GroupsConcat<T>(m: nat, items: seq<T>)
    requires m > 0
    ensures m * (|items| / m) <= |items|
    ensures Concat(Groups(m, items)) == items[..m * (|items| / m)]
  {
    GroupsConcatPrefix(m, items);
    GroupsCount(m, items);
  }

  /** A complete group in front is the first group. */
  lemma GroupsCons<T>(m: nat, a: seq<T>, t: seq<T>)
    requires m > 0 && |a| == m
    ensures Groups(m, a + t) == [a] + Groups(m, t)
  {
    assert (a + t)[..m] == a && (a + t)[m..] == t;
  }

  /** Already completed groups are kept in front of whatever the rest forms. */
  lemma {:induction false} GroupsAfter<T>(m: nat, done: seq<seq<T>>, t: seq<T>)
    requires m > 0
    requires forall k :: 0 <= k < |done| ==> |done[k]| == m
    ensures Groups(m, Concat(done) + t) == done + Groups(m, t)
  {
    if done != [] {
      var first, rest := done[0], done[1..];
      var tail := Concat(rest) + t;
      assert Concat(done) == first + Concat(rest);
      assert Concat(done) + t == first + tail;
      GroupsCons(m, first, tail);
      assert forall k :: 0 <= k < |rest| ==> |rest[k]| == m by {
        forall k | 0 <= k < |rest| ensures |rest[k]| == m {
          assert rest[k] == done[k + 1];
        }
      }
      GroupsAfter(m, rest, t);
      var later := Groups(m, t);
      assert Groups(m, tail) == rest + later;
      assert done == [first] + rest;
      AppendAssoc([first], rest, later);
    } else {
      assert Concat(done) + t == t;
    }
  }

  /** `inGroupsOf(n, items)`: push each item onto the current group, and move
      the group to the result once it holds `n` items. A size below 1 closes a
      group after every item. */
  method InGroupsOf<T>(n: int, items: seq<T>) returns (groups: seq<seq<T>>)
    ensures groups == Groups(if n < 1 then 1 else n, items)
  {
    var m: nat := if n < 1 then 1 else n;
    groups := [];
    var count := 0;
    var group: seq<T> := [];
    for i := 0 to |items|
      invariant Concat(groups) + group == items[..i]
      invariant forall k :: 0 <= k < |groups| ==> |groups[k]| == m
      invariant count == |group| < m
    {
      TakeOneMore(items, i, Concat(groups), group);
      group := group + [items[i]];
      count := count + 1;
      if count >= n {
        CloseGroup(groups, group);
        groups := groups + [group];
        group := [];
        count := 0;
      }
    }
    assert items[..|items|] == items;
    GroupsAfter(m, groups, group);
  }

  /** One more item read into the open group. */
  lemma TakeOneMore<T>(items: seq<T>, i: nat, done: seq<T>, group: seq<T>)
    requires i < |items| && done + group == items[..i]
    ensures done + (group + [items[i]]) == items[..i + 1]
  {
    assert items[..i + 1] == items[..i] + [items[i]];
  }

  /** Closing the open group leaves the items read unchanged. */
  lemma CloseGroup<T>(groups: seq<seq<T>>, group: seq<T>)
    ensures Concat(groups + [group]) + [] == Concat(groups) + group
  {
    ConcatAppend(groups, [group]);
    assert Concat([group]) == group;
  }

  /** The chunks `splitEvery` cuts: consecutive pieces of `n` characters, the
      last one shorter when `n` does not divide the length. */
  function Chunks(n: nat, s: string): (r: seq<string>)
    requires n > 0
    ensures forall k :: 0 <= k < |r| ==> 0 < |r[k]| <= n
    ensures forall k :: 0 <= k < |r| - 1 ==> |r[k]| == n
    decreases |s|
  {
    if |s| == 0 then
      []
    else if |s| <= n then
      [s]
    else
      [s[..n]] + Chunks(n, s[n..])
  }

  /** Read back in order, the chunks are the whole string: nothing is lost. */
  lemma {:induction false} ChunksConcat(n: nat, s: string)
    requires n > 0
    ensures Concat(Chunks(n, s)) == s
    decreases |s|
  {
    if |s| > n {
      ChunksConcat(n, s[n..]);
      var r := Chunks(n, s);
      assert r[0] == s[..n] && r[1..] == Chunks(n, s[n..]);
    } else if |s| > 0 {
      assert Chunks(n, s)[1..] == [];
    }
  }

  /** There are `ceil(|s| / n)` chunks. */
  lemma {:induction false} ChunksCount(n: nat, s: string)
    requires n > 0
    ensures |Chunks(n, s)| == (|s| + n - 1) / n
    decreases |s|
  {
    if |s| == 0 {
      DivSmall(n - 1, n);
    } else if |s| <= n {
      DivOne(|s| + n - 1, n);
    } else {
      ChunksCount(n, s[n..]);
      DivStep(|s| - 1, n);
    }
  }

  /** The chunks of a binary string are binary strings. */
  lemma {:induction false} ChunksBits(n: nat, s: string)
    requires n > 0 && IsBits(s)
    ensures forall k :: 0 <= k < |Chunks(n, s)| ==> IsBits(Chunks(n, s)[k])
    decreases |s|
  {
    if |s| > n {
      ChunksBits(n, s[n..]);
      var r := Chunks(n, s);
      assert r == [s[..n]] + Chunks(n, s[n..]);
    }
  }

  /** Pieces of exactly `n` characters come back out of `Chunks` unchanged. */
  lemma {:induction false} ChunksOfConcat(n: nat, pieces: seq<string>)
    requires n > 0
    requires forall k :: 0 <= k < |pieces| ==> |pieces[k]| == n
    ensures Chunks(n, Concat(pieces)) == pieces
  {
    if pieces != [] {
      var s := Concat(pieces);
      var tail := Concat(pieces[1..]);
      assert s == pieces[0] + tail;
      ChunksOfConcat(n, pieces[1..]);
      if pieces[1..] == [] {
        assert s == pieces[0];
      } else {
        assert tail == pieces[1..][0] + Concat(pieces[1..][1..]);
        assert s[..n] == pieces[0] && s[n..] == tail;
      }
      assert pieces == [pieces[0]] + pieces[1..];
    }
  }

  /** One step of splitEvery's loop: the chunk sliced at `pos` is the first
      chunk of what is left, and the next step starts `n` characters later. */
  lemma ChunksStep(n: nat, str: string, pos: nat)
    requires 0 < n && pos < |str|
    ensures Chunks(n, str[pos..]) ==
      [Slice(str, pos, n + pos)] + (if pos + n <= |str| then Chunks(n, str[pos + n..]) else [])
  {
    var rest := str[pos..];
    if |rest| <= n {
      assert Slice(str, pos, n + pos) == rest;
      if pos + n == |str| {
        assert Chunks(n, str[pos + n..]) == [];
      }
    } else {
      assert Slice(str, pos, n + pos) == rest[..n];
      assert rest[n..] == str[pos + n..];
    }
  }

  /** What one pass of splitEvery's loop keeps: the chunks collected so far,
      followed by the chunks of what is left, are all the chunks. */
  lemma ChunksAdvance(n: nat, str: string, pos: nat, chunks: seq<string>)
    requires 0 < n && pos < |str|
    requires chunks + Chunks(n, str[pos..]) == Chunks(n, str)
    ensures pos + n <= |str| ==>
      chunks + [Slice(str, pos, n + pos)] + Chunks(n, str[pos + n..]) == Chunks(n, str)
    ensures pos + n > |str| ==> chunks + [Slice(str, pos, n + pos)] == Chunks(n, str)
  {
    ChunksStep(n, str, pos);
    var chunk := Slice(str, pos, n + pos);
    if pos + n <= |str| {
      var rest := Chunks(n, str[pos + n..]);
      assert chunks + [chunk] + rest == chunks + ([chunk] + rest);
    } else {
      assert chunks + [chunk] == chunks + ([chunk] + []);
    }
  }

  /** `splitEvery(n, str)`: slice `n` characters at a time from the front. A
      width below 1 would never advance, hence the precondition. */
  method SplitEvery(n: int, str: string) returns (chunks: seq<string>)
    requires n > 0
    ensures chunks == Chunks(n, str)
  {
    var pos := 0;
    chunks := [];
    while pos < |str|
      invariant 0 <= pos
      invariant pos <= |str| ==> chunks + Chunks(n, str[pos..]) == Chunks(n, str)
      invariant pos > |str| ==> chunks == Chunks(n, str)
      decreases |str| - pos
    {
      ChunksAdvance(n, str, pos, chunks);
      var chunk := Slice(str, pos, n + pos);
      chunks := chunks + [chunk];
      pos := pos + n;
    }
  }

  // ---------------------------------------------------------------------------
  // encodeBytes

  /** `.map(parseBin)` over a list of binary strings. */
  function ParseBins(cs: seq<string>): (r: seq<nat>)
    requires forall k :: 0 <= k < |cs| ==> IsBits(cs[k]) && |cs[k]| > 0
    ensures |r| == |cs|
    ensures forall k :: 0 <= k < |r| ==> r[k] == BitsValue(cs[k]) && r[k] < Pow2(|cs[k]|)
  {
    seq(|cs|, k requires 0 <= k < |cs| => ParseBin(cs[k]))
  }

  /** `g.map(to8BitBin)`. */
  function To8BitBins(g: seq<byte>): (r: seq<string>)
    ensures |r| == |g|
    ensures forall k :: 0 <= k < |r| ==> IsBits(r[k]) && |r[k]| == 8 && BitsValue(r[k]) == g[k]
  {
    seq(|g|, k requires 0 <= k < |g| => To8BitBin(g[k]))
  }

  /** Every chunk is worth less than `2^n`. */
  lemma ChunksBelow(n: nat, s: string)
    requires n > 0 && IsBits(s)
    ensures forall k :: 0 <= k < |Chunks(n, s)| ==>
      IsBits(Chunks(n, s)[k]) && |Chunks(n, s)[k]| > 0 && BitsValue(Chunks(n, s)[k]) < Pow2(n)
  {
    ChunksBits(n, s);
    forall k | 0 <= k < |Chunks(n, s)| ensures BitsValue(Chunks(n, s)[k]) < Pow2(n) {
      BitsValueBound(Chunks(n, s)[k]);
      Pow2Monotone(|Chunks(n, s)[k]|, n);
    }
  }

  /** The steps `encodeBytes` applies to one group of bytes: the 8-bit digits
      of each byte joined, a '0' appended, the result cut into 11-character
      chunks and each chunk read as a number. */
  function EncodeGroup(g: seq<byte>): (r: seq<Index>)
    ensures |r| == (8 * |g| + 11) / 11
  {
    var b32 := Concat(To8BitBins(g));
    var b33 := b32 + "0";
    var b11s := Chunks(11, b33);
    ConcatUniformLength(To8BitBins(g), 8);
    ChunksCount(11, b33);
    assert IsBits(b33) by {
      BitsConcat(To8BitBins(g));
      BitsAppend(b32, "0");
    }
    ChunksBelow(11, b33);
    Pow2Table();
    ParseBins(b11s)
  }

  /** The indices `encodeBytes` looks up: the encoded groups of four bytes, in
      order and concatenated. */
  function PackBytes(bytes: seq<byte>): (r: seq<Index>)
    ensures |r| == 3 * (|bytes| / 4)
  {
    var encoded := EncodeGroups(Groups(4, bytes));
    GroupsCount(4, bytes);
    ConcatUniformLength(encoded, 3);
    Concat(encoded)
  }

  /** `.map(EncodeGroup)` over the groups. */
  function EncodeGroups(groups: seq<seq<byte>>): (r: seq<seq<Index>>)
    ensures |r| == |groups|
    ensures forall k :: 0 <= k < |r| ==> r[k] == EncodeGroup(groups[k])
  {
    if groups == [] then
      []
    else
      var rest := EncodeGroups(groups[1..]);
      assert forall k :: 0 <= k < |rest| ==> groups[1..][k] == groups[k + 1];
      [EncodeGroup(groups[0])] + rest
  }

  /** The words for a sequence of indices: `wordlist[wordNum]` for each. */
  function Spell(vocab: seq<Word>, indices: seq<Index>): (r: seq<Word>)
    requires |vocab| == VocabularySize
    ensures |r| == |indices|
    ensures forall k :: 0 <= k < |r| ==> r[k] == vocab[indices[k]]
  {
    seq(|indices|, k requires 0 <= k < |indices| => vocab[indices[k]])
  }

  /** `encodeBytes`: three vocabulary words for every complete group of four
      bytes. */
  function EncodeBytes(vocab: seq<Word>, bytes: seq<byte>): (r: seq<Word>)
    requires |vocab| == VocabularySize
    ensures |r| == 3 * (|bytes| / 4)
    ensures forall k :: 0 <= k < |r| ==> r[k] in vocab
  {
    Spell(vocab, PackBytes(bytes))
  }

  // ---------------------------------------------------------------------------
  // parseWords

  /** `words[k]` is the first of `words` missing from the vocabulary. */
  predicate FirstUnknown(vocab: seq<Word>, words: seq<Word>, k: int)
  {
    0 <= k < |words| && words[k] !in vocab && forall j :: 0 <= j < k ==> words[j] in vocab
  }

  /** A known word in front moves the first unknown word one place on. */
  lemma FirstUnknownCons(vocab: seq<Word>, words: seq<Word>, k: int)
    requires words != [] && words[0] in vocab && FirstUnknown(vocab, words[1..], k)
    ensures FirstUnknown(vocab, words, k + 1) && words[k + 1] == words[1..][k]
  {
    forall j | 0 <= j < k + 1 ensures words[j] in vocab {
      if j > 0 {
        assert words[j] == words[1..][j - 1];
      }
    }
  }

  /** `words.map(to11Bit)`: the positions of the words, in order; the first
      word that is not in the vocabulary is the error. */
  function IndicesOf(vocab: seq<Word>, words: seq<Word>): (r: Result<seq<nat>>)
    ensures r.Success? <==> forall k :: 0 <= k < |words| ==> words[k] in vocab
    ensures r.Success? ==> |r.value| == |words|
    ensures r.Success? ==> forall k :: 0 <= k < |words| ==>
      r.value[k] < |vocab| && vocab[r.value[k]] == words[k] && words[k] !in vocab[..r.value[k]]
    ensures r.Failure? ==> exists k :: FirstUnknown(vocab, words, k) && r.error == UnknownWord(Some(words[k]))
  {
    if words == [] then
      Success([])
    else
      match To11Bit(vocab, words[0])
      case Failure(e) =>
        assert FirstUnknown(vocab, words, 0);
        Failure(e)
      case Success(i) =>
        match IndicesOf(vocab, words[1..])
        case Failure(e) =>
          ghost var k :| FirstUnknown(vocab, words[1..], k) && e == UnknownWord(Some(words[1..][k]));
          FirstUnknownCons(vocab, words, k);
          Failure(e)
        case Success(rest) =>
          assert forall k :: 0 <= k < |words| - 1 ==> words[k + 1] == words[1..][k];
          Success([i] + rest)
  }

  /** `.map(to11BitBin)`: each index as 11 binary digits. */
  function AsBin(indices: seq<Index>): (r: seq<string>)
    ensures |r| == |indices|
    ensures forall k :: 0 <= k < |r| ==> IsBits(r[k]) && |r[k]| == 11 && BitsValue(r[k]) == indices[k]
  {
    seq(|indices|, k requires 0 <= k < |indices| => To11BitBin(indices[k]))
  }

  /** The steps `parseWords` applies to one group of 11-digit strings: joined,
      cut to 32 digits, split into 8-digit pieces, each read as a byte. */
  function DecodeGroup(g: seq<string>): (r: seq<byte>)
    requires AllBits(g)
    ensures |Concat(g)| >= 32 ==> |r| == 4
    ensures |Concat(g)| < 32 ==> |r| == (|Concat(g)| + 7) / 8
  {
    var joined := Concat(g);
    var b32 := Truncate32(joined);
    var b8s := Chunks(8, b32);
    ChunksCount(8, b32);
    assert IsBits(b32) by {
      BitsConcat(g);
      BitsPrefix(joined, |b32|);
    }
    ChunksBelow(8, b32);
    Pow2Table();
    ParseBins(b8s)
  }

  /** The bytes `parseWords` rebuilds from the word positions: four for every
      complete group of three. */
  function UnpackIndices(indices: seq<Index>): (r: seq<byte>)
    ensures |r| == 4 * (|indices| / 3)
  {
    var bins := AsBin(indices);
    var groups := Groups(3, bins);
    GroupsBits(3, bins);
    GroupsCount(3, bins);
    GroupsWidth(3, bins, 11);
    DecodedWidths(groups);
    ConcatUniformLength(DecodeGroups(groups), 4);
    Concat(DecodeGroups(groups))
  }

  /** `.map(DecodeGroup)` over the groups. */
  function DecodeGroups(groups: seq<seq<string>>): (r: seq<seq<byte>>)
    requires forall k :: 0 <= k < |groups| ==> AllBits(groups[k])
    ensures |r| == |groups|
    ensures forall k :: 0 <= k < |r| ==> r[k] == DecodeGroup(groups[k])
  {
    if groups == [] then
      []
    else
      var rest := DecodeGroups(groups[1..]);
      assert forall k :: 0 <= k < |rest| ==> groups[1..][k] == groups[k + 1];
      [DecodeGroup(groups[0])] + rest
  }

  /** Groups of three 11-digit strings decode to four bytes each. */
  lemma DecodedWidths(groups: seq<seq<string>>)
    requires forall k :: 0 <= k < |groups| ==> AllBits(groups[k])
    requires forall k :: 0 <= k < |groups| ==> |groups[k]| == 3
    requires forall k, j :: 0 <= k < |groups| && 0 <= j < |groups[k]| ==> |groups[k][j]| == 11
    ensures forall k :: 0 <= k < |groups| ==> |DecodeGroups(groups)[k]| == 4
  {
    forall k | 0 <= k < |groups| ensures |DecodeGroup(groups[k])| == 4 {
      DecodeGroupLength(groups[k]);
    }
  }

  /** The groups of strings of one width are made of strings of that width. */
  lemma {:induction false} GroupsWidth(m: nat, items: seq<string>, w: nat)
    requires m > 0 && forall k :: 0 <= k < |items| ==> |items[k]| == w
    ensures forall k, j :: 0 <= k < |Groups(m, items)| && 0 <= j < |Groups(m, items)[k]| ==>
      |Groups(m, items)[k][j]| == w
    decreases |items|
  {
    if |items| >= m {
      var first, after := items[..m], items[m..];
      assert forall j :: 0 <= j < |after| ==> after[j] == items[j + m];
      GroupsWidth(m, after, w);
      GroupsCons(m, first, after);
      assert items == first + after;
    }
  }

  /** The groups of binary strings are made of binary strings. */
  lemma {:induction false} GroupsBits(m: nat, items: seq<string>)
    requires m > 0 && AllBits(items)
    ensures forall k :: 0 <= k < |Groups(m, items)| ==> AllBits(Groups(m, items)[k])
    decreases |items|
  {
    if |items| >= m {
      var first, after := items[..m], items[m..];
      assert AllBits(first) && AllBits(after) by {
        assert forall j :: 0 <= j < |first| ==> first[j] == items[j];
        assert forall j :: 0 <= j < |after| ==> after[j] == items[j + m];
      }
      GroupsBits(m, after);
      GroupsCons(m, first, after);
      assert items == first + after;
    }
  }

  /** `parseWords`: look every word up, then rebuild four bytes from each
      complete group of three words. */
  function ParseWords(vocab: seq<Word>, words: seq<Word>): (r: Result<seq<byte>>)
    requires |vocab| == VocabularySize
    ensures r.Success? <==> forall k :: 0 <= k < |words| ==> words[k] in vocab
    ensures r.Success? ==> |r.value| == 4 * (|words| / 3)
    ensures r.Failure? ==> exists k :: FirstUnknown(vocab, words, k) && r.error == UnknownWord(Some(words[k]))
  {
    match IndicesOf(vocab, words)
    case Failure(e) => Failure(e)
    case Success(indices) =>
      Success(UnpackIndices(indices))
  }

  // ---------------------------------------------------------------------------
  // parseWordsChecksum

  /** `bytes.reduce((a, n) => a + n, 0)`. */
  function Sum(bytes: seq<byte>): (r: nat)
    ensures r <= 255 * |bytes|
  {
    if bytes == [] then 0 else Sum(bytes[..|bytes| - 1]) + bytes[|bytes| - 1]
  }

  /** The running total does not depend on where the bytes are cut. */
  lemma {:induction false} SumAppend(a: seq<byte>, b: seq<byte>)
    ensures Sum(a + b) == Sum(a) + Sum(b)
    decreases |b|
  {
    if b == [] {
      assert a + b == a;
    } else {
      var front := b[..|b| - 1];
      assert (a + b)[..|a + b| - 1] == a + front;
      SumAppend(a, front);
    }
  }

  /** `parseWordsChecksum`: the last word is a check value, the rest are parsed;
      the bytes are returned when the check word's position equals their sum
      modulo 2048. Errors come in the order the source raises them: an unknown
      data word, then an unknown (or, for no words, missing) check word, then a
      mismatch. */
  function ParseWordsChecksum(vocab: seq<Word>, words: seq<Word>): (r: Result<seq<byte>>)
    requires |vocab| == VocabularySize
    ensures words == [] ==> r == Failure(UnknownWord(None))
    ensures r.Success? <==>
      words != [] &&
      ParseWords(vocab, words[..|words| - 1]).Success? &&
      To11Bit(vocab, words[|words| - 1]) == Success(Sum(ParseWords(vocab, words[..|words| - 1]).value) % 2048)
    ensures r.Success? ==> r.value == ParseWords(vocab, words[..|words| - 1]).value
    ensures r.Failure? && r.error.ChecksumMismatch? <==>
      words != [] &&
      ParseWords(vocab, words[..|words| - 1]).Success? &&
      words[|words| - 1] in vocab &&
      To11Bit(vocab, words[|words| - 1]).value != Sum(ParseWords(vocab, words[..|words| - 1]).value) % 2048
    ensures r.Failure? && r.error.ChecksumMismatch? ==> r.error.checkWord == words[|words| - 1]
    ensures words != [] && ParseWords(vocab, words[..|words| - 1]).Failure? ==>
      r == ParseWords(vocab, words[..|words| - 1])
    ensures words != [] && ParseWords(vocab, words[..|words| - 1]).Success? && words[|words| - 1] !in vocab ==>
      r == Failure(UnknownWord(Some(words[|words| - 1])))
  {
    var checksumWord: Option<Word> := if words == [] then None else Some(words[|words| - 1]);
    var toParse := Slice(words, 0, |words| - 1);
    assert words != [] ==> toParse == words[..|words| - 1];
    match ParseWords(vocab, toParse)
    case Failure(e) => Failure(e)
    case Success(bytes) =>
      var checksum := Sum(bytes) % 2048;
      match checksumWord
      case None => Failure(UnknownWord(None))
      case Some(w) =>
        match To11Bit(vocab, w)
        case Failure(e) => Failure(e)
        case Success(index) =>
          if checksum != index then Failure(ChecksumMismatch(w)) else Success(bytes)
  }

  // ---------------------------------------------------------------------------
  // Shapes of the pipelines

  lemma ConcatCons<T>(x: seq<T>, ss: seq<seq<T>>)
    ensures Concat([x] + ss) == x + Concat(ss)
  {
    assert ([x] + ss)[0] == x && ([x] + ss)[1..] == ss;
  }

  /** `PackBytes` consumes the bytes four at a time. */
  lemma PackBytesUnfold(bytes: seq<byte>)
    ensures |bytes| < 4 ==> PackBytes(bytes) == []
    ensures |bytes| >= 4 ==> PackBytes(bytes) == EncodeGroup(bytes[..4]) + PackBytes(bytes[4..])
  {
    if |bytes| >= 4 {
      var first, after := bytes[..4], bytes[4..];
      var rest := Groups(4, after);
      assert bytes == first + after;
      GroupsCons(4, first, after);
      var groups := [first] + rest;
      assert groups[0] == first && groups[1..] == rest;
      assert EncodeGroups(groups) == [EncodeGroup(first)] + EncodeGroups(rest);
      ConcatCons(EncodeGroup(first), EncodeGroups(rest));
    }
  }

  /** The first three strings of `AsBin` are those of the first three indices. */
  lemma AsBinSplit(indices: seq<Index>)
    requires |indices| >= 3
    ensures AsBin(indices) == AsBin(indices[..3]) + AsBin(indices[3..])
  {
    var all, first, after := AsBin(indices), AsBin(indices[..3]), AsBin(indices[3..]);
    assert forall k :: 0 <= k < 3 ==> all[k] == first[k];
    assert forall k :: 3 <= k < |all| ==> all[k] == after[k - 3];
  }

  /** `UnpackIndices` consumes the indices three at a time. */
  lemma UnpackIndicesUnfold(indices: seq<Index>)
    ensures |indices| < 3 ==> UnpackIndices(indices) == []
    ensures |indices| >= 3 ==>
      UnpackIndices(indices) == DecodeGroup(AsBin(indices[..3])) + UnpackIndices(indices[3..])
  {
    if |indices| >= 3 {
      var first, after := AsBin(indices[..3]), AsBin(indices[3..]);
      AsBinSplit(indices);
      var rest := Groups(3, after);
      GroupsCons(3, first, after);
      GroupsBits(3, after);
      var groups := [first] + rest;
      assert groups[0] == first && groups[1..] == rest;
      assert DecodeGroups(groups) == [DecodeGroup(first)] + DecodeGroups(rest);
      ConcatCons(DecodeGroup(first), DecodeGroups(rest));
    }
  }

  /** The joined digits of a four-byte group, byte by byte. */
  lemma EncodeGroupBits(g: seq<byte>)
    requires |g| == 4
    ensures var bins := To8BitBins(g); Concat(bins) == bins[0] + bins[1] + bins[2] + bins[3]
  {
    var bins: seq<string> := To8BitBins(g);
    ConcatFour(bins);
  }

  /** Three 11-digit strings decode to four bytes. */
  lemma DecodeGroupLength(g: seq<string>)
    requires |g| == 3 && AllBits(g) && forall k :: 0 <= k < 3 ==> |g[k]| == 11
    ensures |DecodeGroup(g)| == 4
  {
    ConcatUniformLength(g, 11);
  }
}
