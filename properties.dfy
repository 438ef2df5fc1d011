/** What the codec of `src/services/wordlist.ts` guarantees: the bit layout of
    one group stated as arithmetic, the round trip from bytes to words and
    back, the discarded 33rd bit, and what the trailing check word decides. */
module WordlistProperties {
  import opened Seqs
  import opened Bits
  import opened Wordlist
  import opened Arith

  // ---------------------------------------------------------------------------
  // The layout of one group, digit by digit

  /** Three pieces of `n` characters are chunked back into themselves. */
  lemma ChunksOfThree(n: nat, p0: string, p1: string, p2: string)
    requires n > 0 && |p0| == |p1| == |p2| == n
    ensures Chunks(n, p0 + p1 + p2) == [p0, p1, p2]
  {
    var pieces := [p0, p1, p2];
    ConcatThree(pieces);
    ChunksOfConcat(n, pieces);
  }

  /** Four pieces of `n` characters are chunked back into themselves. */
  lemma ChunksOfFour(n: nat, p0: string, p1: string, p2: string, p3: string)
    requires n > 0 && |p0| == |p1| == |p2| == |p3| == n
    ensures Chunks(n, p0 + p1 + p2 + p3) == [p0, p1, p2, p3]
  {
    var pieces := [p0, p1, p2, p3];
    ConcatFour(pieces);
    ChunksOfConcat(n, pieces);
  }

  /** The digits of four bytes and the '0' bit, regrouped at 11 and 22. */
  lemma PackRegroup(b0: string, b1: string, b2: string, b3: string)
    requires |b0| == |b1| == |b2| == |b3| == 8
    ensures b0 + b1 + b2 + b3 + "0" == (b0 + b1[..3]) + (b1[3..] + b2[..6]) + (b2[6..] + b3 + "0")
  {
    assert b1 == b1[..3] + b1[3..] && b2 == b2[..6] + b2[6..];
  }

  /** The first 32 digits of three 11-digit strings, regrouped at every 8. */
  lemma UnpackRegroup(s0: string, s1: string, s2: string)
    requires |s0| == |s1| == |s2| == 11
    ensures s0 + s1 + s2[..10] == s0[..8] + (s0[8..] + s1[..5]) + (s1[5..] + s2[..2]) + s2[2..10]
  {
    assert s0 == s0[..8] + s0[8..] && s1 == s1[..5] + s1[5..] && s2[..10] == s2[..2] + s2[2..10];
  }

  /** The 33 digits of four bytes and the '0' bit cut at 11 and 22. */
  lemma PackDigits(b0: string, b1: string, b2: string, b3: string)
    requires |b0| == |b1| == |b2| == |b3| == 8
    ensures Chunks(11, b0 + b1 + b2 + b3 + "0") ==
      [b0 + b1[..3], b1[3..] + b2[..6], b2[6..] + b3 + "0"]
  {
    PackRegroup(b0, b1, b2, b3);
    ChunksOfThree(11, b0 + b1[..3], b1[3..] + b2[..6], b2[6..] + b3 + "0");
  }

  /** The first 32 of the 33 digits of three 11-digit strings, cut at every 8. */
  lemma UnpackDigits(s0: string, s1: string, s2: string)
    requires |s0| == |s1| == |s2| == 11
    ensures Truncate32(s0 + s1 + s2) == s0 + s1 + s2[..10]
    ensures Chunks(8, Truncate32(s0 + s1 + s2)) ==
      [s0[..8], s0[8..] + s1[..5], s1[5..] + s2[..2], s2[2..10]]
  {
    assert Truncate32(s0 + s1 + s2) == s0 + s1 + s2[..10];
    UnpackRegroup(s0, s1, s2);
    ChunksOfFour(8, s0[..8], s0[8..] + s1[..5], s1[5..] + s2[..2], s2[2..10]);
  }

  /** The first index: all of the first byte, then the top 3 bits of the second. */
  lemma PackValue0(b0: string, b1: string)
    requires |b0| == |b1| == 8
    ensures BitsValue(b0 + b1[..3]) == BitsValue(b0) * 8 + BitsValue(b1) / 32
  {
    Pow2Table();
    BitsValueAppend(b0, b1[..3]);
    BitsValueDivMod(b1, 3);
  }

  /** The second index: the low 5 bits of the second byte, then the top 6 of
      the third. */
  lemma PackValue1(b1: string, b2: string)
    requires |b1| == |b2| == 8
    ensures BitsValue(b1[3..] + b2[..6]) == BitsValue(b1) % 32 * 64 + BitsValue(b2) / 4
  {
    Pow2Table();
    Straddle(b1, 3, b2, 6);
  }

  /** The third index: the low 2 bits of the third byte, all of the fourth,
      then the appended 0. */
  lemma PackValue2(b2: string, b3: string)
    requires |b2| == |b3| == 8
    ensures BitsValue(b2[6..] + b3 + "0") == BitsValue(b2) % 4 * 512 + BitsValue(b3) * 2
  {
    Pow2Table();
    var low := b2[6..];
    BitsValueAppend(low, b3);
    BitsValueDivMod(b2, 6);
    BitsValueSnoc(low + b3, '0');
    assert low + b3 + "0" == (low + b3) + ['0'];
    ShiftOne(BitsValue(low + b3 + "0"), BitsValue(low + b3), BitsValue(low), BitsValue(b3));
  }

  lemma ShiftOne(v: int, u: int, a: int, b: int)
    requires v == 2 * u + 0 && u == a * 256 + b
    ensures v == a * 512 + b * 2
  {
  }

  /** The first byte: the top 8 bits of the first index. */
  lemma UnpackValue0(s0: string)
    requires |s0| == 11
    ensures BitsValue(s0[..8]) == BitsValue(s0) / 8
  {
    Pow2Table();
    BitsValueDivMod(s0, 8);
  }

  /** The second byte: the low 3 bits of the first index, then the top 5 of
      the second. */
  lemma UnpackValue1(s0: string, s1: string)
    requires |s0| == |s1| == 11
    ensures BitsValue(s0[8..] + s1[..5]) == BitsValue(s0) % 8 * 32 + BitsValue(s1) / 64
  {
    Pow2Table();
    Straddle(s0, 8, s1, 5);
  }

  /** The third byte: the low 6 bits of the second index, then the top 2 of
      the third. */
  lemma UnpackValue2(s1: string, s2: string)
    requires |s1| == |s2| == 11
    ensures BitsValue(s1[5..] + s2[..2]) == BitsValue(s1) % 64 * 4 + BitsValue(s2) / 512
  {
    Pow2Table();
    Straddle(s1, 5, s2, 2);
  }

  /** The fourth byte: bits 2 to 9 of the third index; its last bit is cut. */
  lemma UnpackValue3(s2: string)
    requires |s2| == 11
    ensures BitsValue(s2[2..10]) == BitsValue(s2) / 2 % 256
  {
    Pow2Table();
    var top := s2[..10];
    BitsValueDivMod(s2, 10);
    BitsValueDivMod(top, 2);
    assert top[2..] == s2[2..10];
  }

  // ---------------------------------------------------------------------------
  // One group as arithmetic

  /** `encodeBytes` on four bytes: the first index holds the first byte and the
      top 3 bits of the second; the second index the low 5 bits of the second
      byte and the top 6 of the third; the third index the low 2 bits of the
      third byte, the whole fourth byte and the appended 0. */
  lemma EncodeGroupValues(g: seq<byte>)
    requires |g| == 4
    ensures var e := EncodeGroup(g);
      |e| == 3 && e[0] == (g[0] as int) * 8 + (g[1] as int) / 32 &&
      e[1] == (g[1] as int) % 32 * 64 + (g[2] as int) / 4 &&
      e[2] == (g[2] as int) % 4 * 512 + (g[3] as int) * 2
  {
    var bins: seq<string> := To8BitBins(g);
    var b0, b1, b2, b3 := bins[0], bins[1], bins[2], bins[3];
    EncodeGroupPieces(g);
    PackValue0(b0, b1);
    PackValue1(b1, b2);
    PackValue2(b2, b3);
  }

  /** `encodeBytes` on four bytes: the indices are the values of the pieces of
      the 33 digits cut at 11 and 22. */
  lemma EncodeGroupPieces(g: seq<byte>)
    requires |g| == 4
    ensures var e, bins := EncodeGroup(g), To8BitBins(g);
      |e| == 3 && e[0] as int == BitsValue(bins[0] + bins[1][..3]) &&
      e[1] as int == BitsValue(bins[1][3..] + bins[2][..6]) &&
      e[2] as int == BitsValue(bins[2][6..] + bins[3] + "0")
  {
    var bins: seq<string> := To8BitBins(g);
    EncodeGroupBits(g);
    PackDigits(bins[0], bins[1], bins[2], bins[3]);
  }

  /** `parseWords` on three 11-digit strings: the bytes are the values of the
      pieces of their first 32 digits cut at every 8. */
  lemma DecodeGroupPieces(s0: string, s1: string, s2: string)
    requires IsBits(s0) && IsBits(s1) && IsBits(s2) && |s0| == |s1| == |s2| == 11
    ensures AllBits([s0, s1, s2])
    ensures var d := DecodeGroup([s0, s1, s2]);
      |d| == 4 && d[0] as int == BitsValue(s0[..8]) && d[1] as int == BitsValue(s0[8..] + s1[..5]) &&
      d[2] as int == BitsValue(s1[5..] + s2[..2]) && d[3] as int == BitsValue(s2[2..10])
  {
    var g := [s0, s1, s2];
    ConcatThree(g);
    assert Concat(g) == s0 + s1 + s2;
    UnpackDigits(s0, s1, s2);
  }

  /** `parseWords` on three indices: the inverse layout, with the last bit of
      the third index dropped. */
  lemma DecodeGroupValues(i0: Index, i1: Index, i2: Index)
    ensures var d := DecodeGroup(AsBin([i0, i1, i2]));
      |d| == 4 && d[0] == (i0 as int) / 8 && d[1] == (i0 as int) % 8 * 32 + (i1 as int) / 64 &&
      d[2] == (i1 as int) % 64 * 4 + (i2 as int) / 512 && d[3] == (i2 as int) / 2 % 256
  {
    var bins: seq<string> := AsBin([i0, i1, i2]);
    var s0, s1, s2 := bins[0], bins[1], bins[2];
    AsThree(bins);
    DecodeGroupPieces(s0, s1, s2);
    UnpackValue0(s0);
    UnpackValue1(s0, s1);
    UnpackValue2(s1, s2);
    UnpackValue3(s2);
  }

  /** The decoding arithmetic undoes the encoding arithmetic on one group. */
  lemma GroupArith(g0: int, g1: int, g2: int, g3: int, e0: int, e1: int, e2: int)
    requires 0 <= g0 < 256 && 0 <= g1 < 256 && 0 <= g2 < 256 && 0 <= g3 < 256
    requires e0 == g0 * 8 + g1 / 32 && e1 == g1 % 32 * 64 + g2 / 4 && e2 == g2 % 4 * 512 + g3 * 2
    ensures e0 / 8 == g0 && e0 % 8 * 32 + e1 / 64 == g1 && e1 % 64 * 4 + e2 / 512 == g2 && e2 / 2 % 256 == g3
  {
  }

  lemma SameFour(a: seq<byte>, b: seq<byte>)
    requires |a| == |b| == 4
    requires a[0] == b[0] && a[1] == b[1] && a[2] == b[2] && a[3] == b[3]
    ensures a == b
  {
  }

  /** The decoding arithmetic of three indices, as a predicate on the bytes. */
  predicate DecodedFrom(d: seq<byte>, t: seq<Index>)
    requires |t| == 3
  {
    |d| == 4 && d[0] == (t[0] as int) / 8 && d[1] == (t[0] as int) % 8 * 32 + (t[1] as int) / 64 &&
    d[2] == (t[1] as int) % 64 * 4 + (t[2] as int) / 512 && d[3] == (t[2] as int) / 2 % 256
  }

  /** `DecodeGroupValues` for a triple given as one sequence. */
  lemma DecodeTripleValues(t: seq<Index>)
    requires |t| == 3
    ensures DecodedFrom(DecodeGroup(AsBin(t)), t)
  {
    AsThree(t);
    DecodeGroupValues(t[0], t[1], t[2]);
  }

  /** Two byte sequences fitting the same decoding arithmetic are equal. */
  lemma DecodedUnique(a: seq<byte>, b: seq<byte>, t: seq<Index>)
    requires |t| == 3 && DecodedFrom(a, t) && DecodedFrom(b, t)
    ensures a == b
  {
    SameFour(a, b);
  }

  /** Three indices whose decoding arithmetic gives `d` decode to `d`. */
  lemma DecodeGroupIs(t: seq<Index>, d: seq<byte>)
    requires |t| == 3 && DecodedFrom(d, t)
    ensures DecodeGroup(AsBin(t)) == d
  {
    DecodeTripleValues(t);
    DecodedUnique(DecodeGroup(AsBin(t)), d, t);
  }

  /** Three indices decoded from four bytes give the four bytes back. */
  lemma GroupRoundTrip(g: seq<byte>)
    requires |g| == 4
    ensures |EncodeGroup(g)| == 3
    ensures DecodeGroup(AsBin(EncodeGroup(g))) == g
  {
    var e := EncodeGroup(g);
    EncodeGroupValues(g);
    GroupArith(g[0], g[1], g[2], g[3], e[0], e[1], e[2]);
    assert DecodedFrom(g, e);
    DecodeGroupIs(e, g);
  }

  // ---------------------------------------------------------------------------
  // The round trip

  /** The complete groups of `bytes` are its first group and the complete
      groups of the rest. */
  lemma KeepGroups(bytes: seq<byte>)
    requires |bytes| >= 4
    ensures bytes[..4 * (|bytes| / 4)] == bytes[..4] + bytes[4..][..4 * (|bytes[4..]| / 4)]
  {
    var n := 4 * (|bytes[4..]| / 4);
    assert 4 * (|bytes| / 4) == 4 + n by {
      DivStep(|bytes| - 4, 4);
    }
    assert bytes[..4 + n] == bytes[..4] + bytes[4..][..n];
  }

  /** Unpacking what was packed gives back every complete group of four bytes;
      a trailing partial group is lost. */
  lemma {:induction false} UnpackPack(bytes: seq<byte>)
    ensures UnpackIndices(PackBytes(bytes)) == bytes[..4 * (|bytes| / 4)]
    decreases |bytes|
  {
    PackBytesUnfold(bytes);
    if |bytes| >= 4 {
      var head, rest := EncodeGroup(bytes[..4]), PackBytes(bytes[4..]);
      GroupRoundTrip(bytes[..4]);
      UnpackIndicesUnfold(head + rest);
      assert (head + rest)[..3] == head && (head + rest)[3..] == rest;
      UnpackPack(bytes[4..]);
      KeepGroups(bytes);
    }
  }

  /** Looking up the words spelled from a vocabulary gives back their indices. */
  lemma LookupSpelled(vocab: seq<Word>, indices: seq<Index>)
    requires ValidVocabulary(vocab)
    ensures IndicesOf(vocab, Spell(vocab, indices)) == Success(indices)
  {
    var words := Spell(vocab, indices);
    var r := IndicesOf(vocab, words);
    assert forall k :: 0 <= k < |words| ==> words[k] in vocab;
    forall k | 0 <= k < |indices| ensures r.value[k] == indices[k] {
      var i, j := r.value[k], indices[k];
      assert vocab[i] == vocab[j];
    }
    assert r.value == indices;
  }

  /** Looking a vocabulary word up gives its position (the table has no word
      twice). */
  lemma LookupWord(vocab: seq<Word>, i: Index)
    requires ValidVocabulary(vocab)
    ensures To11Bit(vocab, vocab[i]) == Success(i)
  {
    var r := To11Bit(vocab, vocab[i]);
    assert vocab[r.value] == vocab[i];
  }

  /** `parseWords(encodeBytes(bytes))` is the input up to its last complete
      group of four bytes. */
  lemma RoundTrip(vocab: seq<Word>, bytes: seq<byte>)
    requires ValidVocabulary(vocab)
    ensures ParseWords(vocab, EncodeBytes(vocab, bytes)) == Success(bytes[..4 * (|bytes| / 4)])
  {
    LookupSpelled(vocab, PackBytes(bytes));
    UnpackPack(bytes);
  }

  /** For a length that is a multiple of four the round trip is exact. */
  lemma RoundTripAligned(vocab: seq<Word>, bytes: seq<byte>)
    requires ValidVocabulary(vocab) && |bytes| % 4 == 0
    ensures ParseWords(vocab, EncodeBytes(vocab, bytes)) == Success(bytes)
  {
    RoundTrip(vocab, bytes);
    assert bytes[..4 * (|bytes| / 4)] == bytes;
  }

  // ---------------------------------------------------------------------------
  // The appended bit

  /** Every third index, counting from the third, is even. */
  predicate ThirdsEven(indices: seq<Index>)
  {
    forall k :: 0 <= k < |indices| && k % 3 == 2 ==> indices[k] % 2 == 0
  }

  lemma ThirdsEvenCons(head: seq<Index>, rest: seq<Index>)
    requires |head| == 3 && head[2] % 2 == 0 && ThirdsEven(rest)
    ensures ThirdsEven(head + rest)
  {
    forall k | 0 <= k < |head + rest| && k % 3 == 2 ensures (head + rest)[k] % 2 == 0 {
      if k >= 3 {
        assert (head + rest)[k] == rest[k - 3];
      }
    }
  }

  lemma EvenArith(e: int, a: int, b: int)
    requires e == a % 4 * 512 + b * 2
    ensures e % 2 == 0
  {
  }

  lemma EncodeGroupEven(g: seq<byte>)
    requires |g| == 4
    ensures |EncodeGroup(g)| == 3 && EncodeGroup(g)[2] % 2 == 0
  {
    var e := EncodeGroup(g);
    EncodeGroupValues(g);
    EvenArith(e[2], g[2], g[3]);
  }

  /** The third index of every triple is even: its last bit is the appended 0. */
  lemma {:induction false} ThirdIndexEven(bytes: seq<byte>)
    ensures ThirdsEven(PackBytes(bytes))
    decreases |bytes|
  {
    PackBytesUnfold(bytes);
    if |bytes| >= 4 {
      EncodeGroupEven(bytes[..4]);
      ThirdIndexEven(bytes[4..]);
      ThirdsEvenCons(EncodeGroup(bytes[..4]), PackBytes(bytes[4..]));
    }
  }

  /** The index with its lowest bit flipped; still an index. */
  function FlipLow(i: Index): (r: Index)
    ensures r / 2 == i / 2 && r != i
  {
    if i % 2 == 0 then i + 1 else i - 1
  }

  lemma FlipLowValues(i: Index)
    ensures FlipLow(i) / 512 == i / 512 && FlipLow(i) / 2 % 256 == i / 2 % 256
  {
  }

  /** The decoder ignores the last bit of a group's third index. */
  lemma GroupIgnoresLowBit(i0: Index, i1: Index, i2: Index)
    ensures DecodeGroup(AsBin([i0, i1, FlipLow(i2)])) == DecodeGroup(AsBin([i0, i1, i2]))
  {
    DecodeGroupValues(i0, i1, i2);
    DecodeGroupValues(i0, i1, FlipLow(i2));
    FlipLowValues(i2);
    SameFour(DecodeGroup(AsBin([i0, i1, FlipLow(i2)])), DecodeGroup(AsBin([i0, i1, i2])));
  }

  /** Where a flipped position falls: in the first triple, or in the rest. */
  lemma FlipSplit(indices: seq<Index>, p: nat)
    requires p < |indices| && p % 3 == 2
    ensures var flipped := indices[p := FlipLow(indices[p])];
      (p == 2 ==>
        flipped[..3] == [indices[0], indices[1], FlipLow(indices[2])] &&
        indices[..3] == [indices[0], indices[1], indices[2]] &&
        flipped[3..] == indices[3..]) &&
      (p != 2 ==>
        3 <= p && p - 3 < |indices[3..]| && (p - 3) % 3 == 2 &&
        flipped[..3] == indices[..3] &&
        flipped[3..] == indices[3..][p - 3 := FlipLow(indices[3..][p - 3])])
  {
  }

  /** Flipping the low bit of the third index of any complete triple leaves
      the decoded bytes unchanged. */
  lemma {:induction false} IgnoresLowBit(indices: seq<Index>, p: nat)
    requires p < |indices| && p % 3 == 2
    ensures UnpackIndices(indices[p := FlipLow(indices[p])]) == UnpackIndices(indices)
    decreases p
  {
    var flipped := indices[p := FlipLow(indices[p])];
    FlipSplit(indices, p);
    if p == 2 {
      GroupIgnoresLowBit(indices[0], indices[1], indices[2]);
    } else {
      IgnoresLowBit(indices[3..], p - 3);
    }
    UnpackSameParts(flipped, indices);
  }

  /** Two index lists with the same first group of bytes and the same bytes
      after it unpack alike. */
  lemma UnpackSameParts(a: seq<Index>, b: seq<Index>)
    requires |a| >= 3 && |b| >= 3
    requires DecodeGroup(AsBin(a[..3])) == DecodeGroup(AsBin(b[..3]))
    requires UnpackIndices(a[3..]) == UnpackIndices(b[3..])
    ensures UnpackIndices(a) == UnpackIndices(b)
  {
    UnpackIndicesUnfold(a);
    UnpackIndicesUnfold(b);
  }

  /** The same at the level of words: replace the third word of a triple by
      the word whose index differs in the last bit, and `parseWords` returns
      the same bytes. */
  lemma WordsIgnoreLowBit(vocab: seq<Word>, indices: seq<Index>, p: nat)
    requires ValidVocabulary(vocab)
    requires p < |indices| && p % 3 == 2
    ensures ParseWords(vocab, Spell(vocab, indices)[p := vocab[FlipLow(indices[p])]]) ==
            ParseWords(vocab, Spell(vocab, indices))
  {
    var flipped := indices[p := FlipLow(indices[p])];
    assert Spell(vocab, indices)[p := vocab[FlipLow(indices[p])]] == Spell(vocab, flipped);
    LookupSpelled(vocab, indices);
    LookupSpelled(vocab, flipped);
    IgnoresLowBit(indices, p);
  }

  // ---------------------------------------------------------------------------
  // The check word

  /** After data words that parse to `data`, the check word decides: the word
      at the position of the byte sum modulo 2048 passes, any other vocabulary
      word is a mismatch naming it, and a word outside the vocabulary is
      unknown. */
  lemma CheckWordDecides(vocab: seq<Word>, dataWords: seq<Word>, data: seq<byte>, w: Word)
    requires ValidVocabulary(vocab) && ParseWords(vocab, dataWords) == Success(data)
    ensures w == vocab[Sum(data) % 2048] ==> ParseWordsChecksum(vocab, dataWords + [w]) == Success(data)
    ensures w in vocab && w != vocab[Sum(data) % 2048] ==>
      ParseWordsChecksum(vocab, dataWords + [w]) == Failure(ChecksumMismatch(w))
    ensures w !in vocab ==> ParseWordsChecksum(vocab, dataWords + [w]) == Failure(UnknownWord(Some(w)))
  {
    var words := dataWords + [w];
    assert words[..|words| - 1] == dataWords && words[|words| - 1] == w;
    if w in vocab {
      var i := To11Bit(vocab, w).value;
      LookupWord(vocab, Sum(data) % 2048);
      assert vocab[i] == w;
    }
  }

  /** Words encoded from `bytes`, followed by the word at the position of their
      byte sum modulo 2048, pass the check and give the bytes back. */
  lemma ChecksumAccepts(vocab: seq<Word>, bytes: seq<byte>)
    requires ValidVocabulary(vocab)
    ensures var data := bytes[..4 * (|bytes| / 4)];
      ParseWordsChecksum(vocab, EncodeBytes(vocab, bytes) + [vocab[Sum(data) % 2048]]) == Success(data)
  {
    var data := bytes[..4 * (|bytes| / 4)];
    RoundTrip(vocab, bytes);
    CheckWordDecides(vocab, EncodeBytes(vocab, bytes), data, vocab[Sum(data) % 2048]);
  }

  /** Any other vocabulary word in the check position is a checksum mismatch
      naming that word. */
  lemma ChecksumRejects(vocab: seq<Word>, bytes: seq<byte>, w: Word)
    requires ValidVocabulary(vocab) && w in vocab
    requires w != vocab[Sum(bytes[..4 * (|bytes| / 4)]) % 2048]
    ensures ParseWordsChecksum(vocab, EncodeBytes(vocab, bytes) + [w]) == Failure(ChecksumMismatch(w))
  {
    RoundTrip(vocab, bytes);
    CheckWordDecides(vocab, EncodeBytes(vocab, bytes), bytes[..4 * (|bytes| / 4)], w);
  }

  /** A check word outside the vocabulary is reported as unknown. */
  lemma ChecksumUnknownWord(vocab: seq<Word>, bytes: seq<byte>, w: Word)
    requires ValidVocabulary(vocab) && w !in vocab
    ensures ParseWordsChecksum(vocab, EncodeBytes(vocab, bytes) + [w]) == Failure(UnknownWord(Some(w)))
  {
    RoundTrip(vocab, bytes);
    CheckWordDecides(vocab, EncodeBytes(vocab, bytes), bytes[..4 * (|bytes| / 4)], w);
  }

  // ---------------------------------------------------------------------------
  // Worked vectors

  lemma SixAsTriples(indices: seq<Index>)
    requires |indices| == 6
    ensures indices[..3] == [indices[0], indices[1], indices[2]]
    ensures indices[3..][..3] == [indices[3], indices[4], indices[5]]
    ensures |indices[3..][3..]| == 0
  {
  }

  /** Six indices unpack as two groups of three. */
  lemma UnpackSix(indices: seq<Index>)
    requires |indices| == 6
    ensures UnpackIndices(indices) ==
      DecodeGroup(AsBin([indices[0], indices[1], indices[2]])) +
      (DecodeGroup(AsBin([indices[3], indices[4], indices[5]])) + [])
  {
    SixAsTriples(indices);
    UnpackIndicesUnfold(indices);
    UnpackIndicesUnfold(indices[3..]);
    UnpackIndicesUnfold(indices[3..][3..]);
  }

  /** The three indices `p` are the layout of one group of four bytes. */
  predicate FourLayout(p: seq<Index>, bytes: seq<byte>)
    requires |bytes| == 4
  {
    |p| == 3 && p[0] == (bytes[0] as int) * 8 + (bytes[1] as int) / 32 &&
    p[1] == (bytes[1] as int) % 32 * 64 + (bytes[2] as int) / 4 &&
    p[2] == (bytes[2] as int) % 4 * 512 + (bytes[3] as int) * 2
  }

  /** Four bytes pack to one triple of indices, by the layout of one group. */
  lemma PackFour(bytes: seq<byte>)
    requires |bytes| == 4
    ensures FourLayout(PackBytes(bytes), bytes)
  {
    PackSingle(bytes);
    EncodeGroupValues(bytes);
  }

  /** Four bytes are a single group. */
  lemma PackSingle(bytes: seq<byte>)
    requires |bytes| == 4
    ensures PackBytes(bytes) == EncodeGroup(bytes)
  {
    var groups := Groups(4, bytes);
    GroupsCons(4, bytes, []);
    assert bytes + [] == bytes;
    assert groups == [bytes];
    var encoded := EncodeGroups(groups);
    assert encoded == [EncodeGroup(bytes)];
    ConcatCons(EncodeGroup(bytes), []);
    assert [EncodeGroup(bytes)] + [] == encoded;
  }

  /** Three indices laid out from the bytes c0 ff ee ca. */
  lemma EncodeVectorLayout(p: seq<Index>, bytes: seq<byte>)
    requires |bytes| == 4 && bytes[0] == 0xc0 && bytes[1] == 0xff && bytes[2] == 0xee && bytes[3] == 0xca
    requires FourLayout(p, bytes)
    ensures p == [1543, 2043, 1428]
  {
  }

  /** Bytes c0 ff ee ca pack to the indices 1543, 2043, 1428. */
  lemma EncodeVector(bytes: seq<byte>)
    requires |bytes| == 4 && bytes[0] == 0xc0 && bytes[1] == 0xff && bytes[2] == 0xee && bytes[3] == 0xca
    ensures PackBytes(bytes) == [1543, 2043, 1428]
  {
    PackFour(bytes);
    EncodeVectorLayout(PackBytes(bytes), bytes);
  }

  /** The eight bytes `u` are the layout of two groups of three indices. */
  predicate SixLayout(u: seq<byte>, indices: seq<Index>)
    requires |indices| == 6
  {
    |u| == 8 &&
    u[0] == (indices[0] as int) / 8 && u[1] == (indices[0] as int) % 8 * 32 + (indices[1] as int) / 64 &&
    u[2] == (indices[1] as int) % 64 * 4 + (indices[2] as int) / 512 && u[3] == (indices[2] as int) / 2 % 256 &&
    u[4] == (indices[3] as int) / 8 && u[5] == (indices[3] as int) % 8 * 32 + (indices[4] as int) / 64 &&
    u[6] == (indices[4] as int) % 64 * 4 + (indices[5] as int) / 512 && u[7] == (indices[5] as int) / 2 % 256
  }

  /** Six indices unpack to eight bytes, by the layout of one group twice. */
  lemma UnpackSixValues(indices: seq<Index>)
    requires |indices| == 6
    ensures SixLayout(UnpackIndices(indices), indices)
  {
    UnpackSix(indices);
    var d0 := DecodeGroup(AsBin([indices[0], indices[1], indices[2]]));
    var d1 := DecodeGroup(AsBin([indices[3], indices[4], indices[5]]));
    DecodeGroupValues(indices[0], indices[1], indices[2]);
    DecodeGroupValues(indices[3], indices[4], indices[5]);
    JoinTwo(UnpackIndices(indices), d0, d1);
  }

  lemma JoinTwo(u: seq<byte>, d0: seq<byte>, d1: seq<byte>)
    requires u == d0 + (d1 + []) && |d0| == |d1| == 4
    ensures |u| == 8 && u[0] == d0[0] && u[1] == d0[1] && u[2] == d0[2] && u[3] == d0[3]
    ensures u[4] == d1[0] && u[5] == d1[1] && u[6] == d1[2] && u[7] == d1[3]
  {
  }

  /** Eight bytes laid out from the indices 1543, 2043, 1428, 2032, 0, 0. */
  lemma DecodeVectorLayout(u: seq<byte>, indices: seq<Index>)
    requires |indices| == 6
    requires indices[0] == 1543 && indices[1] == 2043 && indices[2] == 1428
    requires indices[3] == 2032 && indices[4] == 0 && indices[5] == 0
    requires SixLayout(u, indices)
    ensures u == [192, 255, 238, 202, 254, 0, 0, 0]
  {
  }

  /** Indices 1543, 2043, 1428, 2032, 0, 0 unpack to 192, 255, 238, 202, 254,
      0, 0, 0. */
  lemma DecodeVector(indices: seq<Index>)
    requires |indices| == 6
    requires indices[0] == 1543 && indices[1] == 2043 && indices[2] == 1428
    requires indices[3] == 2032 && indices[4] == 0 && indices[5] == 0
    ensures UnpackIndices(indices) == [192, 255, 238, 202, 254, 0, 0, 0]
  {
    UnpackSixValues(indices);
    DecodeVectorLayout(UnpackIndices(indices), indices);
  }
}
