# Word-list byte codec, modelled in Dafny

`src/services/wordlist.ts` turns bytes into words and back:

- **Encoding.** Every complete group of four bytes gives 32 binary digits, 8 per byte. One '0' digit is appended, and the 33 digits are cut into three 11-digit numbers. Each number is a position in a 2048-word vocabulary.
- **Decoding.** `parseWords` looks the words up, writes each position as 11 digits and joins the digits of each complete triple. It keeps the first 32 digits and reads them back as four bytes.
- **Check word.** `parseWordsChecksum` treats the last word as a check word. Its position must equal the sum of the decoded bytes modulo 2048.

The model has four modules:

- `Seqs` (`seqs.dfy`): the JavaScript pipeline pieces the file uses:
  - `join('')` and `reduce(concat)`, as `Concat`;
  - `slice` with its index clamping, as `Slice`.
- `Arith` (`arith.dfy`): small facts about division and multiplication.
- `Bits` (`bits.dfy`): binary strings and their value, and `Number.prototype.toString(2)` as `Binary`.
- `Wordlist` (`wordlist.dfy`): every function of the source file.
  - `leftPad`, `inGroupsOf` and `splitEvery` change local variables in loops. They are methods with loop invariants here.
  - Each of those methods is proved equal to a function (`Padded`, `Groups`, `Chunks`). The map/reduce pipelines (`encodeBytes`, `parseWords`, `parseWordsChecksum`) use those functions.
- `WordlistProperties` (`properties.dfy`):
  - the bit layout of one group, as arithmetic;
  - the round trip;
  - the discarded 33rd bit;
  - what the check word decides;
  - the worked vectors of the test file.

The vocabulary (`@/vendor/wordlists/english.ts`) is a parameter `vocab`:

- the encoding and decoding functions require exactly 2048 entries;
- the round-trip lemmas also require the entries to be distinct (`ValidVocabulary`).

The two exceptions the source throws are modelled as an `Error` value in a `Result`:

- "Could not find" is `UnknownWord`;
- "Checksum mismatch" is `ChecksumMismatch`.

## Model

| member | source | states |
|---|---|---|
| Wordlist.IndexOf | src/services/wordlist.ts:4 | the result is -1 exactly when the word is absent; otherwise it is the first position holding the word |
| Wordlist.To11Bit | src/services/wordlist.ts:3-9 | succeeds exactly when the word is in the vocabulary, with its first position; otherwise fails with `UnknownWord` naming the word |
| Wordlist.ToBin | src/services/wordlist.ts:11-14 | binary digits worth `i` modulo 2^32, with no leading zero unless the value is 0 |
| Wordlist.Padded | src/services/wordlist.ts:24-30 | the padded string is at least `len` long and never shorter than `item`; it ends in `item`; it is `item` itself when `item` is long enough, and it overshoots `len` by less than one filler; what precedes `item` is whole copies of `filler`: its length is a multiple of the filler's, and position k holds `filler[k mod len(filler)]` |
| Wordlist.LeftPad | src/services/wordlist.ts:24-30 | the `while` loop returns exactly `Padded(filler, len, item)` |
| Wordlist.PaddedSingle | src/services/wordlist.ts:24-30 | with a one-character filler the result has length max(len, len(item)): `item` at the end and only filler before it |
| Wordlist.PadTo | src/services/wordlist.ts:32-34 | length max(len, len(item)), `item` as suffix, '0' everywhere before it |
| Wordlist.ZeroPadded | src/services/wordlist.ts:16-22 | zero-padding `toBin(i)` to width w gives a binary string worth `i` modulo 2^32, at least w long, and exactly w long when `i` < 2^w |
| Wordlist.To8BitBin | src/services/wordlist.ts:16-18 | at least 8 digits worth `i` modulo 2^32; for `i` < 256, exactly 8 digits worth `i` |
| Wordlist.To11BitBin | src/services/wordlist.ts:20-22 | at least 11 digits worth `i` modulo 2^32; for `i` < 2048, exactly 11 digits worth `i` |
| Wordlist.Truncate | src/services/wordlist.ts:36-38 | a prefix of `str` of length min(len, len(str)), or len(str) + len (at least 0) for a negative `len`, as `slice(0, len)` gives |
| Wordlist.Truncate32 | src/services/wordlist.ts:40-42 | the prefix of `str` of length min(32, len(str)) |
| Wordlist.ParseBin | src/services/wordlist.ts:44-46 | the value of a non-empty binary string, below 2^length |
| Wordlist.Groups | src/services/wordlist.ts:48-62 | every group has exactly `m` items |
| Wordlist.GroupsCount | src/services/wordlist.ts:48-62 | there are len(items) / m groups |
| Wordlist.GroupsConcat | src/services/wordlist.ts:48-62 | the groups joined are `items[..m * (len(items) / m)]`: in order, with only the trailing partial group lost |
| Wordlist.InGroupsOf | src/services/wordlist.ts:48-62 | the loop collects exactly `Groups(max(n, 1), items)`; for n < 1 every item is its own group, because `count >= n` always holds |
| Wordlist.Chunks | src/services/wordlist.ts:64-72 | every chunk is 1..n long, and every chunk but the last is exactly n long |
| Wordlist.ChunksConcat | src/services/wordlist.ts:64-72 | the chunks joined are the whole string |
| Wordlist.ChunksCount | src/services/wordlist.ts:64-72 | there are ceil(len(s) / n) chunks |
| Wordlist.SplitEvery | src/services/wordlist.ts:64-72 | the loop terminates and returns exactly `Chunks(n, str)` |
| Wordlist.To8BitBins | src/services/wordlist.ts:98 | one string per byte, each exactly 8 binary digits worth that byte |
| Wordlist.EncodeGroup | src/services/wordlist.ts:98-101 | a group of g bytes gives ceil((8g + 1) / 11) indices, so four bytes give three |
| Wordlist.EncodeGroups | src/services/wordlist.ts:98-101 | one index list per group, each the encoding of that group, in order |
| Wordlist.PackBytes | src/services/wordlist.ts:97-102 | 3 * (len(bytes) / 4) indices: three for each complete group of four |
| Wordlist.Spell | src/services/wordlist.ts:103 | one word per index, the vocabulary entry at that index |
| Wordlist.EncodeBytes | src/services/wordlist.ts:96-104 | 3 * (len(bytes) / 4) words, every one taken from the vocabulary; every index is below 2048 (the `Index` type), so the lookup is always defined |
| Wordlist.IndicesOf | src/services/wordlist.ts:75 | succeeds exactly when every word is in the vocabulary, giving each word's first position; otherwise fails on the first unknown word |
| Wordlist.AsBin | src/services/wordlist.ts:75 | one string per index, each exactly 11 binary digits worth that index |
| Wordlist.ParseBins | src/services/wordlist.ts:80 | one number per binary string, its value, below 2^length |
| Wordlist.DecodeGroup | src/services/wordlist.ts:77-80 | a group whose joined digits number at least 32 gives four bytes; a shorter one gives one byte per started 8 digits |
| Wordlist.DecodeGroupLength | src/services/wordlist.ts:77-80 | three 11-digit strings decode to four bytes |
| Wordlist.DecodeGroups | src/services/wordlist.ts:77-80 | one byte list per group, each the decoding of that group, in order |
| Wordlist.UnpackIndices | src/services/wordlist.ts:76-81 | 4 * (len(indices) / 3) bytes: four for each complete group of three |
| Wordlist.ParseWords | src/services/wordlist.ts:74-83 | succeeds exactly when every word is known, giving 4 * (len(words) / 3) bytes (each below 256 by the `byte` type); otherwise fails with `UnknownWord` naming the first unknown word |
| Wordlist.Sum | src/services/wordlist.ts:89 | the sum of the bytes, at most 255 per byte |
| Wordlist.SumAppend | src/services/wordlist.ts:89 | the sum of two byte sequences joined is the sum of their sums |
| Wordlist.ParseWordsChecksum | src/services/wordlist.ts:85-94 | succeeds, with `parseWords` of all but the last word, exactly when the last word's position equals the byte sum modulo 2048; fails with `ChecksumMismatch` naming the last word exactly when the data parses, the last word is known, and the positions differ; errors from the data words come first, then an unknown check word; no words at all fail as the lookup of `undefined` |
| Seqs.ConcatAppend | src/services/wordlist.ts:81 | `reduce(concat)` over two runs of pieces joined is the concatenation of the two results |
| Seqs.ConcatUniformLength | src/services/wordlist.ts:98 | joining pieces that all have length w gives w times as many items as there are pieces |
| Seqs.SliceIndex | src/services/wordlist.ts:37 | a negative index counts back from the end and every index is clamped to 0..length |
| Seqs.Slice | src/services/wordlist.ts:68 | `slice(start, end)` holds the items from the clamped start, in order, one for each position up to the clamped end, and nothing when the clamped end does not come after the clamped start |
| Seqs.RepeatCycles | src/services/wordlist.ts:26-28 | k copies of s in front of each other have k * len(s) items, and position i holds `s[i mod len(s)]` |
| Bits.Binary | src/services/wordlist.ts:13 | binary digits worth `n`, without a leading zero unless `n` is 0 |
| WordlistProperties.PackDigits | src/services/wordlist.ts:98-100 | the 33 digits of four bytes and the '0' are cut at 11 and 22, so each index takes its digits from one or two bytes |
| WordlistProperties.UnpackDigits | src/services/wordlist.ts:77-79 | the first 32 of the 33 digits of three indices, cut at every 8 digits |
| WordlistProperties.EncodeGroupValues | src/services/wordlist.ts:97-101 | four bytes g0..g3 give the indices g0·8 + g1/32, (g1 mod 32)·64 + g2/4 and (g2 mod 4)·512 + g3·2 |
| WordlistProperties.DecodeGroupValues | src/services/wordlist.ts:75-81 | indices i0, i1, i2 give the bytes i0/8, (i0 mod 8)·32 + i1/64, (i1 mod 64)·4 + i2/512 and (i2/2) mod 256 |
| WordlistProperties.GroupRoundTrip | src/services/wordlist.ts:74-104 | decoding the three indices of a group of four bytes gives the four bytes back |
| WordlistProperties.UnpackPack | src/services/wordlist.ts:74-104 | unpacking the packed indices gives `bytes[..4 * (len(bytes) / 4)]` |
| WordlistProperties.LookupWord | src/services/wordlist.ts:3-9 | in a vocabulary without repeats, looking up the word at position i gives i |
| WordlistProperties.LookupSpelled | src/services/wordlist.ts:75 | looking up the words spelled from a list of indices gives those indices back |
| WordlistProperties.RoundTrip | src/services/wordlist.ts:74-104 | `parseWords(encodeBytes(bytes))` succeeds with `bytes[..4 * (len(bytes) / 4)]` |
| WordlistProperties.RoundTripAligned | src/services/wordlist.ts:74-104 | for a length that is a multiple of 4 the round trip gives `bytes` exactly |
| WordlistProperties.EncodeGroupEven | src/services/wordlist.ts:99-101 | the third index of a group is even |
| WordlistProperties.ThirdIndexEven | src/services/wordlist.ts:96-102 | every index at a position ≡ 2 (mod 3) is even: its last bit is the appended '0' |
| WordlistProperties.GroupIgnoresLowBit | src/services/wordlist.ts:77-80 | flipping the last bit of a triple's third index leaves its four bytes unchanged |
| WordlistProperties.IgnoresLowBit | src/services/wordlist.ts:74-83 | flipping the last bit of the third index of any complete triple leaves every decoded byte unchanged |
| WordlistProperties.WordsIgnoreLowBit | src/services/wordlist.ts:74-83 | replacing the third word of a triple by the word whose position differs only in the last bit leaves `parseWords`' result unchanged |
| WordlistProperties.CheckWordDecides | src/services/wordlist.ts:85-94 | after data words that parse to `data`: the word at position Sum(data) mod 2048 passes with `data`; any other vocabulary word fails with a mismatch naming it; a word outside the vocabulary fails as unknown |
| WordlistProperties.ChecksumAccepts | src/services/wordlist.ts:85-94 | encoded words followed by the word at the byte sum's position pass the check and give back the complete groups of the bytes |
| WordlistProperties.ChecksumRejects | src/services/wordlist.ts:85-94 | any other vocabulary word in the check position fails with `ChecksumMismatch` naming it |
| WordlistProperties.ChecksumUnknownWord | src/services/wordlist.ts:85-94 | a check word outside the vocabulary fails with `UnknownWord` naming it |
| WordlistProperties.EncodeVector | src/services/wordlist.test.ts:14-20 | bytes c0 ff ee ca pack to the indices 1543, 2043, 1428 |
| WordlistProperties.DecodeVector | src/services/wordlist.test.ts:49-56 | indices 1543, 2043, 1428, 2032, 0, 0 unpack to the bytes 192, 255, 238, 202, 254, 0, 0, 0 |

## Left out

- The contents of the English word list: the vocabulary is a parameter. The test file's vectors name words such as "science" and "solid". They are stated over vocabulary positions instead.
- JavaScript number behaviour outside what the codec feeds itself:
  - `>>> 0` on negative numbers: `ToBin` takes a `nat`;
  - `NaN` arguments;
  - `Uint8Array`'s wrapping of out-of-range values: decoded bytes are below 256 by construction.
- ParseBin: requires a non-empty string of '0' and '1'. `parseInt` on empty or non-binary text (giving `NaN` or a prefix value) is not modelled. The codec only passes it 8- and 11-digit chunks.
- LeftPad: requires a non-empty filler. For an empty filler and a short item the source's loop never ends.
- SplitEvery: requires n > 0. For n ≤ 0 and a non-empty string the source's loop never ends.
- The check-word protocol with a drop-byte count and a 9-bit checksum. The test file describes it (`decodeWords`, `genCheckWord`, the 7-word output for five bytes). `src/services/wordlist.ts` does not implement it, so it is not part of this model.
  - The code as written gives `encodeBytes` on the five bytes c0 ff ee ca fe three words, not seven. Its trailing partial group is dropped (`Wordlist.EncodeBytes`, `WordlistProperties.RoundTrip`).
  - `parseWordsChecksum` compares the check word's full 11-bit position with the byte sum modulo 2048.
- The text of the exception messages: errors are `UnknownWord(word)` and `ChecksumMismatch(word)`. `UnknownWord(None)` stands for the lookup of `undefined`.
- The typing of `inGroupsOf` over `any[]`: the model is generic in the item type.
- JavaScript string lengths and `slice` count UTF-16 code units, but a Dafny `string` counts Unicode scalar values. Characters outside the Basic Multilingual Plane therefore behave differently in `Padded`/`LeftPad`, `Truncate` and `SplitEvery`:
  - `leftPad('0', 3, '😀')` gives `'0😀'` in JavaScript (the emoji counts as 2), but `"00😀"` in the model;
  - `truncate(1, '😀')` gives a lone surrogate in JavaScript, but the whole character in the model.
  The codec only passes these functions strings of '0' and '1', where the two counts agree.
