/**
 The recovery phrase (common/crypto/recovery_phrase.cpp), "Generating the mnemonic" of BIP-39 for 128 bits: sixteen bytes and
 four checksum bits, recut into twelve 11-bit indexes of a sorted word list, and the way back.
 */
module Recovery {
  import opened Prelude
  import opened BitStrings
  import opened TextOrder
  import Division

  const ENTROPY_SIZE := 16
  const WORD_COUNT := 12
  const BITS_PER_WORD := 11
  const USED_BITS := 132
  const LIST_SIZE := 2048

  type Entropy = s: Bytes | |s| == ENTROPY_SIZE witness seq(16, _ => 0)

  /** First digest byte of SHA-256, and the word list. */
  datatype Scheme = Scheme(digest: Bytes -> Byte, words: seq<string>)

  predicate LowerWord(w: string) {
    w != "" && forall i :: 0 <= i < |w| ==> 'a' <= w[i] <= 'z'
  }

  /** The list is complete, in lower case, and strictly sorted, so without repetition. */
  ghost predicate GoodList(words: seq<string>) {
    && |words| == LIST_SIZE
    && (forall i :: 0 <= i < |words| ==> LowerWord(words[i]))
    && (forall i, j :: 0 <= i < j < |words| ==> Before(words[i], words[j]))
  }

  function Letter(n: nat): char
    requires n < 26
  {
    'a' + n as char
  }

  /** Three letters that count in base 26. */
  function ToyWord(i: nat): string
    requires i < LIST_SIZE
  {
    [Letter(i / 676), Letter(i / 26 % 26), Letter(i % 26)]
  }

  lemma ToyWordsOrdered(i: nat, j: nat)
    requires i < j < LIST_SIZE
    ensures Before(ToyWord(i), ToyWord(j))
  {
    var a, b := ToyWord(i), ToyWord(j);
    var k: nat := if i / 676 < j / 676 then 0 else if i / 26 < j / 26 then 1 else 2;
    assert i / 676 <= j / 676 && i / 26 <= j / 26;
    assert i / 676 == i / 26 / 26 && j / 676 == j / 26 / 26;
    assert BeforeAt(a, b, k);
  }

  /** Such lists exist. */
  lemma GoodListExists()
    ensures GoodList(seq(LIST_SIZE, i requires 0 <= i < LIST_SIZE => ToyWord(i)))
  {
    var words := seq(LIST_SIZE, i requires 0 <= i < LIST_SIZE => ToyWord(i));
    forall i, j | 0 <= i < j < |words| ensures Before(words[i], words[j]) {
      ToyWordsOrdered(i, j);
    }
  }

  function Nibble(s: Scheme, entropy: Bytes): Byte {
    s.digest(entropy) - s.digest(entropy) % 16
  }

  // ---------------------------------------------------------------------------------------------
  // Recutting bits

  /** Bit i of a byte string, most significant first. */
  function BitAt(bytes: Bytes, i: nat): Bit
    requires i < 8 * |bytes|
  {
    BitOf(bytes[i / 8], 7 - i % 8)
  }

  function WordBits(packed: Bytes, w: nat): (bits: seq<Bit>)
    requires |packed| == ENTROPY_SIZE + 1 && w < WORD_COUNT
    ensures |bits| == BITS_PER_WORD
  {
    seq<Bit>(BITS_PER_WORD, b requires 0 <= b < BITS_PER_WORD => BitAt(packed, w * BITS_PER_WORD + b))
  }

  function Indices(packed: Bytes): (r: seq<nat>)
    requires |packed| == ENTROPY_SIZE + 1
    ensures |r| == WORD_COUNT
    ensures forall w :: 0 <= w < |r| ==> r[w] < LIST_SIZE
  {
    assert forall w | 0 <= w < WORD_COUNT :: Value(WordBits(packed, w)) < LIST_SIZE by {
      forall w | 0 <= w < WORD_COUNT ensures Value(WordBits(packed, w)) < LIST_SIZE {
        ValueBound(WordBits(packed, w));
        PowersOfTwo();
      }
    }
    seq(WORD_COUNT, w requires 0 <= w < WORD_COUNT => Value(WordBits(packed, w)))
  }

  lemma PowersOfTwo()
    ensures Power2(4) == 16 && Power2(8) == 256 && Power2(11) == LIST_SIZE
  {
    assert Power2(2) == 2 * Power2(1) == 4;
    assert Power2(4) == 2 * Power2(3) == 16;
    assert Power2(6) == 2 * Power2(5) == 64;
    assert Power2(8) == 2 * Power2(7) == 256;
    assert Power2(10) == 2 * Power2(9) == 1024;
    assert Power2(11) == 2 * Power2(10);
  }

  /** Bit p of the indexes laid end to end; beyond their 132 bits there are zeros. */
  function IndexBit(indices: seq<nat>, p: nat): Bit
    requires |indices| == WORD_COUNT
  {
    if p < USED_BITS then BitOf(indices[p / BITS_PER_WORD], BITS_PER_WORD - 1 - p % BITS_PER_WORD) else 0
  }

  /** Bit p when only the first n positions have been filled. */
  function FilledBit(indices: seq<nat>, p: nat, n: nat): Bit
    requires |indices| == WORD_COUNT
  {
    if p < n then IndexBit(indices, p) else 0
  }

  function ByteBits(indices: seq<nat>, j: nat, n: nat): (bits: seq<Bit>)
    requires |indices| == WORD_COUNT
    ensures |bits| == 8
    ensures forall k :: 0 <= k < 8 ==> bits[k] == FilledBit(indices, 8 * j + k, n)
  {
    seq<Bit>(8, k requires 0 <= k < 8 => FilledBit(indices, 8 * j + k, n))
  }

  function PackedTo(indices: seq<nat>, n: nat): (r: Bytes)
    requires |indices| == WORD_COUNT
    ensures |r| == ENTROPY_SIZE + 1
  {
    assert forall j: nat | j < ENTROPY_SIZE + 1 :: Value(ByteBits(indices, j, n)) < 256 by {
      forall j: nat | j < ENTROPY_SIZE + 1 ensures Value(ByteBits(indices, j, n)) < 256 {
        ValueBound(ByteBits(indices, j, n));
        PowersOfTwo();
      }
    }
    seq(ENTROPY_SIZE + 1, j requires 0 <= j < ENTROPY_SIZE + 1 => Value(ByteBits(indices, j, n)))
  }

  function Pack(indices: seq<nat>): Bytes
    requires |indices| == WORD_COUNT
  {
    PackedTo(indices, USED_BITS)
  }

  lemma BitOfPacked(indices: seq<nat>, p: nat)
    requires |indices| == WORD_COUNT && p < 8 * (ENTROPY_SIZE + 1)
    ensures BitAt(Pack(indices), p) == IndexBit(indices, p)
  {
    var j, k := p / 8, p % 8;
    assert p == 8 * j + k;
    BitOfValue(ByteBits(indices, j, USED_BITS), k);
  }

  lemma BitOfIndices(packed: Bytes, p: nat)
    requires |packed| == ENTROPY_SIZE + 1 && p < USED_BITS
    ensures IndexBit(Indices(packed), p) == BitAt(packed, p)
  {
    var w, b := p / BITS_PER_WORD, p % BITS_PER_WORD;
    assert p == w * BITS_PER_WORD + b;
    BitOfValue(WordBits(packed, w), b);
  }

  lemma PackedByte(packed: Bytes, j: nat)
    requires |packed| == ENTROPY_SIZE + 1 && packed[ENTROPY_SIZE] % 16 == 0 && j < ENTROPY_SIZE + 1
    ensures Value(ByteBits(Indices(packed), j, USED_BITS)) == packed[j]
  {
    var bits := ByteBits(Indices(packed), j, USED_BITS);
    forall k: nat | k < 8 ensures bits[k] == BitOf(packed[j], 7 - k) {
      PackedBit(packed, j, k);
    }
    PowersOfTwo();
    ValueOfBits(packed[j], bits);
  }

  lemma PackedBit(packed: Bytes, j: nat, k: nat)
    requires |packed| == ENTROPY_SIZE + 1 && packed[ENTROPY_SIZE] % 16 == 0 && j < ENTROPY_SIZE + 1 && k < 8
    ensures ByteBits(Indices(packed), j, USED_BITS)[k] == BitOf(packed[j], 7 - k)
  {
    var p := 8 * j + k;
    assert p / 8 == j && p % 8 == k;
    if p < USED_BITS {
      BitOfIndices(packed, p);
    } else {
      LowBitsClear(packed[j], 7 - k);
    }
  }

  /** Recutting to words and back restores seventeen bytes whose last four bits are clear. */
  lemma PackOfIndices(packed: Bytes)
    requires |packed| == ENTROPY_SIZE + 1 && packed[ENTROPY_SIZE] % 16 == 0
    ensures Pack(Indices(packed)) == packed
  {
    forall j: nat | j < ENTROPY_SIZE + 1 ensures Pack(Indices(packed))[j] == packed[j] {
      PackedByte(packed, j);
    }
  }

  lemma LowBitsClear(v: nat, n: nat)
    requires v % 16 == 0 && n < 4
    ensures BitOf(v, n) == 0
  {
    SmallPowers();
    Sixteenths(v);
    assert n == 0 || n == 1 || n == 2 || n == 3;
  }

  lemma SmallPowers()
    ensures Power2(0) == 1 && Power2(1) == 2 && Power2(2) == 4 && Power2(3) == 8
  {
    assert Power2(2) == 2 * Power2(1);
    assert Power2(3) == 2 * Power2(2);
  }

  lemma Sixteenths(v: nat)
    requires v % 16 == 0
    ensures v / 1 % 2 == 0 && v / 2 % 2 == 0 && v / 4 % 2 == 0 && v / 8 % 2 == 0
  {
    var q := v / 16;
    assert v == 16 * q;
    Division.Quotient(v, 2, 8 * q, 0);
    Division.Quotient(v, 4, 4 * q, 0);
    Division.Quotient(v, 8, 2 * q, 0);
  }

  lemma WordOfPack(indices: seq<nat>, w: nat)
    requires |indices| == WORD_COUNT && w < WORD_COUNT && indices[w] < LIST_SIZE
    ensures Indices(Pack(indices))[w] == indices[w]
  {
    var bits := WordBits(Pack(indices), w);
    forall b: nat | b < BITS_PER_WORD ensures bits[b] == BitOf(indices[w], BITS_PER_WORD - 1 - b) {
      var p := w * BITS_PER_WORD + b;
      BitOfPacked(indices, p);
      assert p / BITS_PER_WORD == w && p % BITS_PER_WORD == b;
    }
    PowersOfTwo();
    ValueOfBits(indices[w], bits);
  }

  /** And recutting to bytes and back restores twelve indexes; the last four bits are clear. */
  lemma IndicesOfPack(indices: seq<nat>)
    requires |indices| == WORD_COUNT && forall w :: 0 <= w < WORD_COUNT ==> indices[w] < LIST_SIZE
    ensures Indices(Pack(indices)) == indices
    ensures Pack(indices)[ENTROPY_SIZE] % 16 == 0
  {
    var packed := Pack(indices);
    forall w: nat | w < WORD_COUNT ensures Indices(packed)[w] == indices[w] {
      WordOfPack(indices, w);
    }
    var last := ByteBits(indices, ENTROPY_SIZE, USED_BITS);
    assert last[4] == 0 && last[5] == 0 && last[6] == 0 && last[7] == 0;
    FourClear(last);
  }

  lemma FourClear(bits: seq<Bit>)
    requires |bits| == 8 && bits[4] == 0 && bits[5] == 0 && bits[6] == 0 && bits[7] == 0
    ensures Value(bits) % 16 == 0
  {
    var a, b, c, d := bits[..7], bits[..6], bits[..5], bits[..4];
    assert a[..6] == b && b[..5] == c && c[..4] == d;
    assert Value(bits) == 2 * Value(a) && Value(a) == 2 * Value(b) && Value(b) == 2 * Value(c) && Value(c) == 2 * Value(d);
  }

  // ---------------------------------------------------------------------------------------------
  // Words

  predicate Space(c: char) {
    c == ' ' || '\t' <= c <= '\r'
  }

  function Lower(w: string): (r: string)
    ensures |r| == |w|
  {
    seq(|w|, i requires 0 <= i < |w| => if 'A' <= w[i] <= 'Z' then w[i] - 'A' + 'a' else w[i])
  }

  /** Length of the run of characters that are spaces, or that are not. */
  function Run(s: string, spaces: bool): (n: nat)
    ensures n <= |s|
  {
    if s == "" || Space(s[0]) != spaces then 0 else 1 + Run(s[1..], spaces)
  }

  lemma {:induction false} RunMeaning(s: string, spaces: bool)
    ensures forall i :: 0 <= i < Run(s, spaces) ==> Space(s[i]) == spaces
    ensures Run(s, spaces) < |s| ==> Space(s[Run(s, spaces)]) != spaces
  {
    if s != "" && Space(s[0]) == spaces {
      RunMeaning(s[1..], spaces);
      assert forall i :: 0 < i < |s| ==> s[i] == s[1..][i - 1];
    }
  }

  /** The words of a text, in lower case. */
  function Words(s: string): seq<string>
    decreases |s|
  {
    var rest := s[Run(s, true)..];
    if rest == "" then []
    else
      var n := Run(rest, false);
      [Lower(rest[..n])] + Words(rest[n..])
  }

  function Join(ws: seq<string>): string {
    if ws == [] then "" else if |ws| == 1 then ws[0] else ws[0] + " " + Join(ws[1..])
  }

  /** What a phrase is split into: something without space or capital. */
  predicate Solid(w: string) {
    w != "" && forall i :: 0 <= i < |w| ==> !Space(w[i]) && !('A' <= w[i] <= 'Z')
  }

  lemma {:induction false} RunOfWord(w: string, rest: string)
    requires Solid(w) && (rest == "" || Space(rest[0]))
    ensures Run(w + rest, true) == 0 && Run(w + rest, false) == |w|
    ensures Lower(w) == w
  {
    var s := w + rest;
    assert s[0] == w[0] && s[1..] == w[1..] + rest;
    if |w| == 1 {
      assert w[1..] + rest == rest;
    } else {
      RunOfWord(w[1..], rest);
    }
  }

  lemma WordsOfCons(w: string, tail: string)
    requires Solid(w) && (tail == "" || Space(tail[0]))
    ensures Words(w + tail) == [w] + Words(tail)
  {
    var s := w + tail;
    RunOfWord(w, tail);
    assert s[0..] == s && s[..|w|] == w && s[|w|..] == tail;
  }

  /** Words joined by single spaces are found again. */
  lemma {:induction false} WordsOfJoin(ws: seq<string>)
    requires forall i :: 0 <= i < |ws| ==> Solid(ws[i])
    ensures Words(Join(ws)) == ws
    decreases |ws|
  {
    if |ws| == 1 {
      WordsOfCons(ws[0], "");
      assert ws[0] + "" == ws[0] && Words("") == [];
    } else if |ws| > 1 {
      WordsOfJoin(ws[1..]);
      JoinStarts(ws[1..]);
      WordsOfPair(ws[0], Join(ws[1..]), ws[1]);
      assert ws == [ws[0]] + ws[1..];
    }
  }

  lemma JoinStarts(ws: seq<string>)
    requires ws != []
    ensures ws[0] <= Join(ws)
  {
  }

  lemma WordsOfPair(w: string, rest: string, next: string)
    requires Solid(w) && Solid(next) && next <= rest
    ensures Words(w + " " + rest) == [w] + Words(rest)
  {
    WordsOfCons(w, " " + rest);
    AppendAssociative(w, " ", rest);
    LeadingSpace(rest, next);
  }

  lemma LowerSolid(w: string)
    requires w != "" && forall i :: 0 <= i < |w| ==> !Space(w[i])
    ensures Solid(Lower(w))
  {
    var r := Lower(w);
    forall i | 0 <= i < |r| ensures !Space(r[i]) && !('A' <= r[i] <= 'Z') {
      assert !Space(w[i]);
    }
  }

  /** What follows the spaces of a text begins with a word. */
  lemma WordAhead(s: string, rest: string, n: nat)
    requires rest == s[Run(s, true)..] && rest != "" && n == Run(rest, false)
    ensures n > 0 && Solid(Lower(rest[..n]))
  {
    RunMeaning(s, true);
    assert rest[0] == s[Run(s, true)];
    RunMeaning(rest, false);
    LowerSolid(rest[..n]);
  }

  lemma {:induction false} WordsSolid(s: string)
    ensures forall i :: 0 <= i < |Words(s)| ==> Solid(Words(s)[i])
    decreases |s|
  {
    var rest := s[Run(s, true)..];
    if rest != "" {
      var n := Run(rest, false);
      WordAhead(s, rest, n);
      WordsSolid(rest[n..]);
    }
  }

  lemma LeadingSpace(s: string, w: string)
    requires Solid(w) && w <= s
    ensures Words(" " + s) == Words(s)
  {
    var t := " " + s;
    assert t[1..] == s;
    assert s[0] == w[0];
    assert Run(s, true) == 0;
    assert Run(t, true) == 1;
    assert s[0..] == s;
  }

  /** The position of a word in the list. */
  function Find(words: seq<string>, w: string): (r: Option<nat>)
    ensures r.Some? ==> r.value < |words| && words[r.value] == w
    ensures r.None? ==> w !in words
  {
    if words == [] then None
    else if words[|words| - 1] == w then Some(|words| - 1)
    else Find(words[..|words| - 1], w)
  }

  lemma FindUnique(words: seq<string>, i: nat)
    requires GoodList(words) && i < |words|
    ensures Find(words, words[i]) == Some(i)
  {
    assert words[i] in words;
    var j := Find(words, words[i]).value;
    if j < i {
      BeforeAsymmetric(words[j], words[i]);
    } else if i < j {
      BeforeAsymmetric(words[i], words[j]);
    }
  }

  function FindAll(words: seq<string>, ws: seq<string>): Option<seq<nat>> {
    if ws == [] then Some([])
    else
      var i :- Find(words, ws[0]);
      var rest :- FindAll(words, ws[1..]);
      Some([i] + rest)
  }

  function Spell(words: seq<string>, indices: seq<nat>): (r: seq<string>)
    requires forall w :: 0 <= w < |indices| ==> indices[w] < |words|
    ensures |r| == |indices|
  {
    seq(|indices|, w requires 0 <= w < |indices| => words[indices[w]])
  }

  lemma {:induction false} FindAllOfSpell(words: seq<string>, indices: seq<nat>)
    requires GoodList(words) && forall w :: 0 <= w < |indices| ==> indices[w] < |words|
    ensures FindAll(words, Spell(words, indices)) == Some(indices)
    decreases |indices|
  {
    if indices != [] {
      FindUnique(words, indices[0]);
      FindAllOfSpell(words, indices[1..]);
      assert Spell(words, indices)[1..] == Spell(words, indices[1..]);
      assert indices == [indices[0]] + indices[1..];
    }
  }

  lemma {:induction false} SpellOfFindAll(words: seq<string>, ws: seq<string>)
    ensures
      var r := FindAll(words, ws);
      r.Some? ==> |r.value| == |ws| && (forall w :: 0 <= w < |ws| ==> r.value[w] < |words|) && Spell(words, r.value) == ws
    decreases |ws|
  {
    if ws != [] {
      SpellOfFindAll(words, ws[1..]);
    }
  }

  // ---------------------------------------------------------------------------------------------
  // The two directions

  function Packed(s: Scheme, e: Entropy): (r: Bytes)
    ensures |r| == ENTROPY_SIZE + 1 && r[ENTROPY_SIZE] % 16 == 0
  {
    e + [Nibble(s, e)]
  }

  function ToPhrase(s: Scheme, e: Entropy): string
    requires |s.words| == LIST_SIZE
  {
    Join(Spell(s.words, Indices(Packed(s, e))))
  }

  function ToEntropy(s: Scheme, phrase: string): Option<Bytes> {
    var ws := Words(phrase);
    if |ws| != WORD_COUNT then None
    else
      var indices :- FindAll(s.words, ws);
      if |indices| != WORD_COUNT then None
      else
        var packed := Pack(indices);
        var candidate := packed[..ENTROPY_SIZE];
        if packed[ENTROPY_SIZE] - packed[ENTROPY_SIZE] % 16 == Nibble(s, candidate) then Some(candidate) else None
  }

  /** Every entropy survives being written down and read back. */
  lemma PhraseRoundTrip(s: Scheme, e: Entropy)
    requires GoodList(s.words)
    ensures ToEntropy(s, ToPhrase(s, e)) == Some(e)
  {
    var packed := Packed(s, e);
    var indices := Indices(packed);
    var ws := Spell(s.words, indices);
    WordsOfJoin(ws);
    FindAllOfSpell(s.words, indices);
    PackOfIndices(packed);
    assert packed[..ENTROPY_SIZE] == e;
  }

  lemma AcceptedIsPhrase(s: Scheme, phrase: string)
    requires GoodList(s.words) && ToEntropy(s, phrase).Some?
    ensures
      var e := ToEntropy(s, phrase).value;
      |e| == ENTROPY_SIZE && Join(Words(phrase)) == ToPhrase(s, e)
  {
    var ws := Words(phrase);
    SpellOfFindAll(s.words, ws);
    var indices := FindAll(s.words, ws).value;
    IndicesOfPack(indices);
    var packed := Pack(indices);
    var e := packed[..ENTROPY_SIZE];
    assert Packed(s, e) == packed;
  }

  /** A phrase is accepted for an entropy exactly when, in lower case with single spaces, it is that entropy's phrase. */
  lemma AcceptedIsCanonical(s: Scheme, phrase: string, e: Entropy)
    requires GoodList(s.words)
    ensures ToEntropy(s, phrase) == Some(e) <==> Join(Words(phrase)) == ToPhrase(s, e)
  {
    if ToEntropy(s, phrase) == Some(e) {
      AcceptedIsPhrase(s, phrase);
    }
    if Join(Words(phrase)) == ToPhrase(s, e) {
      WordsSolid(phrase);
      WordsOfJoin(Words(phrase));
      PhraseRoundTrip(s, e);
      assert Words(phrase) == Words(ToPhrase(s, e));
    }
  }

  // ---------------------------------------------------------------------------------------------
  // What the words stand for

  function AllBits(packed: Bytes): (bits: seq<Bit>)
    requires |packed| == ENTROPY_SIZE + 1
    ensures |bits| == 8 * (ENTROPY_SIZE + 1) && forall p :: 0 <= p < |bits| ==> bits[p] == BitAt(packed, p)
  {
    seq<Bit>(8 * (ENTROPY_SIZE + 1), p requires 0 <= p < 8 * (ENTROPY_SIZE + 1) => BitAt(packed, p))
  }

  lemma WordAppended(packed: Bytes, w: nat)
    requires |packed| == ENTROPY_SIZE + 1 && w < WORD_COUNT
    ensures AllBits(packed)[..(w + 1) * BITS_PER_WORD] == AllBits(packed)[..w * BITS_PER_WORD] + WordBits(packed, w)
    ensures Indices(packed)[..w + 1] == Indices(packed)[..w] + [Value(WordBits(packed, w))]
  {
  }

  lemma WordNumber(packed: Bytes, w: nat)
    requires |packed| == ENTROPY_SIZE + 1 && w < WORD_COUNT
    requires Value(AllBits(packed)[..w * BITS_PER_WORD]) == Number(Indices(packed)[..w], LIST_SIZE)
    ensures Value(AllBits(packed)[..(w + 1) * BITS_PER_WORD]) == Number(Indices(packed)[..w + 1], LIST_SIZE)
  {
    WordAppended(packed, w);
    PowersOfTwo();
    GroupAppended(AllBits(packed)[..w * BITS_PER_WORD], WordBits(packed, w), Indices(packed)[..w], LIST_SIZE);
  }

  lemma {:induction false} WordsNumber(packed: Bytes, w: nat)
    requires |packed| == ENTROPY_SIZE + 1 && w <= WORD_COUNT
    ensures Value(AllBits(packed)[..w * BITS_PER_WORD]) == Number(Indices(packed)[..w], LIST_SIZE)
    decreases w
  {
    if w > 0 {
      WordsNumber(packed, w - 1);
      WordNumber(packed, w - 1);
    }
  }

  lemma ByteOfBits(packed: Bytes, j: nat)
    requires |packed| == ENTROPY_SIZE + 1 && j <= ENTROPY_SIZE
    ensures Value(AllBits(packed)[8 * j..8 * j + 8]) == packed[j]
  {
    var bits := AllBits(packed)[8 * j..8 * j + 8];
    forall k | 0 <= k < |bits| ensures bits[k] == BitOf(packed[j], |bits| - 1 - k) {
      assert (8 * j + k) / 8 == j && (8 * j + k) % 8 == k;
    }
    PowersOfTwo();
    ValueOfBits(packed[j], bits);
  }

  lemma ByteAppended(packed: Bytes, j: nat)
    requires |packed| == ENTROPY_SIZE + 1 && j <= ENTROPY_SIZE
    ensures AllBits(packed)[..8 * (j + 1)] == AllBits(packed)[..8 * j] + AllBits(packed)[8 * j..8 * j + 8]
    ensures packed[..j + 1] == packed[..j] + [packed[j]]
  {
  }

  lemma {:induction false} BytesNumber(packed: Bytes, j: nat)
    requires |packed| == ENTROPY_SIZE + 1 && j <= ENTROPY_SIZE
    ensures Value(AllBits(packed)[..8 * j]) == Number(packed[..j], 256)
    decreases j
  {
    if j > 0 {
      BytesNumber(packed, j - 1);
      ByteOfBits(packed, j - 1);
      ByteAppended(packed, j - 1);
      PowersOfTwo();
      GroupAppended(AllBits(packed)[..8 * (j - 1)], AllBits(packed)[8 * (j - 1)..8 * j], packed[..j - 1], 256);
    }
  }

  lemma HighBits(packed: Bytes)
    requires |packed| == ENTROPY_SIZE + 1
    ensures Value(AllBits(packed)[128..132]) == packed[ENTROPY_SIZE] / 16
  {
    var high, low := AllBits(packed)[128..132], AllBits(packed)[132..136];
    ByteOfBits(packed, ENTROPY_SIZE);
    assert AllBits(packed)[128..136] == high + low;
    ValueAppend(high, low);
    ValueBound(low);
    PowersOfTwo();
    Division.Quotient(packed[ENTROPY_SIZE], 16, Value(high), Value(low));
  }

  /** The twelve indexes, as digits in base 2048, are the entropy as a number, followed by the high four bits of its digest. */
  lemma IndexesAreNumber(s: Scheme, e: Entropy)
    ensures Number(Indices(Packed(s, e)), LIST_SIZE) == 16 * Number(e, 256) + s.digest(e) / 16
  {
    var packed := Packed(s, e);
    var bits := AllBits(packed);
    WordsNumber(packed, WORD_COUNT);
    BytesNumber(packed, ENTROPY_SIZE);
    HighBits(packed);
    assert bits[..132] == bits[..128] + bits[128..132];
    ValueAppend(bits[..128], bits[128..132]);
    PowersOfTwo();
    assert Indices(packed)[..WORD_COUNT] == Indices(packed) && packed[..ENTROPY_SIZE] == e;
  }

  /** So the phrase of an entropy is the one whose words count to that number. */
  lemma PhraseIsNumber(s: Scheme, e: Entropy, indices: seq<nat>)
    requires |s.words| == LIST_SIZE && |indices| == WORD_COUNT && (forall w :: 0 <= w < WORD_COUNT ==> indices[w] < LIST_SIZE)
    requires Number(indices, LIST_SIZE) == 16 * Number(e, 256) + s.digest(e) / 16
    ensures ToPhrase(s, e) == Join(Spell(s.words, indices))
  {
    IndexesAreNumber(s, e);
    NumberTells(indices, Indices(Packed(s, e)), LIST_SIZE);
  }

  // ---------------------------------------------------------------------------------------------
  // The loops

  method ReadIndex(bits: Bytes, word: nat) returns (index: nat)
    requires |bits| == ENTROPY_SIZE + 1 && word < WORD_COUNT
    ensures index == Value(WordBits(bits, word))
  {
    index := 0;
    ghost var all := WordBits(bits, word);
    for bit := 0 to BITS_PER_WORD
      invariant index == Value(all[..bit])
    {
      var next := BitAt(bits, word * BITS_PER_WORD + bit);
      OneMore(all, bit);
      assert all[..bit + 1][..bit] == all[..bit];
      index := 2 * index + next;
    }
    assert all[..BITS_PER_WORD] == all;
  }

  method EntropyToPhrase(s: Scheme, e: Entropy) returns (phrase: string)
    requires |s.words| == LIST_SIZE
    ensures phrase == ToPhrase(s, e)
  {
    var bits := e + [Nibble(s, e)];
    ghost var indices := Indices(bits);
    ghost var spelled := Spell(s.words, indices);
    phrase := "";
    for word := 0 to WORD_COUNT
      invariant phrase == Join(spelled[..word])
    {
      var index := ReadIndex(bits, word);
      assert index == indices[word];
      if word != 0 {
        phrase := phrase + " ";
      }
      JoinSnoc(spelled[..word], s.words[index]);
      OneMore(spelled, word);
      phrase := phrase + s.words[index];
    }
    assert spelled[..WORD_COUNT] == spelled;
  }

  lemma {:induction false} JoinSnoc(ws: seq<string>, w: string)
    ensures Join(ws + [w]) == if ws == [] then w else Join(ws) + " " + w
    decreases |ws|
  {
    if ws == [] {
      assert ws + [w] == [w];
    } else if |ws| == 1 {
      assert (ws + [w])[1..] == [w];
    } else {
      assert (ws + [w])[1..] == ws[1..] + [w];
      JoinSnoc(ws[1..], w);
    }
  }

  /** The first position whose word is not before w, by halving. */
  method LowerBound(words: seq<string>, w: string) returns (k: nat)
    requires forall i, j :: 0 <= i < j < |words| ==> Before(words[i], words[j])
    ensures k <= |words|
    ensures forall i :: 0 <= i < k ==> Before(words[i], w)
    ensures forall i :: k <= i < |words| ==> !Before(words[i], w)
  {
    k := 0;
    var high := |words|;
    while k < high
      invariant k <= high <= |words|
      invariant forall i :: 0 <= i < k ==> Before(words[i], w)
      invariant forall i :: high <= i < |words| ==> !Before(words[i], w)
    {
      var middle := k + (high - k) / 2;
      LessIsBefore(words[middle], w);
      if Less(words[middle], w) {
        forall i | 0 <= i < middle ensures Before(words[i], w) {
          BeforeTransitive(words[i], words[middle], w);
        }
        k := middle + 1;
      } else {
        forall i | middle < i < |words| ensures !Before(words[i], w) {
          if Before(words[i], w) {
            BeforeTransitive(words[middle], words[i], w);
          }
        }
        high := middle;
      }
    }
  }

  method FindWordIndex(words: seq<string>, w: string) returns (index: Option<nat>)
    requires GoodList(words)
    ensures index == Find(words, w)
  {
    var k := LowerBound(words, w);
    if k < |words| && words[k] == w {
      FindUnique(words, k);
      return Some(k);
    }
    NotListed(words, w, k);
    return None;
  }

  lemma NotListed(words: seq<string>, w: string, k: nat)
    requires GoodList(words) && k <= |words| && (k < |words| ==> words[k] != w)
    requires forall i :: 0 <= i < k ==> Before(words[i], w)
    requires forall i :: k <= i < |words| ==> !Before(words[i], w)
    ensures w !in words
  {
    forall i | 0 <= i < |words| ensures words[i] != w {
      if i < k {
        BeforeAsymmetric(words[i], w);
      } else if k < i {
        assert Before(words[k], words[i]);
      }
    }
  }

  /** Advances over the characters that are spaces, or over those that are not. */
  method SkipRun(phrase: string, start: nat, spaces: bool) returns (position: nat)
    requires start <= |phrase|
    ensures start <= position <= |phrase| && position - start == Run(phrase[start..], spaces)
  {
    position := start;
    while position < |phrase| && Space(phrase[position]) == spaces
      invariant start <= position <= |phrase|
      invariant position - start + Run(phrase[position..], spaces) == Run(phrase[start..], spaces)
    {
      assert phrase[position..][1..] == phrase[position + 1..];
      position := position + 1;
    }
  }

  lemma WordsOfText(t: string, rest: string, m: nat)
    requires rest == t[Run(t, true)..] && m == Run(rest, false)
    ensures m == 0 ==> rest == ""
    ensures Words(t) == if m == 0 then [] else [Lower(rest[..m])] + Words(rest[m..])
  {
    RunMeaning(t, true);
    assert rest != "" ==> rest[0] == t[Run(t, true)];
  }

  /** The next word, if there is one, and where it ends. */
  method NextWord(phrase: string, position: nat) returns (word: Option<string>, end: nat)
    requires position < |phrase|
    ensures position < end <= |phrase|
    ensures Words(phrase[position..]) == (if word.Some? then [word.value] else []) + Words(phrase[end..])
    ensures word.None? ==> end == |phrase|
  {
    var start := SkipRun(phrase, position, true);
    end := SkipRun(phrase, start, false);
    SliceOfSlice(phrase, position, start, end);
    SliceOfSlice(phrase, start, end, end);
    WordsOfText(phrase[position..], phrase[start..], end - start);
    if end > start {
      word := Some(Lower(phrase[start..end]));
    } else {
      word := None;
      assert phrase[end..] == "" && Words("") == [];
    }
  }

  /** Whitespace-separated words in lower case; gives up as soon as there are more than twelve. */
  method SplitWords(phrase: string) returns (out: Option<seq<string>>)
    ensures out == if |Words(phrase)| == WORD_COUNT then Some(Words(phrase)) else None
  {
    var position: nat, words: seq<string> := 0, [];
    assert phrase[0..] == phrase;
    while position < |phrase|
      invariant position <= |phrase| && |words| <= WORD_COUNT
      invariant Words(phrase) == words + Words(phrase[position..])
      decreases |phrase| - position
    {
      var word, end := NextWord(phrase, position);
      if word.Some? {
        if |words| == WORD_COUNT {
          return None;
        }
        AppendAssociative(words, [word.value], Words(phrase[end..]));
        words := words + [word.value];
      } else {
        assert [] + Words(phrase[end..]) == Words(phrase[end..]);
      }
      position := end;
    }
    assert phrase[position..] == "" && Words("") == [];
    assert words + [] == words;
    out := if |words| == WORD_COUNT then Some(words) else None;
  }

  method PhraseToEntropy(s: Scheme, phrase: string) returns (out: Option<Bytes>)
    requires GoodList(s.words)
    ensures out == ToEntropy(s, phrase)
  {
    var words := SplitWords(phrase);
    if words.None? {
      return None;
    }
    SpellOfFindAll(s.words, words.value);
    var indices := FindIndices(s.words, words.value);
    if indices.None? {
      return None;
    }
    out := CheckPacked(s, indices.value);
  }

  /** The last stage: repack, then compare the checksum nibble. */
  method CheckPacked(s: Scheme, indices: seq<nat>) returns (out: Option<Bytes>)
    requires |indices| == WORD_COUNT
    ensures
      var packed := Pack(indices);
      var candidate := packed[..ENTROPY_SIZE];
      out == if packed[ENTROPY_SIZE] - packed[ENTROPY_SIZE] % 16 == Nibble(s, candidate) then Some(candidate) else None
  {
    var bits := new Byte[ENTROPY_SIZE + 1](_ => 0);
    PackIndices(indices, bits);
    ghost var packed := Pack(indices);
    var candidate, last := bits[..ENTROPY_SIZE], bits[ENTROPY_SIZE];
    assert candidate == packed[..ENTROPY_SIZE] && last == packed[ENTROPY_SIZE];
    out := if last - last % 16 == Nibble(s, candidate) then Some(candidate) else None;
  }

  method FindIndices(words: seq<string>, ws: seq<string>) returns (out: Option<seq<nat>>)
    requires GoodList(words)
    ensures out == FindAll(words, ws)
  {
    var found: seq<nat> := [];
    ghost var goal := FindAll(words, ws);
    assert goal.Some? ==> [] + goal.value == goal.value;
    for n := 0 to |ws|
      invariant goal == match FindAll(words, ws[n..]) case None => None case Some(r) => Some(found + r)
    {
      assert ws[n..][1..] == ws[n + 1..];
      var index := FindWordIndex(words, ws[n]);
      if index.None? {
        return None;
      }
      ghost var rest := FindAll(words, ws[n + 1..]);
      assert rest.Some? ==> found + ([index.value] + rest.value) == (found + [index.value]) + rest.value;
      found := found + [index.value];
    }
    assert found + [] == found;
    out := Some(found);
  }

  /** Fills a cleared buffer bit by bit; setting a clear bit is adding its weight. */
  method PackIndices(indices: seq<nat>, bits: array<Byte>)
    requires |indices| == WORD_COUNT && bits.Length == ENTROPY_SIZE + 1
    requires forall j :: 0 <= j < bits.Length ==> bits[j] == 0
    modifies bits
    ensures bits[..] == Pack(indices)
  {
    NothingPacked(indices);
    assert bits[..] == PackedTo(indices, 0);
    for word := 0 to WORD_COUNT
      invariant bits[..] == PackedTo(indices, word * BITS_PER_WORD)
    {
      for bit := 0 to BITS_PER_WORD
        invariant bits[..] == PackedTo(indices, word * BITS_PER_WORD + bit)
      {
        var position := word * BITS_PER_WORD + bit;
        var value := BitOf(indices[word], BITS_PER_WORD - 1 - bit);
        assert position / BITS_PER_WORD == word && position % BITS_PER_WORD == bit;
        PackOneMore(indices, position);
        var j := position / 8;
        ghost var before := bits[..];
        var sum := bits[j] + value * Power2(7 - position % 8);
        bits[j] := sum;
        assert bits[..] == before[j := sum];
      }
    }
  }

  lemma NothingPacked(indices: seq<nat>)
    requires |indices| == WORD_COUNT
    ensures forall j :: 0 <= j < ENTROPY_SIZE + 1 ==> PackedTo(indices, 0)[j] == 0
  {
    forall j: nat | j < ENTROPY_SIZE + 1 ensures Value(ByteBits(indices, j, 0)) == 0 {
      var bits := ByteBits(indices, j, 0);
      assert forall i :: 0 <= i < 8 ==> bits[i] == 0;
      ZeroValue(bits);
    }
  }

  lemma {:induction false} ZeroValue(bits: seq<Bit>)
    requires forall i :: 0 <= i < |bits| ==> bits[i] == 0
    ensures Value(bits) == 0
  {
    if bits != [] {
      ZeroValue(bits[..|bits| - 1]);
    }
  }

  lemma PackOneMore(indices: seq<nat>, p: nat)
    requires |indices| == WORD_COUNT && p < USED_BITS
    ensures
      var before := PackedTo(indices, p);
      var sum := before[p / 8] + IndexBit(indices, p) * Power2(7 - p % 8);
      0 <= sum < 256 && PackedTo(indices, p + 1) == before[p / 8 := sum]
  {
    var j, k := p / 8, p % 8;
    var bits := ByteBits(indices, j, p);
    assert ByteBits(indices, j, p + 1) == bits[k := IndexBit(indices, p)];
    ValueWithBit(bits, k, IndexBit(indices, p));
    var after := PackedTo(indices, p + 1);
    assert after[j] == Value(ByteBits(indices, j, p + 1));
    forall i: nat | i < ENTROPY_SIZE + 1 && i != j ensures after[i] == PackedTo(indices, p)[i] {
      assert ByteBits(indices, i, p + 1) == ByteBits(indices, i, p);
    }
  }
}
