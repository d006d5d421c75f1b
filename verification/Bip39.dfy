/** Mnemonic phrases: entropy to words and back, as bip39.c does it. */
module Bip39 {
  import opened Arith
  import opened Words
  import opened Bits
  import opened Digits
  import opened BitStrings
  import opened Hashes
  import opened Bip39Words
  import opened Bip39Text

  predicate EntropyLength(n: nat) { n % 4 == 0 && 16 <= n <= 32 }

  /** Entropy followed by the first byte of its hash, from which the checksum bits are taken. */
  function WithChecksumByte(sha: Hash, d: seq<u8>): seq<u8> { d + [sha(d)[0]] }

  /** The number written by bits 11 i to 11 i + 10. */
  function WordIndex(bits: seq<int>, i: nat): int
    requires 11 * i + 11 <= |bits|
  {
    Num(2, bits[11 * i..11 * i + 11])
  }

  lemma WordIndexBound(s: seq<u8>, i: nat)
    requires 11 * i + 11 <= 8 * |s|
    ensures 0 <= WordIndex(BitsOf(s), i) < WORD_COUNT
    ensures Fixed(2, 11, WordIndex(BitsOf(s), i)) == BitsOf(s)[11 * i..11 * i + 11]
  {
    hide BitsOf, Fixed, Num;
    TwoTo11();
    var t: seq<int> := BitsOf(s)[11 * i..11 * i + 11];
    FixedOfNum(2, t);
  }

  lemma TwoTo11()
    ensures Pow(2, 11) == 2048
  {
    assert Pow(2, 5) == 32;
    PowAdd(2, 5, 6);
  }

  /** The words for entropy d: 11 bits each, of entropy and checksum. */
  function PhraseWords(words: seq<seq<u8>>, sha: Hash, d: seq<u8>): (ws: seq<seq<u8>>)
    requires |words| == WORD_COUNT && EntropyLength(|d|)
    ensures |ws| == |d| * 3 / 4
  {
    var s := WithChecksumByte(sha, d);
    seq(|d| * 3 / 4, i requires 0 <= i < |d| * 3 / 4 => WordIndexBound(s, i); words[WordIndex(BitsOf(s), i)])
  }

  function Phrase(words: seq<seq<u8>>, sha: Hash, d: seq<u8>): seq<u8>
    requires |words| == WORD_COUNT && EntropyLength(|d|)
  {
    Join(PhraseWords(words, sha, d))
  }

  // the inner loop of mnemonic_from_data: 11 bits as a number
  method ReadIndex(bits: seq<u8>, i: nat) returns (idx: nat)
    requires 11 * i + 11 <= 8 * |bits|
    ensures idx == WordIndex(BitsOf(bits), i)
  {
    hide BitsOf, Fixed, Num, Pow;
    ghost var all := BitsOf(bits);
    NoBits();
    assert all[11 * i..11 * i] == [];
    idx := 0;
    for j := 0 to 11
      invariant idx == Num(2, all[11 * i..11 * i + j])
    {
      var k := 11 * i + j;
      var q, r := k / 8, k % 8;
      BitAt(bits, q, r);
      FixedAt(2, 8, bits[q], r);
      // bits[q] & (1 << (7 - r))
      var bit := bits[q] as int / Pow(2, 7 - r) % 2;
      NumSnoc(2, all[11 * i..k], all[k]);
      assert all[11 * i..k + 1] == all[11 * i..k] + [all[k]];
      idx := idx * 2 + bit;
    }
  }

  lemma NoBits()
    ensures Num(2, []) == 0
  {
  }

  // strcpy(p, word), then a space or the terminator behind it
  method PutWord(mnemo: array<u8>, p: nat, word: seq<u8>, last: bool) returns (q: nat)
    requires p + |word| < mnemo.Length
    modifies mnemo
    ensures q == p + |word| + 1
    ensures mnemo[..q] == old(mnemo[..p]) + word + [if last then 0 else SPACE]
  {
    forall k | 0 <= k < |word| {
      mnemo[p + k] := word[k];
    }
    mnemo[p + |word|] := if last then 0 else SPACE;
    q := p + |word| + 1;
  }

  lemma ReadWord(words: seq<seq<u8>>, sha: Hash, data: seq<u8>, bits: seq<u8>, i: nat)
    requires WordList(words) && EntropyLength(|data|) && i < |data| * 3 / 4
    requires |bits| > |data| && bits == WithChecksumByte(sha, data) + bits[|data| + 1..]
    ensures 0 <= WordIndex(BitsOf(bits), i) < |words|
    ensures var w := words[WordIndex(BitsOf(bits), i)]; w == PhraseWords(words, sha, data)[i] && 1 <= |w| <= 8
  {
    hide BitsOf, WordIndex;
    SameIndex(WithChecksumByte(sha, data), bits[|data| + 1..], i);
    WordIndexBound(WithChecksumByte(sha, data), i);
    assert IsWord(words[WordIndex(BitsOf(bits), i)]);
  }

  // the outer loop of mnemonic_from_data
  method WriteWords(words: seq<seq<u8>>, sha: Hash, data: seq<u8>, bits: seq<u8>, mnemo: array<u8>)
    requires WordList(words) && mnemo.Length == 240 && EntropyLength(|data|)
    requires |bits| > |data| && bits == WithChecksumByte(sha, data) + bits[|data| + 1..]
    modifies mnemo
    ensures |Phrase(words, sha, data)| < 240
    ensures mnemo[..|Phrase(words, sha, data)| + 1] == Phrase(words, sha, data) + [0]
  {
    ghost var ws := PhraseWords(words, sha, data);
    hide BitsOf, Join, WordIndex, PhraseWords, WordList, IsWord, Begun, WithChecksumByte;
    var mlen := |data| * 3 / 4;
    var p: nat := 0;
    BegunEnds(ws, mnemo[..p]);
    for i := 0 to mlen
      invariant p <= 9 * i && Begun(ws, i, mnemo[..p])
    {
      var idx := ReadIndex(bits, i);
      ReadWord(words, sha, data, bits, i);
      NextJoin(ws, i, mnemo[..p]);
      p := PutWord(mnemo, p, words[idx], i == mlen - 1);
    }
    BegunEnds(ws, mnemo[..p]);
  }

  /** The first i words, each with a space or the terminator behind it. */
  ghost predicate Begun(ws: seq<seq<u8>>, i: nat, out: seq<u8>) {
    i <= |ws| && out == if i == 0 then [] else Join(ws[..i]) + [if i < |ws| then SPACE else 0]
  }

  lemma BegunEnds(ws: seq<seq<u8>>, out: seq<u8>)
    ensures Begun(ws, 0, out) <==> out == []
    ensures ws != [] && Begun(ws, |ws|, out) ==> out == Join(ws) + [0]
  {
    assert ws[..|ws|] == ws;
  }

  // mnemonic_from_data
  method FromData(words: seq<seq<u8>>, sha: Hash, data: seq<u8>, mnemo: array<u8>) returns (ok: bool)
    requires WordList(words) && mnemo.Length == 240
    modifies mnemo
    ensures ok == EntropyLength(|data|)
    ensures ok <==> |data| == 16 || |data| == 20 || |data| == 24 || |data| == 28 || |data| == 32
    ensures ok ==> |Phrase(words, sha, data)| < 240
    ensures ok ==> mnemo[..|Phrase(words, sha, data)| + 1] == Phrase(words, sha, data) + [0]
    ensures !ok ==> mnemo[..] == old(mnemo[..])
  {
    var len := |data|;
    if len % 4 != 0 || len < 16 || len > 32 {
      return false;
    }
    var bits: seq<u8> := sha(data) + [0];
    bits := bits[len := bits[0]];
    bits := data + bits[len..];
    assert bits == WithChecksumByte(sha, data) + bits[len + 1..];
    WriteWords(words, sha, data, bits, mnemo);
    return true;
  }

  lemma SameIndex(s: seq<u8>, t: seq<u8>, i: nat)
    requires 11 * i + 11 <= 8 * |s|
    ensures WordIndex(BitsOf(s + t), i) == WordIndex(BitsOf(s), i)
  {
    BitsConcat(s, t);
    hide BitsOf;
    assert BitsOf(s + t)[11 * i..11 * i + 11] == BitsOf(s)[11 * i..11 * i + 11];
  }

  lemma NextJoin(ws: seq<seq<u8>>, i: nat, out: seq<u8>)
    requires i < |ws| && Begun(ws, i, out)
    ensures Begun(ws, i + 1, out + ws[i] + [if i == |ws| - 1 then 0 else SPACE])
  {
    assert ws[..i + 1] == ws[..i] + [ws[i]];
    JoinSnoc(ws[..i], ws[i]);
    assert i == 0 ==> out + ws[i] == ws[i];
  }

  // ------------------------------------------------------------ words to bits

  /** The 11-bit forms of the indices, one after the other. */
  function BitString(idx: seq<int>): (t: seq<int>)
    requires forall j :: 0 <= j < |idx| ==> 0 <= idx[j]
    ensures |t| == 11 * |idx|
  {
    if idx == [] then [] else BitString(idx[..|idx| - 1]) + Fixed(2, 11, idx[|idx| - 1])
  }

  ghost predicate AllWords(words: seq<seq<u8>>, ws: seq<seq<u8>>) {
    forall j :: 0 <= j < |ws| ==> Index(words, ws[j]) >= 0
  }

  ghost function Indices(words: seq<seq<u8>>, ws: seq<seq<u8>>): (idx: seq<int>)
    requires AllWords(words, ws)
    ensures |idx| == |ws| && forall j :: 0 <= j < |ws| ==> idx[j] == Index(words, ws[j]) >= 0
  {
    seq(|ws|, j requires 0 <= j < |ws| => Index(words, ws[j]))
  }

  /** 12, 15, 18, 21 or 24 words of the list, separated by single spaces. */
  ghost predicate Legal(words: seq<seq<u8>>, m: seq<u8>) {
    12 <= |Split(m)| <= 24 && |Split(m)| % 3 == 0 && AllWords(words, Split(m))
  }

  lemma LegalIs(words: seq<seq<u8>>, m: seq<u8>)
    ensures var n := |Split(m)|;
      Legal(words, m)
      <==> (n == 12 || n == 15 || n == 18 || n == 21 || n == 24) && forall w :: w in Split(m) ==> w in words
  {
    hide Split;
    var ws := Split(m);
    if AllWords(words, ws) {
      forall w | w in ws
        ensures w in words
      {
        var j :| 0 <= j < |ws| && ws[j] == w;
        assert Index(words, ws[j]) >= 0;
      }
    }
    if forall w :: w in ws ==> w in words {
      assert forall j :: 0 <= j < |ws| ==> ws[j] in words;
    }
  }

  lemma WrittenIs(s: seq<u8>, t: seq<int>)
    requires Written(s, t)
    ensures |t| <= 8 * |s| && BitsOf(s) == t + Zeros(8 * |s| - |t|)
  {
  }

  /** The bytes hold the bits t and zeros behind them. */
  ghost predicate Written(s: seq<u8>, t: seq<int>) {
    |t| <= 8 * |s| && BitsOf(s) == t + Zeros(8 * |s| - |t|)
  }

  // one bit: result[bi / 8] |= 1 << (7 - bi % 8) if it is set
  method PutBit(result: array<u8>, bi: nat, bit: bool, ghost t: seq<int>)
    requires bi == |t| < 8 * result.Length && Written(result[..], t)
    modifies result
    ensures Written(result[..], t + [if bit then 1 else 0])
  {
    hide BitsOf, Fixed, Or;
    ghost var was := result[..];
    if bit {
      var q, r := bi / 8, bi % 8;
      forall j | r <= j < 8
        ensures Fixed(2, 8, was[q])[j] == 0
      {
        BitAt(was, q, j);
      }
      TwoTo32();
      SetBit(8, was[q], r);
      result[q] := Or(result[q], Pow(2, 7 - r));
      BitsUpdate(was, q, r, result[q]);
      assert result[..] == was[q := result[q]];
    }
  }

  // the 11 bits of one word
  method PutIndex(result: array<u8>, bi: nat, k: nat, ghost t: seq<int>)
    requires bi == |t| && bi + 11 <= 8 * result.Length && Written(result[..], t)
    modifies result
    ensures Written(result[..], t + Fixed(2, 11, k))
  {
    hide Written, Fixed;
    ghost var f := Fixed(2, 11, k);
    assert t + f[..0] == t;
    for ki := 0 to 11
      invariant Written(result[..], t + f[..ki])
    {
      FixedAt(2, 11, k, ki);
      // k & (1 << (10 - ki))
      PutBit(result, bi + ki, k / Pow(2, 10 - ki) % 2 != 0, t + f[..ki]);
      assert t + f[..ki] + [f[ki]] == t + f[..ki + 1];
    }
    assert f[..11] == f;
  }

  // one word into a buffer of ten characters
  method TakeWord(mnemonic: seq<u8>, i: nat) returns (ok: bool, word: seq<u8>)
    requires i <= |mnemonic|
    ensures ok ==> word == mnemonic[i..i + WordLength(mnemonic[i..])]
    ensures !ok ==> WordLength(mnemonic[i..]) > 9
  {
    word := [];
    var j := 0;
    while i + j < |mnemonic| && mnemonic[i + j] != SPACE
      invariant j <= 9 && i + j <= |mnemonic| && word == mnemonic[i..i + j]
      invariant forall k :: 0 <= k < j ==> mnemonic[i..][k] != SPACE
      decreases |mnemonic| - j
    {
      if j >= 9 {
        LongWord(mnemonic[i..], j);
        return false, word;
      }
      word := word + [mnemonic[i + j]];
      j := j + 1;
    }
    WordLengthIs(mnemonic[i..], j);
    return true, word;
  }

  // the first loop of mnemonic_to_bits: the number of words, which is one more than the spaces
  method CountWords(mnemonic: seq<u8>) returns (n: nat)
    ensures n == |Split(mnemonic)|
  {
    n := 0;
    for i := 0 to |mnemonic|
      invariant n == Spaces(mnemonic[..i])
    {
      assert mnemonic[..i + 1][..i] == mnemonic[..i];
      if mnemonic[i] == SPACE {
        n := n + 1;
      }
    }
    assert mnemonic[..|mnemonic|] == mnemonic;
    SplitCount(mnemonic);
    n := n + 1;
  }

  /** After the words done, position i is at the start of the words still to come. */
  ghost predicate Cursor(m: seq<u8>, i: nat, done: seq<seq<u8>>, rest: seq<seq<u8>>) {
    && i <= |m| && Split(m) == done + rest
    && (if i < |m| then rest == Split(m[i..]) else rest == [] || rest == [[]])
  }

  /** Taking one word moves the cursor past it and past the space behind it. */
  lemma NextWord(m: seq<u8>, i: nat, done: seq<seq<u8>>, rest: seq<seq<u8>>, e: nat)
    requires i < |m| && Cursor(m, i, done, rest) && e == i + WordLength(m[i..])
    ensures rest != [] && rest[0] == m[i..e]
    ensures Cursor(m, if e < |m| then e + 1 else e, done + [m[i..e]], rest[1..])
  {
    var s, n := m[i..], e - i;
    assert s[..n] == m[i..e];
    SplitStep(s);
    hide Split, WordLength;
    assert rest == [m[i..e]] + rest[1..];
    assert done + rest == (done + [m[i..e]]) + rest[1..];
    if e < |m| {
      assert s[n + 1..] == m[e + 1..];
    }
  }

  ghost function BitsSoFar(words: seq<seq<u8>>, done: seq<seq<u8>>): seq<int>
    requires AllWords(words, done)
  {
    BitString(Indices(words, done))
  }

  lemma OneMoreWord(words: seq<seq<u8>>, done: seq<seq<u8>>, w: seq<u8>)
    requires AllWords(words, done) && Index(words, w) >= 0
    ensures AllWords(words, done + [w])
    ensures BitsSoFar(words, done + [w]) == BitsSoFar(words, done) + Fixed(2, 11, Index(words, w))
  {
    hide Fixed, Index;
    var idx, all := Indices(words, done), done + [w];
    assert AllWords(words, all);
    assert Indices(words, all)[..|done|] == idx;
  }

  // mnemonic_to_bits for a mnemonic other than null
  method ToBits(words: seq<seq<u8>>, mnemonic: seq<u8>, bits: array<u8>) returns (r: nat)
    requires WordList(words) && bits.Length == 33 && forall k :: 0 <= k < |mnemonic| ==> mnemonic[k] != 0
    modifies bits
    ensures r == if Legal(words, mnemonic) then 11 * |Split(mnemonic)| else 0
    ensures r > 0 ==> Written(bits[..], BitString(Indices(words, Split(mnemonic))))
    ensures r > 0 ==> BitsOf(bits[..]) == BitString(Indices(words, Split(mnemonic))) + Zeros(264 - r)
    ensures r == 0 ==> bits[..] == old(bits[..])
    ensures var n := |Split(mnemonic)|;
      r > 0 <==>
        && (n == 12 || n == 15 || n == 18 || n == 21 || n == 24)
        && forall w :: w in Split(mnemonic) ==> w in words
  {
    LegalIs(words, mnemonic);
    hide Split, WordLength, Index, Written, BitString, Indices, Fixed, Cursor, WordList;
    var n := CountWords(mnemonic);
    if n < 12 || n > 24 || n % 3 != 0 {
      return 0;
    }
    var result := new u8[33](_ => 0);
    ghost var done: seq<seq<u8>>, rest := [], Split(mnemonic);
    var i, bi := 0, 0;
    CursorStart(words, mnemonic, result[..]);
    while i < |mnemonic|
      invariant Cursor(mnemonic, i, done, rest) && i <= |mnemonic|
      invariant |done| + |rest| == n && bi == 11 * |done| && AllWords(words, done)
      invariant Written(result[..], BitsSoFar(words, done))
      modifies result
      decreases |mnemonic| - i
    {
      NextWord(mnemonic, i, done, rest, i + WordLength(mnemonic[i..]));
      ghost var w := rest[0];
      WordOf(words, mnemonic, done, rest, i);
      var ok, word := TakeWord(mnemonic, i);
      if !ok {
        return 0;
      }
      i := i + |word|;
      if i < |mnemonic| {
        i := i + 1;
      }
      var k := FindWord(words, word);
      if k < 0 {
        return 0;
      }
      PutIndex(result, bi, k, BitsSoFar(words, done));
      bi := bi + 11;
      OneMoreWord(words, done, word);
      done, rest := done + [word], rest[1..];
    }
    CursorEnd(words, mnemonic, done, rest, i);
    if bi != n * 11 {
      return 0;
    }
    ghost var packed := result[..];
    assert rest == [];
    forall k | 0 <= k < 33 {
      bits[k] := result[k];
    }
    assert bits[..] == packed;
    WrittenIs(packed, BitString(Indices(words, Split(mnemonic))));
    return 11 * n;
  }

  lemma CursorStart(words: seq<seq<u8>>, m: seq<u8>, s: seq<u8>)
    requires |Split(m)| >= 12 && s == Zeros(33)
    ensures Cursor(m, 0, [], Split(m)) && AllWords(words, []) && Written(s, BitsSoFar(words, []))
  {
    assert m[0..] == m;
    BitsOfZeros(33);
  }

  /** A word that is too long or not in the list makes the mnemonic illegal. */
  lemma WordOf(words: seq<seq<u8>>, m: seq<u8>, done: seq<seq<u8>>, rest: seq<seq<u8>>, i: nat)
    requires WordList(words) && Cursor(m, i, done, rest) && rest != []
    ensures Legal(words, m) ==> Index(words, rest[0]) >= 0 && |rest[0]| <= 8
  {
    assert Split(m)[|done|] == rest[0];
  }

  lemma CursorEnd(words: seq<seq<u8>>, m: seq<u8>, done: seq<seq<u8>>, rest: seq<seq<u8>>, i: nat)
    requires WordList(words) && Cursor(m, i, done, rest) && i == |m|
    ensures Legal(words, m) ==> rest == []
    ensures rest == [] ==> Split(m) == done
  {
    if rest != [] {
      assert Split(m)[|done|] == [];
    }
  }

  // ---------------------------------------------------------------- round trips

  lemma {:induction false} BitStringSlice(idx: seq<int>, i: nat)
    requires i < |idx| && forall j :: 0 <= j < |idx| ==> 0 <= idx[j]
    ensures BitString(idx)[11 * i..11 * i + 11] == Fixed(2, 11, idx[i])
  {
    var front := idx[..|idx| - 1];
    if i < |front| {
      BitStringSlice(front, i);
      assert BitString(idx)[11 * i..11 * i + 11] == BitString(front)[11 * i..11 * i + 11];
    }
  }

  /** Reading 11-bit numbers and writing them again gives the bits back. */
  lemma {:induction false} BitStringOf(s: seq<u8>, idx: seq<int>)
    requires 11 * |idx| <= 8 * |s|
    requires forall i :: 0 <= i < |idx| ==> 0 <= idx[i] == WordIndex(BitsOf(s), i)
    ensures BitString(idx) == BitsOf(s)[..11 * |idx|]
  {
    hide WordIndex;
    if idx != [] {
      var n := |idx| - 1;
      BitStringOf(s, idx[..n]);
      WordIndexBound(s, n);
      assert BitString(idx) == BitString(idx[..n]) + Fixed(2, 11, idx[n]);
      hide BitsOf, Fixed, BitString, WordIndex;
      assert BitsOf(s)[..11 * |idx|] == BitsOf(s)[..11 * n] + BitsOf(s)[11 * n..11 * n + 11];
    }
  }

  lemma PhraseWord(words: seq<seq<u8>>, sha: Hash, d: seq<u8>, i: nat)
    requires WordList(words) && EntropyLength(|d|) && i < |d| * 3 / 4
    ensures var w, k := PhraseWords(words, sha, d)[i], WordIndex(BitsOf(WithChecksumByte(sha, d)), i);
            IsWord(w) && NoSpaces(w) && Index(words, w) == k >= 0
  {
    hide BitsOf;
    WordIndexBound(WithChecksumByte(sha, d), i);
    IndexOfWord(words, WordIndex(BitsOf(WithChecksumByte(sha, d)), i));
  }

  lemma PhraseIsLegal(words: seq<seq<u8>>, sha: Hash, d: seq<u8>)
    requires WordList(words) && EntropyLength(|d|)
    ensures Split(Phrase(words, sha, d)) == PhraseWords(words, sha, d)
    ensures Legal(words, Phrase(words, sha, d))
    ensures var s, idx := WithChecksumByte(sha, d), Indices(words, PhraseWords(words, sha, d));
            forall i :: 0 <= i < |idx| ==> 0 <= idx[i] == WordIndex(BitsOf(s), i)
  {
    var ws := PhraseWords(words, sha, d);
    forall i | 0 <= i < |ws|
      ensures NoSpaces(ws[i]) && Index(words, ws[i]) == WordIndex(BitsOf(WithChecksumByte(sha, d)), i) >= 0
    {
      PhraseWord(words, sha, d, i);
    }
    WordCounts(|d|);
    hide PhraseWords, BitsOf, Index, WordIndex, NoSpaces, Split, Join, EntropyLength;
    SplitJoin(ws);
    assert AllWords(words, ws);
  }

  lemma WordCounts(len: nat)
    requires EntropyLength(len)
    ensures 12 <= len * 3 / 4 <= 24 && len * 3 / 4 % 3 == 0
  {
  }

  /** len * 3 / 4 words have 8 len + len / 4 bits. */
  lemma WordBits(len: nat)
    requires EntropyLength(len)
    ensures 11 * (len * 3 / 4) == 8 * len + len / 4 && len / 4 <= 8
    ensures (len * 3 / 4) * 4 / 3 == len
  {
  }

  lemma FirstBits(a: seq<int>, b: seq<int>, k: nat)
    requires k <= |b|
    ensures (a + b)[..|a| + k] == a + b[..k]
  {
  }

  /** mnemonic_to_bits inverts mnemonic_from_data: entropy, then the first len / 4 checksum bits. */
  lemma BitsOfPhrase(words: seq<seq<u8>>, sha: Hash, d: seq<u8>)
    requires WordList(words) && (|d| == 16 || |d| == 20 || |d| == 24 || |d| == 28 || |d| == 32)
    ensures Legal(words, Phrase(words, sha, d)) && |Split(Phrase(words, sha, d))| == |d| * 3 / 4
    ensures BitString(Indices(words, Split(Phrase(words, sha, d))))
         == BitsOf(d) + Fixed(2, 8, sha(d)[0])[..|d| / 4]
  {
    PhraseIsLegal(words, sha, d);
    WordBits(|d|);
    hide Legal, Phrase, PhraseWords, BitsOf, Index, Fixed, WordIndex, Split, BitString, Indices, EntropyLength;
    PackedIndices(WithChecksumByte(sha, d), Indices(words, PhraseWords(words, sha, d)), d, sha(d)[0], |d| / 4);
  }

  lemma PackedIndices(s: seq<u8>, idx: seq<int>, d: seq<u8>, c: u8, k: nat)
    requires s == d + [c] && k <= 8 && 11 * |idx| == 8 * |d| + k
    requires forall i :: 0 <= i < |idx| ==> 0 <= idx[i] == WordIndex(BitsOf(s), i)
    ensures BitString(idx) == BitsOf(d) + Fixed(2, 8, c)[..k]
  {
    hide BitsOf, Fixed, BitString, WordIndex;
    BitStringOf(s, idx);
    ChecksumBits(d, c, k);
  }

  lemma ChecksumBits(d: seq<u8>, c: u8, k: nat)
    requires k <= 8
    ensures BitsOf(d + [c])[..8 * |d| + k] == BitsOf(d) + Fixed(2, 8, c)[..k]
  {
    hide BitsOf, Fixed;
    BitsConcat(d, [c]);
    BitsOfByte(c);
    FirstBits(BitsOf(d), Fixed(2, 8, c), k);
  }

  /** A byte string that holds the bits of d and k more starts with d and those k bits. */
  lemma Unpacked(out: seq<u8>, d: seq<u8>, c: u8, k: nat)
    requires k <= 8 && |d| < |out| && Written(out, BitsOf(d) + Fixed(2, 8, c)[..k])
    ensures out[..|d|] == d && Fixed(2, 8, out[|d|])[..k] == Fixed(2, 8, c)[..k]
  {
    hide BitsOf, Fixed;
    var e := |d|;
    var front, v, back := out[..e], out[e], out[e + 1..];
    Around(out, e);
    BitsConcat(front + [v], back);
    BitsConcat(front, [v]);
    BitsOfByte(v);
    SplitThree(BitsOf(front), Fixed(2, 8, v), BitsOf(back), BitsOf(d), Fixed(2, 8, c)[..k],
               Zeros(8 * |out| - 8 * e - k));
    BitsUnique(front, d);
  }

  lemma SplitThree(a: seq<int>, b: seq<int>, c: seq<int>, x: seq<int>, y: seq<int>, z: seq<int>)
    requires a + b + c == x + y + z && |a| == |x| && |y| <= |b|
    ensures a == x && b[..|y|] == y
  {
    var s, t := a + b + c, x + y + z;
    assert s[..|a|] == a && t[..|x|] == x;
    assert s[|a|..|a| + |y|] == b[..|y|] && t[|x|..|x| + |y|] == y;
  }

  /** A legal mnemonic whose checksum bits are right is the phrase for the entropy in it. */
  lemma PhraseOfBits(words: seq<seq<u8>>, sha: Hash, m: seq<u8>, out: seq<u8>, e: nat)
    requires WordList(words) && Legal(words, m) && EntropyLength(e) && |Split(m)| == e * 3 / 4 && |out| == 33
    requires Written(out, BitString(Indices(words, Split(m))))
    requires Fixed(2, 8, out[e])[..e / 4] == Fixed(2, 8, sha(out[..e])[0])[..e / 4]
    ensures m == Phrase(words, sha, out[..e])
  {
    hide Split, Index, Fixed, BitsOf, BitString, WordIndex, Written;
    var d, ws := out[..e], Split(m);
    var s, idx := WithChecksumByte(sha, d), Indices(words, ws);
    WordBits(e);
    SameFirstBits(out, d, sha(d)[0], e / 4);
    forall i | 0 <= i < |ws|
      ensures WordIndex(BitsOf(s), i) == idx[i]
    {
      IndexFromBits(out, s, idx, i);
    }
    JoinSplit(m);
    assert PhraseWords(words, sha, d) == ws;
  }

  lemma SameFirstBits(out: seq<u8>, d: seq<u8>, c: u8, k: nat)
    requires k <= 8 && |d| < |out| && out[..|d|] == d && Fixed(2, 8, out[|d|])[..k] == Fixed(2, 8, c)[..k]
    ensures BitsOf(d + [c])[..8 * |d| + k] == BitsOf(out)[..8 * |d| + k]
  {
    hide BitsOf, Fixed;
    var v, back := out[|d|], out[|d| + 1..];
    Around(out, |d|);
    BitsConcat(d + [v], back);
    BitsConcat(d, [v]);
    BitsOfByte(v);
    ChecksumBits(d, c, k);
    FirstOfThree(BitsOf(d), Fixed(2, 8, v), BitsOf(back), k);
  }

  lemma FirstOfThree(a: seq<int>, b: seq<int>, c: seq<int>, k: nat)
    requires k <= |b|
    ensures (a + b + c)[..|a| + k] == a + b[..k]
  {
  }

  /** A word index can be read from any byte string that starts with the packed indices. */
  lemma IndexFromBits(out: seq<u8>, s: seq<u8>, idx: seq<int>, i: nat)
    requires i < |idx| && (forall j :: 0 <= j < |idx| ==> 0 <= idx[j] < WORD_COUNT) && 11 * |idx| <= 8 * |s|
    requires Written(out, BitString(idx)) && BitsOf(s)[..11 * |idx|] == BitsOf(out)[..11 * |idx|]
    ensures WordIndex(BitsOf(s), i) == idx[i]
  {
    hide BitsOf, Fixed, BitString, Num;
    BitStringSlice(idx, i);
    TwoTo11();
    FixedIs(2, 11, idx[i]);
    var t := BitString(idx);
    assert BitsOf(out)[..|t|] == t;
    assert BitsOf(s)[11 * i..11 * i + 11] == BitsOf(s)[..|t|][11 * i..11 * i + 11] == t[11 * i..11 * i + 11];
  }

  /** Bits of entropy, and of them only the lengths that mnemonic_check accepts. */
  ghost predicate Generated(words: seq<seq<u8>>, sha: Hash, m: seq<u8>, d: seq<u8>)
    requires |words| == WORD_COUNT
  {
    (|d| == 16 || |d| == 24 || |d| == 32) && m == Phrase(words, sha, d)
  }

  /** Of the generated phrases exactly those for 16, 24 and 32 bytes are accepted. */
  lemma AcceptedLengths(words: seq<seq<u8>>, sha: Hash, d: seq<u8>)
    requires WordList(words) && (|d| == 16 || |d| == 20 || |d| == 24 || |d| == 28 || |d| == 32)
    ensures (exists e :: Generated(words, sha, Phrase(words, sha, d), e)) <==> |d| == 16 || |d| == 24 || |d| == 32
  {
    hide Legal, Split, Phrase, BitString, Indices;
    BitsOfPhrase(words, sha, d);
    if e :| Generated(words, sha, Phrase(words, sha, d), e) {
      BitsOfPhrase(words, sha, e);
    }
    if |d| == 16 || |d| == 24 || |d| == 32 {
      assert Generated(words, sha, Phrase(words, sha, d), d);
    }
  }

  // mnemonic_check
  method Check(words: seq<seq<u8>>, sha: Hash, mnemonic: seq<u8>) returns (ok: bool)
    requires WordList(words) && forall k :: 0 <= k < |mnemonic| ==> mnemonic[k] != 0
    ensures ok <==> exists d :: Generated(words, sha, mnemonic, d)
  {
    assert |words| == WORD_COUNT;
    hide Legal, Split, WordList, Written, BitString, Indices, Index, Phrase;
    var bits := new u8[33](_ => 0);
    var mnemonicBits := ToBits(words, mnemonic, bits);
    if mnemonicBits != 12 * 11 && mnemonicBits != 18 * 11 && mnemonicBits != 24 * 11 {
      WrongLength(words, sha, mnemonic);
      return false;
    }
    var n := mnemonicBits / 11;
    var e := n * 4 / 3;
    var checksum, h := bits[e], sha(bits[..e])[0];
    if n == 12 {
      ok := h / 0x10 == checksum / 0x10;
    } else if n == 18 {
      ok := h / 4 == checksum / 4;
    } else {
      ok := h == checksum;
    }
    CheckIs(words, sha, mnemonic, bits[..], e, h, checksum);
  }

  /** The checksum comparison decides whether the mnemonic is a generated one. */
  lemma CheckIs(words: seq<seq<u8>>, sha: Hash, m: seq<u8>, out: seq<u8>, e: nat, h: u8, c: u8)
    requires WordList(words) && Legal(words, m) && |out| == 33 && |Split(m)| == e * 3 / 4
    requires (e == 16 || e == 24 || e == 32) && c == out[e] && h == sha(out[..e])[0]
    requires Written(out, BitString(Indices(words, Split(m))))
    ensures (if e == 16 then h / 0x10 == c / 0x10 else if e == 24 then h / 4 == c / 4 else h == c)
       <==> exists d :: Generated(words, sha, m, d)
  {
    MaskTest(h, c, e);
    assert |words| == WORD_COUNT;
    hide Legal, Split, WordList, Written, BitString, Indices, Index, Phrase, Fixed, Generated;
    if Fixed(2, 8, h)[..e / 4] == Fixed(2, 8, c)[..e / 4] {
      PhraseOfBits(words, sha, m, out, e);
      OfLength(words, sha, m, out[..e]);
    }
    if d :| Generated(words, sha, m, d) {
      HonestBits(words, sha, m, out, e, d);
    }
  }

  lemma OfLength(words: seq<seq<u8>>, sha: Hash, m: seq<u8>, d: seq<u8>)
    requires |words| == WORD_COUNT && (|d| == 16 || |d| == 24 || |d| == 32) && m == Phrase(words, sha, d)
    ensures Generated(words, sha, m, d)
  {
  }

  /** The masks 0xF0, 0xFC and 0xFF keep the first 4, 6 and 8 bits. */
  lemma MaskTest(h: u8, c: u8, e: nat)
    requires e == 16 || e == 24 || e == 32
    ensures (if e == 16 then h / 0x10 == c / 0x10 else if e == 24 then h / 4 == c / 4 else h == c)
       <==> Fixed(2, 8, h)[..e / 4] == Fixed(2, 8, c)[..e / 4]
  {
    assert Pow(2, 4) == 0x10 && Pow(2, 2) == 4 && Pow(2, 0) == 1;
    hide Fixed, Pow;
    HighBits(h, c, e / 4);
  }

  lemma HonestBits(words: seq<seq<u8>>, sha: Hash, m: seq<u8>, out: seq<u8>, e: nat, d: seq<u8>)
    requires WordList(words) && Legal(words, m) && |out| == 33 && |Split(m)| == e * 3 / 4
    requires (e == 16 || e == 24 || e == 32) && Written(out, BitString(Indices(words, Split(m))))
    requires Generated(words, sha, m, d)
    ensures Fixed(2, 8, sha(out[..e])[0])[..e / 4] == Fixed(2, 8, out[e])[..e / 4]
  {
    assert |words| == WORD_COUNT;
    hide Legal, Split, WordList, Written, BitString, Indices, Index, Phrase, Fixed, BitsOf;
    BitsOfPhrase(words, sha, d);
    Unpacked(out, d, sha(d)[0], e / 4);
  }

  lemma WrongLength(words: seq<seq<u8>>, sha: Hash, m: seq<u8>)
    requires WordList(words)
    requires Legal(words, m) ==> |Split(m)| != 12 && |Split(m)| != 18 && |Split(m)| != 24
    ensures !exists d :: Generated(words, sha, m, d)
  {
    assert |words| == WORD_COUNT;
    hide Legal, Split, Phrase, WordList;
    if d :| Generated(words, sha, m, d) {
      BitsOfPhrase(words, sha, d);
    }
  }
}
