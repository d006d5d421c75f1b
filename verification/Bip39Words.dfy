/** The sorted word list of bip39.c and the search in it. */
module Bip39Words {
  import opened Words

  const WORD_COUNT := 2048
  const SPACE: u8 := 32

  /** strcmp on texts without NUL characters. */
  function Compare(a: seq<u8>, b: seq<u8>): int {
    if a == [] && b == [] then 0
    else if a == [] then -1
    else if b == [] then 1
    else if a[0] != b[0] then a[0] - b[0]
    else Compare(a[1..], b[1..])
  }

  lemma {:induction false} CompareZero(a: seq<u8>, b: seq<u8>)
    ensures Compare(a, b) == 0 <==> a == b
  {
    if a != [] && b != [] {
      CompareZero(a[1..], b[1..]);
      assert a == [a[0]] + a[1..] && b == [b[0]] + b[1..];
    }
  }

  lemma {:induction false} CompareTrans(a: seq<u8>, b: seq<u8>, c: seq<u8>)
    requires Compare(a, b) <= 0 && Compare(b, c) < 0
    ensures Compare(a, c) < 0
  {
    if a != [] && b != [] && c != [] && a[0] == b[0] == c[0] {
      CompareTrans(a[1..], b[1..], c[1..]);
    }
  }

  /** The order of dictionaries: the first difference decides, and a prefix comes first. */
  lemma {:induction false} CompareIs(a: seq<u8>, b: seq<u8>)
    ensures Compare(a, b) < 0 <==>
      exists n: nat :: n <= |a| && n < |b| && a[..n] == b[..n] && (n == |a| || a[n] < b[n])
  {
    if a != [] && b != [] && a[0] == b[0] {
      CompareIs(a[1..], b[1..]);
      if Compare(a[1..], b[1..]) < 0 {
        var n: nat :| && n <= |a[1..]| && n < |b[1..]| && a[1..][..n] == b[1..][..n]
                      && (n == |a[1..]| || a[1..][n] < b[1..][n]);
        assert a[..n + 1] == [a[0]] + a[1..][..n] && b[..n + 1] == [b[0]] + b[1..][..n];
      } else {
        forall n: nat | n <= |a| && n < |b| && a[..n] == b[..n]
          ensures n < |a| && a[n] >= b[n]
        {
          if n > 0 {
            assert a[1..][..n - 1] == a[..n][1..] && b[1..][..n - 1] == b[..n][1..];
          }
        }
      }
    } else if b != [] {
      assert a[..0] == b[..0];
      assert forall n: nat :: 0 < n <= |a| && n < |b| ==> a[..n][0] == a[0] && b[..n][0] == b[0];
    }
  }

  predicate IsWord(w: seq<u8>) {
    1 <= |w| <= 8 && forall k :: 0 <= k < |w| ==> w[k] != SPACE && w[k] != 0
  }

  /** 2048 strictly sorted words of one to eight letters. */
  ghost predicate WordList(words: seq<seq<u8>>) {
    && |words| == WORD_COUNT
    && (forall i :: 0 <= i < |words| ==> IsWord(words[i]))
    && (forall i, j :: 0 <= i < j < |words| ==> Compare(words[i], words[j]) < 0)
  }

  /** The position of a word, -1 for a text that is not in the list. */
  ghost function Index(words: seq<seq<u8>>, w: seq<u8>): (k: int)
    ensures -1 <= k < |words|
    ensures k >= 0 ==> words[k] == w
    ensures k < 0 ==> w !in words
  {
    if w in words then
      var k :| 0 <= k < |words| && words[k] == w;
      k
    else -1
  }

  /** No word occurs twice, so Index undoes the lookup. */
  lemma IndexOfWord(words: seq<seq<u8>>, k: nat)
    requires WordList(words) && k < |words|
    ensures Index(words, words[k]) == k
  {
    var i := Index(words, words[k]);
    CompareZero(words[i], words[k]);
  }

  // mnemonic_find_word
  method FindWord(words: seq<seq<u8>>, word: seq<u8>) returns (k: int)
    requires WordList(words)
    ensures k == Index(words, word)
  {
    var lo, hi := 0, WORD_COUNT - 1;
    while lo <= hi
      invariant 0 <= lo <= hi + 1 <= WORD_COUNT
      invariant forall i :: 0 <= i < lo ==> Compare(words[i], word) < 0
      invariant forall i :: hi < i < WORD_COUNT ==> Compare(word, words[i]) < 0
    {
      var mid := lo + (hi - lo) / 2;
      var cmp := Compare(word, words[mid]);
      CompareZero(word, words[mid]);
      if cmp == 0 {
        IndexOfWord(words, mid);
        return mid;
      }
      if cmp > 0 {
        CompareFlip(word, words[mid]);
        BelowMiddle(words, word, mid);
        lo := mid + 1;
      } else {
        AboveMiddle(words, word, mid);
        hi := mid - 1;
      }
    }
    NotFound(words, word, lo);
    return -1;
  }

  lemma {:induction false} CompareFlip(a: seq<u8>, b: seq<u8>)
    ensures Compare(a, b) > 0 <==> Compare(b, a) < 0
  {
    if a != [] && b != [] {
      CompareFlip(a[1..], b[1..]);
    }
  }

  lemma BelowMiddle(words: seq<seq<u8>>, word: seq<u8>, mid: nat)
    requires WordList(words) && mid < |words| && Compare(words[mid], word) < 0
    ensures forall i :: 0 <= i <= mid ==> Compare(words[i], word) < 0
  {
    forall i | 0 <= i <= mid
      ensures Compare(words[i], word) < 0
    {
      CompareZero(words[i], words[mid]);
      CompareTrans(words[i], words[mid], word);
    }
  }

  lemma AboveMiddle(words: seq<seq<u8>>, word: seq<u8>, mid: nat)
    requires WordList(words) && mid < |words| && Compare(word, words[mid]) < 0
    ensures forall i :: mid <= i < |words| ==> Compare(word, words[i]) < 0
  {
    forall i | mid < i < |words|
      ensures Compare(word, words[i]) < 0
    {
      CompareTrans(word, words[mid], words[i]);
    }
  }

  lemma NotFound(words: seq<seq<u8>>, word: seq<u8>, lo: nat)
    requires lo <= |words|
    requires forall i :: 0 <= i < lo ==> Compare(words[i], word) < 0
    requires forall i :: lo <= i < |words| ==> Compare(word, words[i]) < 0
    ensures word !in words
  {
    CompareZero(word, word);
  }
}
