/** Texts of words separated by single spaces. */
module Bip39Text {
  import opened Words
  import opened Bip39Words

  /** How many characters stand before the first space. */
  function WordLength(s: seq<u8>): (n: nat)
    ensures n <= |s| && (n < |s| ==> s[n] == SPACE) && forall k :: 0 <= k < n ==> s[k] != SPACE
  {
    if s == [] || s[0] == SPACE then 0 else 1 + WordLength(s[1..])
  }

  /** The pieces between the spaces; some may be empty. */
  function Split(s: seq<u8>): (ws: seq<seq<u8>>)
    ensures ws != []
  {
    var n := WordLength(s);
    if n == |s| then [s] else [s[..n]] + Split(s[n + 1..])
  }

  /** The first piece and the others. */
  lemma SplitStep(s: seq<u8>)
    ensures var n := WordLength(s);
            && Split(s)[0] == s[..n]
            && (if n == |s| then Split(s)[1..] == [] else Split(s)[1..] == Split(s[n + 1..]))
    ensures Split([]) == [[]]
  {
    hide WordLength;
    var n := WordLength(s);
    assert s[..|s|] == s;
    assert WordLength([]) == 0;
  }

  function Join(ws: seq<seq<u8>>): seq<u8> {
    if ws == [] then [] else if |ws| == 1 then ws[0] else ws[0] + [SPACE] + Join(ws[1..])
  }

  lemma {:induction false} JoinSplit(s: seq<u8>)
    ensures Join(Split(s)) == s
    decreases |s|
  {
    hide WordLength;
    var n := WordLength(s);
    if n < |s| {
      JoinSplit(s[n + 1..]);
      assert Split(s) == [s[..n]] + Split(s[n + 1..]);
      assert Split(s)[1..] == Split(s[n + 1..]);
      hide Split;
      assert s == s[..n] + [SPACE] + s[n + 1..];
    }
  }

  /** The pieces have no spaces in them, and putting single spaces between them gives the text back. */
  lemma {:induction false} SplitPieces(s: seq<u8>)
    ensures Join(Split(s)) == s
    ensures forall w, k :: w in Split(s) && 0 <= k < |w| ==> w[k] != ' ' as int
    decreases |s|
  {
    JoinSplit(s);
    var n := WordLength(s);
    if n < |s| {
      SplitPieces(s[n + 1..]);
    }
    hide WordLength, Join;
  }

  lemma {:induction false} JoinSnoc(ws: seq<seq<u8>>, w: seq<u8>)
    ensures Join(ws + [w]) == if ws == [] then w else Join(ws) + [' ' as int] + w
  {
    if ws == [] {
      assert ws + [w] == [w];
    } else if |ws| == 1 {
      assert (ws + [w])[1..] == [w];
    } else {
      JoinSnoc(ws[1..], w);
      assert (ws + [w])[1..] == ws[1..] + [w];
    }
  }

  lemma WordLengthIs(s: seq<u8>, n: nat)
    requires n <= |s| && (n < |s| ==> s[n] == SPACE) && forall k :: 0 <= k < n ==> s[k] != SPACE
    ensures WordLength(s) == n
  {
  }

  lemma LongWord(s: seq<u8>, n: nat)
    requires n < |s| && s[n] != SPACE && forall k :: 0 <= k < n ==> s[k] != SPACE
    ensures WordLength(s) > n
  {
    var w := WordLength(s);
    assert w < |s| ==> s[w] == SPACE;
  }

  predicate NoSpaces(w: seq<u8>) { forall k :: 0 <= k < |w| ==> w[k] != SPACE }

  lemma {:induction false} SplitJoin(ws: seq<seq<u8>>)
    requires ws != [] && forall j :: 0 <= j < |ws| ==> NoSpaces(ws[j])
    ensures Split(Join(ws)) == ws
    decreases |ws|
  {
    hide WordLength;
    var w, s := ws[0], Join(ws);
    assert NoSpaces(w);
    WordLengthIs(s, |w|);
    if |ws| > 1 {
      forall j | 0 <= j < |ws[1..]|
        ensures NoSpaces(ws[1..][j])
      {
        assert NoSpaces(ws[j + 1]);
      }
      SplitJoin(ws[1..]);
      assert s[..|w|] == w && s[|w| + 1..] == Join(ws[1..]);
    }
  }

  function Spaces(s: seq<u8>): nat {
    if s == [] then 0 else Spaces(s[..|s| - 1]) + if s[|s| - 1] == SPACE then 1 else 0
  }

  lemma {:induction false} SpacesConcat(s: seq<u8>, t: seq<u8>)
    ensures Spaces(s + t) == Spaces(s) + Spaces(t)
  {
    if t == [] {
      assert s + t == s;
    } else {
      SpacesConcat(s, t[..|t| - 1]);
      assert (s + t)[..|s + t| - 1] == s + t[..|t| - 1];
    }
  }

  lemma {:induction false} NoneCounted(w: seq<u8>)
    requires NoSpaces(w)
    ensures Spaces(w) == 0
  {
    if w != [] {
      NoneCounted(w[..|w| - 1]);
    }
  }

  /** One piece more than there are spaces. */
  lemma {:induction false} SplitCount(s: seq<u8>)
    ensures |Split(s)| == Spaces(s) + 1
    decreases |s|
  {
    var n := WordLength(s);
    NoneCounted(s[..n]);
    if n < |s| {
      SplitCount(s[n + 1..]);
      assert s == (s[..n] + [SPACE]) + s[n + 1..];
      SpacesConcat(s[..n] + [SPACE], s[n + 1..]);
      SpacesConcat(s[..n], [SPACE]);
      assert Spaces([SPACE]) == 1;
    } else {
      assert s[..n] == s;
    }
  }
}
