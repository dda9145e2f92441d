/** The parser checked against a declarative reading of the regular expression:
    a match at position `i` with given captures is the phrase those captures
    spell, found verbatim at `i`; `String.prototype.match` with a non-global
    pattern reports the match at the smallest such `i`. */
module VoiceCommandProofs {

  import opened Wrappers
  import opened CharClasses
  import opened Coordinates
  import opened VoiceCommand

  /** Reference semantics: the pattern matches `s` at `i` with these captures. */
  predicate MatchesAt(s: string, i: nat, piece: string, from: Square, to: Square)
  {
    WellFormedCaptures(piece, from, to) && HasAt(s, i, Phrase(piece, from, to))
  }

  /** Some choice of captures makes the pattern match at `i`. */
  ghost predicate MatchStartsAt(s: string, i: nat)
  {
    exists piece, from, to :: MatchesAt(s, i, piece, from, to)
  }

  /** `w` occurs somewhere in `s`. */
  ghost predicate Contains(s: string, w: string)
  {
    exists k: nat :: HasAt(s, k, w)
  }

  /** Two adjacent occurrences form one occurrence of the concatenation. */
  lemma HasAtConcat(s: string, i: nat, a: string, b: string)
    requires HasAt(s, i, a) && HasAt(s, i + |a|, b)
    ensures HasAt(s, i, a + b)
  {
    assert s[i..i + |a| + |b|] == s[i..i + |a|] + s[i + |a|..i + |a| + |b|];
  }

  /** The phrase occurs where each of its parts occurs in turn. */
  lemma PhraseFromParts(s: string, i: nat, piece: string, from: Square, to: Square)
    requires HasAt(s, i, "move ")
    requires HasAt(s, i + 5, piece)
    requires HasAt(s, i + 5 + |piece|, " from ")
    requires HasAt(s, i + 11 + |piece|, from.Text())
    requires HasAt(s, i + 13 + |piece|, " to ")
    requires HasAt(s, i + 17 + |piece|, to.Text())
    ensures HasAt(s, i, Phrase(piece, from, to))
  {
    var p1 := "move " + piece;
    HasAtConcat(s, i, "move ", piece);
    var p2 := p1 + " from ";
    HasAtConcat(s, i, p1, " from ");
    var p3 := p2 + from.Text();
    HasAtConcat(s, i, p2, from.Text());
    var p4 := p3 + " to ";
    HasAtConcat(s, i, p3, " to ");
    HasAtConcat(s, i, p4, to.Text());
  }

  /** Spelling out where each piece of the phrase sits. */
  lemma PhraseLayout(piece: string, from: Square, to: Square)
    ensures var p := Phrase(piece, from, to); var n := |piece|;
      && |p| == n + 19
      && p[..5] == "move " && p[5..5 + n] == piece && p[5 + n..11 + n] == " from "
      && p[11 + n] == from.file && p[12 + n] == from.rank
      && p[13 + n..17 + n] == " to " && p[17 + n] == to.file && p[18 + n] == to.rank
  {
  }

  /** A run of word characters ended by a non-word character (or the end of
      the text) is exactly what `WordRunLength` measures. */
  lemma MaximalRunIsUnique(s: string, i: nat, n: nat)
    requires i + n <= |s|
    requires forall k :: i <= k < i + n ==> IsWordChar(s[k])
    requires i + n == |s| || !IsWordChar(s[i + n])
    ensures WordRunLength(s, i) == n
  {
  }

  /** An occurrence of a word that is not followed by a word character is the
      whole word run there. */
  lemma WordRunOfOccurrence(s: string, i: nat, w: string)
    requires HasAt(s, i, w) && IsWord(w)
    requires i + |w| == |s| || !IsWordChar(s[i + |w|])
    ensures WordRunLength(s, i) == |w|
  {
    assert forall k :: i <= k < i + |w| ==> s[k] == w[k - i];
    MaximalRunIsUnique(s, i, |w|);
  }

  /** A slice of an occurrence is an occurrence of the slice. */
  lemma SliceOfOccurrence(s: string, i: nat, w: string, a: nat, b: nat)
    requires HasAt(s, i, w)
    requires a <= b <= |w|
    ensures s[i + a..i + b] == w[a..b]
  {
    forall k | 0 <= k < b - a
      ensures s[i + a..i + b][k] == w[a..b][k]
    {
      assert s[i + a + k] == s[i..i + |w|][a + k];
    }
  }

  /** An occurrence of the phrase is an occurrence of each of its parts in turn;
      the converse of `PhraseFromParts`. */
  lemma PhraseParts(s: string, i: nat, piece: string, from: Square, to: Square)
    requires HasAt(s, i, Phrase(piece, from, to))
    ensures var n := |piece|;
      && HasAt(s, i, "move ") && HasAt(s, i + 5, piece) && HasAt(s, i + 5 + n, " from ")
      && s[i + 11 + n] == from.file && s[i + 12 + n] == from.rank
      && HasAt(s, i + 13 + n, " to ")
      && s[i + 17 + n] == to.file && s[i + 18 + n] == to.rank
  {
    var n := |piece|;
    var p := Phrase(piece, from, to);
    PhraseLayout(piece, from, to);
    SliceOfOccurrence(s, i, p, 0, 5);
    SliceOfOccurrence(s, i, p, 5, 5 + n);
    SliceOfOccurrence(s, i, p, 5 + n, 11 + n);
    SliceOfOccurrence(s, i, p, 13 + n, 17 + n);
    assert s[i + 11 + n] == p[11 + n] && s[i + 12 + n] == p[12 + n] by {
      SliceOfOccurrence(s, i, p, 11 + n, 13 + n);
      assert s[i + 11 + n..i + 13 + n] == p[11 + n..13 + n];
    }
    assert s[i + 17 + n] == p[17 + n] && s[i + 18 + n] == p[18 + n] by {
      SliceOfOccurrence(s, i, p, 17 + n, 19 + n);
      assert s[i + 17 + n..i + 19 + n] == p[17 + n..19 + n];
    }
  }

  /** Every match the reference semantics admits at `i` is found by `MatchAt`,
      with the same captures. */
  lemma MatchAtComplete(s: string, i: nat, piece: string, from: Square, to: Square)
    requires MatchesAt(s, i, piece, from, to)
    ensures MatchAt(s, i) == Some(Convert(piece, from, to))
  {
    var n := |piece|;
    var j := i + 5 + n;
    PhraseParts(s, i, piece, from, to);
    assert s[j] == ' ' by {
      assert s[j] == s[j..j + 6][0];
    }
    WordRunOfOccurrence(s, i + 5, piece);
  }

  /** What `MatchAt` checked, part by part, when it reports a match. */
  lemma MatchAtParts(s: string, i: nat)
    requires i <= |s| && MatchAt(s, i).Some?
    ensures var m := MatchAt(s, i).value; var n := |m.piece|;
      && HasAt(s, i, "move ") && HasAt(s, i + 5, m.piece) && HasAt(s, i + 5 + n, " from ")
      && HasAt(s, i + 11 + n, m.from.Text()) && HasAt(s, i + 13 + n, " to ")
      && HasAt(s, i + 17 + n, m.to.Text())
  {
    var j := i + 5 + WordRunLength(s, i + 5);
    var k := j + 6;
    assert HasAt(s, i, "move ") && j > i + 5 && HasAt(s, j, " from ") && k + 8 <= |s|;
    assert IsWordChar(s[k]) && IsDigit(s[k + 1]) && HasAt(s, k + 2, " to ");
    assert IsWordChar(s[k + 6]) && IsDigit(s[k + 7]);
    var from, to := Square(s[k], s[k + 1]), Square(s[k + 6], s[k + 7]);
    assert MatchAt(s, i) == Some(Convert(s[i + 5..j], from, to));
    assert s[k..k + 2] == from.Text();
    assert s[k + 6..k + 8] == to.Text();
  }

  /** Whatever `MatchAt` reports is a match of the reference semantics, and the
      indices are the conversions of its squares. */
  lemma MatchAtSound(s: string, i: nat)
    requires i <= |s|
    ensures MatchAt(s, i).Some? ==>
      var m := MatchAt(s, i).value;
      MatchesAt(s, i, m.piece, m.from, m.to) && m == Convert(m.piece, m.from, m.to)
  {
    if MatchAt(s, i).Some? {
      var m := MatchAt(s, i).value;
      MatchAtParts(s, i);
      PhraseFromParts(s, i, m.piece, m.from, m.to);
    }
  }

  /** `MatchAt` fails at `i` exactly when no captures make the pattern match there. */
  lemma MatchAtNoneIff(s: string, i: nat)
    requires i <= |s|
    ensures MatchAt(s, i).None? <==> !MatchStartsAt(s, i)
  {
    if MatchAt(s, i).Some? {
      var m := MatchAt(s, i).value;
      MatchAtSound(s, i);
      assert MatchesAt(s, i, m.piece, m.from, m.to);
    } else if MatchStartsAt(s, i) {
      var piece, from, to :| MatchesAt(s, i, piece, from, to);
      MatchAtComplete(s, i, piece, from, to);
    }
  }

  /** A result of `Parse` is a match of the reference semantics at some `i`, and
      no match of any kind starts before `i`. */
  lemma ParseSound(s: string)
    ensures Parse(s).Some? ==>
      var m := Parse(s).value;
      exists i: nat :: i <= |s| && MatchesAt(s, i, m.piece, m.from, m.to)
        && m == Convert(m.piece, m.from, m.to)
        && forall j: nat :: j < i ==> !MatchStartsAt(s, j)
  {
    if Parse(s).Some? {
      var i := LeftmostStart(s, 0).value;
      var m := Parse(s).value;
      MatchAtSound(s, i);
      forall j: nat | j < i
        ensures !MatchStartsAt(s, j)
      {
        MatchAtNoneIff(s, j);
      }
      assert MatchesAt(s, i, m.piece, m.from, m.to);
    }
  }

  /** The leftmost match is the one reported: if the pattern matches at `i` and
      nowhere before, `Parse` returns the captures of the match at `i`. */
  lemma ParseLeftmost(s: string, i: nat, piece: string, from: Square, to: Square)
    requires MatchesAt(s, i, piece, from, to)
    requires forall j: nat :: j < i ==> !MatchStartsAt(s, j)
    ensures Parse(s) == Some(Convert(piece, from, to))
  {
    MatchAtComplete(s, i, piece, from, to);
    forall j: nat | j < i
      ensures MatchAt(s, j).None?
    {
      MatchAtNoneIff(s, j);
    }
    var r := LeftmostStart(s, 0);
    assert r == Some(i);
  }

  /** The search is unanchored: a match anywhere makes `Parse` succeed. */
  lemma ParseFindsAnyMatch(s: string, i: nat, piece: string, from: Square, to: Square)
    requires MatchesAt(s, i, piece, from, to)
    ensures Parse(s).Some?
  {
    MatchAtComplete(s, i, piece, from, to);
  }

  /** "Could not understand the command" exactly when the pattern matches nowhere. */
  lemma ParseNoneIff(s: string)
    ensures Parse(s).None? <==> forall i: nat :: i <= |s| ==> !MatchStartsAt(s, i)
  {
    if Parse(s).None? {
      forall i: nat | i <= |s|
        ensures !MatchStartsAt(s, i)
      {
        MatchAtNoneIff(s, i);
      }
    } else {
      var i := LeftmostStart(s, 0).value;
      MatchAtNoneIff(s, i);
    }
  }

  /** Surrounding words are ignored: the phrase embedded after text with no
      lower-case 'm' (so no match can start there) and before any text at all
      parses to exactly the phrase's captures. */
  lemma ParseIgnoresSurroundingText(pre: string, piece: string, from: Square, to: Square, post: string)
    requires WellFormedCaptures(piece, from, to)
    requires forall k :: 0 <= k < |pre| ==> pre[k] != 'm'
    ensures Parse(pre + Phrase(piece, from, to) + post) == Some(Convert(piece, from, to))
  {
    var p := Phrase(piece, from, to);
    var s := pre + p + post;
    assert s[|pre|..|pre| + |p|] == p;
    assert MatchesAt(s, |pre|, piece, from, to);
    forall j: nat | j < |pre|
      ensures !MatchStartsAt(s, j)
    {
      assert s[j] == pre[j];
      MatchNeedsRoomAndLowerCase(s, j);
      MatchAtNoneIff(s, j);
    }
    ParseLeftmost(s, |pre|, piece, from, to);
  }

  /** A transcript that starts with the phrase parses to the phrase's captures,
      whatever follows it; in particular a third digit after the target square
      is ignored rather than rejected. */
  lemma ParsePhrasePrefix(piece: string, from: Square, to: Square, post: string)
    requires WellFormedCaptures(piece, from, to)
    ensures Parse(Phrase(piece, from, to) + post) == Some(Convert(piece, from, to))
  {
    var p := Phrase(piece, from, to);
    assert (p + post)[..|p|] == p;
    ParseLeftmost(p + post, 0, piece, from, to);
  }

  /** A transcript that is exactly the phrase parses to the phrase's captures. */
  lemma ParsePhrase(piece: string, from: Square, to: Square)
    requires WellFormedCaptures(piece, from, to)
    ensures Parse(Phrase(piece, from, to)) == Some(Convert(piece, from, to))
  {
    var p := Phrase(piece, from, to);
    ParsePhrasePrefix(piece, from, to, "");
    assert p + "" == p;
  }

  /** A successful parse needs all three literals of the pattern in the
      transcript: without "move ", " from " or " to " the command is not understood. */
  lemma ParseNeedsLiterals(s: string)
    ensures Parse(s).Some? ==> Contains(s, "move ") && Contains(s, " from ") && Contains(s, " to ")
  {
    if Parse(s).Some? {
      var i := LeftmostStart(s, 0).value;
      var m := MatchAt(s, i).value;
      MatchAtSound(s, i);
      PhraseParts(s, i, m.piece, m.from, m.to);
    }
  }

  /** Where a match can start: the phrase is at least twenty characters long
      and begins with a lower-case "mo", so the literals are case-sensitive. */
  lemma MatchNeedsRoomAndLowerCase(s: string, i: nat)
    requires i <= |s|
    ensures MatchAt(s, i).Some? ==> i + 20 <= |s| && s[i] == 'm' && s[i + 1] == 'o'
  {
    if MatchAt(s, i).Some? {
      var m := MatchAt(s, i).value;
      MatchAtSound(s, i);
      PhraseParts(s, i, m.piece, m.from, m.to);
      assert s[i] == s[i..i + 5][0] && s[i + 1] == s[i..i + 5][1];
    }
  }

  /** A piece name of several words cannot match at the "move" before it: the
      word run after "move " ends at the first space, and what follows that
      space must then be "from ". */
  lemma MultiWordPieceFails(s: string, i: nat, word: string)
    requires |word| > 0 && IsWord(word)
    requires HasAt(s, i, "move " + word + " ")
    requires !HasAt(s, i + |word| + 6, "from ")
    ensures MatchAt(s, i).None?
  {
    var w := "move " + word + " ";
    var n := |word|;
    SliceOfOccurrence(s, i, w, 5, 5 + n);
    assert w[5..5 + n] == word;
    assert s[i + 5 + n] == w[5 + n];
    MaximalRunIsUnique(s, i + 5, n);
    var j := i + 5 + n;
    if HasAt(s, j, " from ") {
      SliceOfOccurrence(s, j, " from ", 1, 6);
      assert false;
    }
  }

}
