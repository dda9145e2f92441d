/** Concrete transcripts and what the handler makes of them. */
module VoiceCommandExamples {

  // Most examples take the transcript as a parameter pinned by
  // `requires s == "..."` rather than writing `Parse("...")`: a call on a
  // string literal makes the verifier unfold the whole scan over the text,
  // while a parameter lets the proof go through the general lemmas.

  import opened Wrappers
  import opened Coordinates
  import opened VoiceCommand
  import opened VoiceCommandProofs

  /** Extra words around the command are ignored:
      "please move knight from a1 to b2 now". */
  lemma PoliteCommand()
    ensures Parse("please " + Phrase("knight", Square('a', '1'), Square('b', '2')) + " now")
         == Some(ParsedMove("knight", Square('a', '1'), Square('b', '2'), 7, 0, 6, 1))
  {
    var pre := "please ";
    assert forall k :: 0 <= k < |pre| ==> pre[k] != 'm';
    ParseIgnoresSurroundingText(pre, "knight", Square('a', '1'), Square('b', '2'), " now");
  }

  /** A third digit after the target square is dropped, not rejected:
      "move pawn from a1 to b23" moves to b2. */
  lemma TrailingDigitIgnored()
    ensures Parse(Phrase("pawn", Square('a', '1'), Square('b', '2')) + "3")
         == Some(ParsedMove("pawn", Square('a', '1'), Square('b', '2'), 7, 0, 6, 1))
  {
    ParsePhrasePrefix("pawn", Square('a', '1'), Square('b', '2'), "3");
  }

  /** Squares off the board still match and give indices outside 0..7:
      "move pawn from _0 to z9". */
  lemma OffBoardSquares(s: string)
    requires s == Phrase("pawn", Square('_', '0'), Square('z', '9'))
    ensures Parse(s) == Some(ParsedMove("pawn", Square('_', '0'), Square('z', '9'), 8, -2, -1, 25))
  {
    ParsePhrase("pawn", Square('_', '0'), Square('z', '9'));
  }

  /** Without "from" the command is not understood. */
  lemma MissingFrom(s: string)
    requires s == "move pawn e2 to e4"
    ensures Parse(s) == None
  {
    forall k: nat | k <= |s|
      ensures MatchAt(s, k).None?
    {
      MatchNeedsRoomAndLowerCase(s, k);
    }
  }

  /** A misheard "move" is not understood. */
  lemma MisspelledMove(s: string)
    requires s == "mve knight from a1 to b2"
    ensures Parse(s) == None
  {
    assert s[..5] == "mve k";
    forall k: nat | k <= |s|
      ensures MatchAt(s, k).None?
    {
      MatchNeedsRoomAndLowerCase(s, k);
    }
  }

  /** The literals are case-sensitive: a capital "Move" already fails at the
      first position, and the command is not understood. */
  lemma CapitalisedMove(s: string)
    requires s == "Move pawn from e2 to e4"
    ensures MatchAt(s, 0).None?
    ensures Parse(s) == None
  {
    assert s[0] == 'M';
    assert s[..5] == "Move ";
    forall k: nat | k <= |s|
      ensures MatchAt(s, k).None?
    {
      MatchNeedsRoomAndLowerCase(s, k);
    }
  }

  /** A two-word piece name cannot match at the "move" before it. */
  lemma TwoWordPieceAtMove(s: string)
    requires s == "move white pawn from e2 to e4"
    ensures MatchAt(s, 0).None?
  {
    assert s[..11] == "move " + "white" + " ";
    assert s[11] != 'f';
    MultiWordPieceFails(s, 0, "white");
  }

  /** ... and nothing later in "move white pawn from e2 to e4" matches either,
      so the command is not understood. */
  lemma TwoWordPiece(s: string)
    requires s == "move white pawn from e2 to e4"
    ensures Parse(s) == None
  {
    TwoWordPieceAtMove(s);
    assert forall k :: 0 < k <= 9 ==> s[k] != 'm';
    forall k: nat | 0 < k <= |s|
      ensures MatchAt(s, k).None?
    {
      MatchNeedsRoomAndLowerCase(s, k);
    }
  }

}
