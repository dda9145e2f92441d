/** The parser inside the voice-command handler: it searches a transcript for
    the first occurrence of `/move (\w+) from (\w)(\d) to (\w)(\d)/` and turns
    the captured squares into grid indices.

    The one variable-length group, `(\w+)`, is always followed by a space, which
    is not a word character; so a match starting at a given position can only
    use the maximal word run there, and the regular expression's backtracking
    collapses into a check per start position plus a leftmost scan. */
module VoiceCommand {

  import opened Wrappers
  import opened CharClasses
  import opened Coordinates

  /** The handler's result on a match: the piece word, both squares as spoken,
      and the four derived grid indices. */
  datatype ParsedMove = ParsedMove(
    piece: string,
    from: Square,
    to: Square,
    fromX: int,
    fromY: int,
    toX: int,
    toY: int)

  /** The captures satisfy the pattern's groups: a nonempty word, then a word
      character and a digit for each square. */
  predicate WellFormedCaptures(piece: string, from: Square, to: Square)
  {
    && |piece| > 0 && IsWord(piece)
    && IsWordChar(from.file) && IsDigit(from.rank)
    && IsWordChar(to.file) && IsDigit(to.rank)
  }

  /** The text the pattern matches for the given captures. */
  function Phrase(piece: string, from: Square, to: Square): string
  {
    "move " + piece + " from " + from.Text() + " to " + to.Text()
  }

  /** A result is consistent when its captures are well formed and its indices
      are the conversions of its squares. */
  predicate Consistent(m: ParsedMove)
  {
    && WellFormedCaptures(m.piece, m.from, m.to)
    && m.fromX == RankToX(m.from.rank) && m.fromY == FileToY(m.from.file)
    && m.toX == RankToX(m.to.rank) && m.toY == FileToY(m.to.file)
  }

  /** Builds the handler's result from the captures. The result keeps the
      piece and both squares, and the indices lose nothing: each input square
      can be read back from its pair of indices, and a square lies
      on the 8x8 board exactly when both of its indices lie in 0..7. */
  function Convert(piece: string, from: Square, to: Square): (m: ParsedMove)
    requires WellFormedCaptures(piece, from, to)
    ensures Consistent(m)
    ensures m.piece == piece && m.from == from && m.to == to
    ensures from == Square(YToFile(m.fromY), XToRank(m.fromX))
    ensures to == Square(YToFile(m.toY), XToRank(m.toX))
    ensures ('a' <= from.file <= 'h' && '1' <= from.rank <= '8') <==> (0 <= m.fromX <= 7 && 0 <= m.fromY <= 7)
    ensures ('a' <= to.file <= 'h' && '1' <= to.rank <= '8') <==> (0 <= m.toX <= 7 && 0 <= m.toY <= 7)
  {
    ParsedMove(piece, from, to,
               RankToX(from.rank), FileToY(from.file),
               RankToX(to.rank), FileToY(to.file))
  }

  /** `w` occurs in `s` starting at position `i`. */
  predicate HasAt(s: string, i: nat, w: string)
  {
    i + |w| <= |s| && s[i..i + |w|] == w
  }

  /** Length of the maximal run of word characters starting at `i`: what the
      greedy `\w+` consumes before it could backtrack. */
  function WordRunLength(s: string, i: nat): (n: nat)
    requires i <= |s|
    ensures i + n <= |s|
    ensures forall k :: i <= k < i + n ==> IsWordChar(s[k])
    ensures i + n == |s| || !IsWordChar(s[i + n])
    decreases |s| - i
  {
    if i < |s| && IsWordChar(s[i]) then 1 + WordRunLength(s, i + 1) else 0
  }

  /** The pattern tried at start position `i` alone. */
  function MatchAt(s: string, i: nat): (r: Option<ParsedMove>)
    requires i <= |s|
    ensures r.Some? ==> Consistent(r.value)
  {
    if !HasAt(s, i, "move ") then None
    else
      var j := i + 5 + WordRunLength(s, i + 5);
      if j == i + 5 || !HasAt(s, j, " from ") then None
      else
        var k := j + 6;
        if k + 8 <= |s| && IsWordChar(s[k]) && IsDigit(s[k + 1])
           && HasAt(s, k + 2, " to ") && IsWordChar(s[k + 6]) && IsDigit(s[k + 7])
        then
          Some(Convert(s[i + 5..j], Square(s[k], s[k + 1]), Square(s[k + 6], s[k + 7])))
        else None
  }

  /** The leftmost start position in `i..|s|` at which the pattern matches. */
  function LeftmostStart(s: string, i: nat): (r: Option<nat>)
    requires i <= |s|
    ensures r.Some? ==> i <= r.value <= |s| && MatchAt(s, r.value).Some?
    ensures r.Some? ==> forall k :: i <= k < r.value ==> MatchAt(s, k).None?
    ensures r.None? ==> forall k :: i <= k <= |s| ==> MatchAt(s, k).None?
    decreases |s| - i
  {
    if MatchAt(s, i).Some? then Some(i)
    else if i == |s| then None
    else LeftmostStart(s, i + 1)
  }

  /** The handler's parse of a transcript: the leftmost match of the pattern,
      or `None` when the command is not understood. */
  function Parse(s: string): (r: Option<ParsedMove>)
    ensures r.Some? ==> Consistent(r.value)
  {
    match LeftmostStart(s, 0)
    case Some(k) => MatchAt(s, k)
    case None => None
  }

}
