/** Conversion of an algebraic-notation square (file character, rank digit) to
    the zero-based grid indices the command handler computes: row X counts down
    from rank 8, column Y counts up from file 'a'. Nothing is range-checked, so
    a rank of '0' or '9', or a file beyond 'h', yields an index outside 0..7. */
module Coordinates {

  import opened CharClasses

  /** A square as spoken: the captured file character and rank digit. */
  datatype Square = Square(file: char, rank: char)
  {
    /** The two-character text of the square, as the handler echoes it. */
    function Text(): (t: string)
      ensures |t| == 2 && t[0] == file && t[1] == rank
    {
      [file, rank]
    }
  }

  /** The value `parseInt` gives a single ASCII digit. */
  function DigitValue(c: char): (v: int)
    requires IsDigit(c)
    ensures 0 <= v <= 9
  {
    c as int - '0' as int
  }

  /** Row index of a rank digit: `8 - parseInt(rank)`. */
  function RankToX(rank: char): (x: int)
    requires IsDigit(rank)
    ensures x + DigitValue(rank) == 8
    ensures -1 <= x <= 8
    ensures ('1' <= rank <= '8') <==> (0 <= x <= 7)
  {
    8 - DigitValue(rank)
  }

  /** Column index of a file character: its character code minus 97, the code of 'a'. */
  function FileToY(file: char): (y: int)
    ensures y + 97 == file as int
    ensures ('a' <= file <= 'h') <==> (0 <= y <= 7)
    ensures IsWordChar(file) ==> -49 <= y <= 25
  {
    file as int - 'a' as int
  }

  /** The rank digit whose row index is `x`; the inverse of `RankToX`. */
  function XToRank(x: int): (rank: char)
    requires -1 <= x <= 8
    ensures IsDigit(rank)
  {
    ('0' as int + 8 - x) as char
  }

  /** The file character whose column index is `y`, for every word character's
      column; the inverse of `FileToY`. */
  function YToFile(y: int): (file: char)
    requires -49 <= y <= 25
  {
    (y + 'a' as int) as char
  }

  /** Rank conversion is a bijection between the ten digits and the rows -1..8. */
  lemma RankRoundTrip(rank: char, x: int)
    requires IsDigit(rank)
    requires -1 <= x <= 8
    ensures XToRank(RankToX(rank)) == rank
    ensures RankToX(XToRank(x)) == x
  {
  }

  /** File conversion is injective on word characters, with `YToFile` as inverse. */
  lemma FileRoundTrip(file: char, y: int)
    requires IsWordChar(file)
    requires -49 <= y <= 25
    ensures YToFile(FileToY(file)) == file
    ensures FileToY(YToFile(y)) == y
  {
  }

  /** Higher ranks sit on lower rows: rank conversion reverses digit order. */
  lemma RankToXReversesOrder(r1: char, r2: char)
    requires IsDigit(r1) && IsDigit(r2)
    ensures r1 < r2 <==> RankToX(r1) > RankToX(r2)
  {
  }

  /** Later files sit in later columns: file conversion keeps character order. */
  lemma FileToYKeepsOrder(f1: char, f2: char)
    ensures f1 < f2 <==> FileToY(f1) < FileToY(f2)
  {
  }

  /** The board corners: 'a1' is row 7, column 0 and 'h8' is row 0, column 7;
      the unchecked extremes '0' and '9' give rows 8 and -1, and '_' gives column -2. */
  lemma ConversionLandmarks()
    ensures RankToX('1') == 7 && RankToX('8') == 0
    ensures FileToY('a') == 0 && FileToY('h') == 7
    ensures RankToX('0') == 8 && RankToX('9') == -1
    ensures FileToY('_') == -2 && FileToY('z') == 25
  {
  }

}
