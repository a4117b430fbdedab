/**
 * Terminal styling as the `colored` crate applies it: a piece of text carries
 * a colour and a bold flag, or no style at all. The escape bytes themselves are
 * not modelled; the plain (clipboard) rendering of a line is the concatenation
 * of its texts, so styled and plain output share every character but the escapes.
 */
module Styling {

  /** The sixteen terminal colours of `colored::Color` the source names. */
  datatype Color =
    | Black | Red | Green | Yellow | Blue | Magenta | Cyan | White
    | BrightBlack | BrightRed | BrightGreen | BrightYellow
    | BrightBlue | BrightMagenta | BrightCyan | BrightWhite

  datatype Style = Unstyled | Colored(color: Color, bold: bool)

  /** A run of text printed with one style. */
  datatype Segment = Segment(text: string, style: Style)

  /** One output line, as a sequence of styled runs. */
  type Line = seq<Segment>

  function Plain(text: string): Segment {
    Segment(text, Unstyled)
  }

  /** The line as it reads without styling. */
  function LineText(line: Line): string {
    if |line| == 0 then "" else line[0].text + LineText(line[1..])
  }

  lemma {:induction false} LineTextAppend(a: Line, b: Line)
    ensures LineText(a + b) == LineText(a) + LineText(b)
  {
    if |a| > 0 {
      assert (a + b)[1..] == a[1..] + b;
      LineTextAppend(a[1..], b);
    } else {
      assert a + b == b;
    }
  }
}
