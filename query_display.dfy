/**
 * The result table of the interactive query script (prototype/query.py):
 * how a title is shortened to fit the 54-character title column.
 */
module QueryDisplay {

  /** The width of the title column. */
  const ColumnWidth: nat := 54

  /**
   * A title shorter than 55 characters is shown as it is; a longer one is
   * cut to its first 51 characters followed by `"..."`.
   */
  function DisplayTitle(t: string): (r: string)
    ensures |t| < 55 ==> r == t
    ensures |t| >= 55 ==> |r| == ColumnWidth && r[..51] == t[..51] && r[51..] == "..."
    ensures |r| <= ColumnWidth
  {
    if |t| < 55 then t else t[..51] + "..."
  }

  /** `f"{s:54}"`: a string padded on the right with spaces to at least 54 characters. */
  function PadRight(s: string, width: nat): (r: string)
    ensures |r| == if |s| < width then width else |s|
    ensures r[..|s|] == s
    ensures forall i :: |s| <= i < |r| ==> r[i] == ' '
  {
    if |s| < width then s + seq(width - |s|, _ => ' ') else s
  }

  /**
   * Every displayed title fills the column exactly, so the table's right
   * border lines up, and what is shown starts with the title's own text.
   */
  lemma DisplayFitsColumn(t: string)
    ensures |PadRight(DisplayTitle(t), ColumnWidth)| == ColumnWidth
    ensures var n := if |t| < 55 then |t| else 51; PadRight(DisplayTitle(t), ColumnWidth)[..n] == t[..n]
  {
    var d := DisplayTitle(t);
    var p := PadRight(d, ColumnWidth);
    if |t| >= 55 {
      assert p[..51] == p[..|d|][..51];
    } else {
      assert t[..|t|] == t;
    }
  }

  /** Shortening is idempotent: a displayed title is displayed unchanged. */
  lemma DisplayTitleIdempotent(t: string)
    ensures DisplayTitle(DisplayTitle(t)) == DisplayTitle(t)
  {
  }
}
