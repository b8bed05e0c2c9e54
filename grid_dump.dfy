/**
 * The fixed-format ASCII dump of the engine's grid: a header of column
 * numbers, a dash line, one line per row of two-character cell tags, and a
 * closing dash line without a trailing newline.
 */
module GridDump {
  import Lists

  function Digit(d: nat): char
    requires d < 10
  {
    "0123456789"[d]
  }

  function DigitValue(c: char): nat
  {
    if '0' <= c <= '9' then (c - '0') as nat else 0
  }

  /** Decimal notation of a natural number, as `%d` prints it. */
  function NatStr(n: nat): (s: string)
    ensures s != []
    ensures forall i | 0 <= i < |s| :: '0' <= s[i] <= '9'
    decreases n
  {
    if n < 10 then [Digit(n)] else NatStr(n / 10) + [Digit(n % 10)]
  }

  /** Reads a string of decimal digits back into its value. */
  function ParseNat(s: string): nat
  {
    if s == [] then 0 else 10 * ParseNat(s[..|s| - 1]) + DigitValue(s[|s| - 1])
  }

  /** Printing a number in decimal and reading it back gives the number. */
  lemma {:induction false} NatStrRoundTrip(n: nat)
    ensures ParseNat(NatStr(n)) == n
    decreases n
  {
    if n >= 10 {
      NatStrRoundTrip(n / 10);
      var s := NatStr(n);
      assert s[..|s| - 1] == NatStr(n / 10);
    }
  }

  /** Numbers below 100 print with two characters, padded with a leading zero below 10. */
  function TwoDigits(i: nat): (s: string)
  {
    if i < 10 then "0" + NatStr(i) else NatStr(i)
  }

  lemma TwoDigitsLength(i: nat)
    requires i < 100
    ensures |TwoDigits(i)| == 2
    ensures ParseNat(TwoDigits(i)) == i
  {
    NatStrRoundTrip(i);
    if 10 <= i {
      NatStrRoundTrip(i / 10);
    } else {
      var s := TwoDigits(i);
      assert s[..1] == "0";
    }
  }

  /** The header entry of column i: "      00 " for 0, "0i " up to 9, "i " from 10. */
  function ColumnLabel(i: nat): string
  {
    if i == 0 then "      00 " else if i > 9 then NatStr(i) + " " else "0" + NatStr(i) + " "
  }

  function Header(n: nat): string
  {
    if n == 0 then "" else Header(n - 1) + ColumnLabel(n - 1)
  }

  function Dashes(k: nat): (s: string)
    ensures |s| == k && forall i | 0 <= i < k :: s[i] == '-'
  {
    seq(k, _ => '-')
  }

  /** The prefix of row i: " 0i |" below 10, " i |" from 10. */
  function RowLabel(i: nat): string
  {
    " " + TwoDigits(i) + " |"
  }

  /** Each cell is printed as a blank followed by its tag. */
  function CellsText(row: seq<string>): string
  {
    if row == [] then "" else CellsText(row[..|row| - 1]) + " " + row[|row| - 1]
  }

  function RowLine(i: nat, row: seq<string>): string
  {
    RowLabel(i) + CellsText(row) + "\n"
  }

  function Body(rows: seq<seq<string>>): string
  {
    if rows == [] then "" else Body(rows[..|rows| - 1]) + RowLine(|rows| - 1, rows[|rows| - 1])
  }

  /** The whole dump of a grid given as rows of cell tags. */
  function Render(rows: seq<seq<string>>): string
  {
    Header(|rows|) + "\n" + Dashes(|rows| * 3 + 5) + "\n" + Body(rows) + Dashes(|rows| * 3 + 5)
  }

  /** Appending a blank and one more tag to the text of a row gives the text of the longer row. */
  lemma CellsStep(p: string, row: seq<string>, t: string)
    ensures p + CellsText(row) + " " + t == p + CellsText(row + [t])
  {
    assert (row + [t])[..|row|] == row;
  }

  /** The label, the cells and a newline make the row's line. */
  lemma RowStep(p: string, i: nat, row: seq<string>)
    ensures p + RowLabel(i) + CellsText(row) + "\n" == p + RowLine(i, row)
  {
  }

  /** Appending the line of row |rows| to the body of rows gives the body of the longer grid. */
  lemma BodyStep(p: string, rows: seq<seq<string>>, row: seq<string>)
    ensures p + Body(rows) + RowLine(|rows|, row) == p + Body(rows + [row])
  {
    var r := rows + [row];
    assert r[..|rows|] == rows;
    assert Body(r) == Body(rows) + RowLine(|rows|, row);
    Lists.AppendAssoc(p, Body(rows), RowLine(|rows|, row));
  }

  lemma RenderUnfold(rows: seq<seq<string>>, n: nat)
    requires |rows| == n
    ensures Render(rows) == Header(n) + "\n" + Dashes(n * 3 + 5) + "\n" + Body(rows) + Dashes(n * 3 + 5)
  {
  }

  /** Every row has n tags of two characters. */
  ghost predicate SquareOfTags(rows: seq<seq<string>>, n: nat)
  {
    forall i | 0 <= i < |rows| :: |rows[i]| == n && forall j | 0 <= j < n :: |rows[i][j]| == 2
  }

  lemma {:induction false} HeaderLength(n: nat)
    requires 1 <= n <= 100
    ensures |Header(n)| == 3 * n + 6
  {
    if n > 1 {
      HeaderLength(n - 1);
      TwoDigitsLength(n - 1);
    }
  }

  lemma {:induction false} CellsTextLength(row: seq<string>)
    requires forall j | 0 <= j < |row| :: |row[j]| == 2
    ensures |CellsText(row)| == 3 * |row|
  {
    if row != [] {
      CellsTextLength(row[..|row| - 1]);
    }
  }

  /** A row of n two-character tags prints as 3n+6 characters, newline included. */
  lemma RowLineLength(i: nat, row: seq<string>)
    requires i < 100 && forall j | 0 <= j < |row| :: |row[j]| == 2
    ensures |RowLine(i, row)| == 3 * |row| + 6
  {
    CellsTextLength(row);
    TwoDigitsLength(i);
  }

  lemma MulSucc(k: nat, m: nat)
    ensures k * m + m == (k + 1) * m
  {
  }

  lemma {:induction false} BodyLength(rows: seq<seq<string>>, n: nat)
    requires |rows| <= 100 && SquareOfTags(rows, n)
    ensures |Body(rows)| == |rows| * (3 * n + 6)
  {
    if rows != [] {
      var k := |rows| - 1;
      var line := 3 * n + 6;
      assert SquareOfTags(rows[..k], n) by {
        forall i | 0 <= i < k
          ensures |rows[..k][i]| == n && forall j | 0 <= j < n :: |rows[..k][i][j]| == 2
        {
          assert rows[..k][i] == rows[i];
        }
      }
      BodyLength(rows[..k], n);
      RowLineLength(k, rows[k]);
      assert |Body(rows)| == |Body(rows[..k])| + |RowLine(k, rows[k])|;
      MulSucc(k, line);
    }
  }

  /**
   * For 1 to 100 rows of two-character tags the dump has 3(n+2)(n+3)
   * characters: a header and n rows of 3n+6 characters each (newline
   * included), two dash lines of 3n+5 and two newlines after the header.
   */
  lemma RenderLength(rows: seq<seq<string>>)
    requires 1 <= |rows| <= 100 && SquareOfTags(rows, |rows|)
    ensures |Render(rows)| == 3 * (|rows| + 2) * (|rows| + 3)
  {
    var n := |rows|;
    HeaderLength(n);
    BodyLength(rows, n);
    var body := |Body(rows)|;
    assert |Render(rows)| == (3 * n + 6) + 1 + (3 * n + 5) + 1 + body + (3 * n + 5);
    RenderArith(n, body);
  }

  lemma RenderArith(n: nat, body: nat)
    requires body == n * (3 * n + 6)
    ensures (3 * n + 6) + 1 + (3 * n + 5) + 1 + body + (3 * n + 5) == 3 * (n + 2) * (n + 3)
  {
  }

  /** The dump opens with the column header and closes with a dash line, not a newline. */
  lemma RenderFrame(rows: seq<seq<string>>)
    ensures Render(rows)[..|Header(|rows|)|] == Header(|rows|)
    ensures |Render(rows)| == |Header(|rows|)| + |Body(rows)| + 2 * (|rows| * 3 + 6)
    ensures Render(rows)[|Render(rows)| - 1] == '-'
  {
    var n := |rows|;
    var h, d := Header(n), Dashes(n * 3 + 5);
    RenderUnfold(rows, n);
    var a := h + "\n";
    var b := a + d;
    var c := b + "\n";
    var e := c + Body(rows);
    assert Render(rows) == e + d;
    TakeAppend(e, d, |h|);
    TakeAppend(c, Body(rows), |h|);
    TakeAppend(b, "\n", |h|);
    TakeAppend(a, d, |h|);
    TakeAppend(h, "\n", |h|);
    assert h[..|h|] == h;
    assert (e + d)[|e + d| - 1] == d[|d| - 1];
  }

  /** A prefix that fits in the first part of a concatenation is a prefix of that part. */
  lemma TakeAppend(x: string, y: string, k: nat)
    requires k <= |x|
    ensures (x + y)[..k] == x[..k]
  {
  }
}
