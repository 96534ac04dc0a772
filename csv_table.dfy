/**
  Reading a comma-separated file into a header row and data rows, and the
  column widths and cell truncation of the formatted table printed from
  them. A file is the sequence of its lines (None when it cannot be
  opened); fields are split the way a stream's `getline` with a ','
  delimiter splits them: a trailing empty field is not produced, and an
  empty line has no fields.
 */
module CsvTable {

  datatype Option<T> = None | Some(value: T)

  // ---------------------------------------------------------------------
  // Fields of a line

  /** The index of the first c in s, or |s| when there is none. */
  function IndexOf(s: string, c: char): (r: nat)
    ensures r <= |s|
    ensures c !in s[..r]
    ensures r < |s| ==> s[r] == c
  {
    if s == [] then 0 else if s[0] == c then 0 else 1 + IndexOf(s[1..], c)
  }

  /** The first index r satisfying IndexOf's two conditions is the only one. */
  lemma IndexOfUnique(s: string, c: char, r: nat)
    requires r <= |s| && c !in s[..r] && (r < |s| ==> s[r] == c)
    ensures IndexOf(s, c) == r
  {
    var i := IndexOf(s, c);
    assert forall k :: 0 <= k < r ==> s[..r][k] == s[k];
    assert forall k :: 0 <= k < i ==> s[..i][k] == s[k];
  }

  /**
    The fields a sequence of `getline(stream, field, ',')` calls reads
    from s: each runs up to the next comma, and reading stops when no
    character is left.
   */
  function Fields(s: string): seq<string>
    decreases |s|
  {
    if s == [] then []
    else
      var j := IndexOf(s, ',');
      if j == |s| then [s] else [s[..j]] + Fields(s[j + 1..])
  }

  /** The fields separated by commas. */
  function Join(fs: seq<string>): string
  {
    if fs == [] then "" else if |fs| == 1 then fs[0] else fs[0] + "," + Join(fs[1..])
  }

  /** Every field is free of commas. */
  lemma {:induction false} FieldsHaveNoComma(s: string)
    ensures forall k :: 0 <= k < |Fields(s)| ==> ',' !in Fields(s)[k]
    decreases |s|
  {
    if s != [] {
      var j := IndexOf(s, ',');
      if j < |s| {
        FieldsHaveNoComma(s[j + 1..]);
      }
    }
  }

  /** The comma a line ends with, if it ends with one. */
  function Trailing(s: string): (r: string)
    ensures r == [] || r == [',']
    ensures r == [','] <==> s != [] && s[|s| - 1] == ','
  {
    if s != [] && s[|s| - 1] == ',' then "," else ""
  }

  /** Joining the fields gives the line back, except for one trailing comma, which reading drops. */
  lemma {:induction false} JoinFields(s: string)
    ensures Join(Fields(s)) + Trailing(s) == s
    decreases |s|
  {
    if s != [] {
      var j := IndexOf(s, ',');
      if j < |s| {
        JoinFields(s[j + 1..]);
        JoinFieldsStep(s, j);
      }
    }
  }

  /** The step of JoinFields: a line with a comma at j, given the claim for what follows that comma. */
  lemma JoinFieldsStep(s: string, j: nat)
    requires j < |s| && j == IndexOf(s, ',')
    requires Join(Fields(s[j + 1..])) + Trailing(s[j + 1..]) == s[j + 1..]
    ensures Join(Fields(s)) + Trailing(s) == s
  {
    var rest := s[j + 1..];
    var head := s[..j] + ",";
    SplitAt(s, j);
    FieldsCons(s, j);
    if rest == [] {
      assert Join(Fields(s)) == s[..j];
      assert Trailing(s) == ",";
    } else {
      assert Trailing(s) == Trailing(rest);
      JoinCons(s[..j], Fields(rest));
      AppendAssoc(head, Join(Fields(rest)), Trailing(rest));
    }
  }

  /** A line cut around its character at j. */
  lemma SplitAt(s: string, j: nat)
    requires j < |s| && s[j] == ','
    ensures s == (s[..j] + ",") + s[j + 1..]
  {
  }

  /** Concatenation is associative. */
  lemma AppendAssoc(a: string, b: string, c: string)
    ensures (a + b) + c == a + (b + c)
  {
  }

  /** A line with its first comma at j has the text before it as its first field. */
  lemma FieldsCons(s: string, j: nat)
    requires j < |s| && j == IndexOf(s, ',')
    ensures Fields(s) == [s[..j]] + Fields(s[j + 1..])
  {
  }

  /** Joining one more field in front. */
  lemma JoinCons(f: string, fs: seq<string>)
    requires fs != []
    ensures Join([f] + fs) == (f + ",") + Join(fs)
  {
    assert ([f] + fs)[1..] == fs;
  }

  /** Comma-free fields whose last one is not empty are read back unchanged from their join. */
  lemma {:induction false} FieldsJoin(fs: seq<string>)
    requires forall k :: 0 <= k < |fs| ==> ',' !in fs[k]
    requires fs != [] ==> fs[|fs| - 1] != ""
    ensures Fields(Join(fs)) == fs
    decreases |fs|
  {
    if |fs| == 1 {
      IndexOfUnique(fs[0], ',', |fs[0]|);
    } else if |fs| > 1 {
      var s := Join(fs);
      var rest := Join(fs[1..]);
      assert s == fs[0] + "," + rest;
      assert s[..|fs[0]|] == fs[0];
      IndexOfUnique(s, ',', |fs[0]|);
      assert s[|fs[0]| + 1..] == rest;
      FieldsJoin(fs[1..]);
    }
  }

  /**
    One `getline(stream, value, ',')` from position pos of line: the text
    up to the next comma or the end, and the position after that comma.
   */
  method Getline(line: string, pos: nat) returns (value: string, next: nat)
    requires pos < |line|
    ensures var j := pos + IndexOf(line[pos..], ',');
      value == line[pos..j] && next == if j < |line| then j + 1 else |line|
  {
    var j := pos;
    while j < |line| && line[j] != ','
      invariant pos <= j <= |line|
      invariant ',' !in line[pos..j]
    {
      assert line[pos..j + 1] == line[pos..j] + [line[j]];
      j := j + 1;
    }
    assert line[pos..][..j - pos] == line[pos..j];
    IndexOfUnique(line[pos..], ',', j - pos);
    value := line[pos..j];
    next := if j < |line| then j + 1 else |line|;
  }

  /** The fields from position pos are the one `Getline` reads there followed by those after it. */
  lemma FieldsFrom(line: string, pos: nat, value: string, next: nat)
    requires pos < |line|
    requires var j := pos + IndexOf(line[pos..], ',');
      value == line[pos..j] && next == if j < |line| then j + 1 else |line|
    ensures Fields(line[pos..]) == [value] + Fields(line[next..])
  {
    var s := line[pos..];
    var i := IndexOf(s, ',');
    assert value == s[..i];
    if i < |s| {
      assert line[next..] == s[i + 1..];
      assert Fields(s) == [s[..i]] + Fields(s[i + 1..]);
    } else {
      assert value == s;
      assert line[next..] == [];
    }
  }

  /** After one more field read, the fields read so far and those left still make up the line's fields. */
  lemma ReadStep(line: string, pos: nat, read: seq<string>, value: string, next: nat)
    requires pos < |line| && read + Fields(line[pos..]) == Fields(line)
    requires var j := pos + IndexOf(line[pos..], ',');
      value == line[pos..j] && next == if j < |line| then j + 1 else |line|
    ensures (read + [value]) + Fields(line[next..]) == Fields(line)
  {
    FieldsFrom(line, pos, value, next);
  }

  /** The fields of a line, without the first one when `skipFirst` is set. */
  function Row(line: string, skipFirst: bool): seq<string>
  {
    var fs := Fields(line);
    if skipFirst && fs != [] then fs[1..] else fs
  }

  /** Reads the fields of a line one `getline` at a time, dropping the first when `skipFirst` is set. */
  method ReadRow(line: string, skipFirst: bool) returns (row: seq<string>)
    ensures row == Row(line, skipFirst)
  {
    row := [];
    var first := true;
    var pos := 0;
    ghost var read: seq<string> := [];
    assert line[0..] == line;
    while pos < |line|
      invariant pos <= |line|
      invariant read + Fields(line[pos..]) == Fields(line)
      invariant skipFirst ==> (first <==> read == [])
      invariant row == if skipFirst && read != [] then read[1..] else read
      decreases |line| - pos
    {
      var value, next := Getline(line, pos);
      ReadStep(line, pos, read, value, next);
      read := read + [value];
      pos := next;
      if first && skipFirst {
        first := false;
      } else {
        row := row + [value];
      }
    }
    assert read == Fields(line);
  }

  // ---------------------------------------------------------------------
  // The parsed file

  /** The line holding the header: the first line, or the empty line when the file has none. */
  function HeaderLine(lines: seq<string>): string
  {
    if lines == [] then "" else lines[0]
  }

  /** The lines read as data: all lines but the header line. */
  function BodyLines(lines: seq<string>, headerExists: bool): seq<string>
  {
    if headerExists && lines != [] then lines[1..] else lines
  }

  /** The rows of the lines that yield at least one field, in file order. */
  function KeptRows(lines: seq<string>, skipFirst: bool): (rows: seq<seq<string>>)
    ensures forall k :: 0 <= k < |rows| ==> rows[k] != []
  {
    if lines == [] then []
    else
      var row := Row(lines[|lines| - 1], skipFirst);
      KeptRows(lines[..|lines| - 1], skipFirst) + (if row == [] then [] else [row])
  }

  lemma KeptRowsNext(lines: seq<string>, a: nat, b: nat, skipFirst: bool)
    requires a <= b < |lines|
    ensures var row := Row(lines[b], skipFirst);
      KeptRows(lines[a..b + 1], skipFirst) == KeptRows(lines[a..b], skipFirst) + (if row == [] then [] else [row])
  {
    var seg := lines[a..b + 1];
    assert seg[..|seg| - 1] == lines[a..b];
    assert seg[|seg| - 1] == lines[b];
  }

  /** The indices of the lines that yield at least one field, in file order. */
  function KeptLines(lines: seq<string>, skipFirst: bool): seq<nat>
  {
    if lines == [] then []
    else
      var last := |lines| - 1;
      KeptLines(lines[..last], skipFirst) + (if Row(lines[last], skipFirst) == [] then [] else [last])
  }

  /** The taken lines are valid indices in strictly increasing order. */
  lemma {:induction false} KeptLinesIncreasing(lines: seq<string>, skipFirst: bool)
    ensures forall k :: 0 <= k < |KeptLines(lines, skipFirst)| ==> KeptLines(lines, skipFirst)[k] < |lines|
    ensures forall k, l :: 0 <= k < l < |KeptLines(lines, skipFirst)| ==> KeptLines(lines, skipFirst)[k] < KeptLines(lines, skipFirst)[l]
    decreases |lines|
  {
    if lines != [] {
      var last := |lines| - 1;
      KeptLinesIncreasing(lines[..last], skipFirst);
      assert KeptLines(lines, skipFirst) == KeptLines(lines[..last], skipFirst) + (if Row(lines[last], skipFirst) == [] then [] else [last]);
    }
  }

  /** A line is taken exactly when its row is non-empty. */
  lemma {:induction false} KeptLinesMeaning(lines: seq<string>, skipFirst: bool)
    ensures forall i :: 0 <= i < |lines| ==> (i in KeptLines(lines, skipFirst) <==> Row(lines[i], skipFirst) != [])
    decreases |lines|
  {
    if lines != [] {
      var last := |lines| - 1;
      var init := lines[..last];
      KeptLinesMeaning(init, skipFirst);
      KeptLinesIncreasing(init, skipFirst);
      var idx0 := KeptLines(init, skipFirst);
      assert KeptLines(lines, skipFirst) == idx0 + (if Row(lines[last], skipFirst) == [] then [] else [last]);
      forall i | 0 <= i < |lines|
        ensures i in KeptLines(lines, skipFirst) <==> Row(lines[i], skipFirst) != []
      {
        if i < last {
          assert lines[i] == init[i];
        } else {
          assert |init| == last;
          assert last !in idx0 by {
            forall k | 0 <= k < |idx0|
              ensures idx0[k] != last
            {
            }
          }
        }
      }
    }
  }

  /**
    The order of the kept rows: the k-th kept row is the row of the k-th
    line with fields, those lines are taken in increasing order, and a line
    is taken exactly when its row is non-empty.
   */
  lemma {:induction false} KeptRowsInOrder(lines: seq<string>, skipFirst: bool)
    ensures var idx := KeptLines(lines, skipFirst);
      && |idx| == |KeptRows(lines, skipFirst)| <= |lines|
      && (forall k :: 0 <= k < |idx| ==> idx[k] < |lines| && KeptRows(lines, skipFirst)[k] == Row(lines[idx[k]], skipFirst))
      && (forall k, l :: 0 <= k < l < |idx| ==> idx[k] < idx[l])
      && (forall i :: 0 <= i < |lines| ==> (i in idx <==> Row(lines[i], skipFirst) != []))
    decreases |lines|
  {
    KeptLinesIncreasing(lines, skipFirst);
    KeptLinesMeaning(lines, skipFirst);
    if lines != [] {
      var last := |lines| - 1;
      var init := lines[..last];
      KeptRowsInOrder(init, skipFirst);
      var idx0, rows0 := KeptLines(init, skipFirst), KeptRows(init, skipFirst);
      var row := Row(lines[last], skipFirst);
      assert KeptLines(lines, skipFirst) == idx0 + (if row == [] then [] else [last]);
      assert KeptRows(lines, skipFirst) == rows0 + (if row == [] then [] else [row]);
      forall k | 0 <= k < |idx0|
        ensures lines[idx0[k]] == init[idx0[k]]
      {
      }
    }
  }

  /**
    The kept rows as a set of facts: none is empty, each is the row of some
    line, the row of every line that has fields is kept, and there are no
    more kept rows than lines.
   */
  lemma KeptRowsMeaning(lines: seq<string>, skipFirst: bool)
    ensures forall r :: r in KeptRows(lines, skipFirst) ==> r != [] && exists i :: 0 <= i < |lines| && r == Row(lines[i], skipFirst)
    ensures forall i :: 0 <= i < |lines| && Row(lines[i], skipFirst) != [] ==> Row(lines[i], skipFirst) in KeptRows(lines, skipFirst)
    ensures |KeptRows(lines, skipFirst)| <= |lines|
  {
    KeptRowsInOrder(lines, skipFirst);
    var idx, rows := KeptLines(lines, skipFirst), KeptRows(lines, skipFirst);
    forall r | r in rows
      ensures exists i :: 0 <= i < |lines| && r == Row(lines[i], skipFirst)
    {
      var k :| 0 <= k < |rows| && rows[k] == r;
      assert r == Row(lines[idx[k]], skipFirst);
    }
    forall i | 0 <= i < |lines| && Row(lines[i], skipFirst) != []
      ensures Row(lines[i], skipFirst) in rows
    {
      assert i in idx;
      var k :| 0 <= k < |idx| && idx[k] == i;
      assert rows[k] == Row(lines[i], skipFirst);
    }
  }

  /** Decimal digit d. */
  function DigitChar(d: int): char
    requires 0 <= d < 10
  {
    "0123456789"[d]
  }

  /** The value of decimal digit c. */
  function DigitValue(c: char): int
  {
    if '0' <= c <= '9' then c as int - '0' as int else 0
  }

  /** The decimal writing of n, as `to_string` produces it. */
  function NatToString(n: nat): string
  {
    if n < 10 then [DigitChar(n)] else NatToString(n / 10) + [DigitChar(n % 10)]
  }

  /** The number a string of decimal digits denotes. */
  function DecimalValue(s: string): nat
  {
    if s == [] then 0 else DecimalValue(s[..|s| - 1]) * 10 + (if '0' <= s[|s| - 1] <= '9' then DigitValue(s[|s| - 1]) else 0)
  }

  /** The decimal writing of n is digits only, has no leading zero and denotes n. */
  lemma {:induction false} NatToStringValue(n: nat)
    ensures var s := NatToString(n);
      && s != [] && (forall k :: 0 <= k < |s| ==> '0' <= s[k] <= '9')
      && (|s| > 1 ==> s[0] != '0')
      && DecimalValue(s) == n
  {
    var s := NatToString(n);
    if n >= 10 {
      NatToStringValue(n / 10);
      assert s[..|s| - 1] == NatToString(n / 10);
    }
  }

  /** Different numbers are written differently, so the synthetic headers are distinct. */
  lemma NatToStringInjective(m: nat, n: nat)
    requires NatToString(m) == NatToString(n)
    ensures m == n
  {
    NatToStringValue(m);
    NatToStringValue(n);
  }

  /** "Feature1" .. "Feature(k-1)" followed by "Label". */
  function SyntheticHeaders(k: nat): seq<string>
    requires k >= 1
  {
    seq(k - 1, i requires 0 <= i => "Feature" + NatToString(i + 1)) + ["Label"]
  }

  /** k headers: the first k-1 distinct features numbered from 1 and the label last. */
  lemma SyntheticHeadersShape(k: nat)
    requires k >= 1
    ensures var h := SyntheticHeaders(k);
      && |h| == k && h[k - 1] == "Label"
      && (forall i :: 0 <= i < k - 1 ==> h[i][..7] == "Feature" && DecimalValue(h[i][7..]) == i + 1)
      && (forall i, j :: 0 <= i < j < k ==> h[i] != h[j])
  {
    var h := SyntheticHeaders(k);
    forall i | 0 <= i < k - 1
      ensures h[i][..7] == "Feature" && DecimalValue(h[i][7..]) == i + 1
    {
      assert h[i][7..] == NatToString(i + 1);
      NatToStringValue(i + 1);
    }
    forall i, j | 0 <= i < j < k
      ensures h[i] != h[j]
    {
      if j == k - 1 {
        assert |h[i]| >= 8;
      } else {
        assert h[i][7..] == NatToString(i + 1) && h[j][7..] == NatToString(j + 1);
        NatToStringValue(i + 1);
        NatToStringValue(j + 1);
      }
    }
  }

  /**
    Reads the header line (unless there is none), then every remaining
    line, keeping the rows that have fields. No rows at all gives empty
    headers and data; without a header line the headers are made up from
    the width of the first row.
   */
  method Parse(file: Option<seq<string>>, skipFirstCol: bool, headerExists: bool)
    returns (headers: seq<string>, data: seq<seq<string>>)
    ensures file.None? ==> headers == [] && data == []
    ensures file.Some? ==>
      var kept := KeptRows(BodyLines(file.value, headerExists), skipFirstCol);
      && (kept == [] ==> headers == [] && data == [])
      && (kept != [] ==> data == kept)
      && (kept != [] && headerExists ==> headers == Row(HeaderLine(file.value), skipFirstCol))
      && (kept != [] && !headerExists ==> headers == SyntheticHeaders(|kept[0]|))
  {
    headers, data := [], [];
    if file.None? {
      return;
    }
    var lines := file.value;
    var next := 0;
    if headerExists {
      var line := "";
      if next < |lines| {
        line := lines[next];
        next := next + 1;
      }
      headers := ReadRow(line, skipFirstCol);
    }
    assert lines[next..] == BodyLines(lines, headerExists);
    ghost var start := next;
    while next < |lines|
      invariant start <= next <= |lines|
      invariant !headerExists ==> headers == []
      invariant headerExists ==> headers == Row(HeaderLine(lines), skipFirstCol)
      invariant data == KeptRows(lines[start..next], skipFirstCol)
    {
      KeptRowsNext(lines, start, next, skipFirstCol);
      var row := ReadRow(lines[next], skipFirstCol);
      ghost var kept := data + (if row == [] then [] else [row]);
      assert kept == KeptRows(lines[start..next + 1], skipFirstCol);
      if row != [] {
        if !headerExists && headers != [] {
          if |row| == |headers| {
            data := data + [row];
          }
        } else {
          data := data + [row];
        }
      }
      next := next + 1;
    }
    assert lines[start..next] == BodyLines(lines, headerExists);
    if data == [] {
      return [], [];
    }
    if !headerExists {
      var k := |data[0]|;
      for i := 0 to k - 1
        invariant headers == seq(i, j requires 0 <= j => "Feature" + NatToString(j + 1))
      {
        headers := headers + ["Feature" + NatToString(i + 1)];
      }
      headers := headers + ["Label"];
    }
  }

  // ---------------------------------------------------------------------
  // The formatted table

  /** How many data rows are shown: at most numRows, none when numRows is not positive. */
  function Shown(numRows: int, data: seq<seq<string>>): nat
  {
    if numRows <= 0 then 0 else if numRows < |data| then numRows else |data|
  }

  /**
    The length of the longest text in column i: the header and the cells of
    the first `shown` rows that have that column.
   */
  function ColumnMax(header: string, data: seq<seq<string>>, i: nat, shown: nat): (m: nat)
    requires shown <= |data|
    ensures |header| <= m
    ensures forall j :: 0 <= j < shown && i < |data[j]| ==> |data[j][i]| <= m
    ensures m == |header| || exists j :: 0 <= j < shown && i < |data[j]| && m == |data[j][i]|
  {
    if shown == 0 then |header|
    else
      var m := ColumnMax(header, data, i, shown - 1);
      if i < |data[shown - 1]| && |data[shown - 1][i]| > m then |data[shown - 1][i]| else m
  }

  /** Each column's width: two more than its longest text, capped at 15. */
  ghost predicate WidthsFor(headers: seq<string>, data: seq<seq<string>>, shown: nat, widths: seq<int>)
    requires shown <= |data|
  {
    && |widths| == |headers|
    && forall i :: 0 <= i < |headers| ==>
         widths[i] == var w := ColumnMax(headers[i], data, i, shown) + 2; if w < 15 then w else 15
  }

  /**
    The width of each column: two more than the longest text in that
    column (header and shown rows), but never more than 15.
   */
  method ColumnWidths(headers: seq<string>, data: seq<seq<string>>, numRows: int) returns (widths: seq<int>)
    ensures WidthsFor(headers, data, Shown(numRows, data), widths)
  {
    var shown := Shown(numRows, data);
    widths := [];
    for i := 0 to |headers|
      invariant WidthsFor(headers[..i], data, shown, widths)
    {
      var maxWidth := |headers[i]|;
      for j := 0 to shown
        invariant maxWidth == ColumnMax(headers[i], data, i, j)
      {
        if i < |data[j]| && |data[j][i]| > maxWidth {
          maxWidth := |data[j][i]|;
        }
      }
      var w := if maxWidth + 2 < 15 then maxWidth + 2 else 15;
      assert headers[..i + 1][i] == headers[i];
      assert forall t :: 0 <= t < i ==> headers[..i + 1][t] == headers[..i][t];
      widths := widths + [w];
    }
    assert headers[..|headers|] == headers;
  }

  /**
    The text shown for a cell in a column of the given width: unchanged
    when it fits in width-2 characters, otherwise its first width-5
    characters (all of it when width-5 is negative, since the count is
    taken as unsigned) followed by "...". The length is compared as an
    unsigned number, so a width below 2, whose width-2 wraps to a huge
    value, never cuts.
   */
  function Display(value: string, width: int): (r: string)
    ensures width < 2 || |value| <= width - 2 ==> r == value
    ensures 2 <= width && |value| > width - 2 ==> r == (if 5 <= width then value[..width - 5] else value) + "..."
  {
    if 2 <= width && |value| > width - 2 then
      (if 0 <= width - 5 <= |value| then value[..width - 5] else value) + "..."
    else value
  }

  /** `setw(width) << left << value`: the value, padded with spaces on the right to width characters. */
  function Pad(value: string, width: int): (r: string)
    ensures |r| == if |value| < width then width else |value|
    ensures r[..|value|] == value
  {
    value + seq(if |value| < width then width - |value| else 0, i => ' ')
  }

  /**
    Every cell of a shown row, displayed in a column whose width came from
    ColumnWidths, fits in width-2 characters; it is shortened only in a
    column of the full width 15, and then to its first ten characters and
    "...". Padded, each cell is exactly its column's width, so the rows line up.
   */
  lemma ShownCellsFit(headers: seq<string>, data: seq<seq<string>>, shown: nat, widths: seq<int>, i: nat, j: nat)
    requires shown <= |data| && WidthsFor(headers, data, shown, widths)
    requires i < shown && j < |headers|
    ensures var value := if j < |data[i]| then data[i][j] else "";
      && |Display(value, widths[j])| <= widths[j] - 2
      && (Display(value, widths[j]) != value ==> widths[j] == 15 && Display(value, widths[j]) == value[..10] + "...")
      && |Pad(Display(value, widths[j]), widths[j])| == widths[j]
  {
  }
}
