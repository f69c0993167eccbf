/** The `from_table` filter: PrettyTable-style text to a list of records.

    The first line is a border such as `+-----+----+`; the offsets of its `+` characters are the
    column borders. The second line is the header row, `| A | B |`, cut between consecutive
    borders. Every later line that starts and ends with `|` is cut the same way and paired with
    the header into a record; other lines are skipped. */
module Table {
  import opened Wrappers
  import opened PyStr
  import opened Dicts
  import opened Host

  /** One table row as the dictionary `dict(zip(header, cells))`. */
  type Record = Dict<string>

  /** `line.startswith('+') and line.endswith('+')`. */
  predicate IsBorderLine(line: string)
  {
    |line| > 0 && line[0] == '+' && line[|line| - 1] == '+'
  }

  /** `line.startswith('|') and line.endswith('|')`. */
  predicate IsRowLine(line: string)
  {
    |line| > 0 && line[0] == '|' && line[|line| - 1] == '|'
  }

  /** Offsets of `+` in `line` from offset `i` on. */
  function PlusFrom(line: string, i: nat): (b: seq<nat>)
    requires i <= |line|
    ensures forall k :: 0 <= k < |b| ==> i <= b[k] < |line| && line[b[k]] == '+'
    ensures forall k, m :: 0 <= k < m < |b| ==> b[k] < b[m]
    ensures forall p :: i <= p < |line| && line[p] == '+' ==> p in b
    decreases |line| - i
  {
    if i == |line| then []
    else if line[i] == '+' then [i] + PlusFrom(line, i + 1)
    else PlusFrom(line, i + 1)
  }

  /** `[pos for pos, char in enumerate(line) if char == '+']`: exactly the offsets of `+`, in
      increasing order; on a border line the first is 0 and the last is `len(line) - 1`. */
  function Borders(line: string): (b: seq<nat>)
    ensures forall k :: 0 <= k < |b| ==> b[k] < |line| && line[b[k]] == '+'
    ensures forall k, m :: 0 <= k < m < |b| ==> b[k] < b[m]
    ensures forall p :: 0 <= p < |line| && line[p] == '+' ==> p in b
    ensures IsBorderLine(line) ==> |b| > 0 && b[0] == 0 && b[|b| - 1] == |line| - 1
  {
    var b := PlusFrom(line, 0);
    assert IsBorderLine(line) ==> |line| - 1 in b && b[0] == 0;
    b
  }

  /** `[line[start + 1:end].strip() for start, end in zip(border, border[1:])]`: cell `i` is
      the stripped, length-clamped text strictly between borders `i` and `i + 1`. */
  function Cells(line: string, border: seq<nat>): (cells: seq<string>)
    ensures |cells| == if |border| == 0 then 0 else |border| - 1
    ensures forall i :: 0 <= i < |cells| ==> NoOuterSpace(cells[i])
  {
    var n := if |border| == 0 then 0 else |border| - 1;
    seq(n, i requires 0 <= i < n => Cell(line, border, i))
  }

  /** `line[start + 1:end].strip()` for the borders `start, end` at `i` and `i + 1`. */
  function Cell(line: string, border: seq<nat>, i: nat): string
    requires i + 1 < |border|
  {
    Strip(Slice(line, border[i] + 1, border[i + 1]))
  }

  /** `zip(a, b)`. */
  function Zip<A, B>(a: seq<A>, b: seq<B>): (z: seq<(A, B)>)
    ensures |z| == Min(|a|, |b|)
    ensures forall i :: 0 <= i < |z| ==> z[i] == (a[i], b[i])
  {
    seq(Min(|a|, |b|), i requires 0 <= i < Min(|a|, |b|) => (a[i], b[i]))
  }

  /** Zipping with a sequence that is at least as long keeps the first sequence as the keys. */
  lemma ZipKeys<B>(a: seq<string>, b: seq<B>)
    requires |a| <= |b|
    ensures Keys(Zip(a, b)) == a
  {
    var z := Zip(a, b);
    assert |Keys(z)| == |a|;
    forall i | 0 <= i < |a| ensures Keys(z)[i] == a[i] {
      assert z[i] == (a[i], b[i]);
    }
  }

  /** `dict(zip(header, cells))`. */
  function MakeRecord(header: seq<string>, cells: seq<string>): Record
  {
    PutAll([], Zip(header, cells))
  }

  /** A record has one key per header name and no other. */
  lemma RecordKeys(header: seq<string>, cells: seq<string>)
    requires |header| == |cells|
    ensures var r := MakeRecord(header, cells);
      DistinctKeys(r) && forall k :: k in Keys(r) <==> k in header
  {
    var z := Zip(header, cells);
    forall k ensures k in Keys(z) <==> k in header {
      if k in header {
        var i :| 0 <= i < |header| && header[i] == k;
        assert Keys(z)[i] == k;
      }
    }
  }

  /** When a header name is repeated, the last column with that name gives its value. */
  lemma RecordLastWins(header: seq<string>, cells: seq<string>, i: nat)
    requires |header| == |cells| && i < |header|
    requires forall j :: i < j < |header| ==> header[j] != header[i]
    ensures Get(MakeRecord(header, cells), header[i]) == Some(cells[i])
  {
    PutAllLast([], Zip(header, cells), i);
  }

  /** With distinct header names the record is the header and the cells paired up in order. */
  lemma RecordDistinct(header: seq<string>, cells: seq<string>)
    requires |header| == |cells|
    requires forall i, j :: 0 <= i < j < |header| ==> header[i] != header[j]
    ensures MakeRecord(header, cells) == Zip(header, cells)
  {
    var z := Zip(header, cells);
    assert [] + z == z;
    PutAllFresh([], z);
  }

  /** The record of one data row. */
  function RowRecord(row: string, border: seq<nat>, header: seq<string>): Record
  {
    MakeRecord(header, Cells(row, border))
  }

  /** The records of the lines after the header: one per line that starts and ends with `|`,
      mirroring the loop over those lines. */
  function Records(rows: seq<string>, border: seq<nat>, header: seq<string>): seq<Record>
  {
    if rows == [] then []
    else
      var last := rows[|rows| - 1];
      Records(rows[..|rows| - 1], border, header) +
      (if IsRowLine(last) then [RowRecord(last, border, header)] else [])
  }

  /** The whole of `from_table` over the lines of its input. */
  function FromTableSpec(lines: seq<string>): seq<Record>
  {
    if |lines| == 0 || !IsBorderLine(lines[0]) then []
    else if |lines| == 1 || !IsRowLine(lines[1]) then []
    else
      var border := Borders(lines[0]);
      Records(lines[2..], border, Cells(lines[1], border))
  }

  /** The data rows: the lines that start and end with `|`, in input order. */
  function RowLines(rows: seq<string>): (r: seq<string>)
    ensures |r| <= |rows|
    ensures forall i :: 0 <= i < |r| ==> IsRowLine(r[i]) && r[i] in rows
    ensures forall i :: 0 <= i < |rows| && IsRowLine(rows[i]) ==> rows[i] in r
  {
    if rows == [] then []
    else
      var last := rows[|rows| - 1];
      RowLines(rows[..|rows| - 1]) + (if IsRowLine(last) then [last] else [])
  }

  /** Taking one more line adds its record when it is a row line and nothing otherwise. */
  lemma RecordsStep(lines: seq<string>, i: nat, border: seq<nat>, header: seq<string>)
    requires 2 <= i < |lines|
    ensures Records(lines[2..i + 1], border, header) == Records(lines[2..i], border, header) +
      (if IsRowLine(lines[i]) then [RowRecord(lines[i], border, header)] else [])
  {
    assert lines[2..i + 1][..i - 2] == lines[2..i];
  }

  /** One record per data row, in order, each cut from that row. */
  lemma {:induction false} RecordsOfRows(rows: seq<string>, border: seq<nat>, header: seq<string>)
    ensures var recs, data := Records(rows, border, header), RowLines(rows);
      |recs| == |data| &&
      forall j :: 0 <= j < |recs| ==> recs[j] == RowRecord(data[j], border, header)
  {
    if rows != [] {
      RecordsOfRows(rows[..|rows| - 1], border, header);
    }
  }

  /** Records of consecutive pieces of input concatenate. */
  lemma {:induction false} RecordsConcat(a: seq<string>, c: seq<string>, border: seq<nat>, header: seq<string>)
    ensures Records(a + c, border, header) == Records(a, border, header) + Records(c, border, header)
  {
    if c == [] {
      assert a + c == a;
    } else {
      var c0 := c[..|c| - 1];
      assert (a + c)[..|a + c| - 1] == a + c0;
      assert (a + c)[|a + c| - 1] == c[|c| - 1];
      RecordsConcat(a, c0, border, header);
    }
  }

  /** A separator or any other non-row line changes nothing about the records around it. */
  lemma SkippedLine(a: seq<string>, x: string, c: seq<string>, border: seq<nat>, header: seq<string>)
    requires !IsRowLine(x)
    ensures Records(a + [x] + c, border, header) == Records(a + c, border, header)
  {
    RecordsConcat(a + [x], c, border, header);
    RecordsConcat(a, c, border, header);
    assert (a + [x])[..|a + [x]| - 1] == a;
  }

  /** What `from_table` returns on a table with a border line and a header line: one record
      per later row line, in order, cut from that row with the header's borders; its keys are
      the header names, `len(border) - 1` of them when the names differ. */
  lemma TableResult(lines: seq<string>)
    requires |lines| >= 2 && IsBorderLine(lines[0]) && IsRowLine(lines[1])
    ensures var border := Borders(lines[0]);
      var header := Cells(lines[1], border);
      var data := RowLines(lines[2..]);
      var r := FromTableSpec(lines);
      |header| == |border| - 1 && |r| == |data| &&
      forall j :: 0 <= j < |r| ==>
        r[j] == RowRecord(data[j], border, header) &&
        forall k :: k in Keys(r[j]) <==> k in header
  {
    var border := Borders(lines[0]);
    var header := Cells(lines[1], border);
    var data := RowLines(lines[2..]);
    RecordsOfRows(lines[2..], border, header);
    forall j | 0 <= j < |data|
      ensures forall k :: k in Keys(RowRecord(data[j], border, header)) <==> k in header
    {
      RecordKeys(header, Cells(data[j], border));
    }
  }

  /** With distinct header names, entry `i` of a record is header name `i` with the stripped,
      length-clamped text of the row between borders `i` and `i + 1`. */
  lemma RecordEntries(row: string, border: seq<nat>, header: seq<string>, i: nat)
    requires |header| == |border| - 1 && i < |header|
    requires forall m, n :: 0 <= m < n < |header| ==> header[m] != header[n]
    ensures var r := RowRecord(row, border, header);
      |r| == |header| && r[i] == (header[i], Strip(Slice(row, border[i] + 1, border[i + 1])))
  {
    var cells := Cells(row, border);
    assert cells[i] == Cell(row, border, i);
    RecordAt(header, cells, i);
  }

  lemma RecordAt(header: seq<string>, cells: seq<string>, i: nat)
    requires |header| == |cells| && i < |header|
    requires forall m, n :: 0 <= m < n < |header| ==> header[m] != header[n]
    ensures var r := MakeRecord(header, cells);
      |r| == |header| && r[i] == (header[i], cells[i])
  {
    RecordDistinct(header, cells);
    assert Zip(header, cells)[i] == (header[i], cells[i]);
  }

  /** `from_table` over the lines of its input, as the source runs it: `line_num` counts the
      lines taken so far, `break` ends the scan, `continue` skips a line. */
  method FromTable(lines: seq<string>) returns (result: seq<Record>)
    ensures result == FromTableSpec(lines)
    ensures (|lines| == 0 || !IsBorderLine(lines[0])) ==> result == []
    ensures (|lines| < 2 || !IsRowLine(lines[1])) ==> result == []
  {
    result := [];
    var header: seq<string> := [];
    var border: seq<nat> := [];
    var lineNum: nat := 0;
    var i := 0;
    while i < |lines|
      invariant 0 <= i <= |lines| && lineNum <= i
      invariant lineNum == 0 ==> i == 0
      invariant lineNum == 1 ==> i == 1
      invariant lineNum >= 1 ==> IsBorderLine(lines[0]) && border == Borders(lines[0])
      invariant lineNum >= 2 ==> i >= 2 && IsRowLine(lines[1]) && header == Cells(lines[1], border)
      invariant lineNum >= 2 ==> result == Records(lines[2..i], border, header)
      invariant lineNum < 2 ==> result == []
    {
      var line := lines[i];
      if lineNum == 0 {
        if IsBorderLine(line) {
          border := Borders(line);
        } else {
          SpecNoBorder(lines);
          break;
        }
      } else if lineNum == 1 {
        if IsRowLine(line) {
          header := Cells(line, border);
          assert lines[2..i + 1] == [];
        } else {
          SpecNoHeader(lines);
          break;
        }
      } else {
        RecordsStep(lines, i, border, header);
        if IsRowLine(line) {
          result := result + [RowRecord(line, border, header)];
        } else {
          // grid lines and other unformatted lines are ignored
          i := i + 1;
          continue;
        }
      }
      lineNum := lineNum + 1;
      i := i + 1;
    }
    if lineNum >= 2 {
      SpecTable(lines);
      assert lines[2..i] == lines[2..];
    } else if lineNum == 1 {
      SpecNoHeader(lines);
    } else {
      SpecNoBorder(lines);
    }
  }

  lemma SpecNoBorder(lines: seq<string>)
    requires |lines| == 0 || !IsBorderLine(lines[0])
    ensures FromTableSpec(lines) == []
  {
  }

  lemma SpecNoHeader(lines: seq<string>)
    requires |lines| < 2 || !IsRowLine(lines[1])
    ensures FromTableSpec(lines) == []
  {
  }

  lemma SpecTable(lines: seq<string>)
    requires |lines| >= 2 && IsBorderLine(lines[0]) && IsRowLine(lines[1])
    ensures FromTableSpec(lines) == Records(lines[2..], Borders(lines[0]), Cells(lines[1], Borders(lines[0])))
  {
  }

  method FromTableFilter(data: HostValue) returns (r: Result<seq<Record>, FilterError>)
    ensures !data.StrV? ==>
      r == Failure(FilterError("from_prettytable requires a string, got " + TypeName(data) + " instead"))
    ensures data.StrV? ==> r == Success(FromTableSpec(SplitLines(data.s)))
  {
    if !data.StrV? {
      return Failure(FilterError("from_prettytable requires a string, got " + TypeName(data) + " instead"));
    }
    var records := FromTable(SplitLines(data.s));
    r := Success(records);
  }
}
