/**
 * `convertToBinaryMatrix`: the OTU table written by usearch is copied with its
 * header line unchanged and every count above zero replaced by 1, so each row
 * records presence rather than abundance.
 */
module Binary {
  import opened Strings

  /** One data row of the OTU table: its first field and the counts after it. */
  datatype Row = Row(id: string, cells: seq<int>)

  /** `array[array>0] = 1` on one value. */
  function BinaryCell(v: int): int
  {
    if v > 0 then 1 else v
  }

  /** The counts of a row after `array[array>0] = 1`. */
  function BinarizedCells(cells: seq<int>): (r: seq<int>)
  {
    seq(|cells|, k requires 0 <= k < |cells| => BinaryCell(cells[k]))
  }

  /** The row written for a data row: its id and its binarised counts. */
  function BinarizedRow(row: Row): Row
  {
    Row(row.id, BinarizedCells(row.cells))
  }

  /** Binarising keeps the number of counts and turns exactly the positive counts
      into 1; every other count, negative ones included, is kept as it is. */
  lemma BinarizedCellsPointwise(cells: seq<int>)
    ensures |BinarizedCells(cells)| == |cells|
    ensures forall k :: 0 <= k < |cells| ==>
      (cells[k] > 0 ==> BinarizedCells(cells)[k] == 1) && (cells[k] <= 0 ==> BinarizedCells(cells)[k] == cells[k])
  {
  }

  /** A count is positive after binarising exactly when it was positive before: the
      presence pattern of the row is kept. */
  lemma BinarizeKeepsPresence(cells: seq<int>)
    ensures forall k :: 0 <= k < |cells| ==> (BinarizedCells(cells)[k] > 0 <==> cells[k] > 0)
  {
  }

  /** Binarising a second time changes nothing. */
  lemma BinarizeIdempotent(cells: seq<int>)
    ensures BinarizedCells(BinarizedCells(cells)) == BinarizedCells(cells)
  {
    var once := BinarizedCells(cells);
    forall k | 0 <= k < |cells|
      ensures BinarizedCells(once)[k] == once[k]
    {
    }
  }

  /** A row is left unchanged exactly when none of its counts exceeds 1; in particular
      a row of zeros and ones is a fixed point. */
  lemma BinarizeFixedIff(cells: seq<int>)
    ensures BinarizedCells(cells) == cells <==> forall k :: 0 <= k < |cells| ==> cells[k] <= 1
  {
    if BinarizedCells(cells) == cells {
      forall k | 0 <= k < |cells|
        ensures cells[k] <= 1
      {
        assert BinarizedCells(cells)[k] == BinaryCell(cells[k]);
      }
    }
  }

  /** Counts that are never negative become a 0/1 presence row. */
  lemma BinarizeCounts(cells: seq<int>)
    requires forall k :: 0 <= k < |cells| ==> cells[k] >= 0
    ensures forall k :: 0 <= k < |cells| ==> BinarizedCells(cells)[k] == 0 || BinarizedCells(cells)[k] == 1
    ensures forall k :: 0 <= k < |cells| ==> (BinarizedCells(cells)[k] == 1 <==> cells[k] != 0)
  {
  }

  /** `array[array>0] = 1` on the numpy array of one row, done element by element in
      place. */
  method BinarizeInPlace(a: array<int>)
    modifies a
    ensures a[..] == BinarizedCells(old(a[..]))
  {
    var i := 0;
    while i < a.Length
      invariant 0 <= i <= a.Length
      invariant forall k :: 0 <= k < i ==> a[k] == BinaryCell(old(a[k]))
      invariant forall k :: i <= k < a.Length ==> a[k] == old(a[k])
    {
      if a[i] > 0 {
        a[i] := 1;
      }
      i := i + 1;
    }
  }

  /** str() of a digit. */
  function DigitChar(d: nat): (c: char)
    requires d < 10
    ensures '0' <= c <= '9'
  {
    ('0' as int + d) as char
  }

  /** The decimal digits of a natural number, most significant first, without
      leading zeros. */
  function NatToString(n: nat): string
    decreases n
  {
    if n < 10 then [DigitChar(n)] else NatToString(n / 10) + [DigitChar(n % 10)]
  }

  /** `str()` of an integer value of the array: an optional `-` and then the digits. */
  function IntToString(v: int): string
  {
    if v < 0 then "-" + NatToString(-v) else NatToString(v)
  }

  predicate IsDigit(c: char)
  {
    '0' <= c <= '9'
  }

  /** The value of a string of decimal digits. */
  function DigitsValue(s: string): int
    decreases |s|
  {
    if s == [] then 0 else DigitsValue(s[..|s| - 1]) * 10 + (s[|s| - 1] as int - '0' as int)
  }

  /** `int()` of an optional `-` followed by decimal digits. */
  function ParseInt(s: string): int
  {
    if s != [] && s[0] == '-' then -DigitsValue(s[1..]) else DigitsValue(s)
  }

  /** The decimal text of `n` is a non-empty run of digits whose value is `n`, with no
      leading zero unless `n` is zero. */
  lemma {:induction false} NatToStringDigits(n: nat)
    ensures NatToString(n) != []
    ensures forall k :: 0 <= k < |NatToString(n)| ==> IsDigit(NatToString(n)[k])
    ensures DigitsValue(NatToString(n)) == n
    ensures NatToString(n)[0] == '0' <==> n == 0
    decreases n
  {
    if n >= 10 {
      var front := NatToString(n / 10);
      NatToStringDigits(n / 10);
      var r := front + [DigitChar(n % 10)];
      assert NatToString(n) == r;
      assert r[..|r| - 1] == front;
      assert r[0] == front[0];
      forall k | 0 <= k < |r|
        ensures IsDigit(r[k])
      {
        if k < |front| {
          assert r[k] == front[k];
        }
      }
    }
  }

  /** `int(str(v)) == v`: the text written for a count reads back as that count. */
  lemma IntToStringParses(v: int)
    ensures ParseInt(IntToString(v)) == v
  {
    if v < 0 {
      NatToStringDigits(-v);
      assert ("-" + NatToString(-v))[1..] == NatToString(-v);
    } else {
      NatToStringDigits(v);
      assert IsDigit(NatToString(v)[0]);
    }
  }

  /** The text written for a count is a single field: not empty and free of tabs and
      newlines. */
  lemma IntToStringIsField(v: int)
    ensures IntToString(v) != []
    ensures '\t' !in IntToString(v) && '\n' !in IntToString(v)
  {
    var n: nat := if v < 0 then -v else v;
    NatToStringDigits(n);
    var digits := NatToString(n);
    assert forall c :: c in digits ==> IsDigit(c);
  }

  /** `list(array.astype('str'))`. */
  function CellStrings(cells: seq<int>): (r: seq<string>)
  {
    seq(|cells|, k requires 0 <= k < |cells| => IntToString(cells[k]))
  }

  /** The line written for a row: its fields joined by tabs, then a newline. */
  function FormatRow(row: Row): string
  {
    Join([row.id] + CellStrings(row.cells), '\t') + "\n"
  }

  /** A written row is one line whose tab-separated fields are the id followed by
      the decimal text of each count, and each of those reads back as the count. */
  lemma FormatRowFields(row: Row)
    requires '\t' !in row.id
    ensures var line := FormatRow(row);
      && line[|line| - 1] == '\n'
      && var fields := Split(line[..|line| - 1], '\t');
      && |fields| == |row.cells| + 1
      && fields[0] == row.id
      && forall k :: 0 <= k < |row.cells| ==> ParseInt(fields[k + 1]) == row.cells[k]
  {
    var parts := [row.id] + CellStrings(row.cells);
    forall k | 0 <= k < |parts|
      ensures '\t' !in parts[k]
    {
      if k > 0 {
        IntToStringIsField(row.cells[k - 1]);
      }
    }
    SplitJoin(parts, '\t');
    var line := FormatRow(row);
    assert line[..|line| - 1] == Join(parts, '\t');
    forall k | 0 <= k < |row.cells|
      ensures ParseInt(parts[k + 1]) == row.cells[k]
    {
      IntToStringParses(row.cells[k]);
    }
  }

  /** `convertToBinaryMatrix` on an already tokenised table: the header line is
      copied as it is, and every data row is written, in order, as its id and its
      binarised counts. Each row's counts go through a fresh array that is binarised
      in place. */
  method ConvertToBinaryMatrix(header: string, rows: seq<Row>) returns (output: seq<string>)
    ensures |output| == |rows| + 1
    ensures output[0] == header
    ensures forall k :: 0 <= k < |rows| ==> output[k + 1] == FormatRow(BinarizedRow(rows[k]))
  {
    output := [header];
    var i := 0;
    while i < |rows|
      invariant i <= |rows|
      invariant |output| == i + 1
      invariant output[0] == header
      invariant forall k :: 0 <= k < i ==> output[k + 1] == FormatRow(BinarizedRow(rows[k]))
    {
      var cells := rows[i].cells;
      var a := new int[|cells|](k requires 0 <= k < |cells| => cells[k]);
      assert a[..] == cells;
      BinarizeInPlace(a);
      output := output + [FormatRow(Row(rows[i].id, a[..]))];
      i := i + 1;
    }
  }

  /** The row `OTU1 3 0 5` of an abundance table is written as `OTU1 1 0 1`. */
  lemma OtuRowExample()
    ensures FormatRow(BinarizedRow(Row("OTU1", [3, 0, 5]))) == "OTU1\t1\t0\t1\n"
  {
    assert BinarizedCells([3, 0, 5]) == [1, 0, 1];
    assert NatToString(1) == "1" && NatToString(0) == "0";
    assert CellStrings([1, 0, 1]) == ["1", "0", "1"];
    assert Join(["0", "1"], '\t') == "0\t1";
    assert Join(["1", "0", "1"], '\t') == "1\t0\t1";
    assert Join(["OTU1", "1", "0", "1"], '\t') == "OTU1\t1\t0\t1";
  }
}
