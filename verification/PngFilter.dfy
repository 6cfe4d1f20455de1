/** The scanline reconstruction of tools/generate_assets.py, as the inverse of the filters of PNG. */
module PngFilter {
  import opened Collections
  import opened Words

  // ----- The five predictors -----

  function Distance(a: int, b: int): nat {
    if a < b then b - a else a - b
  }

  /** The neighbour nearest to left + above - upper left; ties go to left, then to above. */
  function Paeth(left: byte, above: byte, upperLeft: byte): byte {
    var estimate := left + above - upperLeft;
    var d0, d1, d2 := Distance(estimate, left), Distance(estimate, above), Distance(estimate, upperLeft);
    if d0 <= d1 && d0 <= d2 then left else if d1 <= d2 then above else upperLeft
  }

  function Predicted(filter: byte, left: byte, above: byte, upperLeft: byte): byte
    requires filter <= 4
  {
    if filter == 0 then 0
    else if filter == 1 then left
    else if filter == 2 then above
    else if filter == 3 then (left + above) / 2
    else Paeth(left, above, upperLeft)
  }

  /** The byte one pixel to the left, 0 in the first pixel. */
  function LeftOf(row: seq<byte>, i: nat): byte
    requires i < |row|
  {
    if i >= 4 then row[i - 4] else 0
  }

  /** What the predictor says for byte `i` of a row whose earlier bytes are known. */
  function PredictedAt(filter: byte, row: seq<byte>, previous: seq<byte>, i: nat): byte
    requires filter <= 4 && i < |row| == |previous|
  {
    Predicted(filter, LeftOf(row, i), previous[i], LeftOf(previous, i))
  }

  /** `value & 255` */
  function LowByte(value: int): byte {
    value % 256
  }

  // ----- Filtering and reconstructing a row -----

  /** What an encoder writes for a row. */
  function Filtered(filter: byte, row: seq<byte>, previous: seq<byte>): (out: seq<byte>)
    requires filter <= 4 && |row| == |previous|
    ensures |out| == |row|
  {
    seq<byte>(|row|, (i: nat) requires i < |row| => LowByte(row[i] - PredictedAt(filter, row, previous, i)))
  }

  /** The row with its first `n` bytes reconstructed, each from those before it. */
  function RebuiltTo(filter: byte, row: seq<byte>, previous: seq<byte>, n: nat): (out: seq<byte>)
    requires filter <= 4 && |row| == |previous| && n <= |row|
    ensures |out| == |row|
    ensures forall i :: n <= i < |row| ==> out[i] == row[i]
  {
    if n == 0 then row
    else
      var before := RebuiltTo(filter, row, previous, n - 1);
      before[n - 1 := LowByte(before[n - 1] + PredictedAt(filter, before, previous, n - 1))]
  }

  lemma RebuiltNext(filter: byte, row: seq<byte>, previous: seq<byte>, n: nat)
    requires n < |row| == |previous|
    ensures filter <= 4 ==> var before := RebuiltTo(filter, row, previous, n);
      RebuiltTo(filter, row, previous, n + 1)
      == before[n := LowByte(before[n] + PredictedAt(filter, before, previous, n))]
  {
  }

  function Rebuilt(filter: byte, row: seq<byte>, previous: seq<byte>): (out: seq<byte>)
    requires filter <= 4 && |row| == |previous|
    ensures |out| == |row|
  {
    RebuiltTo(filter, row, previous, |row|)
  }

  lemma AddBack(x: byte, p: byte)
    ensures LowByte(LowByte(x - p) + p) == x && LowByte(LowByte(x + p) - p) == x
  {
    Wraps(x - p);
    Wraps(x + p);
    Wraps(LowByte(x - p) + p);
    Wraps(LowByte(x + p) - p);
  }

  lemma Wraps(value: int)
    requires -256 <= value < 512
    ensures LowByte(value) == if value < 0 then value + 256 else if value < 256 then value else value - 256
  {
  }

  lemma SamePrediction(filter: byte, a: seq<byte>, b: seq<byte>, previous: seq<byte>, i: nat)
    requires filter <= 4 && i < |a| == |b| == |previous| && a[..i] == b[..i]
    ensures PredictedAt(filter, a, previous, i) == PredictedAt(filter, b, previous, i)
  {
    if i >= 4 {
      assert a[..i][i - 4] == b[..i][i - 4];
    }
  }

  lemma {:induction false} RebuildFilteredTo(filter: byte, row: seq<byte>, previous: seq<byte>, n: nat)
    requires filter <= 4 && |row| == |previous| && n <= |row|
    ensures RebuiltTo(filter, Filtered(filter, row, previous), previous, n)[..n] == row[..n]
  {
    hide PredictedAt;
    if n > 0 {
      RebuildFilteredTo(filter, row, previous, n - 1);
      var before := RebuiltTo(filter, Filtered(filter, row, previous), previous, n - 1);
      SamePrediction(filter, before, row, previous, n - 1);
      AddBack(row[n - 1], PredictedAt(filter, row, previous, n - 1));
      assert before[n - 1 := row[n - 1]][..n] == before[..n - 1] + [row[n - 1]];
      assert row[..n] == row[..n - 1] + [row[n - 1]];
    }
  }

  /** Reconstruction undoes every filter. */
  lemma RebuildFiltered(filter: byte, row: seq<byte>, previous: seq<byte>)
    requires filter <= 4 && |row| == |previous|
    ensures Rebuilt(filter, Filtered(filter, row, previous), previous) == row
  {
    RebuildFilteredTo(filter, row, previous, |row|);
    assert row[..|row|] == row;
    var out := Rebuilt(filter, Filtered(filter, row, previous), previous);
    assert out[..|row|] == out;
  }

  lemma {:induction false} RebuiltKeeps(filter: byte, row: seq<byte>, previous: seq<byte>, n: nat, m: nat)
    requires filter <= 4 && |row| == |previous| && n <= m <= |row|
    ensures RebuiltTo(filter, row, previous, m)[..n] == RebuiltTo(filter, row, previous, n)[..n]
    decreases m
  {
    hide PredictedAt;
    if n < m {
      RebuiltKeeps(filter, row, previous, n, m - 1);
    }
  }

  lemma FilterRebuiltAt(filter: byte, row: seq<byte>, previous: seq<byte>, i: nat)
    requires filter <= 4 && i < |row| == |previous|
    ensures Filtered(filter, Rebuilt(filter, row, previous), previous)[i] == row[i]
  {
    var out := Rebuilt(filter, row, previous);
    var before := RebuiltTo(filter, row, previous, i);
    RebuiltKeeps(filter, row, previous, i + 1, |row|);
    RebuiltKeeps(filter, row, previous, i, |row|);
    assert out[..i + 1][i] == RebuiltTo(filter, row, previous, i + 1)[..i + 1][i];
    SamePrediction(filter, before, out, previous, i);
    hide PredictedAt;
    AddBack(row[i], PredictedAt(filter, before, previous, i));
  }

  /** And filtering undoes the reconstruction: no two filtered rows give the same row. */
  lemma FilterRebuilt(filter: byte, row: seq<byte>, previous: seq<byte>)
    requires filter <= 4 && |row| == |previous|
    ensures Filtered(filter, Rebuilt(filter, row, previous), previous) == row
  {
    forall i | 0 <= i < |row| ensures Filtered(filter, Rebuilt(filter, row, previous), previous)[i] == row[i] {
      FilterRebuiltAt(filter, row, previous, i);
    }
  }

  /** The predictor of filter 4 is a neighbour no other neighbour is nearer to the estimate than. */
  lemma PaethIsNearest(left: byte, above: byte, upperLeft: byte)
    ensures var p, estimate := Paeth(left, above, upperLeft), left + above - upperLeft;
      && p in {left, above, upperLeft}
      && (forall q :: q in {left, above, upperLeft} ==> Distance(estimate, p) <= Distance(estimate, q))
      && (Distance(estimate, p) == Distance(estimate, left) ==> p == left)
      && (p != left && Distance(estimate, p) == Distance(estimate, above) ==> p == above)
  {
  }

  // ----- Whole images -----

  lemma Tails(filters: seq<byte>, rows: seq<seq<byte>>)
    requires filters != [] && rows != []
    ensures rows[0] in rows && filters[0] in filters
    ensures forall r :: r in rows[1..] ==> r in rows
    ensures forall f :: f in filters[1..] ==> f in filters
  {
  }

  /** The stream an encoder makes: for each row its filter type and the filtered bytes. */
  function Stream(filters: seq<byte>, rows: seq<seq<byte>>, previous: seq<byte>): seq<byte>
    requires |filters| == |rows| && forall f :: f in filters ==> f <= 4
    requires forall r :: r in rows ==> |r| == |previous|
    decreases |rows|
  {
    if rows == [] then []
    else
      Tails(filters, rows);
      [filters[0]] + Filtered(filters[0], rows[0], previous) + Stream(filters[1..], rows[1..], rows[0])
  }

  /** The bytes that follow the filter type, as far as the stream has them. */
  function Line(stream: seq<byte>, stride: nat): (line: seq<byte>)
    requires stream != []
    ensures |line| <= stride
  {
    if |stream| < 1 + stride then stream[1..] else stream[1..1 + stride]
  }

  function AfterRow(stream: seq<byte>, stride: nat): seq<byte> {
    if |stream| < 1 + stride then [] else stream[1 + stride..]
  }

  /** The row a stream begins with; `None` where reading it raises an error. Filter 0 looks at no byte
      of its own row but the one a pixel to the left, so up to four missing bytes go unnoticed. */
  function FirstRow(stream: seq<byte>, previous: seq<byte>): (row: Option<seq<byte>>)
    ensures row.Some? ==> stream != [] && |row.value| <= |previous|
    ensures row.Some? && |row.value| < |previous| ==> |stream| < 1 + |previous|
  {
    if stream == [] then None
    else if previous == [] then Some([])
    else
      var line := Line(stream, |previous|);
      if stream[0] == 0 && |line| + 4 >= |previous| then Some(line)
      else if 1 <= stream[0] <= 4 && |line| == |previous| then Some(Rebuilt(stream[0], line, previous))
      else None
  }

  /** What the reader makes of a stream; `None` where it raises an error. */
  function Rows(stream: seq<byte>, height: nat, previous: seq<byte>): Option<seq<seq<byte>>>
    decreases height
  {
    if height == 0 then Some([])
    else
      var row := FirstRow(stream, previous);
      if row.None? then None
      else
        var rest := Rows(AfterRow(stream, |previous|), height - 1, row.value);
        if rest.None? then None else Some([row.value] + rest.value)
  }

  /** Row `k` has its filter type, a known one, and its bytes; only with filter 0 up to four of them
      may be missing. */
  predicate RowThere(stream: seq<byte>, stride: nat, k: nat) {
    var at := k * (stride + 1);
    && at < |stream|
    && (stride > 0 ==>
      || (stream[at] <= 4 && at + 1 + stride <= |stream|)
      || (stream[at] == 0 && at + 1 + stride <= |stream| + 4))
  }

  predicate RowsThere(stream: seq<byte>, stride: nat, n: nat) {
    forall k: nat :: k < n ==> RowThere(stream, stride, k)
  }

  lemma NextOffset(stride: nat, k: nat)
    ensures (k + 1) * (stride + 1) == (stride + 1) + k * (stride + 1) && k * (stride + 1) >= 0
  {
  }

  lemma RowBehind(stream: seq<byte>, stride: nat, k: nat)
    ensures RowThere(stream, stride, k + 1) <==> |stream| >= stride + 1 && RowThere(AfterRow(stream, stride), stride, k)
  {
    NextOffset(stride, k);
  }

  lemma RowsBehind(stream: seq<byte>, stride: nat, n: nat)
    requires |stream| >= stride + 1
    ensures RowsThere(stream, stride, n + 1)
      <==> RowThere(stream, stride, 0) && RowsThere(AfterRow(stream, stride), stride, n)
  {
    hide RowThere;
    forall k: nat | k < n ensures RowThere(stream, stride, k + 1) <==> RowThere(AfterRow(stream, stride), stride, k) {
      RowBehind(stream, stride, k);
    }
    if RowThere(stream, stride, 0) && RowsThere(AfterRow(stream, stride), stride, n) {
      forall k: nat | k < n + 1 ensures RowThere(stream, stride, k) {
        if k > 0 {
          assert RowThere(AfterRow(stream, stride), stride, k - 1);
          RowBehind(stream, stride, k - 1);
        }
      }
    }
  }

  lemma FirstRowThere(stream: seq<byte>, previous: seq<byte>)
    ensures FirstRow(stream, previous).Some? <==> RowThere(stream, |previous|, 0)
  {
    assert 0 * (|previous| + 1) == 0;
  }

  /** Reading raises an error exactly when some row lacks its filter type, has an unknown one, or lacks
      bytes it needs. */
  lemma {:induction false} RowsReadable(stream: seq<byte>, height: nat, previous: seq<byte>)
    ensures Rows(stream, height, previous).Some? <==> RowsThere(stream, |previous|, height)
    decreases height
  {
    if height > 0 {
      FirstRowThere(stream, previous);
      var row := FirstRow(stream, previous);
      hide FirstRow;
      hide RowThere;
      if row.Some? && |row.value| == |previous| && |stream| >= 1 + |previous| {
        RowsReadable(AfterRow(stream, |previous|), height - 1, row.value);
        RowsBehind(stream, |previous|, height - 1);
      } else {
        if height > 1 {
          RowBehind(stream, |previous|, 0);
        }
      }
    }
  }

  lemma RowsStep(stream: seq<byte>, previous: seq<byte>, row: seq<byte>, rows: seq<seq<byte>>)
    requires FirstRow(stream, previous) == Some(row) && Rows(AfterRow(stream, |previous|), |rows|, row) == Some(rows)
    ensures Rows(stream, 1 + |rows|, previous) == Some([row] + rows)
  {
    hide FirstRow;
    hide AfterRow;
  }

  /** A stream that ends before its only row is read without an error, and gives an empty row. */
  lemma ShortRowAccepted()
    ensures Rows([0], 1, Zeros(4)) == Some([[]])
  {
    var stream: seq<byte>, none: seq<byte> := [0], [];
    assert Line(stream, 4) == none && AfterRow(stream, 4) == none;
    RowsStep(stream, Zeros(4), none, []);
    assert [none] + [] == [none];
  }

  /** Reading the stream of an image gives its rows back, for every choice of filters. */
  lemma {:induction false} ReadsBack(filters: seq<byte>, rows: seq<seq<byte>>, previous: seq<byte>, rest: seq<byte>)
    requires |filters| == |rows| && forall f :: f in filters ==> f <= 4
    requires forall r :: r in rows ==> |r| == |previous|
    ensures Rows(Stream(filters, rows, previous) + rest, |rows|, previous) == Some(rows)
    decreases |rows|
  {
    if rows != [] {
      Tails(filters, rows);
      var line, tail := Filtered(filters[0], rows[0], previous), Stream(filters[1..], rows[1..], rows[0]);
      var stream := [filters[0]] + line + (tail + rest);
      StreamStep(filters, rows, previous, rest);
      FirstOfStream(filters[0], rows[0], previous, tail + rest);
      hide Stream;
      hide Filtered;
      hide FirstRow;
      hide AfterRow;
      hide Rows;
      ReadsBack(filters[1..], rows[1..], rows[0], rest);
      RowsStep(stream, previous, rows[0], rows[1..]);
      assert rows == [rows[0]] + rows[1..];
    }
  }

  lemma StreamStep(filters: seq<byte>, rows: seq<seq<byte>>, previous: seq<byte>, rest: seq<byte>)
    requires |filters| == |rows| > 0 && forall f :: f in filters ==> f <= 4
    requires forall r :: r in rows ==> |r| == |previous|
    requires filters[0] in filters && rows[0] in rows
    requires forall f :: f in filters[1..] ==> f <= 4
    requires forall r :: r in rows[1..] ==> |r| == |rows[0]|
    ensures Stream(filters, rows, previous) + rest ==
      [filters[0]] + Filtered(filters[0], rows[0], previous) + (Stream(filters[1..], rows[1..], rows[0]) + rest)
  {
    hide Filtered;
    Regroup([filters[0]], Filtered(filters[0], rows[0], previous), Stream(filters[1..], rows[1..], rows[0]), rest);
  }

  lemma Regroup(a: seq<byte>, b: seq<byte>, c: seq<byte>, d: seq<byte>)
    ensures a + b + c + d == a + b + (c + d)
  {
  }

  lemma FirstOfStream(filter: byte, row: seq<byte>, previous: seq<byte>, rest: seq<byte>)
    requires filter <= 4 && |row| == |previous|
    ensures var stream := [filter] + Filtered(filter, row, previous) + rest;
      FirstRow(stream, previous) == Some(row) && AfterRow(stream, |previous|) == rest
  {
    var line := Filtered(filter, row, previous);
    var stream := [filter] + line + rest;
    assert Line(stream, |previous|) == line;
    assert AfterRow(stream, |previous|) == rest;
    RebuildFiltered(filter, row, previous);
    if filter == 0 {
      PlainRow(row, previous);
    }
  }

  /** Filter 0 leaves a row as it is. */
  lemma PlainRow(row: seq<byte>, previous: seq<byte>)
    requires |row| == |previous|
    ensures Filtered(0, row, previous) == row
  {
    forall i | 0 <= i < |row| ensures Filtered(0, row, previous)[i] == row[i] {
      Wraps(row[i]);
    }
  }

  // ----- The program -----

  /** The loop over the bytes of a row, in place; false where an unknown filter or a byte that is not
      there raises an error. */
  method Reconstruct(filter: byte, current: array<byte>, previous: seq<byte>) returns (done: bool)
    requires current.Length <= |previous|
    modifies current
    ensures done <==>
      previous == [] ||
        (filter <= 4 && current.Length == |previous|) || (filter == 0 && current.Length + 4 >= |previous|)
    ensures done && filter == 0 ==> current[..] == old(current[..])
    ensures done && 1 <= filter <= 4 && previous != [] ==> current[..] == Rebuilt(filter, old(current[..]), previous)
  {
    ghost var row := current[..];
    for index: nat := 0 to |previous|
      invariant index > 0 ==> filter <= 4
      invariant index >= 4 ==> index - 5 < current.Length
      invariant index > 0 && filter != 0 ==> index <= current.Length
      invariant filter == 0 ==> current[..] == row
      invariant 1 <= filter <= 4 && current.Length == |previous| ==>
        current[..] == RebuiltTo(filter, row, previous, index)
    {
      if index >= 4 && index - 4 >= current.Length {
        return false;
      }
      if 1 <= filter <= 4 {
        if index >= current.Length {
          return false;
        }
        Add(filter, current, previous, index);
        if current.Length == |previous| {
          RebuiltNext(filter, row, previous, index);
        }
      } else if filter != 0 {
        return false;
      }
    }
    return true;
  }

  /** One byte of a row: the predictor of the filter is added. */
  method Add(filter: byte, current: array<byte>, previous: seq<byte>, index: nat)
    requires 1 <= filter <= 4 && index < current.Length <= |previous|
    modifies current
    ensures current.Length == |previous| ==>
      current[..] == old(current[..])[index :=
        LowByte(old(current[index]) + PredictedAt(filter, old(current[..]), previous, index))]
  {
    hide Paeth;
    var value: int := current[index];
    var left: int := if index >= 4 then current[index - 4] else 0;
    var above: int := previous[index];
    var upperLeft: int := if index >= 4 then previous[index - 4] else 0;
    if filter == 1 {
      current[index] := LowByte(value + left);
    } else if filter == 2 {
      current[index] := LowByte(value + above);
    } else if filter == 3 {
      current[index] := LowByte(value + (left + above) / 2);
    } else {
      current[index] := LowByte(value + Paeth(left, above, upperLeft));
    }
  }

  /** The rows of a stream, when reading it raises no error; above the first row are zeros. */
  method ReadRows(decoded: seq<byte>, stride: nat, height: nat) returns (rows: Option<seq<seq<byte>>>)
    ensures rows == Rows(decoded, height, Zeros(stride))
  {
    hide FirstRow;
    var previous := Zeros(stride);
    var read := [];
    var offset: nat := 0;
    JoinedNone(Rows(decoded, height, previous));
    for done: nat := 0 to height
      invariant offset <= |decoded| ==> |previous| == stride
      invariant Rows(decoded, height, Zeros(stride)) ==
        Joined(read, Rows(From(decoded, offset), height - done, previous))
    {
      if offset >= |decoded| {
        return None;
      }
      var current := ReadRow(decoded, offset, previous);
      if current.None? {
        return None;
      }
      assert AfterRow(From(decoded, offset), stride) == From(decoded, offset + stride + 1);
      offset := offset + stride + 1;
      JoinedNext(read, current.value, Rows(From(decoded, offset), height - done - 1, current.value));
      read := read + [current.value];
      previous := current.value;
    }
    assert read + [] == read;
    return Some(read);
  }

  function From(stream: seq<byte>, offset: nat): seq<byte> {
    if offset <= |stream| then stream[offset..] else []
  }

  function Zeros(n: nat): seq<byte> {
    seq<byte>(n, _ => 0)
  }

  /** One turn of the loop over the rows: a slice past the end of the data is shorter. */
  method ReadRow(decoded: seq<byte>, offset: nat, previous: seq<byte>) returns (row: Option<seq<byte>>)
    requires offset < |decoded|
    ensures row == FirstRow(decoded[offset..], previous)
  {
    var filter := decoded[offset];
    var line := Line(decoded[offset..], |previous|);
    var current := new byte[|line|](i requires 0 <= i < |line| => line[i]);
    assert current[..] == line;
    var done := Reconstruct(filter, current, previous);
    if !done {
      return None;
    }
    assert |previous| == 0 ==> current[..] == [];
    return Some(current[..]);
  }

  ghost function Joined(read: seq<seq<byte>>, rest: Option<seq<seq<byte>>>): Option<seq<seq<byte>>> {
    if rest.None? then None else Some(read + rest.value)
  }

  lemma JoinedNone(rest: Option<seq<seq<byte>>>)
    ensures Joined([], rest) == rest
  {
    if rest.Some? {
      assert [] + rest.value == rest.value;
    }
  }

  lemma JoinedNext(read: seq<seq<byte>>, row: seq<byte>, rest: Option<seq<seq<byte>>>)
    ensures Joined(read + [row], rest) == if rest.None? then None else Joined(read, Some([row] + rest.value))
  {
    if rest.Some? {
      assert read + [row] + rest.value == read + ([row] + rest.value);
    }
  }
}
