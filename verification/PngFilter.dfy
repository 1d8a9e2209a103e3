/** Undoing the PNG scanline filters (section 6 of RFC 2083) on 8-bit RGBA images. */
module PngFilter {
  import opened Wrappers
  import opened Bytes

  datatype Error = IndexError | UnknownFilter(f: Byte)

  /** Bytes per pixel. */
  const BPP: nat := 4

  // --------------------------------------------------------------- specification

  function Abs(x: int): nat { if x < 0 then -x else x }

  /** The Paeth predictor; ties go to the left neighbour, then to the one above. */
  function Paeth(a: Byte, b: Byte, c: Byte): Byte {
    var p := a + b - c;
    var pa, pb, pc := Abs(p - a), Abs(p - b), Abs(p - c);
    if pa <= pb && pa <= pc then a else if pb <= pc then b else c
  }

  /** Byte addition modulo 256. */
  function Add(x: int, y: int): Byte { (x + y) % 256 }

  function Subtract(x: int, y: int): Byte { (x - y) % 256 }

  /** What each filter type predicts from the left, upper and upper-left neighbours. */
  function Predict(f: Byte, a: Byte, b: Byte, c: Byte): Byte {
    if f == 1 then a
    else if f == 2 then b
    else if f == 3 then (a + b) / 2
    else if f == 4 then Paeth(a, b, c)
    else 0
  }

  /** The byte one pixel to the left of position `i`; zero at the row's edge. */
  function Left(row: seq<Byte>, i: nat): Byte
    requires i < |row| + BPP
  {
    if i >= BPP then row[i - BPP] else 0
  }

  function PredictAt(f: Byte, row: seq<Byte>, prev: seq<Byte>, i: nat): Byte
    requires i < |row| + BPP && i < |prev|
  {
    Predict(f, Left(row, i), prev[i], Left(prev, i))
  }

  /** The encoder's side of one row: every byte minus its prediction from the image. */
  function FilterRow(f: Byte, row: seq<Byte>, prev: seq<Byte>): (r: seq<Byte>)
    requires |row| <= |prev|
    ensures |r| == |row|
  {
    seq(|row|, i requires 0 <= i < |row| => Subtract(row[i], PredictAt(f, row, prev, i)))
  }

  /** The decoder's side: the first `n` bytes of the row, each from already restored ones. */
  ghost function Restored(f: Byte, line: seq<Byte>, prev: seq<Byte>, n: nat): (r: seq<Byte>)
    requires n <= |line| <= |prev|
    ensures |r| == n
  {
    if n == 0 then []
    else
      var done := Restored(f, line, prev, n - 1);
      done + [Add(line[n - 1], PredictAt(f, done, prev, n - 1))]
  }

  /** Restoring one line as the script does it, its failures on a truncated file included.
      Only the unfiltered type and a one-pixel Sub row never look at a missing byte. */
  ghost function RowResult(f: Byte, line: seq<Byte>, prev: seq<Byte>, stride: nat): (r: Result<seq<Byte>, Error>)
    requires |line| <= stride == |prev|
    ensures r.Ok? ==> |r.value| == |line|
  {
    if f > 4 then Err(UnknownFilter(f))
    else if |line| < stride && f != 0 && !(f == 1 && stride <= BPP) then Err(IndexError)
    else Ok(Restored(f, line, prev, |line|))
  }

  /** `height` rows from offset `o` on. */
  ghost function Decode(raw: seq<Byte>, o: nat, stride: nat, height: nat, prev: seq<Byte>): Result<seq<Byte>, Error>
    requires |prev| == stride || |raw| <= o
    decreases height
  {
    if height == 0 then Ok([])
    else if o >= |raw| then Err(IndexError)
    else
      var line := raw[o + 1..Min(o + 1 + stride, |raw|)];
      var row := RowResult(raw[o], line, prev, stride);
      if row.Err? then row
      else Prepend(row.value, Decode(raw, o + 1 + stride, stride, height - 1, row.value))
  }

  /** What stands above the first row. */
  function Zeros(n: nat): (r: seq<Byte>)
    ensures |r| == n && forall i :: 0 <= i < n ==> r[i] == 0
  {
    seq(n, _ => 0)
  }

  // ------------------------------------------------------------------- the loops

  /** Restore one line in place, left to right. */
  method UnfilterLine(f: Byte, line: array<Byte>, prev: seq<Byte>, stride: nat) returns (error: Option<Error>)
    requires line.Length <= stride == |prev|
    modifies line
    ensures var r := RowResult(f, old(line[..]), prev, stride);
            if r.Ok? then error == None && line[..] == r.value else error == Some(r.error)
  {
    if f == 0 {
      error := None;
      RestoredNone(line[..], prev, line.Length);
    } else if f == 1 {
      error := UnfilterSub(line, prev, stride);
    } else if f <= 4 {
      error := UnfilterFromAbove(f, line, prev, stride);
    } else {
      error := Some(UnknownFilter(f));
    }
  }

  /** Sub starts at the second pixel. */
  method UnfilterSub(line: array<Byte>, prev: seq<Byte>, stride: nat) returns (error: Option<Error>)
    requires line.Length <= stride == |prev|
    modifies line
    ensures if line.Length < stride && stride > BPP then error == Some(IndexError)
            else error == None && line[..] == Restored(1, old(line[..]), prev, line.Length)
  {
    hide Restored;
    ghost var original := line[..];
    RestoredEdge(original, prev, Min(BPP, line.Length));
    for i := Min(BPP, stride) to stride
      invariant i <= Max(BPP, line.Length) && i >= Min(BPP, stride)
      invariant line[..] == Restored(1, original, prev, Min(i, line.Length)) + original[Min(i, line.Length)..]
    {
      if i >= line.Length {
        return Some(IndexError);
      }
      RestoredNext(1, original, prev, i);
      line[i] := Add(line[i], line[i - BPP]);
    }
    error := None;
  }

  function Max(a: nat, b: nat): nat { if a <= b then b else a }

  /** Up, Average and Paeth read the previous row and start at the first byte. */
  method UnfilterFromAbove(f: Byte, line: array<Byte>, prev: seq<Byte>, stride: nat) returns (error: Option<Error>)
    requires line.Length <= stride == |prev| && 2 <= f <= 4
    modifies line
    ensures if line.Length < stride then error == Some(IndexError)
            else error == None && line[..] == Restored(f, old(line[..]), prev, line.Length)
  {
    hide PartlyRestored;
    ghost var original := line[..];
    RestoredStart(f, original, prev);
    for i := 0 to stride
      invariant i <= line.Length
      invariant PartlyRestored(line[..], f, original, prev, i)
    {
      if i >= line.Length {
        return Some(IndexError);
      }
      RestoreByte(f, line, prev, i, original);
    }
    RestoredEnd(line[..], f, original, prev);
    error := None;
  }

  /** The first `i` bytes of `now` are restored and the rest is as it was. */
  ghost predicate PartlyRestored(now: seq<Byte>, f: Byte, original: seq<Byte>, prev: seq<Byte>, i: nat)
    requires i <= |original| <= |prev|
  {
    now == Restored(f, original, prev, i) + original[i..]
  }

  method RestoreByte(f: Byte, line: array<Byte>, prev: seq<Byte>, i: nat, ghost original: seq<Byte>)
    requires i < line.Length <= |prev| && 2 <= f <= 4 && |original| == line.Length
    requires PartlyRestored(line[..], f, original, prev, i)
    modifies line
    ensures PartlyRestored(line[..], f, original, prev, i + 1)
  {
    hide Restored, Paeth, Add;
    ghost var now := line[..];
    RestoredNext(f, original, prev, i);
    var a := if i >= BPP then line[i - BPP] else 0;
    var b := prev[i];
    var c := if i >= BPP then prev[i - BPP] else 0;
    var pred := if f == 2 then b else if f == 3 then (a + b) / 2 else Paeth(a, b, c);
    assert pred == PredictAt(f, Restored(f, original, prev, i), prev, i);
    line[i] := Add(line[i], pred);
    assert line[..] == now[i := line[i]];
  }

  lemma RestoredStart(f: Byte, line: seq<Byte>, prev: seq<Byte>)
    requires |line| <= |prev|
    ensures PartlyRestored(line, f, line, prev, 0)
  {
  }

  lemma RestoredEnd(now: seq<Byte>, f: Byte, line: seq<Byte>, prev: seq<Byte>)
    requires |line| <= |prev| && PartlyRestored(now, f, line, prev, |line|)
    ensures now == Restored(f, line, prev, |line|)
  {
  }

  lemma RestoredNext(f: Byte, line: seq<Byte>, prev: seq<Byte>, i: nat)
    requires i < |line| <= |prev|
    ensures var now := Restored(f, line, prev, i) + line[i..];
            && now[i] == line[i]
            && |now| == |line| && (i >= BPP ==> now[i - BPP] == Left(Restored(f, line, prev, i), i))
            && Restored(f, line, prev, i + 1) + line[i + 1..]
               == now[i := Add(line[i], PredictAt(f, Restored(f, line, prev, i), prev, i))]
  {
  }

  lemma {:induction false} RestoredNone(line: seq<Byte>, prev: seq<Byte>, n: nat)
    requires n <= |line| <= |prev|
    ensures Restored(0, line, prev, n) == line[..n]
  {
    if n > 0 {
      RestoredNone(line, prev, n - 1);
    }
  }

  /** Sub leaves the first pixel as it is. */
  lemma {:induction false} RestoredEdge(line: seq<Byte>, prev: seq<Byte>, n: nat)
    requires n <= |line| <= |prev| && n <= BPP
    ensures Restored(1, line, prev, n) == line[..n]
  {
    if n > 0 {
      RestoredEdge(line, prev, n - 1);
    }
  }

  /** Copy one line out of the file and restore it. */
  method UnfilterRow(f: Byte, slice: seq<Byte>, prev: seq<Byte>, stride: nat) returns (row: Result<seq<Byte>, Error>)
    requires |slice| <= stride == |prev|
    ensures row == RowResult(f, slice, prev, stride)
  {
    hide RowResult;
    var line := new Byte[|slice|](i requires 0 <= i < |slice| => slice[i]);
    assert line[..] == slice;
    var error := UnfilterLine(f, line, prev, stride);
    row := if error.Some? then Err(error.value) else Ok(line[..]);
  }

  /** The whole image. */
  method Unfilter(raw: seq<Byte>, width: nat, height: nat) returns (r: Result<seq<Byte>, Error>)
    ensures r == Decode(raw, 0, width * 4, height, Zeros(width * 4))
  {
    hide RowResult;
    var stride := width * 4;
    var out: seq<Byte> := [];
    var prev := Zeros(stride);
    var o: nat := 0;
    PrependTwice([], [], Decode(raw, 0, stride, height, prev));
    for y := 0 to height
      invariant |prev| == stride || |raw| <= o
      invariant Prepend(out, Decode(raw, o, stride, height - y, prev)) == Decode(raw, 0, stride, height, Zeros(stride))
    {
      if o >= |raw| {
        return Err(IndexError);
      }
      var row := UnfilterRow(raw[o], raw[o + 1..Min(o + 1 + stride, |raw|)], prev, stride);
      if row.Err? {
        return row;
      }
      PrependTwice(out, row.value, Decode(raw, o + 1 + stride, stride, height - y - 1, row.value));
      o, out, prev := o + 1 + stride, out + row.value, row.value;
    }
    assert out + [] == out;
    r := Ok(out);
  }

  // ------------------------------------------------------------------ round trip

  /** Restoring a filtered row gives the row back: the encoder predicts from the image, the
      decoder from what it has restored, and these agree byte by byte. */
  lemma {:induction false} RestoreFiltered(f: Byte, row: seq<Byte>, prev: seq<Byte>, n: nat)
    requires n <= |row| <= |prev|
    ensures Restored(f, FilterRow(f, row, prev), prev, n) == row[..n]
  {
    if n > 0 {
      RestoreFiltered(f, row, prev, n - 1);
      assert Left(row[..n - 1], n - 1) == Left(row, n - 1);
      AddSubtract(row[n - 1], PredictAt(f, row, prev, n - 1));
    }
  }

  lemma AddSubtract(x: Byte, p: Byte)
    ensures Add(Subtract(x, p), p) == x && Subtract(Add(x, p), p) == x
  {
    hide Add, Subtract;
    Wrapped(x, p);
    Wrapped(Subtract(x, p), p);
    Wrapped(Add(x, p), p);
  }

  lemma Wrapped(x: Byte, p: Byte)
    ensures Add(x, p) == x + p || Add(x, p) == x + p - 256
    ensures Subtract(x, p) == x - p || Subtract(x, p) == x - p + 256
  {
  }

  /** Filtering a restored row gives the line back: no two lines restore to one row. */
  lemma FilterRestored(f: Byte, line: seq<Byte>, prev: seq<Byte>)
    requires |line| <= |prev|
    ensures FilterRow(f, Restored(f, line, prev, |line|), prev) == line
  {
    var row := Restored(f, line, prev, |line|);
    forall i | 0 <= i < |line| ensures FilterRow(f, row, prev)[i] == line[i] {
      RestoredPrefix(f, line, prev, i, |line|);
      RestoredPrefix(f, line, prev, i + 1, |line|);
      AddSubtract(line[i], PredictAt(f, row, prev, i));
    }
  }

  lemma {:induction false} RestoredPrefix(f: Byte, line: seq<Byte>, prev: seq<Byte>, m: nat, n: nat)
    requires m <= n <= |line| <= |prev|
    ensures Restored(f, line, prev, m) == Restored(f, line, prev, n)[..m]
  {
    if m < n {
      RestoredPrefix(f, line, prev, m, n - 1);
    }
  }

  /** Rows of one length, each with a filter type. */
  predicate IsImage(rows: seq<seq<Byte>>, filters: seq<Byte>, stride: nat) {
    && |rows| == |filters|
    && (forall y :: 0 <= y < |rows| ==> |rows[y]| == stride) && (forall y :: 0 <= y < |filters| ==> filters[y] <= 4)
  }

  lemma FirstRow(rows: seq<seq<Byte>>, filters: seq<Byte>, stride: nat)
    requires IsImage(rows, filters, stride) && rows != []
    ensures |filters| == |rows| && |rows[0]| == stride && filters[0] <= 4 && IsImage(rows[1..], filters[1..], stride)
  {
  }

  /** The filtered stream of an image: per row a filter byte of the encoder's choice and the
      filtered line. */
  ghost function Encode(rows: seq<seq<Byte>>, filters: seq<Byte>, stride: nat, prev: seq<Byte>): seq<Byte>
    requires IsImage(rows, filters, stride) && |prev| == stride
  {
    if rows == [] then []
    else [filters[0]] + FilterRow(filters[0], rows[0], prev) + Encode(rows[1..], filters[1..], stride, rows[0])
  }

  ghost function Flatten(rows: seq<seq<Byte>>): seq<Byte> {
    if rows == [] then [] else rows[0] + Flatten(rows[1..])
  }

  /** The parts of the next row, found at their offsets. */
  lemma RowAt(raw: seq<Byte>, o: nat, f: Byte, line: seq<Byte>, rest: seq<Byte>)
    requires o <= |raw| && raw[o..] == [f] + line + rest
    ensures var next := o + 1 + |line|;
            next <= |raw| && raw[o] == f && raw[o + 1..next] == line && raw[next..] == rest
  {
    var tail := raw[o..];
    assert raw[o] == tail[0] && raw[o + 1..o + 1 + |line|] == tail[1..1 + |line|];
    assert raw[o + 1 + |line|..] == tail[1 + |line|..];
  }

  /** Decoding one whole row. */
  lemma DecodeRow(raw: seq<Byte>, o: nat, f: Byte, row: seq<Byte>, rest: seq<Byte>, stride: nat,
                                     height: nat, prev: seq<Byte>)
    requires |row| == |prev| == stride && f <= 4 && o <= |raw|
    requires raw[o..] == [f] + FilterRow(f, row, prev) + rest
    ensures Decode(raw, o, stride, height + 1, prev) == Prepend(row, Decode(raw, o + 1 + stride, stride, height, row))
  {
    RowAt(raw, o, f, FilterRow(f, row, prev), rest);
    RestoreFiltered(f, row, prev, stride);
    assert row[..stride] == row;
    hide FilterRow, Restored;
  }

  lemma {:induction false} DecodeFrom(raw: seq<Byte>, o: nat, rows: seq<seq<Byte>>, filters: seq<Byte>, stride: nat,
                                      prev: seq<Byte>)
    requires IsImage(rows, filters, stride) && |prev| == stride
    requires o <= |raw| && raw[o..] == Encode(rows, filters, stride, prev)
    ensures Decode(raw, o, stride, |rows|, prev) == Ok(Flatten(rows))
    decreases |rows|
  {
    hide FilterRow, RowResult;
    if rows != [] {
      FirstRow(rows, filters, stride);
      hide IsImage;
      var f, row := filters[0], rows[0];
      var rest := Encode(rows[1..], filters[1..], stride, row);
      assert raw[o..] == [f] + FilterRow(f, row, prev) + rest;
      RowAt(raw, o, f, FilterRow(f, row, prev), rest);
      hide Encode, Decode;
      DecodeRow(raw, o, f, row, rest, stride, |rows| - 1, prev);
      DecodeFrom(raw, o + 1 + stride, rows[1..], filters[1..], stride, row);
    }
  }

  /** For every image and every choice of filters, unfiltering undoes filtering. */
  lemma RoundTrip(rows: seq<seq<Byte>>, filters: seq<Byte>, width: nat)
    requires IsImage(rows, filters, width * 4)
    ensures Decode(Encode(rows, filters, width * 4, Zeros(width * 4)), 0, width * 4, |rows|, Zeros(width * 4))
            == Ok(Flatten(rows))
  {
    var raw := Encode(rows, filters, width * 4, Zeros(width * 4));
    assert raw[0..] == raw;
    DecodeFrom(raw, 0, rows, filters, width * 4, Zeros(width * 4));
  }

  // ------------------------------------------------- what the filters mean, in numbers

  function Distance(x: int, y: int): nat { if x < y then y - x else x - y }

  /** The Paeth choice is a neighbour nearest to left + above - upper left; of equally near ones
      the left comes first, the upper left last. */
  lemma PaethIsNearest(a: Byte, b: Byte, c: Byte)
    ensures var left: int, above: int, corner: int, r: int := a, b, c, Paeth(a, b, c);
      var p := left + above - corner;
      && (r == left || r == above || r == corner)
      && Distance(p, r) <= Distance(p, left) && Distance(p, r) <= Distance(p, above)
      && Distance(p, r) <= Distance(p, corner)
      && (Distance(p, left) == Distance(p, r) ==> r == left)
      && (r != left && Distance(p, above) == Distance(p, r) ==> r == above)
  {
  }

  /** A restored row solves the equations of its filter: four bytes to a pixel, bytes added
      modulo 256, and zeros before the row's first pixel. */
  lemma RowEquations(f: Byte, line: seq<Byte>, prev: seq<Byte>, i: nat)
    requires i < |line| <= |prev| && f <= 4
    ensures var row := Restored(f, line, prev, |line|);
      var left: int, above: int := if i < 4 then 0 else row[i - 4], prev[i];
      var corner: Byte := if i < 4 then 0 else prev[i - 4];
      var x: int, here: int := line[i], row[i];
      here == match f
              case 0 => x
              case 1 => (x + left) % 256
              case 2 => (x + above) % 256
              case 3 => (x + (left + above) / 2) % 256
              case 4 => (x + Paeth(left, above, corner)) % 256
  {
    var row := Restored(f, line, prev, |line|);
    RestoredPrefix(f, line, prev, i, |line|);
    RestoredPrefix(f, line, prev, i + 1, |line|);
    assert row[i] == row[..i + 1][i];
    assert i >= 4 ==> row[..i][i - 4] == row[i - 4];
  }
}
