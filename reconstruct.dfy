/** The scanline reconstructor: applySubFilter, applyUpFilter,
    applyAverageFilter, applyPaethFilter and applyFilters, working in place on
    the inflated buffer, each proved to leave the buffer as the pure
    functions of module Filters describe. */
module Reconstruct {
  import opened Bytes
  import opened ReturnCodes
  import opened Filters

  /** applySubFilter: the rowSize data bytes of one row start at start
      (applyFilters passes a pointer to them). */
  method ApplySubFilter(buf: array<byte>, start: nat, rowSize: nat, bpp: nat)
    requires bpp >= 1 && start + rowSize <= buf.Length
    modifies buf
    ensures buf[..] == Splice(old(buf[..]), start,
      ReconstructRow(FilterSub, old(buf[start..start + rowSize]), Zeros(rowSize), bpp))
  {
    ghost var s := buf[..];
    ghost var raw := buf[start..start + rowSize];
    ghost var row := ReconstructRow(FilterSub, raw, Zeros(rowSize), bpp);
    // the first bpp bytes have no left neighbour: the loop skips them
    forall k | 0 <= k < rowSize && k < bpp
      ensures row[k] == raw[k]
    {
      SubRowAt(raw, Zeros(rowSize), bpp, k);
    }
    var i := bpp;
    while i < rowSize
      invariant bpp <= i && (i <= rowSize || i == bpp)
      invariant forall j :: start <= j < start + rowSize && j < start + i ==> buf[j] == row[j - start]
      invariant forall j :: 0 <= j < buf.Length && !(start + bpp <= j < start + i) ==> buf[j] == s[j]
    {
      SubRowAt(raw, Zeros(rowSize), bpp, i);
      assert buf[start + i] == raw[i];
      assert buf[start + i - bpp] == row[i - bpp];
      buf[start + i] := (buf[start + i] as int + buf[start + i - bpp] as int) % 0x100;
      i := i + 1;
    }
    SpliceUnique(s, start, row, buf[..]);
  }

  /** The row a scanline pointer designates: the rowSize bytes from
      prevScanline on, or all zeros for the NULL pointer above the first row. */
  function ScanlineAbove(s: seq<byte>, prevScanline: Option<nat>, rowSize: nat): (prev: seq<byte>)
    requires prevScanline.Some? ==> prevScanline.value + rowSize <= |s|
    ensures |prev| == rowSize
    ensures forall k :: 0 <= k < rowSize ==> prev[k] == if prevScanline.None? then 0 else s[prevScanline.value + k]
  {
    match prevScanline
    case None => Zeros(rowSize)
    case Some(p) => s[p..p + rowSize]
  }

  /** The scanline pointers the filters of row rowIndex compute: the row's
      own data bytes, and the data bytes of the row above unless rowIndex is
      the first row. */
  lemma ScanlinePointers(s: seq<byte>, rowIndex: nat, rowSize: nat)
    requires Offset(rowIndex, rowSize) + rowSize + 1 <= |s|
    ensures var current := rowIndex * (rowSize + 1) + 1;
      var prevScanline := if rowIndex == 0 then None else Some((rowIndex - 1) * (rowSize + 1) + 1);
      && current == Offset(rowIndex, rowSize) + 1
      && current + rowSize <= |s|
      && (prevScanline.Some? ==> prevScanline.value + rowSize < current)
      && s[current..current + rowSize] == RowOf(s, rowIndex, rowSize)
      && ScanlineAbove(s, prevScanline, rowSize) == PrevRowOf(s, rowIndex, rowSize)
  {
    if rowIndex > 0 {
      var p: nat := rowIndex - 1;
      OffsetPrev(rowIndex, p, rowSize);
      PrevRowIs(s, rowIndex, p, rowSize);
    }
  }

  /** applyUpFilter: add the byte above; the first row is left as it is. */
  method ApplyUpFilter(buf: array<byte>, rowIndex: nat, rowSize: nat)
    requires Offset(rowIndex, rowSize) + rowSize + 1 <= buf.Length
    modifies buf
    ensures buf[..] == Splice(old(buf[..]), Offset(rowIndex, rowSize) + 1,
      ReconstructRow(FilterUp, RowOf(old(buf[..]), rowIndex, rowSize), PrevRowOf(old(buf[..]), rowIndex, rowSize), 1))
  {
    ScanlinePointers(buf[..], rowIndex, rowSize);
    if rowIndex == 0 {
      UpFirstRowUnchanged(RowOf(buf[..], rowIndex, rowSize), 1);
      SpliceSame(buf[..], 1, rowSize);
      return;
    }
    var current := rowIndex * (rowSize + 1) + 1;
    var previous := (rowIndex - 1) * (rowSize + 1) + 1;
    UpScanline(buf, current, previous, rowSize, RowOf(buf[..], rowIndex, rowSize), PrevRowOf(buf[..], rowIndex, rowSize));
  }

  /** The loop of applyUpFilter over the scanline at current, with the row
      above at previous. */
  method UpScanline(buf: array<byte>, current: nat, previous: nat, rowSize: nat, ghost raw: seq<byte>, ghost prev: seq<byte>)
    requires previous + rowSize < current && current + rowSize <= buf.Length
    requires raw == buf[current..current + rowSize] && prev == ScanlineAbove(buf[..], Some(previous), rowSize)
    modifies buf
    ensures buf[..] == Splice(old(buf[..]), current, ReconstructRow(FilterUp, raw, prev, 1))
  {
    ghost var s := buf[..];
    ghost var row := ReconstructRow(FilterUp, raw, prev, 1);
    for i := 0 to rowSize
      invariant forall j :: 0 <= j < i ==> buf[current + j] == row[j]
      invariant forall j :: 0 <= j < buf.Length && !(current <= j < current + i) ==> buf[j] == s[j]
    {
      UpRowAt(raw, prev, 1, i);
      buf[current + i] := (buf[current + i] as int + buf[previous + i] as int) % 0x100;
    }
    SpliceUnique(s, current, row, buf[..]);
  }

  /** applyAverageFilter: add the floor of the mean of the left and upper
      bytes; the missing row above the first row reads as zeros (the NULL
      prevScanline of applyAverageFilter). */
  method ApplyAverageFilter(buf: array<byte>, rowIndex: nat, rowSize: nat, bpp: nat)
    requires bpp >= 1 && Offset(rowIndex, rowSize) + rowSize + 1 <= buf.Length
    modifies buf
    ensures buf[..] == Splice(old(buf[..]), Offset(rowIndex, rowSize) + 1,
      ReconstructRow(FilterAverage, RowOf(old(buf[..]), rowIndex, rowSize), PrevRowOf(old(buf[..]), rowIndex, rowSize), bpp))
  {
    ScanlinePointers(buf[..], rowIndex, rowSize);
    var current := rowIndex * (rowSize + 1) + 1;
    var prevScanline := if rowIndex == 0 then None else Some((rowIndex - 1) * (rowSize + 1) + 1);
    AverageScanline(buf, current, prevScanline, rowSize, bpp, RowOf(buf[..], rowIndex, rowSize), PrevRowOf(buf[..], rowIndex, rowSize));
  }

  /** The loop of applyAverageFilter. */
  method AverageScanline(buf: array<byte>, current: nat, prevScanline: Option<nat>, rowSize: nat, bpp: nat,
                    ghost raw: seq<byte>, ghost prev: seq<byte>)
    requires bpp >= 1 && current + rowSize <= buf.Length
    requires prevScanline.Some? ==> prevScanline.value + rowSize < current
    requires raw == buf[current..current + rowSize] && prev == ScanlineAbove(buf[..], prevScanline, rowSize)
    modifies buf
    ensures buf[..] == Splice(old(buf[..]), current, ReconstructRow(FilterAverage, raw, prev, bpp))
  {
    ghost var s := buf[..];
    ghost var row := ReconstructRow(FilterAverage, raw, prev, bpp);
    for i := 0 to rowSize
      invariant forall j :: 0 <= j < i ==> buf[current + j] == row[j]
      invariant forall j :: 0 <= j < buf.Length && !(current <= j < current + i) ==> buf[j] == s[j]
    {
      var a: byte := if i < bpp then 0 else buf[current + i - bpp];
      var b: byte := if prevScanline.None? then 0 else buf[prevScanline.value + i];
      assert a == Left(row, i, bpp);
      assert b == prev[i];
      assert buf[current + i] == raw[i];
      AverageRowAt(raw, prev, bpp, i);
      buf[current + i] := (buf[current + i] as int + (a as int + b as int) / 2) % 0x100;
    }
    SpliceUnique(s, current, row, buf[..]);
  }

  /** applyPaethFilter: add the Paeth prediction from the left, upper and
      upper-left bytes, each zero beyond the image's top or left edge. */
  method ApplyPaethFilter(buf: array<byte>, rowIndex: nat, rowSize: nat, bpp: nat)
    requires bpp >= 1 && Offset(rowIndex, rowSize) + rowSize + 1 <= buf.Length
    modifies buf
    ensures buf[..] == Splice(old(buf[..]), Offset(rowIndex, rowSize) + 1,
      ReconstructRow(FilterPaeth, RowOf(old(buf[..]), rowIndex, rowSize), PrevRowOf(old(buf[..]), rowIndex, rowSize), bpp))
  {
    ScanlinePointers(buf[..], rowIndex, rowSize);
    var current := rowIndex * (rowSize + 1) + 1;
    var prevScanline := if rowIndex == 0 then None else Some((rowIndex - 1) * (rowSize + 1) + 1);
    PaethScanline(buf, current, prevScanline, rowSize, bpp, RowOf(buf[..], rowIndex, rowSize), PrevRowOf(buf[..], rowIndex, rowSize));
  }

  /** The loop of applyPaethFilter. */
  method PaethScanline(buf: array<byte>, current: nat, prevScanline: Option<nat>, rowSize: nat, bpp: nat,
                    ghost raw: seq<byte>, ghost prev: seq<byte>)
    requires bpp >= 1 && current + rowSize <= buf.Length
    requires prevScanline.Some? ==> prevScanline.value + rowSize < current
    requires raw == buf[current..current + rowSize] && prev == ScanlineAbove(buf[..], prevScanline, rowSize)
    modifies buf
    ensures buf[..] == Splice(old(buf[..]), current, ReconstructRow(FilterPaeth, raw, prev, bpp))
  {
    ghost var s := buf[..];
    ghost var row := ReconstructRow(FilterPaeth, raw, prev, bpp);
    for i := 0 to rowSize
      invariant forall j :: 0 <= j < i ==> buf[current + j] == row[j]
      invariant forall j :: 0 <= j < buf.Length && !(current <= j < current + i) ==> buf[j] == s[j]
    {
      var a: byte := if i < bpp then 0 else buf[current + i - bpp];
      var b: byte := if prevScanline.None? then 0 else buf[prevScanline.value + i];
      var c: byte := if i < bpp || prevScanline.None? then 0 else buf[prevScanline.value + i - bpp];
      assert a == Left(row, i, bpp);
      assert b == prev[i];
      assert c == Left(prev, i, bpp);
      assert buf[current + i] == raw[i];
      PaethRowAt(raw, prev, bpp, i);
      buf[current + i] := (buf[current + i] as int + PaethPredictor(a, b, c) as int) % 0x100;
    }
    SpliceUnique(s, current, row, buf[..]);
  }

  /** The switch of applyFilters for one row whose tag is a filter type:
      type 0 leaves the row alone, 1 to 4 call the matching filter. */
  method ApplyRowFilter(buf: array<byte>, filterType: byte, rowIndex: nat, rowSize: nat, bpp: nat)
    requires KnownFilter(filterType) && bpp >= 1 && Offset(rowIndex, rowSize) + rowSize + 1 <= buf.Length
    modifies buf
    ensures buf[..] == Splice(old(buf[..]), Offset(rowIndex, rowSize) + 1,
      ReconstructRow(filterType, RowOf(old(buf[..]), rowIndex, rowSize), PrevRowOf(old(buf[..]), rowIndex, rowSize), bpp))
  {
    ghost var before := buf[..];
    ghost var raw := RowOf(before, rowIndex, rowSize);
    ghost var prev := PrevRowOf(before, rowIndex, rowSize);
    var start := Offset(rowIndex, rowSize) + 1;
    if filterType == FilterNone {
      NoneRowUnchanged(raw, prev, bpp);
      SpliceSame(before, start, rowSize);
    } else if filterType == FilterSub {
      assert before[start..start + rowSize] == raw;
      ApplySubFilter(buf, start, rowSize, bpp);
      SubIgnoresPrev(raw, Zeros(rowSize), prev, bpp);
    } else if filterType == FilterUp {
      ApplyUpFilter(buf, rowIndex, rowSize);
      UpIgnoresBpp(raw, prev, 1, bpp);
    } else if filterType == FilterAverage {
      ApplyAverageFilter(buf, rowIndex, rowSize, bpp);
    } else {
      ApplyPaethFilter(buf, rowIndex, rowSize, bpp);
    }
  }

  /** applyFilters: reconstruct the rows top to bottom in place. It stops
      with ErrorDataInvalid at the first row whose tag is not a filter type,
      leaving the rows above it reconstructed and the rest as they were. */
  method ApplyFilters(buf: array<byte>, width: uint32, height: uint32, colorType: byte) returns (code: ReturnCode)
    requires RequiredBufferSize(width, height, colorType) <= buf.Length
    modifies buf
    ensures var rowSize := RowSize(width, colorType);
      var stop := FirstUnknownRow(old(buf[..]), rowSize, height);
      && buf[..] == DefilterRows(old(buf[..]), rowSize, BytesPerPixel(colorType), stop)
      && (code == Success <==> stop == height)
      && (code != Success ==> code == ErrorDataInvalid)
  {
    var bpp := if colorType == 2 then 3 else 1;
    var rowSize := width * bpp % 0x1_0000_0000;
    assert bpp == BytesPerPixel(colorType) && rowSize == RowSize(width, colorType);
    ghost var s := buf[..];
    var rowIndex := 0;
    while rowIndex < height
      invariant rowIndex <= height && KnownTagsBelow(s, rowSize, rowIndex)
      invariant buf[..] == DefilterRows(s, rowSize, bpp, rowIndex)
    {
      OffsetMono(rowIndex, height, rowSize);
      DefilterRowsFrame(s, rowSize, bpp, rowIndex, rowIndex);
      var filterType := buf[rowIndex * (rowSize + 1)];
      assert filterType == Tag(s, rowIndex, rowSize);
      if filterType > 4 {
        FirstUnknownRowIs(s, rowSize, height, rowIndex);
        return ErrorDataInvalid;
      }
      ApplyRowFilter(buf, filterType, rowIndex, rowSize, bpp);
      var next := rowIndex + 1;
      KnownTagsExtend(s, rowSize, rowIndex, next);
      DefilterUnfold(s, rowSize, bpp, next, rowIndex);
      rowIndex := next;
    }
    FirstUnknownRowIs(s, rowSize, height, height);
    return Success;
  }
}
