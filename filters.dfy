/** The per-row filters of PNG (RFC 2083, chapter 6) as pure functions: the
    predictors, how one row is reconstructed from its filtered bytes and the
    already reconstructed row above it, the encoder-side transform they undo,
    and the layout of the inflated buffer the converter reconstructs in place
    (height rows, each a filter-type byte followed by rowSize data bytes). */
module Filters {
  import opened Bytes

  const FilterNone: byte := 0
  const FilterSub: byte := 1
  const FilterUp: byte := 2
  const FilterAverage: byte := 3
  const FilterPaeth: byte := 4

  /** The filter types the converter knows; any other tag is an error. */
  predicate KnownFilter(ft: byte) {
    ft <= FilterPaeth
  }

  function Abs(x: int): nat {
    if x < 0 then -x else x
  }

  /** paethPredictor: the neighbour (left a, above b, upper-left c) closest to
      the estimate a + b - c, ties going to a, then to b. */
  function PaethPredictor(a: byte, b: byte, c: byte): (r: byte)
    ensures r == a || r == b || r == c
  {
    var p := a as int + b as int - c as int;
    var pa := Abs(p - a);
    var pb := Abs(p - b);
    var pc := Abs(p - c);
    if pa <= pb && pa <= pc then a
    else if pb <= pc then b
    else c
  }

  /** The Paeth prediction is a neighbour at least as close to the estimate
      p = a + b - c as each of the three; a wins every tie it takes part in,
      and c is chosen only when strictly closer than both a and b. */
  lemma PaethClosest(a: byte, b: byte, c: byte)
    ensures var r := PaethPredictor(a, b, c);
      var p := a as int + b as int - c as int;
      && (r == a || r == b || r == c)
      && Abs(p - r) <= Abs(p - a) && Abs(p - r) <= Abs(p - b) && Abs(p - r) <= Abs(p - c)
      && (Abs(p - a) <= Abs(p - b) && Abs(p - a) <= Abs(p - c) ==> r == a)
      && (Abs(p - a) > Abs(p - b) && Abs(p - b) <= Abs(p - c) ==> r == b)
      && (r == c && c != a && c != b ==> Abs(p - c) < Abs(p - a) && Abs(p - c) < Abs(p - b))
  {
  }

  /** When the three neighbours agree, the prediction is that value. */
  lemma PaethAllEqual(a: byte)
    ensures PaethPredictor(a, a, a) == a
  {
  }

  /** The value a filter type adds back to a filtered byte, given the left,
      above and upper-left neighbours of the byte. */
  function Predictor(ft: byte, a: byte, b: byte, c: byte): byte
    requires KnownFilter(ft)
  {
    if ft == FilterNone then 0
    else if ft == FilterSub then a
    else if ft == FilterUp then b
    else if ft == FilterAverage then (a as int + b as int) / 2
    else PaethPredictor(a, b, c)
  }

  /** Reconstruction of one byte: the filtered byte plus the prediction,
      modulo 256. */
  function Recon(ft: byte, x: byte, a: byte, b: byte, c: byte): byte
    requires KnownFilter(ft)
  {
    (x as int + Predictor(ft, a, b, c) as int) % 0x100
  }

  /** The byte bpp positions left of position i of a row, or 0 when i < bpp
      (the row's left edge). */
  function Left(s: seq<byte>, i: nat, bpp: nat): byte
    requires i < |s| + bpp
  {
    if i >= bpp then s[i - bpp] else 0
  }

  /** The left neighbour of position i = k + bpp is position k. */
  lemma LeftIs(s: seq<byte>, i: nat, bpp: nat, k: nat)
    requires i == k + bpp && k < |s|
    ensures Left(s, i, bpp) == s[k]
  {
  }

  /** The reconstruction of a row with filter type ft from its filtered bytes
      raw, where prev is the reconstructed row above (all zeros for the first
      row), built left to right; ReconstructRowAt states what each byte is. */
  function ReconstructRow(ft: byte, raw: seq<byte>, prev: seq<byte>, bpp: nat): (row: seq<byte>)
    requires KnownFilter(ft) && |prev| == |raw| && bpp >= 1
    ensures |row| == |raw|
    decreases |raw|
  {
    if |raw| == 0 then []
    else
      var n: nat := |raw| - 1;
      var init := ReconstructRow(ft, raw[..n], prev[..n], bpp);
      init + [Recon(ft, raw[n], Left(init, n, bpp), prev[n], Left(prev, n, bpp))]
  }

  /** Every byte of a reconstructed row is its filtered value plus the
      prediction from its reconstructed left neighbour and the bytes above,
      modulo 256. */
  lemma {:induction false} ReconstructRowAt(ft: byte, raw: seq<byte>, prev: seq<byte>, bpp: nat, i: nat)
    requires KnownFilter(ft) && |prev| == |raw| && bpp >= 1 && i < |raw|
    ensures var row := ReconstructRow(ft, raw, prev, bpp);
      row[i] == Recon(ft, raw[i], Left(row, i, bpp), prev[i], Left(prev, i, bpp))
    decreases |raw|
  {
    var n: nat := |raw| - 1;
    var init := ReconstructRow(ft, raw[..n], prev[..n], bpp);
    var row := ReconstructRow(ft, raw, prev, bpp);
    assert row == init + [Recon(ft, raw[n], Left(init, n, bpp), prev[n], Left(prev, n, bpp))];
    if i < n {
      ReconstructRowAt(ft, raw[..n], prev[..n], bpp, i);
      SnocPrefix(init, row, i, bpp);
      TakePrefix(raw, n, i, bpp);
      TakePrefix(prev, n, i, bpp);
    }
  }

  /** Extending a sequence keeps its earlier bytes and their left
      neighbours. */
  lemma SnocPrefix(s: seq<byte>, t: seq<byte>, i: nat, bpp: nat)
    requires |t| == |s| + 1 && t[..|s|] == s && i < |s|
    ensures t[i] == s[i] && Left(t, i, bpp) == Left(s, i, bpp)
  {
    assert t[i] == t[..|s|][i];
    if i >= bpp {
      assert t[i - bpp] == t[..|s|][i - bpp];
    }
  }

  /** A prefix keeps the bytes it retains and their left neighbours. */
  lemma TakePrefix(s: seq<byte>, n: nat, i: nat, bpp: nat)
    requires i < n <= |s|
    ensures s[..n][i] == s[i] && Left(s[..n], i, bpp) == Left(s, i, bpp)
  {
  }

  /** ReconstructRowAt spelled out for the Sub filter: add the left byte. */
  lemma SubRowAt(raw: seq<byte>, prev: seq<byte>, bpp: nat, i: nat)
    requires |prev| == |raw| && bpp >= 1 && i < |raw|
    ensures var row := ReconstructRow(FilterSub, raw, prev, bpp);
      row[i] == (raw[i] as int + Left(row, i, bpp) as int) % 0x100
  {
    ReconstructRowAt(FilterSub, raw, prev, bpp, i);
  }

  /** ReconstructRowAt spelled out for the Up filter: add the byte above. */
  lemma UpRowAt(raw: seq<byte>, prev: seq<byte>, bpp: nat, i: nat)
    requires |prev| == |raw| && bpp >= 1 && i < |raw|
    ensures ReconstructRow(FilterUp, raw, prev, bpp)[i] == (raw[i] as int + prev[i] as int) % 0x100
  {
    ReconstructRowAt(FilterUp, raw, prev, bpp, i);
  }

  /** ReconstructRowAt spelled out for the Average filter: add the floor of
      the mean of the left byte and the byte above. */
  lemma AverageRowAt(raw: seq<byte>, prev: seq<byte>, bpp: nat, i: nat)
    requires |prev| == |raw| && bpp >= 1 && i < |raw|
    ensures var row := ReconstructRow(FilterAverage, raw, prev, bpp);
      row[i] == (raw[i] as int + (Left(row, i, bpp) as int + prev[i] as int) / 2) % 0x100
  {
    ReconstructRowAt(FilterAverage, raw, prev, bpp, i);
  }

  /** ReconstructRowAt spelled out for the Paeth filter. */
  lemma PaethRowAt(raw: seq<byte>, prev: seq<byte>, bpp: nat, i: nat)
    requires |prev| == |raw| && bpp >= 1 && i < |raw|
    ensures var row := ReconstructRow(FilterPaeth, raw, prev, bpp);
      row[i] == (raw[i] as int + PaethPredictor(Left(row, i, bpp), prev[i], Left(prev, i, bpp)) as int) % 0x100
  {
    ReconstructRowAt(FilterPaeth, raw, prev, bpp, i);
  }

  /** What a PNG encoder stores for a row orig with filter type ft below the
      row prev: each byte minus its prediction from the original neighbours,
      modulo 256. */
  function FilterRow(ft: byte, orig: seq<byte>, prev: seq<byte>, bpp: nat): (filtered: seq<byte>)
    requires KnownFilter(ft) && |prev| == |orig| && bpp >= 1
    ensures |filtered| == |orig|
  {
    seq(|orig|, i requires 0 <= i < |orig| =>
      (orig[i] as int - Predictor(ft, Left(orig, i, bpp), prev[i], Left(prev, i, bpp)) as int) % 0x100)
  }

  /** Byte i of the reconstruction of a filtered row is the original byte i. */
  lemma {:induction false} RowRoundTripAt(ft: byte, orig: seq<byte>, prev: seq<byte>, bpp: nat, i: nat)
    requires KnownFilter(ft) && |prev| == |orig| && bpp >= 1 && i < |orig|
    ensures ReconstructRow(ft, FilterRow(ft, orig, prev, bpp), prev, bpp)[i] == orig[i]
    decreases i
  {
    var filtered := FilterRow(ft, orig, prev, bpp);
    var row := ReconstructRow(ft, filtered, prev, bpp);
    if i >= bpp {
      var k: nat := i - bpp;
      RowRoundTripAt(ft, orig, prev, bpp, k);
      LeftIs(row, i, bpp, k);
      LeftIs(orig, i, bpp, k);
    }
    ReconstructRowAt(ft, filtered, prev, bpp, i);
    ReconFilter(ft, orig[i], Left(orig, i, bpp), prev[i], Left(prev, i, bpp), filtered[i]);
  }

  /** Reconstructing a byte filtered against the same neighbours gives the
      byte back. */
  lemma ReconFilter(ft: byte, x: byte, a: byte, b: byte, c: byte, f: byte)
    requires KnownFilter(ft) && f as int == (x as int - Predictor(ft, a, b, c) as int) % 0x100
    ensures Recon(ft, f, a, b, c) == x
  {
    AddBack(x, Predictor(ft, a, b, c));
  }

  /** Adding back modulo 256 what was subtracted modulo 256. */
  lemma AddBack(x: byte, p: byte)
    ensures ((x as int - p as int) % 0x100 + p as int) % 0x100 == x
  {
    if x >= p {
      assert (x as int - p as int) % 0x100 == x - p;
    } else {
      assert (x as int - p as int) % 0x100 == x - p + 0x100;
    }
  }

  /** Reconstruction undoes filtering: RFC 2083's decoder inverts its encoder
      for every filter type, row and previous row. */
  lemma RowRoundTrip(ft: byte, orig: seq<byte>, prev: seq<byte>, bpp: nat)
    requires KnownFilter(ft) && |prev| == |orig| && bpp >= 1
    ensures ReconstructRow(ft, FilterRow(ft, orig, prev, bpp), prev, bpp) == orig
  {
    var row := ReconstructRow(ft, FilterRow(ft, orig, prev, bpp), prev, bpp);
    forall i | 0 <= i < |orig|
      ensures row[i] == orig[i]
    {
      RowRoundTripAt(ft, orig, prev, bpp, i);
    }
  }

  /** Filter type 0 leaves a row unchanged. */
  lemma NoneRowUnchanged(raw: seq<byte>, prev: seq<byte>, bpp: nat)
    requires |prev| == |raw| && bpp >= 1
    ensures ReconstructRow(FilterNone, raw, prev, bpp) == raw
  {
    var row := ReconstructRow(FilterNone, raw, prev, bpp);
    forall i | 0 <= i < |raw|
      ensures row[i] == raw[i]
    {
      ReconstructRowAt(FilterNone, raw, prev, bpp, i);
    }
  }

  /** An all-zero row: the "row above" the first row of an image. */
  function Zeros(n: nat): (z: seq<byte>)
    ensures |z| == n && forall i :: 0 <= i < n ==> z[i] == 0
  {
    seq(n, _ => 0)
  }

  /** The Up filter on the first row leaves it unchanged (that row has an
      all-zero row above it). */
  lemma UpFirstRowUnchanged(raw: seq<byte>, bpp: nat)
    requires bpp >= 1
    ensures ReconstructRow(FilterUp, raw, Zeros(|raw|), bpp) == raw
  {
    var row := ReconstructRow(FilterUp, raw, Zeros(|raw|), bpp);
    forall i | 0 <= i < |raw|
      ensures row[i] == raw[i]
    {
      ReconstructRowAt(FilterUp, raw, Zeros(|raw|), bpp, i);
    }
  }

  /** The Sub filter looks only at the current row: the row above does not
      matter. */
  lemma {:induction false} SubIgnoresPrevAt(raw: seq<byte>, p: seq<byte>, q: seq<byte>, bpp: nat, i: nat)
    requires |p| == |raw| && |q| == |raw| && bpp >= 1 && i < |raw|
    ensures ReconstructRow(FilterSub, raw, p, bpp)[i] == ReconstructRow(FilterSub, raw, q, bpp)[i]
    decreases i
  {
    var rp := ReconstructRow(FilterSub, raw, p, bpp);
    var rq := ReconstructRow(FilterSub, raw, q, bpp);
    if i >= bpp {
      var k: nat := i - bpp;
      SubIgnoresPrevAt(raw, p, q, bpp, k);
      LeftIs(rp, i, bpp, k);
      LeftIs(rq, i, bpp, k);
    }
    ReconstructRowAt(FilterSub, raw, p, bpp, i);
    ReconstructRowAt(FilterSub, raw, q, bpp, i);
    assert Left(rp, i, bpp) == Left(rq, i, bpp);
  }

  lemma SubIgnoresPrev(raw: seq<byte>, p: seq<byte>, q: seq<byte>, bpp: nat)
    requires |p| == |raw| && |q| == |raw| && bpp >= 1
    ensures ReconstructRow(FilterSub, raw, p, bpp) == ReconstructRow(FilterSub, raw, q, bpp)
  {
    forall i | 0 <= i < |raw|
      ensures ReconstructRow(FilterSub, raw, p, bpp)[i] == ReconstructRow(FilterSub, raw, q, bpp)[i]
    {
      SubIgnoresPrevAt(raw, p, q, bpp, i);
    }
  }

  /** The Up filter looks only at the row above: the pixel width does not
      matter. */
  lemma UpIgnoresBpp(raw: seq<byte>, prev: seq<byte>, bpp1: nat, bpp2: nat)
    requires |prev| == |raw| && bpp1 >= 1 && bpp2 >= 1
    ensures ReconstructRow(FilterUp, raw, prev, bpp1) == ReconstructRow(FilterUp, raw, prev, bpp2)
  {
    var r1 := ReconstructRow(FilterUp, raw, prev, bpp1);
    var r2 := ReconstructRow(FilterUp, raw, prev, bpp2);
    forall i | 0 <= i < |raw|
      ensures r1[i] == r2[i]
    {
      UpRowAt(raw, prev, bpp1, i);
      UpRowAt(raw, prev, bpp2, i);
    }
  }

  // ------------------------------------------------------------------
  // The inflated buffer: row r starts at Offset(r) with its filter-type
  // byte, followed by rowSize data bytes. Tag and RowOf read a row that lies
  // past the end of the buffer as zeros; every contract below that depends
  // on a row's bytes requires the row to lie inside the buffer.

  /** The index of row r's filter-type byte, rowIndex * (rowSize + 1) in
      applyFilters. */
  function Offset(r: nat, rowSize: nat): nat {
    r * (rowSize + 1)
  }

  lemma OffsetNext(r: nat, rowSize: nat)
    ensures Offset(r + 1, rowSize) == Offset(r, rowSize) + rowSize + 1
  {
  }

  /** Row p ends where row r = p + 1 starts. */
  lemma OffsetPrev(r: nat, p: nat, rowSize: nat)
    requires r == p + 1
    ensures Offset(p, rowSize) + rowSize + 1 == Offset(r, rowSize)
  {
    OffsetNext(p, rowSize);
  }

  /** Rows r < m lie entirely before row m. */
  lemma {:induction false} OffsetMono(r: nat, m: nat, rowSize: nat)
    requires r <= m
    ensures Offset(r, rowSize) <= Offset(m, rowSize)
    ensures r < m ==> Offset(r, rowSize) + rowSize + 1 <= Offset(m, rowSize)
    decreases m - r
  {
    OffsetNext(r, rowSize);
    if r < m {
      OffsetMono(r + 1, m, rowSize);
    }
  }

  /** The filter-type byte of row r. */
  function Tag(s: seq<byte>, r: nat, rowSize: nat): byte {
    if Offset(r, rowSize) < |s| then s[Offset(r, rowSize)] else 0
  }

  /** The data bytes of row r. */
  function RowOf(s: seq<byte>, r: nat, rowSize: nat): (row: seq<byte>)
    ensures |row| == rowSize
  {
    var start := Offset(r, rowSize) + 1;
    if start + rowSize <= |s| then s[start..start + rowSize] else Zeros(rowSize)
  }

  /** The row above row r, or the all-zero row when r is the first row. */
  function PrevRowOf(s: seq<byte>, r: nat, rowSize: nat): (prev: seq<byte>)
    ensures |prev| == rowSize
  {
    if r == 0 then Zeros(rowSize) else RowOf(s, r - 1, rowSize)
  }

  /** s with the bytes from start on overwritten by row (as far as s
      reaches). */
  function Splice(s: seq<byte>, start: nat, row: seq<byte>): (t: seq<byte>)
    ensures |t| == |s|
  {
    seq(|s|, j requires 0 <= j < |s| => if start <= j < start + |row| then row[j - start] else s[j])
  }

  /** A sequence that agrees with Splice(s, start, row) everywhere is it. */
  lemma SpliceUnique(s: seq<byte>, start: nat, row: seq<byte>, t: seq<byte>)
    requires |t| == |s|
    requires forall j :: 0 <= j < |s| ==> t[j] == if start <= j < start + |row| then row[j - start] else s[j]
    ensures t == Splice(s, start, row)
  {
  }

  /** Splicing a row's own bytes back in changes nothing. */
  lemma SpliceSame(s: seq<byte>, start: nat, n: nat)
    requires start + n <= |s|
    ensures Splice(s, start, s[start..start + n]) == s
  {
    SpliceUnique(s, start, s[start..start + n], s);
  }

  /** Overwriting the data bytes of row r keeps every tag, puts row in place
      of row r's data bytes and keeps the data bytes of every other row. */
  lemma SpliceRow(prior: seq<byte>, r: nat, rowSize: nat, row: seq<byte>, q: nat)
    requires Offset(r, rowSize) + rowSize + 1 <= |prior| && |row| == rowSize
    ensures var t := Splice(prior, Offset(r, rowSize) + 1, row);
      && Tag(t, q, rowSize) == Tag(prior, q, rowSize)
      && RowOf(t, q, rowSize) == if q == r then row else RowOf(prior, q, rowSize)
  {
    var t := Splice(prior, Offset(r, rowSize) + 1, row);
    if q <= r {
      OffsetMono(q, r, rowSize);
    } else {
      OffsetMono(r + 1, q, rowSize);
      OffsetNext(r, rowSize);
    }
    if q == r {
      assert RowOf(t, q, rowSize) == row;
    } else if Offset(q, rowSize) + 1 + rowSize <= |prior| {
      assert RowOf(t, q, rowSize) == RowOf(prior, q, rowSize);
    }
  }

  /** The tags of rows 0 .. n-1 are all known filter types. */
  predicate KnownTagsBelow(s: seq<byte>, rowSize: nat, n: nat) {
    forall r :: 0 <= r < n ==> KnownFilter(Tag(s, r, rowSize))
  }

  /** One more known tag extends the known prefix by one row. */
  lemma KnownTagsExtend(s: seq<byte>, rowSize: nat, r: nat, n: nat)
    requires n == r + 1 && KnownTagsBelow(s, rowSize, r) && KnownFilter(Tag(s, r, rowSize))
    ensures KnownTagsBelow(s, rowSize, n)
  {
  }

  /** The first row, from r on, whose tag is not a known filter type (height
      when there is none). */
  function FirstUnknownFrom(s: seq<byte>, rowSize: nat, height: nat, r: nat): (k: nat)
    requires r <= height
    ensures r <= k <= height
    ensures forall j :: r <= j < k ==> KnownFilter(Tag(s, j, rowSize))
    ensures k < height ==> !KnownFilter(Tag(s, k, rowSize))
    decreases height - r
  {
    if r == height then height
    else if !KnownFilter(Tag(s, r, rowSize)) then r
    else FirstUnknownFrom(s, rowSize, height, r + 1)
  }

  /** The row at which reconstruction of a height-row buffer stops with an
      error (height if every tag is known): every tag above it is known, its
      own is not. */
  function FirstUnknownRow(s: seq<byte>, rowSize: nat, height: nat): (k: nat)
    ensures k <= height && KnownTagsBelow(s, rowSize, k)
    ensures k < height ==> !KnownFilter(Tag(s, k, rowSize))
  {
    FirstUnknownFrom(s, rowSize, height, 0)
  }

  /** Those two properties determine the row. */
  lemma FirstUnknownRowIs(s: seq<byte>, rowSize: nat, height: nat, k: nat)
    requires k <= height && KnownTagsBelow(s, rowSize, k)
    requires k < height ==> !KnownFilter(Tag(s, k, rowSize))
    ensures FirstUnknownRow(s, rowSize, height) == k
  {
  }

  /** The buffer after rows 0 .. n-1 have been reconstructed in place, in
      increasing order: row r is reconstructed, under the tag it was stored
      with, from the bytes it holds at that moment and the already
      reconstructed row above it. */
  function DefilterRows(s: seq<byte>, rowSize: nat, bpp: nat, n: nat): (t: seq<byte>)
    requires bpp >= 1 && KnownTagsBelow(s, rowSize, n)
    ensures |t| == |s|
    decreases n
  {
    if n == 0 then s
    else
      var r: nat := n - 1;
      var prior := DefilterRows(s, rowSize, bpp, r);
      Splice(prior, Offset(r, rowSize) + 1,
        ReconstructRow(Tag(s, r, rowSize), RowOf(prior, r, rowSize), PrevRowOf(prior, r, rowSize), bpp))
  }

  /** Step r of the in-place reconstruction (n is r + 1): reconstructing row
      r of the buffer in which rows 0 .. r-1 are reconstructed gives the
      buffer with rows 0 .. r reconstructed. */
  lemma DefilterUnfold(s: seq<byte>, rowSize: nat, bpp: nat, n: nat, r: nat)
    requires bpp >= 1 && KnownTagsBelow(s, rowSize, n) && n == r + 1
    ensures var prior := DefilterRows(s, rowSize, bpp, r);
      DefilterRows(s, rowSize, bpp, n) == Splice(prior, Offset(r, rowSize) + 1,
        ReconstructRow(Tag(s, r, rowSize), RowOf(prior, r, rowSize), PrevRowOf(prior, r, rowSize), bpp))
  {
    DefilterStep(s, rowSize, bpp, r);
  }

  lemma DefilterStep(s: seq<byte>, rowSize: nat, bpp: nat, r: nat)
    requires bpp >= 1 && KnownTagsBelow(s, rowSize, r + 1)
    ensures var prior := DefilterRows(s, rowSize, bpp, r);
      DefilterRows(s, rowSize, bpp, r + 1) == Splice(prior, Offset(r, rowSize) + 1,
        ReconstructRow(Tag(s, r, rowSize), RowOf(prior, r, rowSize), PrevRowOf(prior, r, rowSize), bpp))
  {
  }

  /** What step r of the reconstruction (n is r + 1) does to each row q:
      its tag is kept, and its data bytes too unless q is r, whose data
      bytes become their reconstruction. */
  lemma DefilterStepRow(s: seq<byte>, rowSize: nat, bpp: nat, n: nat, r: nat, q: nat)
    requires bpp >= 1 && Offset(n, rowSize) <= |s| && KnownTagsBelow(s, rowSize, n) && n == r + 1
    ensures var prior := DefilterRows(s, rowSize, bpp, r);
      var t := DefilterRows(s, rowSize, bpp, n);
      && Tag(t, q, rowSize) == Tag(prior, q, rowSize)
      && RowOf(t, q, rowSize) == if q == r
           then ReconstructRow(Tag(s, r, rowSize), RowOf(prior, r, rowSize), PrevRowOf(prior, r, rowSize), bpp)
           else RowOf(prior, q, rowSize)
  {
    DefilterUnfold(s, rowSize, bpp, n, r);
    OffsetMono(r, n, rowSize);
    var prior := DefilterRows(s, rowSize, bpp, r);
    var row := ReconstructRow(Tag(s, r, rowSize), RowOf(prior, r, rowSize), PrevRowOf(prior, r, rowSize), bpp);
    SpliceRow(prior, r, rowSize, row, q);
  }

  /** DefilterStepRow for a row q other than r. */
  lemma DefilterStepOther(s: seq<byte>, rowSize: nat, bpp: nat, n: nat, r: nat, q: nat)
    requires bpp >= 1 && Offset(n, rowSize) <= |s| && KnownTagsBelow(s, rowSize, n) && n == r + 1 && q != r
    ensures RowOf(DefilterRows(s, rowSize, bpp, n), q, rowSize) == RowOf(DefilterRows(s, rowSize, bpp, r), q, rowSize)
  {
    DefilterStepRow(s, rowSize, bpp, n, r, q);
  }

  /** Reconstructing rows 0 .. n-1 writes only their data bytes: every tag
      keeps its stored value, and so does every row from n on. */
  lemma {:induction false} DefilterRowsFrame(s: seq<byte>, rowSize: nat, bpp: nat, n: nat, q: nat)
    requires bpp >= 1 && Offset(n, rowSize) <= |s| && KnownTagsBelow(s, rowSize, n)
    ensures Tag(DefilterRows(s, rowSize, bpp, n), q, rowSize) == Tag(s, q, rowSize)
    ensures q >= n ==> RowOf(DefilterRows(s, rowSize, bpp, n), q, rowSize) == RowOf(s, q, rowSize)
    decreases n
  {
    if n > 0 {
      var r: nat := n - 1;
      DefilterStepRow(s, rowSize, bpp, n, r, q);
      OffsetMono(r, n, rowSize);
      DefilterRowsFrame(s, rowSize, bpp, r, q);
    }
  }

  /** Reconstructing rows 0 .. n-1 leaves every byte from row n's tag on as
      stored, including a partial row at the end of the buffer. */
  lemma {:induction false} DefilterRowsTail(s: seq<byte>, rowSize: nat, bpp: nat, n: nat)
    requires bpp >= 1 && Offset(n, rowSize) <= |s| && KnownTagsBelow(s, rowSize, n)
    ensures forall j :: Offset(n, rowSize) <= j < |s| ==> DefilterRows(s, rowSize, bpp, n)[j] == s[j]
    decreases n
  {
    if n > 0 {
      var r: nat := n - 1;
      DefilterUnfold(s, rowSize, bpp, n, r);
      OffsetMono(r, n, rowSize);
      DefilterRowsTail(s, rowSize, bpp, r);
    }
  }

  /** Once row q is reconstructed (in the buffer after m = q + 1 steps),
      reconstructing the rows below it leaves it alone. */
  lemma {:induction false} DefilterRowsStable(s: seq<byte>, rowSize: nat, bpp: nat, n: nat, q: nat, m: nat)
    requires bpp >= 1 && Offset(n, rowSize) <= |s| && KnownTagsBelow(s, rowSize, n) && q < n && m == q + 1
    ensures RowOf(DefilterRows(s, rowSize, bpp, n), q, rowSize) == RowOf(DefilterRows(s, rowSize, bpp, m), q, rowSize)
    decreases n
  {
    if n > m {
      var r: nat := n - 1;
      DefilterStepOther(s, rowSize, bpp, n, r, q);
      OffsetMono(r, n, rowSize);
      DefilterRowsStable(s, rowSize, bpp, r, q, m);
    } else {
      assert n == m;
    }
  }

  /** The row above row r = p + 1 is row p. */
  lemma PrevRowIs(t: seq<byte>, r: nat, p: nat, rowSize: nat)
    requires r == p + 1
    ensures PrevRowOf(t, r, rowSize) == RowOf(t, p, rowSize)
  {
  }

  /** The row above row r is final by the time row r is reconstructed. */
  lemma DefilterRowsAbove(s: seq<byte>, rowSize: nat, bpp: nat, n: nat, r: nat)
    requires bpp >= 1 && Offset(n, rowSize) <= |s| && KnownTagsBelow(s, rowSize, n) && r < n
    ensures PrevRowOf(DefilterRows(s, rowSize, bpp, n), r, rowSize) == PrevRowOf(DefilterRows(s, rowSize, bpp, r), r, rowSize)
  {
    var t := DefilterRows(s, rowSize, bpp, n);
    var prior := DefilterRows(s, rowSize, bpp, r);
    if r > 0 {
      var p: nat := r - 1;
      DefilterRowsStable(s, rowSize, bpp, n, p, r);
      PrevRowIs(t, r, p, rowSize);
      PrevRowIs(prior, r, p, rowSize);
    }
  }

  /** Row r of the reconstructed buffer is the reconstruction of its stored
      filtered bytes under its own tag, from the reconstructed row above it
      (the all-zero row for the first row). */
  lemma DefilterRowsRow(s: seq<byte>, rowSize: nat, bpp: nat, n: nat, r: nat)
    requires bpp >= 1 && Offset(n, rowSize) <= |s| && KnownTagsBelow(s, rowSize, n) && r < n
    ensures var t := DefilterRows(s, rowSize, bpp, n);
      RowOf(t, r, rowSize) == ReconstructRow(Tag(s, r, rowSize), RowOf(s, r, rowSize), PrevRowOf(t, r, rowSize), bpp)
  {
    OffsetMono(r + 1, n, rowSize);
    DefilterStepRow(s, rowSize, bpp, r + 1, r, r);
    DefilterRowsStable(s, rowSize, bpp, n, r, r + 1);
    DefilterRowsFrame(s, rowSize, bpp, r, r);
    DefilterRowsAbove(s, rowSize, bpp, n, r);
  }

  /** A row stored with filter type 0 comes out of the reconstruction as it
      was stored. */
  lemma DefilterRowsNone(s: seq<byte>, rowSize: nat, bpp: nat, n: nat, r: nat)
    requires bpp >= 1 && Offset(n, rowSize) <= |s| && KnownTagsBelow(s, rowSize, n) && r < n
    requires Tag(s, r, rowSize) == FilterNone
    ensures RowOf(DefilterRows(s, rowSize, bpp, n), r, rowSize) == RowOf(s, r, rowSize)
  {
    DefilterRowsRow(s, rowSize, bpp, n, r);
    NoneRowUnchanged(RowOf(s, r, rowSize), PrevRowOf(DefilterRows(s, rowSize, bpp, n), r, rowSize), bpp);
  }

  /** The original row above row r of an image (all zeros above the first). */
  function Above(rows: seq<seq<byte>>, r: nat, rowSize: nat): (prev: seq<byte>)
    requires r < |rows| && forall q :: 0 <= q < |rows| ==> |rows[q]| == rowSize
    ensures |prev| == rowSize
  {
    if r == 0 then Zeros(rowSize) else rows[r - 1]
  }

  /** A buffer as a PNG encoder produces it from the image rows: every row's
      data bytes are the original row filtered under the row's tag against
      the original row above. */
  predicate FilteredImage(s: seq<byte>, rowSize: nat, bpp: nat, rows: seq<seq<byte>>)
    requires bpp >= 1 && KnownTagsBelow(s, rowSize, |rows|)
  {
    && (forall q :: 0 <= q < |rows| ==> |rows[q]| == rowSize)
    && forall r :: 0 <= r < |rows| ==>
         RowOf(s, r, rowSize) == FilterRow(Tag(s, r, rowSize), rows[r], Above(rows, r, rowSize), bpp)
  }

  /** The reconstructed row above row r = p + 1 is the original one once row
      p came back as the original. */
  lemma ImageAbove(t: seq<byte>, rowSize: nat, rows: seq<seq<byte>>, r: nat, p: nat)
    requires r < |rows| && forall q :: 0 <= q < |rows| ==> |rows[q]| == rowSize
    requires r > 0 ==> r == p + 1 && RowOf(t, p, rowSize) == rows[p]
    ensures PrevRowOf(t, r, rowSize) == Above(rows, r, rowSize)
  {
  }

  /** Reconstructing what was filtered gives the original row back. */
  lemma FilteredRowBack(ft: byte, raw: seq<byte>, prev: seq<byte>, orig: seq<byte>, row: seq<byte>, bpp: nat)
    requires KnownFilter(ft) && |prev| == |orig| && bpp >= 1
    requires raw == FilterRow(ft, orig, prev, bpp) && row == ReconstructRow(ft, raw, prev, bpp)
    ensures row == orig
  {
    RowRoundTrip(ft, orig, prev, bpp);
  }

  lemma {:induction false} ImageRoundTripRow(s: seq<byte>, rowSize: nat, bpp: nat, rows: seq<seq<byte>>, r: nat)
    requires bpp >= 1 && Offset(|rows|, rowSize) <= |s| && KnownTagsBelow(s, rowSize, |rows|)
    requires FilteredImage(s, rowSize, bpp, rows) && r < |rows|
    ensures RowOf(DefilterRows(s, rowSize, bpp, |rows|), r, rowSize) == rows[r]
    decreases r
  {
    var t := DefilterRows(s, rowSize, bpp, |rows|);
    DefilterRowsRow(s, rowSize, bpp, |rows|, r);
    var p: nat := if r > 0 then r - 1 else 0;
    if r > 0 {
      ImageRoundTripRow(s, rowSize, bpp, rows, p);
    }
    ImageAbove(t, rowSize, rows, r, p);
    var ft := Tag(s, r, rowSize);
    FilteredRowBack(ft, RowOf(s, r, rowSize), PrevRowOf(t, r, rowSize), rows[r], RowOf(t, r, rowSize), bpp);
  }

  /** Reconstruction undoes PNG filtering for a whole image: when every tag
      is a filter type and every row was filtered against the original row
      above, DefilterRows gives back every original row. */
  lemma ImageRoundTrip(s: seq<byte>, rowSize: nat, bpp: nat, rows: seq<seq<byte>>)
    requires bpp >= 1 && Offset(|rows|, rowSize) <= |s| && KnownTagsBelow(s, rowSize, |rows|)
    requires FilteredImage(s, rowSize, bpp, rows)
    ensures forall r :: 0 <= r < |rows| ==> RowOf(DefilterRows(s, rowSize, bpp, |rows|), r, rowSize) == rows[r]
  {
    forall r | 0 <= r < |rows|
      ensures RowOf(DefilterRows(s, rowSize, bpp, |rows|), r, rowSize) == rows[r]
    {
      ImageRoundTripRow(s, rowSize, bpp, rows, r);
    }
  }

  /** bytesPerPixel: 3 for truecolour (colour type 2), 1 otherwise. */
  function BytesPerPixel(colorType: byte): (bpp: nat)
    ensures bpp == 1 || bpp == 3
    ensures bpp == 3 <==> colorType == 2
  {
    if colorType == 2 then 3 else 1
  }

  /** rowSize: width * bytesPerPixel in unsigned 32-bit arithmetic. It is
      the width for one byte per pixel, and the exact product whenever that
      fits in 32 bits. */
  function RowSize(width: uint32, colorType: byte): (rowSize: uint32)
    ensures BytesPerPixel(colorType) == 1 ==> rowSize == width
    ensures width * BytesPerPixel(colorType) < 0x1_0000_0000 ==> rowSize == width * BytesPerPixel(colorType)
  {
    width * BytesPerPixel(colorType) % 0x1_0000_0000
  }

  /** The number of bytes applyFilters reads and writes: height rows of one
      filter-type byte and rowSize data bytes each. Every row lies inside
      it, and the last row ends exactly at its end. */
  function RequiredBufferSize(width: uint32, height: uint32, colorType: byte): (n: nat)
    ensures forall r: nat :: r < height ==> Offset(r, RowSize(width, colorType)) + RowSize(width, colorType) + 1 <= n
    ensures height > 0 ==> Offset(height - 1, RowSize(width, colorType)) + RowSize(width, colorType) + 1 == n
  {
    var rowSize := RowSize(width, colorType);
    RowsInside(height, rowSize);
    Offset(height, rowSize)
  }

  lemma RowsInside(height: nat, rowSize: nat)
    ensures forall r: nat :: r < height ==> Offset(r, rowSize) + rowSize + 1 <= Offset(height, rowSize)
    ensures height > 0 ==> Offset(height - 1, rowSize) + rowSize + 1 == Offset(height, rowSize)
  {
    forall r: nat | r < height
      ensures Offset(r, rowSize) + rowSize + 1 <= Offset(height, rowSize)
    {
      OffsetMono(r, height, rowSize);
    }
    if height > 0 {
      var p: nat := height - 1;
      OffsetPrev(height, p, rowSize);
    }
  }
}
