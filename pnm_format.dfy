/** The choice of output format from the palette: a palette whose every
    entry is a shade of grey (red, green and blue equal) gives a greyscale
    image (PNM "P5"), any other palette a colour image ("P6"). */
module PnmFormat {
  import opened Bytes
  import opened ReturnCodes

  /** The PNM magic numbers the converter writes: P5 (greymap), P6 (pixmap). */
  const Graymap: int := 5
  const Pixmap: int := 6

  /** Palette entry k (bytes 3k, 3k+1, 3k+2) has equal red, green and blue. */
  predicate GreyEntry(palette: seq<byte>, k: nat)
    requires 3 * k + 2 < |palette|
  {
    palette[3 * k] == palette[3 * k + 1] && palette[3 * k] == palette[3 * k + 2]
  }

  /** Every entry of a palette of whole entries is grey. */
  predicate AllGrey(palette: seq<byte>)
    requires |palette| % 3 == 0
  {
    forall k: nat :: k < |palette| / 3 ==> GreyEntry(palette, k)
  }

  /** The format the palette calls for, or invalid data when its length is
      not a whole number of three-byte entries. */
  function PnmFormatOf(palette: seq<byte>): (r: Result<int>)
    ensures r.Err? <==> |palette| % 3 != 0
    ensures r.Err? ==> r.error == ErrorDataInvalid
    ensures r.Ok? ==> (r.value == Graymap <==> AllGrey(palette))
    ensures r.Ok? ==> (r.value == Pixmap <==> !AllGrey(palette))
  {
    if |palette| % 3 != 0 then Err(ErrorDataInvalid)
    else if AllGrey(palette) then Ok(Graymap)
    else Ok(Pixmap)
  }

  /** getPNMFormat on a captured palette: scan the entries in order and
      return P6 at the first one that is not grey, P5 if there is none. */
  method GetPnmFormat(palette: seq<byte>) returns (r: Result<int>)
    ensures r == PnmFormatOf(palette)
  {
    if |palette| % 3 != 0 {
      return Err(ErrorDataInvalid);
    }
    var n := |palette| / 3;
    var i := 0;
    while i < n
      invariant 0 <= i <= n
      invariant forall k: nat :: k < i ==> GreyEntry(palette, k)
    {
      if palette[i * 3] != palette[i * 3 + 1] || palette[i * 3] != palette[i * 3 + 2] {
        assert !GreyEntry(palette, i);
        return Ok(Pixmap);
      }
      i := i + 1;
    }
    return Ok(Graymap);
  }

  /** Appending a grey entry keeps the format. */
  lemma GreyEntryKeepsFormat(palette: seq<byte>, v: byte)
    requires |palette| % 3 == 0
    ensures PnmFormatOf(palette + [v, v, v]) == PnmFormatOf(palette)
  {
    var q := palette + [v, v, v];
    assert |q| / 3 == |palette| / 3 + 1;
    forall k: nat | k < |palette| / 3
      ensures GreyEntry(q, k) == GreyEntry(palette, k)
    {
      assert q[3 * k] == palette[3 * k] && q[3 * k + 1] == palette[3 * k + 1] && q[3 * k + 2] == palette[3 * k + 2];
    }
    assert GreyEntry(q, |palette| / 3);
  }

  /** One entry that is not grey makes the image a colour image. */
  lemma ColourEntryGivesPixmap(palette: seq<byte>, k: nat)
    requires |palette| % 3 == 0 && k < |palette| / 3
    requires palette[3 * k] != palette[3 * k + 1] || palette[3 * k] != palette[3 * k + 2]
    ensures PnmFormatOf(palette) == Ok(Pixmap)
  {
    assert !GreyEntry(palette, k);
  }
}
