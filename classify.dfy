/**
 * find_red_pixels and find_cyan_pixels: each pixel of a colour image becomes 0 (a pixel of the wanted
 * colour, drawn white) or 1 (anything else, drawn black). A channel is the value the image reader
 * returns for it, a real between 0 and 1 for a PNG image; the colour tests IsRed and IsCyan compare
 * that value times 255 against the thresholds.
 */
module Classify {

  /** A channel value as the image reader returns it for a PNG image. */
  type Channel = x: real | 0.0 <= x <= 1.0

  datatype Rgb = Rgb(red: Channel, green: Channel, blue: Channel)

  /** The thresholds both functions take by default. */
  const DefaultUpper: real := 100.0
  const DefaultLower: real := 50.0

  /** The two values of a classification mask. */
  const Subject := 0
  const Background := 1

  /** Red: strong in red, weak in green and in blue. */
  predicate IsRed(p: Rgb, upper: real, lower: real)
  {
    p.red * 255.0 > upper && p.green * 255.0 < lower && p.blue * 255.0 < lower
  }

  /** Cyan: weak in red, strong in green and in blue. */
  predicate IsCyan(p: Rgb, upper: real, lower: real)
  {
    p.red * 255.0 < lower && p.green * 255.0 > upper && p.blue * 255.0 > upper
  }

  /** The colour test a classification applies. */
  datatype Colour = Red | Cyan

  predicate Matches(colour: Colour, p: Rgb, upper: real, lower: real)
  {
    match colour
    case Red => IsRed(p, upper, lower)
    case Cyan => IsCyan(p, upper, lower)
  }

  /**
   * The loop both functions share: start from an all-1 array of the image's shape and set 0 wherever
   * the pixel passes the colour test.
   */
  method MarkPixels(img: array2<Rgb>, colour: Colour, upper: real, lower: real) returns (mask: array2<int>)
    ensures fresh(mask) && mask.Length0 == img.Length0 && mask.Length1 == img.Length1
    ensures forall r, c :: 0 <= r < mask.Length0 && 0 <= c < mask.Length1 ==>
      mask[r, c] == if Matches(colour, img[r, c], upper, lower) then Subject else Background
  {
    mask := new int[img.Length0, img.Length1]((r, c) => Background);
    for row := 0 to img.Length0
      invariant forall r, c :: 0 <= r < mask.Length0 && 0 <= c < mask.Length1 ==>
        mask[r, c] == if r < row && Matches(colour, img[r, c], upper, lower) then Subject else Background
    {
      for col := 0 to img.Length1
        invariant forall r, c :: 0 <= r < mask.Length0 && 0 <= c < mask.Length1 ==>
          mask[r, c] == if (r < row || (r == row && c < col)) && Matches(colour, img[r, c], upper, lower)
            then Subject else Background
      {
        if Matches(colour, img[row, col], upper, lower) {
          mask[row, col] := Subject;
        }
      }
    }
  }

  /** find_red_pixels: 0 exactly at the red pixels. */
  method FindRedPixels(img: array2<Rgb>, upper: real := DefaultUpper, lower: real := DefaultLower) returns (redArray: array2<int>)
    ensures fresh(redArray) && redArray.Length0 == img.Length0 && redArray.Length1 == img.Length1
    ensures forall r, c :: 0 <= r < redArray.Length0 && 0 <= c < redArray.Length1 ==>
      (redArray[r, c] == Subject <==> IsRed(img[r, c], upper, lower)) &&
      (redArray[r, c] == Subject || redArray[r, c] == Background)
  {
    redArray := MarkPixels(img, Red, upper, lower);
  }

  /** find_cyan_pixels: 0 exactly at the cyan pixels. */
  method FindCyanPixels(img: array2<Rgb>, upper: real := DefaultUpper, lower: real := DefaultLower) returns (cyanArray: array2<int>)
    ensures fresh(cyanArray) && cyanArray.Length0 == img.Length0 && cyanArray.Length1 == img.Length1
    ensures forall r, c :: 0 <= r < cyanArray.Length0 && 0 <= c < cyanArray.Length1 ==>
      (cyanArray[r, c] == Subject <==> IsCyan(img[r, c], upper, lower)) &&
      (cyanArray[r, c] == Subject || cyanArray[r, c] == Background)
  {
    cyanArray := MarkPixels(img, Cyan, upper, lower);
  }

  /**
   * With the same thresholds, some pixel is both red and cyan exactly when a value strictly between
   * upper and lower lies in the channel range 0 .. 255: lower above upper, upper below 255 and lower
   * above 0. Thresholds within 0 .. 255 overlap exactly when lower exceeds upper.
   */
  lemma RedCyanDisjoint(upper: real, lower: real)
    ensures (forall p :: !(IsRed(p, upper, lower) && IsCyan(p, upper, lower))) <==>
      lower <= upper || upper >= 255.0 || lower <= 0.0
  {
    if lower > upper && upper < 255.0 && lower > 0.0 {
      var lo := if upper < 0.0 then 0.0 else upper;
      var hi := if lower > 255.0 then 255.0 else lower;
      var v: Channel := (lo + hi) / 2.0 / 255.0;
      var grey := Rgb(v, v, v);
      assert v * 255.0 == (lo + hi) / 2.0;
      assert IsRed(grey, upper, lower) && IsCyan(grey, upper, lower);
    } else if upper >= 255.0 {
      forall p: Rgb
        ensures !IsCyan(p, upper, lower)
      {
        assert p.green * 255.0 <= 255.0;
      }
    } else if lower <= 0.0 {
      forall p: Rgb
        ensures !IsRed(p, upper, lower)
      {
        assert p.green * 255.0 >= 0.0;
      }
    }
  }

  lemma DefaultsDisjoint(p: Rgb)
    ensures !(IsRed(p, DefaultUpper, DefaultLower) && IsCyan(p, DefaultUpper, DefaultLower))
  {
    RedCyanDisjoint(DefaultUpper, DefaultLower);
  }
}
