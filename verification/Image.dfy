/** `Image`: pixels in one byte array, row after row, one to four bytes each. Sizes and indices are computed
    in 32-bit unsigned arithmetic, which wraps around. */
module Images {

  import opened Numbers

  type Word = x: int | 0 <= x < 0x1_0000_0000

  function Wrap(x: nat): Word { x % 0x1_0000_0000 }

  datatype Error = InvalidChannels | ZeroWidth | ZeroHeight | CouldNotLoad | NoData | OutOfRange | TooFewChannels

  datatype Result<+T> = Ok(value: T) | Err(error: Error)

  /** How many bytes `loadBlank` asks for. */
  function Size(width: Word, height: Word, channels: Word): Word {
    Wrap(Times(Wrap(Times(width, height)), channels))
  }

  function Index(x: Word, y: Word, width: Word, channels: Word): Word {
    Wrap(Times(Wrap(Wrap(Times(y, width)) + x), channels))
  }

  /** The image is small enough for its size not to wrap around. */
  predicate Fits(width: Word, height: Word, channels: Word) {
    Times(Times(width, height), channels) < 0x1_0000_0000
  }

  /** The bytes of every pixel lie inside the array. */
  ghost predicate AllInside(width: Word, height: Word, channels: Word) {
    forall x: Word, y: Word :: x < width && y < height ==>
      Index(x, y, width, channels) + channels <= Size(width, height, channels)
  }

  // ---------------------------------------------------------------- arithmetic

  lemma SmallerProduct(a: nat, c: nat)
    requires c >= 1
    ensures a <= Times(a, c)
  {}

  /** Blocks of `c` bytes follow one another. */
  lemma NextBlock(p: nat, q: nat, c: nat)
    requires p < q
    ensures Times(p, c) + c <= Times(q, c)
  {
    TimesMonotone(p + 1, q, c);
    OneMore(p, c);
  }

  lemma NoWrap(x: nat)
    requires x < 0x1_0000_0000
    ensures Wrap(x) == x
  {}

  /** Where the size fits, nothing wraps. */
  lemma FittingIndex(x: Word, y: Word, width: Word, height: Word, channels: Word)
    requires x < width && y < height && channels > 0 && Fits(width, height, channels)
    ensures Index(x, y, width, channels) == Times(Times(y, width) + x, channels)
    ensures Size(width, height, channels) == Times(Times(width, height), channels)
    ensures Times(Times(y, width) + x, channels) + channels <= Times(Times(width, height), channels)
  {
    hide Wrap, Times;
    var row, area := Times(y, width), Times(width, height);
    Swap(width, height);
    NextBlock(y, height, width);
    NextBlock(row + x, area, channels);
    SmallerProduct(area, channels);
    NoWrap(row);
    NoWrap(row + x);
    NoWrap(Times(row + x, channels));
    NoWrap(area);
    NoWrap(Times(area, channels));
  }

  lemma Swap(a: nat, b: nat)
    ensures Times(a, b) == Times(b, a)
  {}

  lemma PlacesDiffer(x: nat, y: nat, x': nat, y': nat, width: nat)
    requires x < width && x' < width && (x, y) != (x', y')
    ensures Times(y, width) + x != Times(y', width) + x'
  {
    hide Times;
    if y < y' { NextBlock(y, y', width); } else if y' < y { NextBlock(y', y, width); }
  }

  /** Different pixels have no byte in common. */
  lemma PixelsDisjoint(x: Word, y: Word, x': Word, y': Word, width: Word, height: Word, channels: Word)
    requires x < width && y < height && x' < width && y' < height && (x, y) != (x', y')
    requires channels > 0 && Fits(width, height, channels)
    ensures var i, j := Index(x, y, width, channels), Index(x', y', width, channels);
      i + channels <= j || j + channels <= i
  {
    hide Index, Size, Times;
    FittingIndex(x, y, width, height, channels);
    FittingIndex(x', y', width, height, channels);
    PlacesDiffer(x, y, x', y', width);
    var p, q := Times(y, width) + x, Times(y', width) + x';
    if p < q { NextBlock(p, q, channels); } else { NextBlock(q, p, channels); }
  }

  /** Exactly the sizes that do not wrap around have all their pixels inside the array. */
  lemma InsideIffFits(width: Word, height: Word, channels: Word)
    requires width > 0 && height > 0 && 1 <= channels <= 4
    ensures AllInside(width, height, channels) <==> Fits(width, height, channels)
  {
    hide Index, Size, Times;
    if Fits(width, height, channels) {
      forall x: Word, y: Word | x < width && y < height
        ensures Index(x, y, width, channels) + channels <= Size(width, height, channels)
      {
        FittingIndex(x, y, width, height, channels);
      }
    } else {
      var x, y := PixelOutside(width, height, channels);
    }
  }

  lemma DivMod(p: nat, width: nat, height: nat) returns (x: nat, y: nat)
    requires p < Times(width, height)
    ensures x < width && y < height && Times(y, width) + x == p
  {
    Swap(width, height);
    x, y := p % width, p / width;
    assert p == width * (p / width) + p % width;
    if y >= height { TimesMonotone(height, y, width); }
  }

  /** Where the size wraps, the pixel whose bytes reach the end of the 32-bit range lies outside the array. */
  lemma PixelOutside(width: Word, height: Word, channels: Word) returns (x: Word, y: Word)
    requires width > 0 && height > 0 && 1 <= channels <= 4 && !Fits(width, height, channels)
    ensures x < width && y < height && Index(x, y, width, channels) + channels > Size(width, height, channels)
  {
    hide Wrap, Times;
    var p: nat := 0xFFFF_FFFF / channels;
    LastBlock(channels);
    if p >= Times(width, height) { TimesMonotone(Times(width, height), p, channels); }
    SmallerProduct(p, channels);
    var px, py := DivMod(p, width, height);
    x, y := px, py;
    NoWrap(Times(y, width));
    NoWrap(p);
    NoWrap(Times(p, channels));
  }

  lemma LastBlock(channels: Word)
    requires 1 <= channels <= 4
    ensures var p := 0xFFFF_FFFF / channels;
      Times(p, channels) <= 0xFFFF_FFFF < Times(p, channels) + channels
  {}

  // ---------------------------------------------------------------- the class

  /** The colour a pixel's bytes stand for: 255 where there is no channel. */
  function Colour(pixel: seq<Byte>): (Byte, Byte, Byte, Byte)
    requires |pixel| >= 1
  {
    (pixel[0], if |pixel| > 1 then pixel[1] else 255,
     if |pixel| > 2 then pixel[2] else 255, if |pixel| > 3 then pixel[3] else 255)
  }

  /** The bytes of pixel (`x`, `y`), where they lie inside. */
  function PixelOf(bytes: seq<Byte>, x: Word, y: Word, width: Word, channels: Word): seq<Byte> {
    var i := Index(x, y, width, channels);
    if i + channels <= |bytes| then bytes[i..i + channels] else []
  }

  /** Every pixel but (`x`, `y`) is the same. */
  ghost predicate OthersKept(before: seq<Byte>, after: seq<Byte>, x: Word, y: Word,
      width: Word, height: Word, channels: Word) {
    forall x': Word, y': Word :: x' < width && y' < height && (x', y') != (x, y) ==>
      PixelOf(after, x', y', width, channels) == PixelOf(before, x', y', width, channels)
  }

  lemma NothingChanged(bytes: seq<Byte>, x: Word, y: Word, width: Word, height: Word, channels: Word)
    ensures OthersKept(bytes, bytes, x, y, width, height, channels)
  {}

  lemma OnlyThisPixel(before: seq<Byte>, after: seq<Byte>, x: Word, y: Word, width: Word, height: Word, channels: Word)
    requires x < width && y < height && channels > 0 && Fits(width, height, channels)
    requires |before| == |after|
    requires var i := Index(x, y, width, channels);
      forall k :: 0 <= k < |after| && !(i <= k < i + channels) ==> after[k] == before[k]
    ensures OthersKept(before, after, x, y, width, height, channels)
  {
    hide Fits, Size, Index, Times;
    forall x': Word, y': Word | x' < width && y' < height && (x', y') != (x, y)
      ensures PixelOf(after, x', y', width, channels) == PixelOf(before, x', y', width, channels)
    {
      PixelsDisjoint(x, y, x', y', width, height, channels);
    }
  }

  class Image {
    var data: array?<Byte>
    var width: Word
    var height: Word
    var numChannels: Word

    /** No data iff all dimensions are 0. */
    ghost predicate Valid()
      reads this, data
    {
      if data == null then width == 0 && height == 0 && numChannels == 0
      else
        && 0 < width && 0 < height && 1 <= numChannels <= 4
        && data.Length == Size(width, height, numChannels)
    }

    ghost predicate InRange(x: Word, y: Word)
      reads this
    {
      data != null && x < width && y < height
    }

    /** The first `n` bytes of the pixel, if there is such a pixel, lie in the array: what reading or writing
        them demands of the caller. */
    ghost predicate Holds(x: Word, y: Word, n: nat)
      reads this, data
    {
      InRange(x, y) ==> Index(x, y, width, numChannels) + n <= data.Length
    }

    /** The first `n` bytes of a pixel. */
    ghost function Pixel(x: Word, y: Word, n: nat): (p: seq<Byte>)
      requires InRange(x, y) && Holds(x, y, n)
      reads this, data
      ensures |p| == n
    {
      var index := Index(x, y, width, numChannels);
      data[index..index + n]
    }

    /** No byte changed but, where `written`, those of the pixel; where the size did not wrap around those belong to
        no other pixel. */
    ghost predicate OnlyPixelChanged(before: seq<Byte>, after: seq<Byte>, x: Word, y: Word, written: bool)
      reads this
    {
      var index := Index(x, y, width, numChannels);
      && |before| == |after|
      && (forall k :: 0 <= k < |after| && !(written && index <= k < index + numChannels) ==> after[k] == before[k])
      && (Fits(width, height, numChannels) ==> OthersKept(before, after, x, y, width, height, numChannels))
    }

    /** All pixels can be read and written exactly when the size did not wrap around. */
    lemma HoldsAllIffFits()
      requires Valid() && data != null
      ensures (forall x: Word, y: Word :: Holds(x, y, numChannels)) <==> Fits(width, height, numChannels)
    {
      hide Index, Size, Fits, Times;
      InsideIffFits(width, height, numChannels);
      if forall x: Word, y: Word :: Holds(x, y, numChannels) {
        forall x: Word, y: Word | x < width && y < height
          ensures Index(x, y, width, numChannels) + numChannels <= Size(width, height, numChannels)
        {
          assert Holds(x, y, numChannels);
        }
      }
    }

    constructor ()
      ensures Valid() && data == null
    {
      data, width, height, numChannels := null, 0, 0, 0;
    }

    method Free()
      requires Valid()
      modifies this
      ensures Valid() && data == null
    {
      if data != null {
        data := null;
        width, height, numChannels := 0, 0, 0;
      }
    }

    /** `available` is whether the memory could be had. Refused dimensions leave the image as it was. */
    method LoadBlank(newWidth: Word, newHeight: Word, newNumChannels: Word, available: bool) returns (r: Result<()>)
      requires Valid()
      modifies this
      ensures Valid()
      ensures r == if newNumChannels < 1 || newNumChannels > 4 then Err(InvalidChannels)
                   else if newWidth == 0 then Err(ZeroWidth)
                   else if newHeight == 0 then Err(ZeroHeight)
                   else if !available then Err(CouldNotLoad)
                   else Ok(())
      ensures r.Err? && r.error != CouldNotLoad ==>
        data == old(data) && width == old(width) && height == old(height) && numChannels == old(numChannels)
      ensures r == Err(CouldNotLoad) ==> data == null
      ensures r.Ok? ==> data != null && width == newWidth && height == newHeight && numChannels == newNumChannels
      ensures r.Ok? ==> forall i :: 0 <= i < data.Length ==> data[i] == 0
    {
      if newNumChannels < 1 || newNumChannels > 4 { return Err(InvalidChannels); }
      if newWidth == 0 { return Err(ZeroWidth); }
      if newHeight == 0 { return Err(ZeroHeight); }
      Free();
      if !available { return Err(CouldNotLoad); }
      hide Fits, Size, Index, Times;
      data := new Byte[Size(newWidth, newHeight, newNumChannels)](_ => 0);
      width, height, numChannels := newWidth, newHeight, newNumChannels;
      r := Ok(());
    }

    method GetRGBA(x: Word, y: Word) returns (r: Result<(Byte, Byte, Byte, Byte)>)
      requires Valid() && Holds(x, y, numChannels)
      ensures data == null ==> r == Err(NoData)
      ensures data != null && !InRange(x, y) ==> r == Err(OutOfRange)
      ensures InRange(x, y) ==> r == Ok(Colour(Pixel(x, y, numChannels)))
      ensures r.Ok? ==> var (red, green, blue, alpha), p := r.value, Pixel(x, y, numChannels);
        && red == p[0] && green == (if numChannels < 2 then 255 else p[1])
        && blue == (if numChannels < 3 then 255 else p[2]) && alpha == if numChannels < 4 then 255 else p[3]
    {
      if data == null { return Err(NoData); }
      if x >= width || y >= height { return Err(OutOfRange); }
      var index := Index(x, y, width, numChannels);
      r := Ok((data[index], if numChannels > 1 then data[index + 1] else 255,
               if numChannels > 2 then data[index + 2] else 255, if numChannels > 3 then data[index + 3] else 255));
    }

    /** The fourth byte is not read. */
    method GetRGB(x: Word, y: Word) returns (r: Result<(Byte, Byte, Byte)>)
      requires Valid() && Holds(x, y, if numChannels < 3 then numChannels else 3)
      ensures data == null ==> r == Err(NoData)
      ensures data != null && !InRange(x, y) ==> r == Err(OutOfRange)
      ensures InRange(x, y) ==>
        var c := Colour(Pixel(x, y, if numChannels < 3 then numChannels else 3)); r == Ok((c.0, c.1, c.2))
      ensures r.Ok? ==> var (red, green, blue), p := r.value, Pixel(x, y, if numChannels < 3 then numChannels else 3);
        red == p[0] && green == (if numChannels < 2 then 255 else p[1]) && blue == if numChannels < 3 then 255 else p[2]
    {
      if data == null { return Err(NoData); }
      if x >= width || y >= height { return Err(OutOfRange); }
      var index := Index(x, y, width, numChannels);
      r := Ok((data[index], if numChannels > 1 then data[index + 1] else 255,
               if numChannels > 2 then data[index + 2] else 255));
    }

    /** Afterwards the pixel reads back as the colour set, opaque. No other byte changes, so where the size did
        not wrap around every other pixel is as before. */
    method SetRGB(x: Word, y: Word, red: Byte, green: Byte, blue: Byte) returns (r: Result<()>)
      requires Valid() && (numChannels >= 3 ==> Holds(x, y, numChannels))
      modifies data
      ensures Valid() && data == old(data)
      ensures r == if data == null then Err(NoData) else if !InRange(x, y) then Err(OutOfRange)
                   else if numChannels < 3 then Err(TooFewChannels) else Ok(())
      ensures r.Ok? ==> Holds(x, y, numChannels) && Colour(Pixel(x, y, numChannels)) == (red, green, blue, 255)
      ensures data != null ==> OnlyPixelChanged(old(data[..]), data[..], x, y, r.Ok?)
    {
      if data == null { return Err(NoData); }
      NothingChanged(data[..], x, y, width, height, numChannels);
      if x >= width || y >= height { return Err(OutOfRange); }
      if numChannels < 3 { return Err(TooFewChannels); }
      hide Fits, Size, Index, Times, OthersKept;
      var index := Index(x, y, width, numChannels);
      ghost var was := data[..];
      data[index] := red;
      data[index + 1] := green;
      data[index + 2] := blue;
      if numChannels > 3 { data[index + 3] := 255; }
      if Fits(width, height, numChannels) { OnlyThisPixel(was, data[..], x, y, width, height, numChannels); }
      r := Ok(());
    }

    method SetRGBA(x: Word, y: Word, red: Byte, green: Byte, blue: Byte, alpha: Byte) returns (r: Result<()>)
      requires Valid() && (numChannels >= 4 ==> Holds(x, y, numChannels))
      modifies data
      ensures Valid() && data == old(data)
      ensures r == if data == null then Err(NoData) else if !InRange(x, y) then Err(OutOfRange)
                   else if numChannels < 4 then Err(TooFewChannels) else Ok(())
      ensures r.Ok? ==> Holds(x, y, numChannels) && Colour(Pixel(x, y, numChannels)) == (red, green, blue, alpha)
      ensures data != null ==> OnlyPixelChanged(old(data[..]), data[..], x, y, r.Ok?)
    {
      if data == null { return Err(NoData); }
      NothingChanged(data[..], x, y, width, height, numChannels);
      if x >= width || y >= height { return Err(OutOfRange); }
      if numChannels < 4 { return Err(TooFewChannels); }
      hide Fits, Size, Index, Times, OthersKept;
      var index := Index(x, y, width, numChannels);
      ghost var was := data[..];
      data[index] := red;
      data[index + 1] := green;
      data[index + 2] := blue;
      data[index + 3] := alpha;
      if Fits(width, height, numChannels) { OnlyThisPixel(was, data[..], x, y, width, height, numChannels); }
      r := Ok(());
    }
  }
}
