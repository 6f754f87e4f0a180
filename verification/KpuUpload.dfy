/**
  kpu_upload_core of sdk/lib/drivers/kpu.c: an image is copied from dense rows into the memory of the KPU, where
  narrow rows share a 64-byte line. dest is the memory from the upload address on.
 */
module KpuUpload {
  import opened Bytes

  /** How rows lie in lines: bytes from one channel to the next, channels in a line, lines in a row. */
  datatype Layout = Layout(padding: nat, group: nat, length: nat)

  function LayoutOf(width: nat): Layout {
    if width <= 16 then Layout(16, 4, 1)
    else if width <= 32 then Layout(32, 2, 1)
    else Layout(64, 1, (width + 63) / 64)
  }

  datatype Image = Image(width: nat, height: nat, channels: nat)
  {
    function Layout(): Layout {
      LayoutOf(width)
    }

    /** channel_origin. */
    function ChannelStart(oc: nat): nat {
      oc / Layout().group * Layout().length * height * 64 + oc % Layout().group * Layout().padding
    }

    /** y_origin. */
    function RowStart(oc: nat, y: nat): nat {
      ChannelStart(oc) + y * Layout().length * 64
    }

    function Address(oc: nat, y: nat, x: nat): nat {
      RowStart(oc, y) + x
    }

    predicate Has(oc: nat, y: nat, x: nat) {
      oc < channels && y < height && x < width
    }

    /** Where the source has a row. */
    function SourceRow(oc: nat, y: nat): nat {
      (oc * height + y) * width
    }

    /** ceil(channels / group) * length * height * 64. */
    function Bound(): nat {
      (channels + Layout().group - 1) / Layout().group * Layout().length * height * 64
    }
  }

  // --- the address map ------------------------------------------------------------------------------------------

  lemma Monotone(a: nat, b: nat, factor: nat)
    requires a <= b
    ensures a * factor <= b * factor
  {
  }

  lemma DigitsBelow(base: nat, a: nat, b: nat, top: nat)
    requires b < base && a < top
    ensures a * base + b < top * base
  {
    Monotone(a + 1, top, base);
  }

  /** Two-digit numbers to a base have unique digits. */
  lemma Digits(base: nat, a: nat, b: nat, c: nat, d: nat)
    requires b < base && d < base && a * base + b == c * base + d
    ensures a == c && b == d
  {
    if a < c {
      DigitsBelow(base, a, b, c);
    } else if c < a {
      DigitsBelow(base, c, d, a);
    }
  }

  /** The address in lines: the line of the row, and the place in it. */
  lemma AddressInLines(image: Image, oc: nat, y: nat, x: nat)
    requires image.Has(oc, y, x)
    ensures var l := image.Layout();
            var line := oc / l.group * image.height + y;
            var place := oc % l.group * l.padding + x;
            && image.Address(oc, y, x) == line * (l.length * 64) + place
            && place < l.length * 64
            && (l.group > 1 ==> x < l.padding)
  {
    var l := image.Layout();
    var q, h, n := oc / l.group, image.height, l.length;
    assert q * n * h * 64 == q * h * (n * 64) by { Shuffle(q, n, h); }
    assert (q * h + y) * (n * 64) == q * h * (n * 64) + y * (n * 64);
    assert y * n * 64 == y * (n * 64);
  }

  lemma Shuffle(a: nat, b: nat, c: nat)
    ensures a * b * c * 64 == a * c * (b * 64)
  {
    assert a * b * c == a * c * b;
  }

  /**
    Rows of at most 16 bytes lie four channels to a line of 64 bytes, rows of at most 32 bytes two, and longer rows
    take as many whole lines as they need.
   */
  lemma AddressIs(image: Image, oc: nat, y: nat, x: nat)
    ensures image.width <= 16 ==> image.Address(oc, y, x) == (oc / 4 * image.height + y) * 64 + oc % 4 * 16 + x
    ensures 16 < image.width <= 32 ==> image.Address(oc, y, x) == (oc / 2 * image.height + y) * 64 + oc % 2 * 32 + x
    ensures image.width > 32 ==>
              var lines := (image.width + 63) / 64;
              && image.Address(oc, y, x) == (oc * image.height + y) * (lines * 64) + x
              && lines * 64 - 64 < image.width <= lines * 64
  {
    var l := image.Layout();
    AddressInLinesAt(image, oc, y, x, oc / l.group, oc % l.group);
  }

  lemma AddressInLinesAt(image: Image, oc: nat, y: nat, x: nat, q: nat, m: nat)
    requires q == oc / image.Layout().group && m == oc % image.Layout().group
    ensures var l := image.Layout();
            image.Address(oc, y, x) == (q * image.height + y) * (l.length * 64) + m * l.padding + x
  {
    var l := image.Layout();
    hide LayoutOf;
    var h, n := image.height, l.length;
    assert q * n * h * 64 == q * h * (n * 64) by { Shuffle(q, n, h); }
    assert (q * h + y) * (n * 64) == q * h * (n * 64) + y * (n * 64);
    assert y * n * 64 == y * (n * 64);
  }

  /** No two places of the image share an address. */
  lemma AddressIsInjective(image: Image, oc: nat, y: nat, x: nat, oc': nat, y': nat, x': nat)
    requires image.Has(oc, y, x) && image.Has(oc', y', x')
    requires image.Address(oc, y, x) == image.Address(oc', y', x')
    ensures oc == oc' && y == y' && x == x'
  {
    AddressInLines(image, oc, y, x);
    AddressInLines(image, oc', y', x');
    var g := image.Layout().group;
    UniqueDigits(image.Layout(), image.height, oc / g, oc % g, y, x, oc' / g, oc' % g, y', x');
    SameQuotient(oc, oc', g);
  }

  lemma SameQuotient(a: nat, b: nat, g: nat)
    requires g >= 1 && a / g == b / g && a % g == b % g
    ensures a == b
  {
    assert a == a / g * g + a % g;
  }

  lemma UniqueDigits(l: Layout, height: nat, q: nat, m: nat, y: nat, x: nat, q': nat, m': nat, y': nat, x': nat)
    requires m < l.group && m' < l.group && y < height && y' < height
    requires m * l.padding + x < l.length * 64 && m' * l.padding + x' < l.length * 64
    requires l.group > 1 ==> x < l.padding && x' < l.padding
    requires (q * height + y) * (l.length * 64) + (m * l.padding + x)
          == (q' * height + y') * (l.length * 64) + (m' * l.padding + x')
    ensures q == q' && m == m' && y == y' && x == x'
  {
    Digits(l.length * 64, q * height + y, m * l.padding + x, q' * height + y', m' * l.padding + x');
    Digits(height, q, y, q', y');
    SameInLine(l, m, x, m', x');
  }

  lemma SameInLine(l: Layout, m: nat, x: nat, m': nat, x': nat)
    requires m < l.group && m' < l.group && (l.group > 1 ==> x < l.padding && x' < l.padding)
    requires m * l.padding + x == m' * l.padding + x'
    ensures m == m' && x == x'
  {
    if l.group > 1 {
      Digits(l.padding, m, x, m', x');
    }
  }

  /** Every address is below the bound. */
  lemma AddressIsBounded(image: Image, oc: nat, y: nat, x: nat)
    requires image.Has(oc, y, x)
    ensures image.Address(oc, y, x) < image.Bound()
  {
    var l := image.Layout();
    AddressInLines(image, oc, y, x);
    var groups := (image.channels + l.group - 1) / l.group;
    GroupsCover(oc, image.channels, l.group);
    DigitsBelow(image.height, oc / l.group, y, groups);
    DigitsBelow(l.length * 64, oc / l.group * image.height + y, oc % l.group * l.padding + x, groups * image.height);
    Shuffle(groups, l.length, image.height);
  }

  lemma GroupsCover(oc: nat, channels: nat, group: nat)
    requires oc < channels && group >= 1
    ensures oc / group < (channels + group - 1) / group
  {
    var q := oc / group;
    assert (q + 1) * group <= oc + group <= channels + group - 1;
    QuotientAtLeast(q + 1, group, channels + group - 1);
  }

  lemma QuotientAtLeast(q: nat, b: nat, a: nat)
    requires b >= 1 && q * b <= a
    ensures q <= a / b
  {
    if a / b + 1 <= q {
      Monotone(a / b + 1, q, b);
    }
  }

  // --- what an upload leaves in memory ----------------------------------------------------------------------

  /** A whole source: channels * height dense rows. */
  predicate Source(image: Image, src: seq<byte>) {
    |src| == image.channels * image.height * image.width
  }

  function Put(mem: seq<byte>, at: nat, row: seq<byte>): (r: seq<byte>)
    requires at + |row| <= |mem|
    ensures |r| == |mem|
  {
    mem[..at] + row + mem[at + |row|..]
  }

  lemma PutAt(mem: seq<byte>, at: nat, row: seq<byte>, i: nat)
    requires at + |row| <= |mem| && i < |mem|
    ensures Put(mem, at, row)[i] == if at <= i < at + |row| then row[i - at] else mem[i]
  {
  }

  lemma SourceRowFits(image: Image, src: seq<byte>, oc: nat, y: nat)
    requires Source(image, src) && oc < image.channels && y < image.height
    ensures image.SourceRow(oc, y) + image.width <= |src|
  {
    DigitsBelow(image.height, oc, y, image.channels);
    Monotone(oc * image.height + y + 1, image.channels * image.height, image.width);
  }

  lemma RowFits(image: Image, oc: nat, y: nat)
    requires oc < image.channels && y < image.height
    ensures image.RowStart(oc, y) + image.width <= image.Bound()
  {
    if image.width == 0 {
      var narrow := image.(width := 1);
      AddressIsBounded(narrow, oc, y, 0);
      assert narrow.Layout() == image.Layout();
    } else {
      AddressIsBounded(image, oc, y, image.width - 1);
    }
  }

  function Row(image: Image, src: seq<byte>, oc: nat, y: nat): (r: seq<byte>)
    requires Source(image, src) && oc < image.channels && y < image.height
    ensures |r| == image.width
  {
    SourceRowFits(image, src, oc, y);
    src[image.SourceRow(oc, y)..image.SourceRow(oc, y) + image.width]
  }

  /** Memory after all the rows before row y of channel oc. */
  function Uploaded(image: Image, src: seq<byte>, mem: seq<byte>, oc: nat, y: nat): (r: seq<byte>)
    requires Source(image, src) && |mem| >= image.Bound()
    requires oc <= image.channels && y <= image.height && (y > 0 ==> oc < image.channels)
    ensures |r| == |mem|
    decreases oc, y
  {
    hide Image.RowStart, Image.Bound, Image.SourceRow, Source, Put;
    if y > 0 then
      RowFits(image, oc, y - 1);
      Put(Uploaded(image, src, mem, oc, y - 1), image.RowStart(oc, y - 1), Row(image, src, oc, y - 1))
    else if oc > 0 then Uploaded(image, src, mem, oc - 1, image.height)
    else mem
  }

  /** Is row r of channel c before row y of channel oc? */
  predicate Before(c: nat, r: nat, oc: nat, y: nat) {
    c < oc || (c == oc && r < y)
  }

  /** Every place of the image holds its own byte of the source. */
  lemma {:induction false} UploadedHas(image: Image, src: seq<byte>, mem: seq<byte>, oc: nat, y: nat, c: nat, r: nat, x: nat)
    requires Source(image, src) && |mem| >= image.Bound()
    requires oc <= image.channels && y <= image.height && (y > 0 ==> oc < image.channels)
    requires image.Has(c, r, x) && Before(c, r, oc, y)
    ensures image.Address(c, r, x) < |mem| && image.SourceRow(c, r) + x < |src|
    ensures Uploaded(image, src, mem, oc, y)[image.Address(c, r, x)] == src[image.SourceRow(c, r) + x]
    decreases oc, y
  {
    hide Image.RowStart, Image.Bound, Image.SourceRow, Source, Put;
    AddressIsBounded(image, c, r, x);
    SourceRowFits(image, src, c, r);
    if y > 0 {
      RowFits(image, oc, y - 1);
      PutAt(Uploaded(image, src, mem, oc, y - 1), image.RowStart(oc, y - 1), Row(image, src, oc, y - 1),
            image.Address(c, r, x));
      if !(c == oc && r == y - 1) {
        UploadedHas(image, src, mem, oc, y - 1, c, r, x);
        OutsideRow(image, oc, y - 1, c, r, x);
      }
    } else {
      UploadedHas(image, src, mem, oc - 1, image.height, c, r, x);
    }
  }

  /** A place of another row is not in this row. */
  lemma OutsideRow(image: Image, oc: nat, y: nat, c: nat, r: nat, x: nat)
    requires oc < image.channels && y < image.height && image.Has(c, r, x) && !(c == oc && r == y)
    ensures !(image.RowStart(oc, y) <= image.Address(c, r, x) < image.RowStart(oc, y) + image.width)
  {
    var place := image.Address(c, r, x) - image.RowStart(oc, y);
    if 0 <= place < image.width {
      AddressIsInjective(image, oc, y, place, c, r, x);
    }
  }

  /** Is a the address of some place of the image? */
  ghost predicate IsPlace(image: Image, a: nat) {
    exists c: nat, r: nat, x: nat :: image.Has(c, r, x) && image.Address(c, r, x) == a
  }

  lemma RowIsPlaces(image: Image, oc: nat, y: nat, a: nat)
    requires oc < image.channels && y < image.height
    requires image.RowStart(oc, y) <= a < image.RowStart(oc, y) + image.width
    ensures IsPlace(image, a)
  {
    hide Image.RowStart;
    var x := a - image.RowStart(oc, y);
    assert image.Has(oc, y, x) && image.Address(oc, y, x) == a;
  }

  /** Bytes that are no place of the image keep their value. */
  lemma {:induction false} UploadedKeeps(image: Image, src: seq<byte>, mem: seq<byte>, oc: nat, y: nat, a: nat)
    requires Source(image, src) && |mem| >= image.Bound() && a < |mem|
    requires oc <= image.channels && y <= image.height && (y > 0 ==> oc < image.channels)
    requires !IsPlace(image, a)
    ensures Uploaded(image, src, mem, oc, y)[a] == mem[a]
    decreases oc, y
  {
    hide Image.RowStart, Image.Bound, Image.SourceRow, Source, Put;
    if y > 0 {
      RowFits(image, oc, y - 1);
      UploadedKeeps(image, src, mem, oc, y - 1, a);
      PutAt(Uploaded(image, src, mem, oc, y - 1), image.RowStart(oc, y - 1), Row(image, src, oc, y - 1), a);
      if image.RowStart(oc, y - 1) <= a < image.RowStart(oc, y - 1) + image.width {
        RowIsPlaces(image, oc, y - 1, a);
      }
    } else if oc > 0 {
      UploadedKeeps(image, src, mem, oc - 1, image.height, a);
    }
  }

  /** In the source, rows follow one another, and so do channels. */
  lemma SourceIsDense(image: Image, oc: nat, y: nat)
    ensures image.SourceRow(0, 0) == 0
    ensures image.SourceRow(oc, y + 1) == image.SourceRow(oc, y) + image.width
    ensures image.SourceRow(oc + 1, y) == image.SourceRow(oc, y) + image.height * image.width
  {
  }

  /** The memory holds the byte of row y of channel oc at column x, at its address. */
  ghost predicate HoldsImage(image: Image, src: seq<byte>, mem: seq<byte>)
    requires Source(image, src)
  {
    forall oc: nat, y: nat, x: nat :: image.Has(oc, y, x) ==>
      && image.Address(oc, y, x) < |mem| && image.SourceRow(oc, y) + x < |src|
      && mem[image.Address(oc, y, x)] == src[image.SourceRow(oc, y) + x]
  }

  ghost predicate KeepsRest(image: Image, was: seq<byte>, mem: seq<byte>) {
    |mem| == |was| && forall a: nat :: a < |mem| && !IsPlace(image, a) ==> mem[a] == was[a]
  }

  lemma UploadedIs(image: Image, src: seq<byte>, was: seq<byte>)
    requires Source(image, src) && |was| >= image.Bound()
    ensures var mem := Uploaded(image, src, was, image.channels, 0);
            HoldsImage(image, src, mem) && KeepsRest(image, was, mem)
  {
    var mem := Uploaded(image, src, was, image.channels, 0);
    hide Uploaded, Image.Address, Image.SourceRow, Image.Bound, IsPlace;
    forall oc: nat, y: nat, x: nat | image.Has(oc, y, x)
      ensures image.Address(oc, y, x) < |mem| && image.SourceRow(oc, y) + x < |src|
      ensures mem[image.Address(oc, y, x)] == src[image.SourceRow(oc, y) + x]
    {
      UploadedHas(image, src, was, image.channels, 0, oc, y, x);
    }
    forall a: nat | a < |mem| && !IsPlace(image, a)
      ensures mem[a] == was[a]
    {
      UploadedKeeps(image, src, was, image.channels, 0, a);
    }
  }

  // --- the loops --------------------------------------------------------------------------------------------

  /** y_origin[x] = *src++, byte by byte. */
  method CopyBytes(dest: array<byte>, at: nat, src: seq<byte>, from: nat, width: nat)
    requires at + width <= dest.Length && from + width <= |src|
    modifies dest
    ensures dest[..] == Put(old(dest[..]), at, src[from..from + width])
  {
    var x := 0;
    while x < width
      invariant x <= width
      invariant forall i :: 0 <= i < dest.Length ==>
                  dest[i] == if at <= i < at + x then src[from + i - at] else old(dest[i])
    {
      dest[at + x] := src[from + x];
      x := x + 1;
    }
  }

  /** One 64-bit move. */
  method MoveWord(dest: array<byte>, at: nat, src: seq<byte>, from: nat)
    requires at + 8 <= dest.Length && from + 8 <= |src|
    modifies dest
    ensures dest[..] == Put(old(dest[..]), at, src[from..from + 8])
  {
    forall i | 0 <= i < 8 {
      dest[at + i] := src[from + i];
    }
    var was := old(dest[..]);
    assert dest[..] == was[..at] + src[from..from + 8] + was[at + 8..];
  }

  /** The row as 64-bit words: one, two or four moves, or a loop. */
  method CopyWords(dest: array<byte>, at: nat, src: seq<byte>, from: nat, words: nat)
    requires at + 8 * words <= dest.Length && from + 8 * words <= |src|
    modifies dest
    ensures dest[..] == Put(old(dest[..]), at, src[from..from + 8 * words])
  {
    hide Put;
    ghost var was := dest[..];
    if words == 1 {
      MoveWord(dest, at, src, from);
    } else if words == 2 {
      MoveWord(dest, at, src, from);
      MoveWord(dest, at + 8, src, from + 8);
      PutNext(was, at, src, from, 8);
    } else if words == 4 {
      MoveWord(dest, at, src, from);
      MoveWord(dest, at + 8, src, from + 8);
      PutNext(was, at, src, from, 8);
      MoveWord(dest, at + 16, src, from + 16);
      PutNext(was, at, src, from, 16);
      MoveWord(dest, at + 24, src, from + 24);
      PutNext(was, at, src, from, 24);
    } else {
      var x := 0;
      PutNothing(was, at, src, from);
      while x < words
        invariant x <= words
        invariant dest[..] == Put(was, at, src[from..from + 8 * x])
      {
        MoveWord(dest, at + 8 * x, src, from + 8 * x);
        PutNext(was, at, src, from, 8 * x);
        x := x + 1;
      }
    }
  }

  lemma PutNothing(was: seq<byte>, at: nat, src: seq<byte>, from: nat)
    requires at <= |was| && from <= |src|
    ensures Put(was, at, src[from..from]) == was
  {
  }

  /** One more word after n bytes of a row. */
  lemma PutNext(was: seq<byte>, at: nat, src: seq<byte>, from: nat, n: nat)
    requires at + n + 8 <= |was| && from + n + 8 <= |src|
    ensures Put(Put(was, at, src[from..from + n]), at + n, src[from + n..from + n + 8])
         == Put(was, at, src[from..from + (n + 8)])
  {
  }

  /** kpu_upload_core: word by word when the source is aligned and the width allows it, else byte by byte. */
  method UploadCore(image: Image, src: seq<byte>, srcAddress: nat, dest: array<byte>)
    requires Source(image, src) && dest.Length >= image.Bound()
    modifies dest
    ensures dest[..] == Uploaded(image, src, old(dest[..]), image.channels, 0)
    ensures HoldsImage(image, src, dest[..]) && KeepsRest(image, old(dest[..]), dest[..])
  {
    hide Put, HoldsImage, KeepsRest;
    var inWords := srcAddress % 8 == 0 && image.width % 8 == 0;
    ghost var was := dest[..];
    var oc, from := 0, 0;
    while oc < image.channels
      invariant oc <= image.channels && from == image.SourceRow(oc, 0)
      invariant dest[..] == Uploaded(image, src, was, oc, 0)
    {
      var y := 0;
      while y < image.height
        invariant y <= image.height && from == image.SourceRow(oc, y)
        invariant dest[..] == Uploaded(image, src, was, oc, y)
      {
        RowFits(image, oc, y);
        SourceRowFits(image, src, oc, y);
        if inWords {
          CopyWords(dest, image.RowStart(oc, y), src, from, image.width / 8);
        } else {
          CopyBytes(dest, image.RowStart(oc, y), src, from, image.width);
        }
        NextRow(image, oc, y);
        from := from + image.width;
        y := y + 1;
      }
      oc := oc + 1;
    }
    UploadedIs(image, src, was);
  }

  lemma NextRow(image: Image, oc: nat, y: nat)
    ensures image.SourceRow(oc, y) + image.width == image.SourceRow(oc, y + 1)
    ensures image.SourceRow(oc, image.height) == image.SourceRow(oc + 1, 0)
  {
  }
}
