/**
 * PgmWriter: the file `pixelsToImage` writes. A binary greymap (Netpbm PGM, magic
 * number P5): the ASCII header "P5\n<width> <height>\n255\n" followed immediately by the
 * width*height cell bytes, row-major, and nothing after them.
 */
module PgmWriter {
  import opened Bytes
  import opened RasterLayout

  /** "P5\n" */
  const MAGIC: seq<byte> := [0x50, 0x35, 0x0A]
  /** ' ' */
  const SPACE: byte := 0x20
  /** '\n' */
  const NEWLINE: byte := 0x0A
  /** "255\n": the maximum intensity line. */
  const MAXVAL_LINE: seq<byte> := [0x32, 0x35, 0x35, 0x0A]

  /** An ASCII decimal digit. */
  predicate IsDigit(b: byte)
  {
    0x30 <= b <= 0x39
  }

  predicate AllDigits(s: seq<byte>)
  {
    forall i :: 0 <= i < |s| ==> IsDigit(s[i])
  }

  /** `%d` of a non-negative int: its decimal digits in ASCII, with no leading zero. */
  function Decimal(n: nat): (s: seq<byte>)
    ensures |s| >= 1 && AllDigits(s)
    ensures s[0] == 0x30 ==> n == 0
  {
    if n < 10 then [0x30 + n] else Decimal(n / 10) + [0x30 + n % 10]
  }

  /** The number a string of ASCII digits spells. */
  function DecimalValue(s: seq<byte>): nat
    requires AllDigits(s)
  {
    if s == [] then 0 else 10 * DecimalValue(s[..|s| - 1]) + (s[|s| - 1] - 0x30)
  }

  /** Reading back the digits `%d` prints gives the number. */
  lemma {:induction false} DecimalRoundTrip(n: nat)
    ensures DecimalValue(Decimal(n)) == n
  {
    if n >= 10 {
      var s := Decimal(n);
      assert s[..|s| - 1] == Decimal(n / 10);
      DecimalRoundTrip(n / 10);
    }
  }

  /**
   * The header `fprintf(fp, "P5\n%d %d\n255\n", width, height)` writes: the magic line, the
   * two numbers separated by one space and ended by a newline, the maximum-value line.
   */
  function Header(width: nat, height: nat): (header: seq<byte>)
    ensures |header| == |Decimal(width)| + |Decimal(height)| + 9
    ensures header[..|MAGIC|] == MAGIC
    ensures header[|header| - |MAXVAL_LINE|..] == MAXVAL_LINE
  {
    MAGIC + Decimal(width) + [SPACE] + Decimal(height) + [NEWLINE] + MAXVAL_LINE
  }

  /**
   * The file `pixelsToImage` writes for n > 0 intensities: the header for its dimensions,
   * then exactly width*height bytes, byte header+i being cell i, and nothing after them.
   */
  function Image(pixels: seq<int>): (file: seq<byte>)
    requires |pixels| > 0
    ensures var w, h := Width(|pixels|), Height(|pixels|);
      |file| == |Header(w, h)| + w * h &&
      file[..|Header(w, h)|] == Header(w, h) &&
      (forall i :: 0 <= i < w * h ==> file[|Header(w, h)| + i] == Cell(pixels, i))
  {
    var w, h := Width(|pixels|), Height(|pixels|);
    Header(w, h) + Body(pixels, w * h)
  }

  /** Length of the longest run of digits at the front of s. */
  function DigitRun(s: seq<byte>): (k: nat)
    ensures k <= |s| && AllDigits(s[..k])
    ensures k < |s| ==> !IsDigit(s[k])
  {
    if s == [] || !IsDigit(s[0]) then 0
    else
      assert s[..1 + DigitRun(s[1..])] == [s[0]] + s[1..][..DigitRun(s[1..])];
      1 + DigitRun(s[1..])
  }

  /** A reader's parse of a non-empty decimal field ending in `terminator`. */
  function ParseField(s: seq<byte>, terminator: byte): Option<(nat, seq<byte>)>
  {
    var k := DigitRun(s);
    if 0 < k < |s| && s[k] == terminator then Some((DecimalValue(s[..k]), s[k + 1..])) else None
  }

  /** A reader's parse of a P5 header: the width, the height and the bytes after the header. */
  function ParseHeader(file: seq<byte>): Option<(nat, nat, seq<byte>)>
  {
    if |file| < |MAGIC| || file[..|MAGIC|] != MAGIC then None
    else match ParseField(file[|MAGIC|..], SPACE)
      case None => None
      case Some((w, afterWidth)) =>
        match ParseField(afterWidth, NEWLINE)
        case None => None
        case Some((h, afterHeight)) =>
          if |afterHeight| < |MAXVAL_LINE| || afterHeight[..|MAXVAL_LINE|] != MAXVAL_LINE then None
          else Some((w, h, afterHeight[|MAXVAL_LINE|..]))
  }

  lemma {:induction false} DigitRunAppend(d: seq<byte>, s: seq<byte>)
    requires AllDigits(d)
    ensures DigitRun(d + s) == |d| + DigitRun(s)
  {
    if d != [] {
      assert (d + s)[0] == d[0] && IsDigit(d[0]);
      assert (d + s)[1..] == d[1..] + s;
      assert AllDigits(d[1..]);
      DigitRunAppend(d[1..], s);
      assert DigitRun(d + s) == 1 + DigitRun((d + s)[1..]);
    } else {
      assert d + s == s;
    }
  }

  /** A field written by `%d` and a non-digit terminator parses back to its number. */
  lemma FieldRoundTrip(n: nat, terminator: byte, rest: seq<byte>)
    requires !IsDigit(terminator)
    ensures ParseField(Decimal(n) + [terminator] + rest, terminator) == Some((n, rest))
  {
    var d := Decimal(n);
    var t := [terminator] + rest;
    var s := d + [terminator] + rest;
    assert s == d + t;
    assert DigitRun(s) == |d| by {
      DigitRunAppend(d, t);
    }
    assert s[|d|] == terminator;
    assert s[..|d|] == d && s[|d| + 1..] == rest by {
      SplitAt(d, t);
      assert t[1..] == rest;
    }
    DecimalRoundTrip(n);
  }

  lemma SplitAt(a: seq<byte>, b: seq<byte>)
    ensures (a + b)[..|a|] == a && (a + b)[|a|..] == b
  {
  }

  /** Header + body regrouped field by field, as a reader consumes it. */
  lemma HeaderFields(width: nat, height: nat, body: seq<byte>)
    ensures Header(width, height) + body
         == MAGIC + (Decimal(width) + [SPACE] + (Decimal(height) + [NEWLINE] + (MAXVAL_LINE + body)))
  {
  }

  /** A reader recovers the dimensions and the body from any file that starts with Header. */
  lemma HeaderRoundTrip(width: nat, height: nat, body: seq<byte>)
    ensures ParseHeader(Header(width, height) + body) == Some((width, height, body))
  {
    var tail := MAXVAL_LINE + body;
    var afterWidth := Decimal(height) + [NEWLINE] + tail;
    var afterMagic := Decimal(width) + [SPACE] + afterWidth;
    HeaderFields(width, height, body);
    SplitAt(MAGIC, afterMagic);
    FieldRoundTrip(width, SPACE, afterWidth);
    FieldRoundTrip(height, NEWLINE, tail);
    SplitAt(MAXVAL_LINE, body);
  }

  /** A reader of the image finds the dimensions and exactly the cells of the layout. */
  lemma ImageReadsBack(pixels: seq<int>)
    requires |pixels| > 0
    ensures ParseHeader(Image(pixels)) == Some((Width(|pixels|), Height(|pixels|), Layout(pixels).cells))
  {
    HeaderRoundTrip(Width(|pixels|), Height(|pixels|), Layout(pixels).cells);
  }

  /** One intensity 200 makes a 1 by 1 image of 12 bytes. */
  lemma OneIntensityImage()
    ensures Image([200]) == [0x50, 0x35, 0x0A, 0x31, 0x20, 0x31, 0x0A, 0x32, 0x35, 0x35, 0x0A, 200]
  {
    assert Decimal(1) == [0x31];
    assert Width(1) == 1 && Height(1) == 1;
    assert Header(1, 1) == [0x50, 0x35, 0x0A, 0x31, 0x20, 0x31, 0x0A, 0x32, 0x35, 0x35, 0x0A];
    assert Body([200], 1) == [200];
  }

  /** Intensities 200 and 17 make a 2 by 1 image of 13 bytes. */
  lemma TwoIntensityImage()
    ensures Image([200, 17]) == [0x50, 0x35, 0x0A, 0x32, 0x20, 0x31, 0x0A, 0x32, 0x35, 0x35, 0x0A, 200, 17]
  {
    assert Decimal(1) == [0x31] && Decimal(2) == [0x32];
    WidthLeast(2, 2);
    assert Width(2) == 2 && Height(2) == 1;
    assert Header(2, 1) == [0x50, 0x35, 0x0A, 0x32, 0x20, 0x31, 0x0A, 0x32, 0x35, 0x35, 0x0A];
    assert Body([200, 17], 2) == [200, 17];
  }

  /**
   * The output file as `pixelsToImage` uses it through stdio: opening it for binary writing
   * (which empties it), writing bytes, closing it. Whether it can be opened and how many
   * more bytes the medium accepts stand for the outcomes of `fopen`, `fprintf` and
   * `fwrite`; a write that does not fit fails and adds nothing.
   */
  class OutputFile {
    var bytes: seq<byte>
    var isOpen: bool
    var room: nat
    const openable: bool

    constructor (openable: bool, room: nat)
      ensures this.openable == openable && this.room == room
      ensures bytes == [] && !isOpen
    {
      this.openable := openable;
      this.room := room;
      bytes := [];
      isOpen := false;
    }

    /** `fopen(filename, "wb")`: on success the file is open and empty. */
    method Open() returns (ok: bool)
      requires !isOpen
      modifies this
      ensures ok == openable && isOpen == ok
      ensures bytes == (if ok then [] else old(bytes))
      ensures room == old(room)
    {
      ok := openable;
      if ok {
        isOpen := true;
        bytes := [];
      }
    }

    /** `fprintf`/`fwrite`: appends data when the medium has room for it, else fails. */
    method Write(data: seq<byte>) returns (ok: bool)
      requires isOpen
      modifies this
      ensures isOpen
      ensures ok == (|data| <= old(room))
      ensures bytes == (if ok then old(bytes) + data else old(bytes))
      ensures room == (if ok then old(room) - |data| else old(room))
    {
      ok := |data| <= room;
      if ok {
        bytes := bytes + data;
        room := room - |data|;
      }
    }

    /** `fclose`. */
    method Close()
      requires isOpen
      modifies this
      ensures !isOpen && bytes == old(bytes) && room == old(room)
    {
      isOpen := false;
    }
  }

  lemma PrefixExtend(s: seq<byte>, i: nat)
    requires i < |s|
    ensures s[..i + 1] == s[..i] + [s[i]]
  {
  }

  lemma ConcatPrefix(a: seq<byte>, b: seq<byte>, k: nat)
    requires k <= |b|
    ensures (a + b)[..|a| + k] == a + b[..k]
  {
  }

  /** The image split at the end of its header, for the dimensions `pixelsToImage` computes. */
  lemma ImageParts(pixels: seq<int>, width: nat, height: nat)
    requires |pixels| > 0
    requires width == Width(|pixels|) && height == Height(|pixels|)
    ensures Image(pixels) == Header(width, height) + Body(pixels, height * width)
    ensures |Image(pixels)| == |Header(width, height)| + height * width
  {
    assert width * height == height * width;
  }

  /**
   * The body loop of `pixelsToImage`: writes cells 0 .. cells-1 one byte at a time, intensity
   * i clamped to [0, 255] while i < totalBits and 0 after that, stopping at the first failed
   * write. It succeeds exactly when the medium has room for every cell; otherwise the file
   * ends with as many cells as there was room for.
   */
  method WriteCells(file: OutputFile, totalBits: nat, pixelValues: array<int>, cells: nat) returns (ok: bool)
    requires file.isOpen
    requires totalBits <= pixelValues.Length
    modifies file
    ensures file.isOpen
    ensures ok <==> cells <= old(file.room)
    ensures ok ==> file.bytes == old(file.bytes) + Body(pixelValues[..totalBits], cells)
    ensures !ok ==> file.bytes == old(file.bytes) + Body(pixelValues[..totalBits], cells)[..old(file.room)]
    ensures file.room == if ok then old(file.room) - cells else 0
  {
    ghost var body := Body(pixelValues[..totalBits], cells);
    var i := 0;
    while i < cells
      invariant 0 <= i <= cells
      invariant file.isOpen
      invariant file.bytes == old(file.bytes) + body[..i]
      invariant file.room + i == old(file.room)
    {
      var cell := 0;
      if i < totalBits {
        var pv := pixelValues[i];
        if pv < 0 {
          pv := 0;
        }
        if pv > 255 {
          pv := 255;
        }
        cell := pv;
      } else {
        cell := 0;
      }
      assert cell == body[i];
      ok := file.Write([cell]);
      if !ok {
        return;
      }
      PrefixExtend(body, i);
      i := i + 1;
    }
    assert body[..cells] == body;
    ok := true;
  }

  /**
   * `pixelsToImage(filename, totalBits, pixelValues)`: returns -1 and touches nothing when
   * totalBits <= 0; otherwise writes Image(pixelValues[..totalBits]) to the file and returns
   * 0, or returns -1 when opening or some write fails, leaving a proper prefix of the image.
   */
  method PixelsToImage(file: OutputFile, totalBits: int, pixelValues: array<int>) returns (status: int)
    requires !file.isOpen
    requires totalBits <= pixelValues.Length
    modifies file
    ensures !file.isOpen
    ensures status == 0 || status == -1
    ensures totalBits <= 0 ==> status == -1 && file.bytes == old(file.bytes) && file.room == old(file.room)
    ensures totalBits > 0 && !file.openable ==> status == -1 && file.bytes == old(file.bytes)
    ensures totalBits > 0 ==>
      var image := Image(pixelValues[..totalBits]);
      (status == 0 <==> file.openable && |image| <= old(file.room)) &&
      (status == 0 ==> file.bytes == image) &&
      (status == -1 && file.openable ==> |file.bytes| < |image| && file.bytes == image[..|file.bytes|])
    ensures totalBits > 0 ==>
      var image := Image(pixelValues[..totalBits]);
      var header := Header(Width(totalBits), Height(totalBits));
      file.room == if !file.openable then old(file.room)
                   else if |image| <= old(file.room) then old(file.room) - |image|
                   else if |header| <= old(file.room) then 0
                   else old(file.room)
  {
    if totalBits <= 0 {
      return -1;
    }
    ghost var pixels := pixelValues[..totalBits];
    var width := Width(totalBits);
    var height := Height(totalBits);
    var header := Header(width, height);
    ImageParts(pixels, width, height);

    var ok := file.Open();
    if !ok {
      return -1;
    }
    ok := file.Write(header);
    if !ok {
      file.Close();
      return -1;
    }
    assert file.bytes == header;
    ghost var body := Body(pixels, height * width);
    ghost var roomForCells := file.room;
    ok := WriteCells(file, totalBits, pixelValues, height * width);
    file.Close();
    if !ok {
      ConcatPrefix(header, body, roomForCells);
      return -1;
    }
    return 0;
  }
}
