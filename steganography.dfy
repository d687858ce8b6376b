/**
 * The encoder end to end: payload bytes -> symbols -> intensities -> PGM file. A reader's
 * decoder is stated beside it, as the specification of what the encoder preserves: from
 * the file alone the payload comes back, whatever the draws were.
 */
module Steganography {
  import opened Bytes
  import opened BitPacker
  import opened ParityEncoder
  import opened RasterLayout
  import opened PgmWriter

  /** The file the encoder writes for a payload, or None for an empty payload. */
  function Embed(text: seq<byte>, draws: seq<nat>): (file: Option<seq<byte>>)
    requires 8 * |text| <= |draws|
    ensures file.None? <==> text == []
  {
    if text == [] then None else Some(Image(Encode(Pack(text), draws)))
  }

  /** The data cells: everything before the first padding 0. */
  function DataPrefix(cells: seq<byte>): (data: seq<byte>)
    ensures |data| <= |cells| && data == cells[..|data|]
    ensures forall i :: 0 <= i < |data| ==> data[i] != 0
    ensures |data| < |cells| ==> cells[|data|] == 0
  {
    if cells == [] || cells[0] == 0 then [] else [cells[0]] + DataPrefix(cells[1..])
  }

  /** A reader: parse the header, check the body size, drop the padding, read parities, pack bytes. */
  function Extract(file: seq<byte>): Option<seq<byte>>
  {
    match ParseHeader(file)
    case None => None
    case Some((w, h, cells)) =>
      if |cells| != w * h then None
      else Some(Unpack(ParityDecode(DataPrefix(cells))))
  }

  /**
   * For encoded intensities the padding value marks exactly the padding: cell i is 0 if and
   * only if i is past the data, and the data cells are the intensities themselves.
   */
  lemma PaddingSentinel(bits: seq<char>, draws: seq<nat>)
    requires 0 < |bits| <= |draws|
    ensures var pixels := Encode(bits, draws);
      var cells := Layout(pixels).cells;
      (forall i :: 0 <= i < |cells| ==> (cells[i] == 0 <==> i >= |pixels|)) &&
      cells[..|pixels|] == pixels
  {
  }

  /** The data cells are the first k when the first k are non-zero and cell k, if any, is 0. */
  lemma {:induction false} DataPrefixUnique(cells: seq<byte>, k: nat)
    requires k <= |cells|
    requires forall i :: 0 <= i < k ==> cells[i] != 0
    requires k < |cells| ==> cells[k] == 0
    ensures DataPrefix(cells) == cells[..k]
  {
    if k > 0 {
      DataPrefixUnique(cells[1..], k - 1);
      assert cells[..k] == [cells[0]] + cells[1..][..k - 1];
    }
  }

  /** Stripping the padding from the cells of encoded intensities gives the intensities back. */
  lemma DataPrefixOfLayout(bits: seq<char>, draws: seq<nat>)
    requires 0 < |bits| <= |draws|
    ensures DataPrefix(Layout(Encode(bits, draws)).cells) == Encode(bits, draws)
  {
    var pixels := Encode(bits, draws);
    var cells := Layout(pixels).cells;
    PaddingSentinel(bits, draws);
    DataPrefixUnique(cells, |pixels|);
  }

  /** The image alone carries the payload: extracting from what the encoder writes gives the payload. */
  lemma EmbedRoundTrip(text: seq<byte>, draws: seq<nat>)
    requires text != [] && 8 * |text| <= |draws|
    ensures Embed(text, draws).Some?
    ensures Extract(Embed(text, draws).value) == Some(text)
  {
    var bits := Pack(text);
    var pixels := Encode(bits, draws);
    var r := Layout(pixels);
    HeaderRoundTrip(r.width, r.height, r.cells);
    DataPrefixOfLayout(bits, draws);
    PackIsBinary(text);
    EncodeRoundTrip(bits, draws);
    PackRoundTrip(text);
  }

  /**
   * The encoding steps of `main` after the payload has been read: expand the payload to
   * symbols (with a terminating NUL), draw one intensity per symbol and write the image.
   * An empty payload is refused before anything is built; on success the file holds the
   * image from which the payload can be extracted.
   */
  method EncodeToImage(text: array<byte>, draws: seq<nat>, file: OutputFile) returns (written: bool)
    requires !file.isOpen && 8 * text.Length <= |draws|
    modifies file
    ensures !file.isOpen
    ensures text.Length == 0 ==> !written && file.bytes == old(file.bytes)
    ensures written <==> text.Length > 0 && file.openable && |Embed(text[..], draws).value| <= old(file.room)
    ensures written ==> Embed(text[..], draws) == Some(file.bytes)
    ensures written ==> Extract(file.bytes) == Some(text[..])
    ensures text.Length == 0 ==> file.room == old(file.room)
    ensures text.Length > 0 && !file.openable ==> file.bytes == old(file.bytes) && file.room == old(file.room)
    ensures text.Length > 0 && file.openable && !written ==>
      var image := Embed(text[..], draws).value;
      |file.bytes| < |image| && file.bytes == image[..|file.bytes|]
    ensures text.Length > 0 ==>
      var image := Embed(text[..], draws).value;
      var header := Header(Width(8 * text.Length), Height(8 * text.Length));
      file.room == if !file.openable then old(file.room)
                   else if |image| <= old(file.room) then old(file.room) - |image|
                   else if |header| <= old(file.room) then 0
                   else old(file.room)
  {
    if text.Length == 0 {
      return false;
    }
    var totalBits := text.Length * 8;
    var binaryText := new char[totalBits + 1];
    var pixelValues := new int[totalBits];
    StringToBinary(text.Length, text, binaryText);
    binaryText[totalBits] := '\0';
    assert binaryText[..totalBits] == Pack(text[..]) by {
      assert text[..text.Length] == text[..];
    }
    BinaryToPixels(totalBits, binaryText, draws, pixelValues);
    assert pixelValues[..] == pixelValues[..totalBits];
    var status := PixelsToImage(file, totalBits, pixelValues);
    written := status == 0;
    if written {
      EmbedRoundTrip(text[..], draws);
    }
  }
}
