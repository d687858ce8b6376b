/**
 * ParityEncoder: `binaryToPixels`. Every symbol becomes one pixel intensity: a candidate
 * `1 + rand() % 254` in [1, 254], bumped by one when its parity does not match the symbol
 * (even for '0', odd for anything else). The raw `rand()` results are an explicit
 * parameter, `draws`, consumed one per symbol in order.
 */
module ParityEncoder {
  import opened BitPacker

  /** The candidate intensity `1 + (r % 254)` for a raw draw r. */
  function Candidate(r: nat): (v: int)
    ensures 1 <= v <= 254
  {
    1 + r % 254
  }

  /**
   * The intensity for one symbol: the candidate or the candidate plus one, never 0 and
   * never above 255, even exactly when the symbol is '0'.
   */
  function PixelFor(symbol: char, r: nat): (v: int)
    ensures v == Candidate(r) || v == Candidate(r) + 1
    ensures 1 <= v <= 255
    ensures v % 2 == 0 <==> symbol == '0'
  {
    var v := Candidate(r);
    if symbol == '0' then (if v % 2 != 0 then v + 1 else v)
    else (if v % 2 == 0 then v + 1 else v)
  }

  /** The intensities for a symbol sequence, symbol i using draw i. */
  function Encode(bits: seq<char>, draws: seq<nat>): (pixels: seq<int>)
    requires |bits| <= |draws|
    ensures |pixels| == |bits|
    ensures forall i :: 0 <= i < |pixels| ==> 1 <= pixels[i] <= 255
    ensures forall i :: 0 <= i < |pixels| ==> (pixels[i] % 2 == 0 <==> bits[i] == '0')
  {
    seq(|bits|, i requires 0 <= i < |bits| => PixelFor(bits[i], draws[i]))
  }

  /** The reader's side of the parity code: an even intensity is '0', an odd one '1'. */
  function ParityDecode(pixels: seq<int>): (bits: seq<char>)
    ensures |bits| == |pixels| && IsBinary(bits)
  {
    seq(|pixels|, i requires 0 <= i < |pixels| => if pixels[i] % 2 == 0 then '0' else '1')
  }

  /** Whatever the draws, the parities of the encoded intensities give the symbols back. */
  lemma EncodeRoundTrip(bits: seq<char>, draws: seq<nat>)
    requires IsBinary(bits) && |bits| <= |draws|
    ensures ParityDecode(Encode(bits, draws)) == bits
  {
  }

  /**
   * `binaryToPixels(totalBits, binaryText, pixelValues)`: writes one intensity per symbol
   * into pixelValues[0 .. totalBits), symbol i using draws[i], and nothing else.
   */
  method BinaryToPixels(totalBits: nat, binaryText: array<char>, draws: seq<nat>, pixelValues: array<int>)
    requires totalBits <= binaryText.Length && totalBits <= pixelValues.Length
    requires totalBits <= |draws|
    modifies pixelValues
    ensures pixelValues[..totalBits] == Encode(binaryText[..totalBits], draws)
    ensures pixelValues[totalBits..] == old(pixelValues[totalBits..])
  {
    for i := 0 to totalBits
      invariant forall j :: 0 <= j < i ==> pixelValues[j] == PixelFor(binaryText[j], draws[j])
      invariant forall j :: i <= j < pixelValues.Length ==> pixelValues[j] == old(pixelValues[j])
    {
      var randomPixelValue := 1 + draws[i] % 254;
      if binaryText[i] == '0' {
        if randomPixelValue % 2 != 0 {
          randomPixelValue := randomPixelValue + 1;
        }
      } else {
        if randomPixelValue % 2 == 0 {
          randomPixelValue := randomPixelValue + 1;
        }
      }
      pixelValues[i] := randomPixelValue;
    }
  }
}
