/**
 * BitPacker: `charToBinary` and `stringToBinary`. Every payload byte becomes eight
 * ASCII symbols '0'/'1', most significant bit first, written into a caller-supplied
 * character buffer at offset 8*i.
 */
module BitPacker {
  import opened Bytes

  /** The eight symbols of byte c: symbol k is '1' when bit 7-k is set and '0' when it is clear. */
  function ByteSymbols(c: byte): (s: seq<char>)
    ensures |s| == 8
    ensures forall k :: 0 <= k < 8 ==> s[k] == '0' || s[k] == '1'
    ensures forall k :: 0 <= k < 8 ==> (s[k] == '1' <==> BitSet(c, 7 - k))
  {
    seq(8, k requires 0 <= k < 8 => if BitSet(c, 7 - k) then '1' else '0')
  }

  /** Every symbol of s is '0' or '1'. */
  predicate IsBinary(s: seq<char>)
  {
    forall i :: 0 <= i < |s| ==> s[i] == '0' || s[i] == '1'
  }

  /** The number that a string of binary symbols spells, most significant symbol first. */
  function SymbolsValue(s: seq<char>): (v: nat)
    ensures v < Pow2(|s|)
  {
    if s == [] then 0
    else 2 * SymbolsValue(s[..|s| - 1]) + (if s[|s| - 1] == '1' then 1 else 0)
  }

  /** The first k symbols of a byte spell the byte shifted right by 8-k. */
  lemma {:induction false} ByteSymbolsPrefix(c: byte, k: nat)
    requires k <= 8
    ensures SymbolsValue(ByteSymbols(c)[..k]) == Shr(c, 8 - k)
  {
    var s := ByteSymbols(c);
    if k == 0 {
      assert Pow2(8) == 256;
      ShrBelow(c, 8, 0);
    } else {
      ByteSymbolsPrefix(c, k - 1);
      assert s[..k][..k - 1] == s[..k - 1];
      assert s[..k][k - 1] == if BitSet(c, 8 - k) then '1' else '0';
      assert Shr(c, 8 - (k - 1)) == Shr(c, 8 - k) / 2;
    }
  }

  /** Reading the eight symbols of a byte back, most significant first, gives the byte. */
  lemma ByteSymbolsRoundTrip(c: byte)
    ensures IsBinary(ByteSymbols(c))
    ensures SymbolsValue(ByteSymbols(c)) == c
  {
    ByteSymbolsPrefix(c, 8);
    assert ByteSymbols(c)[..8] == ByteSymbols(c);
  }

  /** 'A' (0x41) expands to 01000001. */
  lemma LetterA()
    ensures ByteSymbols(0x41) == "01000001"
  {
    assert Shr(0x41, 1) == 32 && Shr(0x41, 2) == 16 && Shr(0x41, 3) == 8;
    assert Shr(0x41, 4) == 4 && Shr(0x41, 5) == 2 && Shr(0x41, 6) == 1 && Shr(0x41, 7) == 0;
  }

  /** The symbols of a whole payload: the bytes' symbols one after the other. */
  function Pack(text: seq<byte>): (bits: seq<char>)
    ensures |bits| == 8 * |text|
  {
    if text == [] then [] else ByteSymbols(text[0]) + Pack(text[1..])
  }

  /** Symbol 8*i+k of a packed payload is symbol k of byte i. */
  lemma {:induction false} PackAt(text: seq<byte>, i: nat, k: nat)
    requires i < |text| && k < 8
    ensures Pack(text)[8 * i + k] == ByteSymbols(text[i])[k]
  {
    if i > 0 {
      PackAt(text[1..], i - 1, k);
    }
  }

  /** A packed payload holds only '0' and '1'. */
  lemma {:induction false} PackIsBinary(text: seq<byte>)
    ensures IsBinary(Pack(text))
  {
    if text != [] {
      ByteSymbolsRoundTrip(text[0]);
      PackIsBinary(text[1..]);
    }
  }

  /** The inverse of Pack: every group of eight symbols back to its byte. */
  function Unpack(bits: seq<char>): (text: seq<byte>)
    decreases |bits|
  {
    if |bits| < 8 then []
    else
      assert Pow2(8) == 256;
      [SymbolsValue(bits[..8])] + Unpack(bits[8..])
  }

  /** Unpacking a packed payload gives the payload back: the bit expansion loses nothing. */
  lemma {:induction false} PackRoundTrip(text: seq<byte>)
    ensures Unpack(Pack(text)) == text
  {
    if text != [] {
      var bits := Pack(text);
      assert bits[..8] == ByteSymbols(text[0]);
      assert bits[8..] == Pack(text[1..]);
      ByteSymbolsRoundTrip(text[0]);
      PackRoundTrip(text[1..]);
    }
  }

  /**
   * `charToBinary(c, out + offset)`: writes the eight symbols of c, most significant bit
   * first, into out[offset .. offset+8) and nothing else.
   */
  method CharToBinary(c: byte, out: array<char>, offset: nat)
    requires offset + 8 <= out.Length
    modifies out
    ensures out[offset..offset + 8] == ByteSymbols(c)
    ensures forall j :: 0 <= j < out.Length && !(offset <= j < offset + 8) ==> out[j] == old(out[j])
  {
    var i := 7;
    while i >= 0
      invariant -1 <= i <= 7
      invariant forall k :: 0 <= k < 7 - i ==> out[offset + k] == ByteSymbols(c)[k]
      invariant forall j :: 0 <= j < out.Length && !(offset <= j < offset + 7 - i) ==> out[j] == old(out[j])
    {
      out[offset + 7 - i] := if Shr(c, i) % 2 == 1 then '1' else '0';
      i := i - 1;
    }
  }

  /**
   * `stringToBinary(size, text, binary)`: fills binary[0 .. 8*size) with the packed symbols
   * of text[0 .. size) and leaves the rest of binary as it was.
   */
  method StringToBinary(size: nat, text: array<byte>, binary: array<char>)
    requires size <= text.Length && 8 * size <= binary.Length
    modifies binary
    ensures binary[..8 * size] == Pack(text[..size])
    ensures binary[8 * size..] == old(binary[8 * size..])
  {
    for i := 0 to size
      invariant forall j :: 0 <= j < 8 * i ==> binary[j] == ByteSymbols(text[j / 8])[j % 8]
      invariant forall j :: 8 * i <= j < binary.Length ==> binary[j] == old(binary[j])
    {
      CharToBinary(text[i], binary, i * 8);
      forall j | 8 * i <= j < 8 * i + 8
        ensures binary[j] == ByteSymbols(text[j / 8])[j % 8]
      {
        assert binary[j] == binary[i * 8..i * 8 + 8][j - 8 * i];
      }
    }
    forall j | 0 <= j < 8 * size
      ensures binary[j] == Pack(text[..size])[j]
    {
      PackAt(text[..size], j / 8, j % 8);
    }
  }
}
