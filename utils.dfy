/**
 * `hexlify`: the lowercase Base16 encoding of a byte string (section 8 of
 * RFC 4648), with a decoder that inverts it.
 */
module Utils {
  import opened Types

  const HexDigits: string := "0123456789abcdef"

  /** The lowercase hexadecimal digit for a nibble. */
  function HexDigit(n: int): char
    requires 0 <= n < 16
  {
    HexDigits[n]
  }

  /** The high nibble of a byte. */
  function High(b: byte): (n: int)
    ensures 0 <= n < 16
  {
    b / 16
  }

  /** The low nibble of a byte. */
  function Low(b: byte): (n: int)
    ensures 0 <= n < 16
  {
    b % 16
  }

  /** Two digits per byte, high nibble first. */
  function Hexlify(data: seq<byte>): (s: string)
    ensures |s| == 2 * |data|
  {
    if data == [] then ""
    else [HexDigit(High(data[0])), HexDigit(Low(data[0]))] + Hexlify(data[1..])
  }

  /** The value of a lowercase hexadecimal digit, if it is one. */
  function NibbleValue(c: char): (r: Option<int>)
    ensures r.Some? ==> 0 <= r.value < 16 && HexDigit(r.value) == c
    ensures r.None? ==> c !in HexDigits
  {
    if '0' <= c <= '9' then Some(c as int - '0' as int)
    else if 'a' <= c <= 'f' then Some(c as int - 'a' as int + 10)
    else None
  }

  /** A Base16 decoder for the lowercase alphabet. */
  function Unhexlify(s: string): (r: Option<seq<byte>>)
    ensures r.Some? ==> 2 * |r.value| == |s|
    decreases |s|
  {
    if s == [] then Some([])
    else if |s| == 1 then None
    else
      var hi, lo, rest := NibbleValue(s[0]), NibbleValue(s[1]), Unhexlify(s[2..]);
      if hi.Some? && lo.Some? && rest.Some? then Some([Combine(hi.value, lo.value)] + rest.value)
      else None
  }

  lemma {:induction false} HexlifyAt(data: seq<byte>, i: int)
    requires 0 <= i < |data|
    ensures Hexlify(data)[2 * i] == HexDigit(High(data[i]))
    ensures Hexlify(data)[2 * i + 1] == HexDigit(Low(data[i]))
  {
    var head := [HexDigit(High(data[0])), HexDigit(Low(data[0]))];
    assert Hexlify(data) == head + Hexlify(data[1..]);
    if i > 0 {
      var tail := Hexlify(data[1..]);
      HexlifyAt(data[1..], i - 1);
      assert 2 * i == 2 * (i - 1) + 2;
      assert Hexlify(data)[2 * i] == tail[2 * (i - 1)];
      assert Hexlify(data)[2 * i + 1] == tail[2 * (i - 1) + 1];
      assert data[1..][i - 1] == data[i];
    }
  }

  lemma HexlifyAlphabet(data: seq<byte>)
    ensures forall k :: 0 <= k < |Hexlify(data)| ==> Hexlify(data)[k] in HexDigits
  {
    forall k | 0 <= k < |Hexlify(data)|
      ensures Hexlify(data)[k] in HexDigits
    {
      HexlifyAt(data, k / 2);
    }
  }

  lemma {:induction false} HexlifyAppend(a: seq<byte>, b: seq<byte>)
    ensures Hexlify(a + b) == Hexlify(a) + Hexlify(b)
  {
    if a == [] {
      assert a + b == b;
    } else {
      assert (a + b)[1..] == a[1..] + b;
      HexlifyAppend(a[1..], b);
    }
  }

  lemma HexlifyEmpty()
    ensures Hexlify([]) == ""
  {
  }

  lemma {:induction false} UnhexlifyHexlify(data: seq<byte>)
    ensures Unhexlify(Hexlify(data)) == Some(data)
  {
    if data != [] {
      var hi, lo := High(data[0]), Low(data[0]);
      var rest := Hexlify(data[1..]);
      var s := [HexDigit(hi), HexDigit(lo)] + rest;
      assert Hexlify(data) == s;
      assert s[2..] == rest;
      DigitRoundTrip(hi);
      DigitRoundTrip(lo);
      UnhexlifyHexlify(data[1..]);
      NibblesRecombine(data[0]);
      assert [data[0]] + data[1..] == data;
    }
  }

  /** The byte whose high and low nibbles are `hi` and `lo`. */
  function Combine(hi: int, lo: int): byte
    requires 0 <= hi < 16 && 0 <= lo < 16
  {
    hi * 16 + lo
  }

  lemma NibblesRecombine(b: byte)
    ensures Combine(High(b), Low(b)) == b
  {
  }

  lemma DigitRoundTrip(n: int)
    requires 0 <= n < 16
    ensures NibbleValue(HexDigit(n)) == Some(n)
  {
  }

  lemma HexlifyInjective(a: seq<byte>, b: seq<byte>)
    requires Hexlify(a) == Hexlify(b)
    ensures a == b
  {
    UnhexlifyHexlify(a);
    UnhexlifyHexlify(b);
  }
}
