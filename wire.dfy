/** Bytes, datagrams and the two text encodings that cross the wire between
    the sensor node, the brake Arduino and the head unit: ASCII text
    (`bytes.decode("ASCII")` / `str.encode()`) and decimal integer text
    (`str(n)` and its inverse). */
module Wire {

  newtype byte = b: int | 0 <= b < 256

  /** The payload of one UDP datagram. */
  type Datagram = seq<byte>

  datatype Option<+T> = None | Some(value: T)

  datatype Result<+T, +E> = Success(value: T) | Failure(error: E)

  /** What `recvfrom(bufsize)` hands back for an arriving datagram: its first
      `bufsize` bytes; the rest of the datagram is discarded. */
  function Received(d: Datagram, bufsize: nat): (r: Datagram)
    ensures r <= d && |r| <= bufsize
    ensures |r| == if |d| <= bufsize then |d| else bufsize
    ensures |d| <= bufsize ==> r == d
    ensures bufsize > 0 ==> (r == [] <==> d == [])
  {
    if |d| <= bufsize then d else d[..bufsize]
  }

  /** Python's clamping slice `d[0:n]`. */
  function Prefix(d: seq<byte>, n: nat): (r: seq<byte>)
    ensures r <= d
    ensures |r| == if |d| < n then |d| else n
  {
    if |d| < n then d else d[..n]
  }

  /** Concatenation of a sequence of datagrams, in order. */
  function Flatten(ds: seq<Datagram>): seq<byte>
  {
    if ds == [] then [] else ds[0] + Flatten(ds[1..])
  }

  predicate IsAscii(d: seq<byte>)
  {
    forall i :: 0 <= i < |d| ==> d[i] < 128
  }

  predicate IsAsciiText(s: string)
  {
    forall i :: 0 <= i < |s| ==> s[i] as int < 128
  }

  /** Each byte read as the character with the same code; on ASCII input this
      is `bytes.decode("ASCII")`. */
  function Text(d: seq<byte>): (t: string)
    ensures |t| == |d|
    ensures forall i :: 0 <= i < |d| ==> t[i] as int == d[i] as int
    ensures IsAsciiText(t) <==> IsAscii(d)
  {
    var t := seq(|d|, i requires 0 <= i < |d| => d[i] as int as char);
    assert forall i :: 0 <= i < |d| ==> t[i] as int == d[i] as int;
    t
  }

  /** `str.encode()` of an ASCII string. */
  function Encode(s: string): (e: seq<byte>)
    requires IsAsciiText(s)
    ensures |e| == |s| && IsAscii(e)
    ensures forall i :: 0 <= i < |s| ==> e[i] as int == s[i] as int
  {
    seq(|s|, i requires 0 <= i < |s| => s[i] as int as byte)
  }

  /** Encoding ASCII text and decoding it again gives the text back. */
  lemma TextOfEncode(s: string)
    requires IsAsciiText(s)
    ensures IsAscii(Encode(s)) && Text(Encode(s)) == s
  {
  }

  /** Decoding ASCII bytes and encoding them again gives the bytes back. */
  lemma EncodeOfText(d: seq<byte>)
    requires IsAscii(d)
    ensures IsAsciiText(Text(d)) && Encode(Text(d)) == d
  {
  }

  /** Decoding distributes over concatenation. */
  lemma TextAppend(a: seq<byte>, b: seq<byte>)
    ensures Text(a + b) == Text(a) + Text(b)
  {
  }

  lemma AsciiAppend(a: seq<byte>, b: seq<byte>)
    ensures IsAscii(a + b) <==> IsAscii(a) && IsAscii(b)
  {
    if IsAscii(a + b) {
      forall i | 0 <= i < |a| ensures a[i] < 128 {
        assert a[i] == (a + b)[i];
      }
      forall i | 0 <= i < |b| ensures b[i] < 128 {
        assert b[i] == (a + b)[|a| + i];
      }
    }
  }

  // ---------------------------------------------------------------------
  // Decimal text: `str(n)` for an int, and a strict reading of it back.

  predicate IsDigitChar(c: char)
  {
    '0' <= c <= '9'
  }

  function DigitChar(d: nat): (c: char)
    requires d < 10
  {
    (48 + d) as char
  }

  /** `str(n)` for a non-negative n: the decimal digits, most significant
      first, with no leading zero. */
  function NatText(n: nat): (s: string)
    ensures 1 <= |s| && forall i :: 0 <= i < |s| ==> IsDigitChar(s[i])
    ensures s[0] == '0' <==> n == 0
    ensures n < 10 ==> |s| == 1
    ensures n < 100 ==> |s| <= 2
    ensures n < 1000 ==> |s| <= 3
    decreases n
  {
    if n < 10 then [DigitChar(n)] else NatText(n / 10) + [DigitChar(n % 10)]
  }

  /** `str(n)` for any int: a '-' exactly for negative n, and no leading
      zero except in "0" itself. */
  function DecimalText(n: int): (s: string)
    ensures IsAsciiText(s) && 1 <= |s|
    ensures s[0] == '-' <==> n < 0
    ensures n < 0 ==> 2 <= |s| && IsDigitChar(s[1]) && s[1] != '0'
    ensures n >= 0 ==> IsDigitChar(s[0]) && (s[0] == '0' <==> n == 0)
    ensures n == 0 ==> s == "0"
    ensures 0 <= n < 1000 ==> |s| <= 3
  {
    if n < 0 then "-" + NatText(-n) else NatText(n)
  }

  predicate IsDigits(s: string)
  {
    1 <= |s| && forall i :: 0 <= i < |s| ==> IsDigitChar(s[i])
  }

  /** The value of a string of decimal digits, most significant first. */
  function DigitsValue(s: string): nat
    requires forall i :: 0 <= i < |s| ==> IsDigitChar(s[i])
    decreases |s|
  {
    if s == [] then 0
    else
      assert IsDigitChar(s[|s| - 1]);
      DigitsValue(s[..|s| - 1]) * 10 + (s[|s| - 1] as int - '0' as int)
  }

  /** Reading decimal integer text: an optional '-' followed by one or more
      digits; anything else is rejected. */
  function ParseInt(s: string): (r: Option<int>)
    ensures r.Some? <==> IsDigits(s) || (|s| > 0 && s[0] == '-' && IsDigits(s[1..]))
    ensures IsDigits(s) ==> r == Some(DigitsValue(s))
    ensures |s| > 0 && s[0] == '-' && IsDigits(s[1..]) ==> r == Some(-(DigitsValue(s[1..]) as int))
    ensures r.Some? ==> 1 <= |s| && IsAsciiText(s)
    ensures r.Some? && r.value < 0 ==> s[0] == '-'
    ensures |s| == 0 || (s[0] != '-' && !IsDigitChar(s[0])) ==> r == None
  {
    if |s| > 0 && s[0] == '-' then
      if IsDigits(s[1..]) then Some(-(DigitsValue(s[1..]) as int)) else None
    else if IsDigits(s) then Some(DigitsValue(s))
    else None
  }

  lemma {:induction false} NatTextValue(n: nat)
    ensures DigitsValue(NatText(n)) == n
    decreases n
  {
    if n >= 10 {
      var s := NatText(n);
      assert s[..|s| - 1] == NatText(n / 10);
      NatTextValue(n / 10);
    }
  }

  /** Reading back `str(n)` gives n, for every int n. */
  lemma ParseDecimalText(n: int)
    ensures ParseInt(DecimalText(n)) == Some(n)
  {
    var s := DecimalText(n);
    if n < 0 {
      assert s[1..] == NatText(-n);
      NatTextValue(-n);
    } else {
      NatTextValue(n);
    }
  }
}
