/**
 * A network message: a 4-character decimal header giving the body length,
 * followed by a body of at most 1024 bytes, in one fixed array.
 *
 * The header is written as by printf's "%4d" (right-aligned, padded with
 * spaces) and read back as by atoi on the header's characters up to the
 * first NUL.
 */
module Message {
  import opened Keys

  const HeaderLength: nat := 4
  const MaxBodyLength: nat := 1024

  const Space: byte := 32
  const Nul: byte := 0

  predicate IsDigit(b: byte) {
    48 <= b <= 57
  }

  /** C's isspace: blank, tab, newline, vertical tab, form feed, return. */
  predicate IsSpace(b: byte) {
    b == 32 || 9 <= b <= 13
  }

  // ---------------------------------------------------------------------
  // Formatting: "%4d"
  // ---------------------------------------------------------------------

  /** The decimal digits of n, most significant first. */
  function Digits(n: nat): (r: seq<byte>)
    ensures 1 <= |r|
    ensures forall i :: 0 <= i < |r| ==> IsDigit(r[i])
    decreases n
  {
    if n < 10 then [(48 + n) as byte] else Digits(n / 10) + [(48 + n % 10) as byte]
  }

  /** Up to four digits for a value below 10000. */
  lemma {:induction false} DigitsLength(n: nat)
    ensures n < 10 ==> |Digits(n)| == 1
    ensures n < 100 ==> |Digits(n)| <= 2
    ensures n < 1000 ==> |Digits(n)| <= 3
    ensures n < 10000 ==> |Digits(n)| <= 4
  {
    if n >= 10 {
      DigitsLength(n / 10);
    }
  }

  function Spaces(k: nat): (r: seq<byte>)
    ensures |r| == k && forall i :: 0 <= i < k ==> r[i] == Space
  {
    if k == 0 then [] else [Space] + Spaces(k - 1)
  }

  /** "%4d" of a value below 10000: its digits right-aligned in four
    * characters. */
  function Format4(n: nat): (r: seq<byte>)
    requires n < 10000
    ensures |r| == HeaderLength
  {
    DigitsLength(n);
    Spaces(HeaderLength - |Digits(n)|) + Digits(n)
  }

  // ---------------------------------------------------------------------
  // Parsing: strncat into a zeroed header, then atoi
  // ---------------------------------------------------------------------

  /** The characters before the first NUL. */
  function TakeUntilNul(s: seq<byte>): (r: seq<byte>)
    ensures |r| <= |s| && r == s[..|r|]
    ensures forall i :: 0 <= i < |r| ==> r[i] != Nul
    ensures |r| < |s| ==> s[|r|] == Nul
  {
    if |s| == 0 || s[0] == Nul then [] else [s[0]] + TakeUntilNul(s[1..])
  }

  /** The characters after the leading blanks. */
  function SkipSpaces(s: seq<byte>): (r: seq<byte>)
    ensures |r| <= |s|
    ensures |r| > 0 ==> !IsSpace(r[0])
  {
    if |s| > 0 && IsSpace(s[0]) then SkipSpaces(s[1..]) else s
  }

  /** The longest prefix of digits. */
  function LeadingDigits(s: seq<byte>): (r: seq<byte>)
    ensures |r| <= |s| && r == s[..|r|]
    ensures forall i :: 0 <= i < |r| ==> IsDigit(r[i])
    ensures |r| < |s| ==> !IsDigit(s[|r|])
  {
    if |s| > 0 && IsDigit(s[0]) then [s[0]] + LeadingDigits(s[1..]) else []
  }

  function Pow10(k: nat): (r: nat)
    ensures r >= 1
  {
    if k == 0 then 1 else 10 * Pow10(k - 1)
  }

  lemma {:induction false} Pow10Monotone(j: nat, k: nat)
    requires j <= k
    ensures Pow10(j) <= Pow10(k)
    decreases k
  {
    if j < k {
      Pow10Monotone(j, k - 1);
    }
  }

  /** The value of a digit string, most significant first. */
  function DigitsValue(s: seq<byte>): (r: nat)
    requires forall i :: 0 <= i < |s| ==> IsDigit(s[i])
  {
    if |s| == 0 then 0
    else
      assert IsDigit(s[|s| - 1]);
      DigitsValue(s[..|s| - 1]) * 10 + (s[|s| - 1] - 48) as nat
  }

  /** atoi: leading white space, an optional sign, then digits. Only a
    * minus sign gives a negative value; without a sign or digit after the
    * blanks the value is 0. */
  function Atoi(s: seq<byte>): (r: int)
    ensures r < 0 ==> |SkipSpaces(s)| > 0 && SkipSpaces(s)[0] == 45
    ensures |SkipSpaces(s)| == 0 || !(SkipSpaces(s)[0] in {43, 45} || IsDigit(SkipSpaces(s)[0])) ==> r == 0
  {
    var t := SkipSpaces(s);
    if |t| > 0 && t[0] == 45 then -(DigitsValue(LeadingDigits(t[1..])) as int)
    else if |t| > 0 && t[0] == 43 then DigitsValue(LeadingDigits(t[1..]))
    else DigitsValue(LeadingDigits(t))
  }

  /** The value a header's four bytes decode to. */
  function HeaderValue(header: seq<byte>): (r: int)
    requires |header| == HeaderLength
    ensures -999 <= r <= 9999
  {
    HeaderValueBounds(header);
    Atoi(TakeUntilNul(header))
  }

  /** k digits read as a value below 10^k. */
  lemma {:induction false} DigitsValueBelow(s: seq<byte>)
    requires forall i :: 0 <= i < |s| ==> IsDigit(s[i])
    ensures DigitsValue(s) < Pow10(|s|)
  {
    if |s| > 0 {
      DigitsValueBelow(s[..|s| - 1]);
    }
  }

  lemma HeaderValueBounds(header: seq<byte>)
    requires |header| == HeaderLength
    ensures -999 <= Atoi(TakeUntilNul(header)) <= 9999
  {
    var t := SkipSpaces(TakeUntilNul(header));
    if |t| > 0 && (t[0] == 45 || t[0] == 43) {
      DigitsValueBelow(LeadingDigits(t[1..]));
      Pow10Monotone(|LeadingDigits(t[1..])|, 3);
    } else {
      DigitsValueBelow(LeadingDigits(t));
      Pow10Monotone(|LeadingDigits(t)|, 4);
    }
  }

  lemma {:induction false} DigitsValueOfDigits(n: nat)
    ensures DigitsValue(Digits(n)) == n
    decreases n
  {
    if n >= 10 {
      DigitsValueOfDigits(n / 10);
      var d := Digits(n);
      assert d[..|d| - 1] == Digits(n / 10);
    }
  }

  lemma {:induction false} AllDigitsLeading(s: seq<byte>)
    requires forall i :: 0 <= i < |s| ==> IsDigit(s[i])
    ensures LeadingDigits(s) == s
  {
    if |s| > 0 {
      AllDigitsLeading(s[1..]);
    }
  }

  /** Skipping the first k characters of t when they are blanks and the
    * next one is not. */
  lemma {:induction false} SkipSpacesPrefix(t: seq<byte>, k: nat)
    requires k <= |t|
    requires forall i :: 0 <= i < k ==> t[i] == Space
    requires k == |t| || !IsSpace(t[k])
    ensures SkipSpaces(t) == t[k..]
    decreases k
  {
    if k > 0 {
      assert IsSpace(t[0]);
      assert SkipSpaces(t) == SkipSpaces(t[1..]);
      SkipSpacesPrefix(t[1..], k - 1);
      assert t[1..][k - 1..] == t[k..];
    } else {
      assert SkipSpaces(t) == t;
    }
  }

  /** Encoding then decoding a header gives the body length back. */
  lemma EncodeDecodeRoundTrip(n: nat)
    requires n <= MaxBodyLength
    ensures HeaderValue(Format4(n)) == n
  {
    var h := Format4(n);
    DigitsLength(n);
    var d := Digits(n);
    var k := HeaderLength - |d|;
    assert h == Spaces(k) + d;
    assert forall i :: 0 <= i < |h| ==> h[i] != Nul;
    NoNulKept(h);
    SkipSpacesPrefix(h, k);
    assert h[k..] == d;
    AllDigitsLeading(d);
    DigitsValueOfDigits(n);
  }

  lemma {:induction false} NoNulKept(s: seq<byte>)
    requires forall i :: 0 <= i < |s| ==> s[i] != Nul
    ensures TakeUntilNul(s) == s
  {
    if |s| > 0 {
      NoNulKept(s[1..]);
    }
  }

  /** A negative header: "-1" decodes to -1, which turns into a huge
    * unsigned length that the decoder rejects. */
  lemma DecodeNegative()
    ensures HeaderValue([45, 49, Nul, Nul]) == -1
  {
    var a: seq<byte> := [45, 49, Nul, Nul];
    assert a[1..][1..] == [Nul, Nul];
    assert TakeUntilNul(a[1..][1..]) == [];
    assert TakeUntilNul(a[1..]) == [49];
    assert TakeUntilNul(a) == [45, 49];
    var m: seq<byte> := [45, 49];
    assert SkipSpaces(m) == m;
    assert m[1..] == [49];
    AllDigitsLeading([49]);
    assert DigitsValue([49]) == DigitsValue([49][..0]) * 10 + 1;
  }

  /** A header above the maximum body length: "2000" decodes to 2000. */
  lemma DecodeOversize()
    ensures HeaderValue([50, 48, 48, 48]) == 2000
  {
    AllDigitsDecode([50, 48, 48, 48]);
    ValueOf2000();
  }

  /** A header of four digits decodes to their decimal value. */
  lemma AllDigitsDecode(h: seq<byte>)
    requires |h| == HeaderLength
    requires forall i :: 0 <= i < |h| ==> IsDigit(h[i])
    ensures HeaderValue(h) == DigitsValue(h)
  {
    NoNulKept(h);
    assert SkipSpaces(h) == h;
    AllDigitsLeading(h);
  }

  lemma ValueOf2000()
    ensures DigitsValue([50, 48, 48, 48]) == 2000
  {
    assert DigitsValue([50]) == 2 by { assert [50][..0] == []; }
    assert DigitsValue([50, 48]) == 20 by { assert [50, 48][..1] == [50]; }
    assert DigitsValue([50, 48, 48]) == 200 by { assert [50, 48, 48][..2] == [50, 48]; }
    assert [50, 48, 48, 48][..3] == [50, 48, 48];
  }

  class Message {
    /** header_length + max_body_length characters. */
    const data: array<byte>
    var bodyLength: nat

    ghost predicate Valid()
      reads this
    {
      data.Length == HeaderLength + MaxBodyLength && bodyLength <= MaxBodyLength
    }

    /** A new message has an empty body. */
    constructor ()
      ensures Valid() && fresh(data) && bodyLength == 0
    {
      data := new byte[HeaderLength + MaxBodyLength];
      bodyLength := 0;
    }

    /** length(): header plus body; it fits the message's array. */
    function Length(): (r: nat)
      requires Valid()
      reads this
      ensures r == HeaderLength + bodyLength && r <= data.Length
    {
      HeaderLength + bodyLength
    }

    /** body(): the bytes after the header, body_length of them. */
    function Body(): (r: seq<byte>)
      requires Valid()
      reads this, data
      ensures |r| == bodyLength
      ensures data[..Length()] == data[..HeaderLength] + r
    {
      data[HeaderLength..Length()]
    }

    /** body_length(n): stores n, clamped to 1024. */
    method SetBodyLength(n: nat)
      requires Valid()
      modifies this`bodyLength
      ensures Valid()
      ensures bodyLength == if n > MaxBodyLength then MaxBodyLength else n
    {
      bodyLength := n;
      if bodyLength > MaxBodyLength {
        bodyLength := MaxBodyLength;
      }
    }

    /** decode_header(): reads the body length from the header; a value
      * above 1024 (or below 0) leaves it 0 and reports failure. */
    method DecodeHeader() returns (ok: bool)
      requires Valid()
      modifies this`bodyLength
      ensures Valid()
      ensures ok <==> 0 <= HeaderValue(data[..HeaderLength]) <= MaxBodyLength
      ensures bodyLength == if ok then HeaderValue(data[..HeaderLength]) else 0
    {
      var v := Atoi(TakeUntilNul(data[..HeaderLength]));
      if v < 0 || v > MaxBodyLength {
        bodyLength := 0;
        return false;
      }
      bodyLength := v;
      return true;
    }

    /** encode_header(): writes the body length into bytes 0..3 only. */
    method EncodeHeader()
      requires Valid()
      modifies data
      ensures Valid()
      ensures data[..HeaderLength] == Format4(bodyLength)
      ensures data[HeaderLength..] == old(data[HeaderLength..])
      ensures HeaderValue(data[..HeaderLength]) == bodyLength
    {
      var header := Format4(bodyLength);
      data[0], data[1], data[2], data[3] := header[0], header[1], header[2], header[3];
      assert data[..HeaderLength] == header;
      EncodeDecodeRoundTrip(bodyLength);
    }
  }
}
