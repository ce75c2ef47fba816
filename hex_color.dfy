/**
 * rgb_to_hex: formats three C++ `int` channels with "#%02X%02X%02X" into a
 * `char[8]` buffer through snprintf and returns the NUL-terminated text.
 *
 * Modelled from the C library's rules: `%X` reads its `int` argument as an
 * `unsigned int` (the 32-bit two's complement pattern) and prints it in
 * uppercase hexadecimal without leading zeros; the `0` flag with width 2 pads
 * on the left to at least two digits; snprintf stores at most size - 1
 * characters followed by a NUL and returns the untruncated length.
 */
module HexColor {
  import opened Wrappers

  /** The C++ `int` of the parameters. */
  newtype int32 = x: int | -0x8000_0000 <= x < 0x8000_0000

  /** `char hex[8]`. */
  const BufferSize: nat := 8

  predicate IsUpperHexDigit(c: char) {
    '0' <= c <= '9' || 'A' <= c <= 'F'
  }

  /** The value of an uppercase hexadecimal digit. */
  function DigitValue(c: char): (r: Option<nat>)
    ensures r.Some? <==> IsUpperHexDigit(c)
    ensures r.Some? ==> r.value < 16
  {
    if '0' <= c <= '9' then Some(c as nat - 48)
    else if 'A' <= c <= 'F' then Some(c as nat - 55)
    else None
  }

  /** The uppercase digit for `d`, as `%X` prints it. */
  function HexDigit(d: nat): (c: char)
    requires d < 16
    ensures IsUpperHexDigit(c) && DigitValue(c) == Some(d)
  {
    if d < 10 then (48 + d) as char else (55 + d) as char
  }

  /** Every character of `s` is an uppercase hexadecimal digit. */
  predicate AllHexDigits(s: string) {
    forall i :: 0 <= i < |s| ==> IsUpperHexDigit(s[i])
  }

  /** `%X` of an unsigned value: uppercase hexadecimal, no leading zeros, "0" for zero. */
  function UpperHex(n: nat): (r: string)
    ensures |r| >= 1 && AllHexDigits(r)
    ensures n >= 16 ==> |r| >= 2
  {
    if n < 16 then [HexDigit(n)]
    else
      var high := UpperHex(n / 16);
      assert AllHexDigits(high + [HexDigit(n % 16)]) by {
        assert forall i :: 0 <= i < |high| ==> (high + [HexDigit(n % 16)])[i] == high[i];
      }
      high + [HexDigit(n % 16)]
  }

  /** The `0` flag with width 2: left-pad with '0' to at least two characters. */
  function ZeroPad2(s: string): (r: string)
    ensures |r| == if |s| < 2 then 2 else |s|
    ensures r[|r| - |s|..] == s
    ensures forall i :: 0 <= i < |r| - |s| ==> r[i] == '0'
  {
    if |s| == 0 then ['0', '0'] else if |s| == 1 then ['0'] + s else s
  }

  /** Padding digits with zeros keeps them digits. */
  lemma ZeroPad2Digits(s: string)
    requires AllHexDigits(s)
    ensures AllHexDigits(ZeroPad2(s))
  {
    var r := ZeroPad2(s);
    forall i | 0 <= i < |r| ensures IsUpperHexDigit(r[i]) {
      if i >= |r| - |s| {
        assert r[i] == r[|r| - |s|..][i - (|r| - |s|)];
      }
    }
  }

  /** The `unsigned int` that `%X` reads from an `int` argument. */
  function AsUnsigned(v: int32): (u: nat)
    ensures u < 0x1_0000_0000
    ensures 0 <= v ==> u == v as int
  {
    (v as int) % 0x1_0000_0000
  }

  /** One `%02X` conversion. */
  function Field(v: int32): string
  {
    ZeroPad2(UpperHex(AsUnsigned(v)))
  }

  /** The whole "#%02X%02X%02X" text, before the buffer limit applies. */
  function Formatted(r: int32, g: int32, b: int32): string
  {
    "#" + Field(r) + Field(g) + Field(b)
  }

  /** What snprintf keeps of `text` in a buffer of `size` characters, NUL not counted. */
  function Kept(text: string, size: nat): (k: nat)
    ensures k <= |text| && (size > 0 ==> k < size)
  {
    if size == 0 then 0 else if |text| < size - 1 then |text| else size - 1
  }

  /** The specification of rgb_to_hex: the formatted text cut to the buffer. */
  function RgbHex(r: int32, g: int32, b: int32): string
  {
    var text := Formatted(r, g, b);
    text[..Kept(text, BufferSize)]
  }

  /** snprintf(buf, buf.Length, ...) once the conversions have produced `text`. */
  method Snprintf(buf: array<char>, text: string) returns (length: nat)
    modifies buf
    ensures length == |text|
    ensures buf[..Kept(text, buf.Length)] == text[..Kept(text, buf.Length)]
    ensures buf.Length > 0 ==> buf[Kept(text, buf.Length)] == '\0'
    ensures buf.Length > 0 ==> buf[Kept(text, buf.Length) + 1..] == old(buf[Kept(text, buf.Length) + 1..])
    ensures buf.Length == 0 ==> buf[..] == old(buf[..])
  {
    length := |text|;
    if buf.Length == 0 {
      return;
    }
    var n := Kept(text, buf.Length);
    var i := 0;
    while i < n
      invariant 0 <= i <= n
      invariant buf[..i] == text[..i]
      invariant buf[i..] == old(buf[i..])
    {
      buf[i] := text[i];
      i := i + 1;
    }
    buf[n] := '\0';
    assert buf[..n] == text[..n];
  }

  /** std::string(buf): the characters before the first NUL. */
  method CString(buf: array<char>) returns (s: string)
    ensures |s| <= buf.Length && s == buf[..|s|]
    ensures forall i :: 0 <= i < |s| ==> s[i] != '\0'
    ensures |s| < buf.Length ==> buf[|s|] == '\0'
  {
    var n := 0;
    while n < buf.Length && buf[n] != '\0'
      invariant 0 <= n <= buf.Length
      invariant forall i :: 0 <= i < n ==> buf[i] != '\0'
    {
      n := n + 1;
    }
    s := buf[..n];
  }

  /** char buf[size]; snprintf(buf, size, ...); std::string(buf), for a formatted text without NUL. */
  method ThroughBuffer(text: string, size: nat) returns (s: string)
    requires size > 0
    requires forall i :: 0 <= i < |text| ==> text[i] != '\0'
    ensures s == text[..Kept(text, size)]
  {
    var buf := new char[size];
    var written := Snprintf(buf, text);
    var n := Kept(text, size);
    assert forall i :: 0 <= i < n ==> buf[i] == text[i] && buf[i] != '\0';
    s := CString(buf);
  }

  /** rgb_to_hex: always seven characters, '#' and six uppercase digits. */
  method RgbToHex(r: int32, g: int32, b: int32) returns (hex: string)
    ensures hex == RgbHex(r, g, b)
    ensures |hex| == 7 && hex[0] == '#'
    ensures forall i :: 1 <= i < 7 ==> IsUpperHexDigit(hex[i])
  {
    var text := Formatted(r, g, b);
    FormattedShape(r, g, b);
    assert text[0] != '\0';
    assert forall i :: 1 <= i < |text| ==> text[1..][i - 1] == text[i] && text[i] != '\0';
    hex := ThroughBuffer(text, BufferSize);
    RgbHexShape(r, g, b);
  }

  /** '#' followed by three digit fields of at least two digits each. */
  lemma HashAndFields(fr: string, fg: string, fb: string)
    requires |fr| >= 2 && |fg| >= 2 && |fb| >= 2
    requires AllHexDigits(fr) && AllHexDigits(fg) && AllHexDigits(fb)
    ensures |"#" + fr + fg + fb| >= 7 && ("#" + fr + fg + fb)[0] == '#'
    ensures AllHexDigits(("#" + fr + fg + fb)[1..])
  {
    var t := "#" + fr + fg + fb;
    assert t[1..] == fr + fg + fb;
    var d := fr + fg + fb;
    forall i | 0 <= i < |d| ensures IsUpperHexDigit(d[i]) {
      if i < |fr| {
        assert d[i] == fr[i];
      } else if i < |fr| + |fg| {
        assert d[i] == fg[i - |fr|];
      } else {
        assert d[i] == fb[i - |fr| - |fg|];
      }
    }
  }

  /** One `%02X` field is at least two uppercase digits. */
  lemma FieldShape(v: int32)
    ensures |Field(v)| >= 2 && AllHexDigits(Field(v))
  {
    ZeroPad2Digits(UpperHex(AsUnsigned(v)));
  }

  /** The untruncated text is '#' followed by at least six uppercase digits. */
  lemma FormattedShape(r: int32, g: int32, b: int32)
    ensures |Formatted(r, g, b)| >= 7 && Formatted(r, g, b)[0] == '#'
    ensures AllHexDigits(Formatted(r, g, b)[1..])
  {
    FieldShape(r);
    FieldShape(g);
    FieldShape(b);
    HashAndFields(Field(r), Field(g), Field(b));
  }

  /** For every `int` input, not only channels in 0..255, the result has exactly seven characters. */
  lemma RgbHexShape(r: int32, g: int32, b: int32)
    ensures |RgbHex(r, g, b)| == 7 && RgbHex(r, g, b)[0] == '#'
    ensures forall i :: 1 <= i < 7 ==> IsUpperHexDigit(RgbHex(r, g, b)[i])
  {
    FormattedShape(r, g, b);
    var t := Formatted(r, g, b);
    forall i | 1 <= i < 7 ensures IsUpperHexDigit(t[i]) {
      assert t[i] == t[1..][i - 1];
    }
  }

  /** A channel in 0..255 is printed as exactly its two digits. */
  lemma FieldOfByte(v: int32)
    requires 0 <= v < 256
    ensures Field(v) == [HexDigit(v as nat / 16), HexDigit(v as nat % 16)]
  {
    var n := v as nat;
    if n >= 16 {
      assert UpperHex(n) == UpperHex(n / 16) + [HexDigit(n % 16)];
      assert UpperHex(n / 16) == [HexDigit(n / 16)];
    } else {
      assert UpperHex(n) == [HexDigit(n)];
    }
  }

  /** The buffer keeps the first seven characters of the formatted text. */
  lemma RgbHexIsCut(r: int32, g: int32, b: int32)
    ensures RgbHex(r, g, b) == ("#" + Field(r) + Field(g) + Field(b))[..7]
  {
    FormattedShape(r, g, b);
  }

  /** '#' and three two-character fields, written out. */
  lemma SevenOfFields(fr: string, fg: string, fb: string)
    requires |fr| == 2 && |fg| == 2 && |fb| == 2
    ensures ("#" + fr + fg + fb)[..7] == ['#', fr[0], fr[1], fg[0], fg[1], fb[0], fb[1]]
  {
  }

  /** '#' and the two digits of each channel in 0..255, in r, g, b order. */
  function ByteDigits(r: int32, g: int32, b: int32): string
    requires 0 <= r < 256 && 0 <= g < 256 && 0 <= b < 256
  {
    ['#', HexDigit(r as nat / 16), HexDigit(r as nat % 16),
          HexDigit(g as nat / 16), HexDigit(g as nat % 16),
          HexDigit(b as nat / 16), HexDigit(b as nat % 16)]
  }

  /** For channels in 0..255 nothing is cut: '#', then two digits per channel in r, g, b order. */
  lemma RgbHexOfBytes(r: int32, g: int32, b: int32)
    requires 0 <= r < 256 && 0 <= g < 256 && 0 <= b < 256
    ensures RgbHex(r, g, b) == Formatted(r, g, b) == ByteDigits(r, g, b)
  {
    FieldOfByte(r);
    FieldOfByte(g);
    FieldOfByte(b);
    RgbHexIsCut(r, g, b);
    SevenOfFields(Field(r), Field(g), Field(b));
    assert |Formatted(r, g, b)| == 7;
  }

  /** Two seven-character strings that agree at every position are equal. */
  lemma SevenEqual(s: string, t: string)
    requires |s| == 7 && |t| == 7
    requires s[0] == t[0] && s[1] == t[1] && s[2] == t[2] && s[3] == t[3]
    requires s[4] == t[4] && s[5] == t[5] && s[6] == t[6]
    ensures s == t
  {
  }

  /** The value of two uppercase digits. */
  function ByteAt(s: string, i: nat): Option<int32>
    requires i + 1 < |s|
  {
    match (DigitValue(s[i]), DigitValue(s[i + 1]))
    case (Some(hi), Some(lo)) => Some((16 * hi + lo) as int32)
    case _ => None
  }

  /** Reads "#RRGGBB" with uppercase digits back into its three channels. */
  function ParseHexColor(s: string): Option<(int32, int32, int32)>
  {
    if |s| != 7 || s[0] != '#' then None
    else
      match (ByteAt(s, 1), ByteAt(s, 3), ByteAt(s, 5))
      case (Some(r), Some(g), Some(b)) => Some((r, g, b))
      case _ => None
  }

  /** Two digits written for a byte read back as that byte. */
  lemma ByteAtDigits(s: string, i: nat, v: int32)
    requires 0 <= v < 256 && i + 1 < |s|
    requires s[i] == HexDigit(v as nat / 16) && s[i + 1] == HexDigit(v as nat % 16)
    ensures ByteAt(s, i) == Some(v)
  {
  }

  /** Two digits that read as `v` are the digits written for `v`. */
  lemma DigitsOfByteAt(s: string, i: nat, v: int32)
    requires i + 1 < |s| && ByteAt(s, i) == Some(v)
    ensures 0 <= v < 256
    ensures s[i] == HexDigit(v as nat / 16) && s[i + 1] == HexDigit(v as nat % 16)
  {
    var hi, lo := DigitValue(s[i]).value, DigitValue(s[i + 1]).value;
    assert v as int == 16 * hi + lo;
    assert v as nat / 16 == hi && v as nat % 16 == lo;
    DigitRoundTrip(s[i]);
    DigitRoundTrip(s[i + 1]);
  }

  /** Channels in 0..255 are recovered from the text rgb_to_hex returns. */
  lemma ParseRgbHex(r: int32, g: int32, b: int32)
    requires 0 <= r < 256 && 0 <= g < 256 && 0 <= b < 256
    ensures ParseHexColor(RgbHex(r, g, b)) == Some((r, g, b))
  {
    RgbHexOfBytes(r, g, b);
    ParseOfDigits(RgbHex(r, g, b), r, g, b);
  }

  lemma ParseOfDigits(s: string, r: int32, g: int32, b: int32)
    requires 0 <= r < 256 && 0 <= g < 256 && 0 <= b < 256
    requires s == ByteDigits(r, g, b)
    ensures ParseHexColor(s) == Some((r, g, b))
  {
    ByteAtDigits(s, 1, r);
    ByteAtDigits(s, 3, g);
    ByteAtDigits(s, 5, b);
  }

  /** Every "#RRGGBB" with uppercase digits is what rgb_to_hex returns for the channels it reads as. */
  lemma RgbHexOfParse(s: string, r: int32, g: int32, b: int32)
    requires ParseHexColor(s) == Some((r, g, b))
    ensures 0 <= r < 256 && 0 <= g < 256 && 0 <= b < 256
    ensures RgbHex(r, g, b) == s
  {
    DigitsOfByteAt(s, 1, r);
    DigitsOfByteAt(s, 3, g);
    DigitsOfByteAt(s, 5, b);
    SevenEqual(s, ByteDigits(r, g, b));
    RgbHexOfBytes(r, g, b);
  }

  lemma DigitRoundTrip(c: char)
    requires IsUpperHexDigit(c)
    ensures HexDigit(DigitValue(c).value) == c
  {
  }

  /** The value written as `k` digits 'F'. */
  function AllOnes(k: nat): nat {
    if k == 0 then 0 else 16 * AllOnes(k - 1) + 15
  }

  lemma {:induction false} UpperHexOfAllOnes(k: nat)
    requires k >= 1
    ensures |UpperHex(AllOnes(k))| == k
    ensures forall i :: 0 <= i < k ==> UpperHex(AllOnes(k))[i] == 'F'
  {
    if k > 1 {
      UpperHexOfAllOnes(k - 1);
      var n := AllOnes(k);
      assert n / 16 == AllOnes(k - 1) && n % 16 == 15;
      assert UpperHex(n) == UpperHex(AllOnes(k - 1)) + [HexDigit(15)];
    }
  }

  /** A three-digit first field pushes the last digit of the third field out of the buffer. */
  lemma SevenOfThreeDigitField(fr: string, fg: string, fb: string)
    requires |fr| == 3 && |fg| == 2 && |fb| == 2
    ensures ("#" + fr + fg + fb)[..7] == ['#', fr[0], fr[1], fr[2], fg[0], fg[1], fb[0]]
  {
  }

  /** A first field of six digits or more fills the buffer on its own. */
  lemma SevenOfWideField(fr: string, fg: string, fb: string)
    requires |fr| >= 6
    ensures ("#" + fr + fg + fb)[..7] == ['#', fr[0], fr[1], fr[2], fr[3], fr[4], fr[5]]
  {
  }

  /** A channel in 256..4095 prints as three digits. */
  lemma FieldOfThreeDigits(v: int32)
    requires 256 <= v < 4096
    ensures Field(v) == [HexDigit(v as nat / 256), HexDigit(v as nat / 16 % 16), HexDigit(v as nat % 16)]
  {
    var n := v as nat;
    assert n / 16 / 16 == n / 256;
    assert UpperHex(n) == UpperHex(n / 16) + [HexDigit(n % 16)];
    assert UpperHex(n / 16) == UpperHex(n / 256) + [HexDigit(n / 16 % 16)];
    assert UpperHex(n / 256) == [HexDigit(n / 256)];
  }

  /** A channel in -256..-1 is read by `%X` as 0xFFFFFF00 or more, eight digits starting with six 'F'. */
  lemma FieldOfSmallNegative(v: int32)
    requires -256 <= v < 0
    ensures |Field(v)| == 8 && Field(v)[..6] == ['F', 'F', 'F', 'F', 'F', 'F']
  {
    var n := AsUnsigned(v);
    assert n == 0x1_0000_0000 + v as int;
    assert AllOnes(6) == 0xFF_FFFF;
    assert n / 16 / 16 == n / 256 == AllOnes(6);
    assert UpperHex(n) == UpperHex(n / 16) + [HexDigit(n % 16)];
    assert UpperHex(n / 16) == UpperHex(n / 256) + [HexDigit(n / 16 % 16)];
    UpperHexOfAllOnes(6);
  }

  /**
   * Channels outside 0..255 are not rejected; the wider `%02X` text is cut to
   * seven characters. A red channel in 256..4095 pushes its digits into the
   * green and blue places, so it prints as some in-range colour: (256, 0, 0)
   * prints as (16, 0, 0).
   */
  lemma WideChannelAliases(r: int32, g: int32, b: int32)
    requires 256 <= r < 4096 && 0 <= g < 256 && 0 <= b < 256
    ensures RgbHex(r, g, b) == RgbHex(r / 16, (r % 16) * 16 + g / 16, (g % 16) * 16 + b / 16)
  {
    var r', g', b' := r / 16, (r % 16) * 16 + g / 16, (g % 16) * 16 + b / 16;
    FieldOfThreeDigits(r);
    FieldOfByte(g);
    FieldOfByte(b);
    RgbHexIsCut(r, g, b);
    SevenOfThreeDigitField(Field(r), Field(g), Field(b));
    RgbHexOfBytes(r', g', b');
    ShiftedDigits(r as nat, g as nat, b as nat);
    SevenEqual(RgbHex(r, g, b), ByteDigits(r', g', b'));
  }

  lemma ShiftedDigits(r: nat, g: nat, b: nat)
    requires 256 <= r < 4096 && g < 256 && b < 256
    ensures r / 16 / 16 == r / 256
    ensures ((r % 16) * 16 + g / 16) / 16 == r % 16 && ((r % 16) * 16 + g / 16) % 16 == g / 16
    ensures ((g % 16) * 16 + b / 16) / 16 == g % 16 && ((g % 16) * 16 + b / 16) % 16 == b / 16
  {
  }

  /** A red channel in -256..-1 fills the buffer with 'F': the result is white whatever g and b are. */
  lemma NegativeChannelIsWhite(r: int32, g: int32, b: int32)
    requires -256 <= r < 0
    ensures RgbHex(r, g, b) == "#FFFFFF"
  {
    FieldOfSmallNegative(r);
    RgbHexIsCut(r, g, b);
    SevenOfWideField(Field(r), Field(g), Field(b));
  }
}
