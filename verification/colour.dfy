/** `hex_to_rgb` (App.py:26-29, QuickApp.py:51-53): leading `#` are
    stripped, the slices `[0:2]`, `[2:4]`, `[4:6]` are each converted with
    Python's `int(slice, 16)`, and each channel is divided by 255. The
    integer channel is kept as the model's value; `ToUnit` states the
    division. */
module Colour {
  import opened Outcomes
  import opened PyText

  /** The three integers `int(slice, 16)` returned, before the division. */
  datatype Rgb = Rgb(r: int, g: int, b: int)

  /** The tuple `hex_to_rgb` returns: each channel divided by 255. */
  datatype UnitRgb = UnitRgb(r: real, g: real, b: real)

  /** Default colour of a spreadsheet library, `#FFFF00` (App.py:63, QuickApp.py:84). */
  const Yellow: string := ['#', 'F', 'F', 'F', 'F', '0', '0']

  /** Default colour of a manually entered library, `#00FF00` (App.py:78, QuickApp.py:96). */
  const Green: string := ['#', '0', '0', 'F', 'F', '0', '0']

  predicate IsHexDigit(c: char) {
    ('0' <= c <= '9') || ('a' <= c <= 'f') || ('A' <= c <= 'F')
  }

  function HexDigitValue(c: char): (v: nat)
    requires IsHexDigit(c)
    ensures v < 16
  {
    if '0' <= c <= '9' then c as int - '0' as int
    else if 'a' <= c <= 'f' then c as int - 'a' as int + 10
    else c as int - 'A' as int + 10
  }

  /** Upper-case hex digit for a value below 16, as a colour picker writes it. */
  function HexChar(d: nat): (c: char)
    requires d < 16
    ensures IsHexDigit(c) && HexDigitValue(c) == d
  {
    if d < 10 then ('0' as int + d) as char else ('A' as int + d - 10) as char
  }

  predicate AllHexDigits(s: string) {
    forall i :: 0 <= i < |s| ==> IsHexDigit(s[i])
  }

  predicate IsByte(v: int) { 0 <= v <= 255 }

  predicate IsByteRgb(c: Rgb) { IsByte(c.r) && IsByte(c.g) && IsByte(c.b) }

  /** The value range of `int(s, 16)` over strings of at most two characters:
      `-f` is the least and `ff` the greatest. */
  predicate InFieldRange(v: int) { -15 <= v <= 255 }

  /** The value of a two-digit hex numeral. */
  function ByteOf(hi: char, lo: char): (v: int)
    requires IsHexDigit(hi) && IsHexDigit(lo)
    ensures IsByte(v)
  {
    16 * HexDigitValue(hi) + HexDigitValue(lo)
  }

  /** Python's `int(s, 16)` on a string of at most two characters, as the
      reference reads it: surrounding whitespace (in `int`'s sense, see
      `IsIntSpace`) is ignored, one `+` or `-` may lead, and the rest must be
      ASCII hex digits; anything else raises ValueError. With at most two
      characters neither an underscore separator nor a `0x` prefix can be
      well formed, so they need no case here. */
  function PythonInt16(s: string): (r: Result<int>)
    requires |s| <= 2
  {
    SignedHex(StripBy(s, IsIntSpace), s)
  }

  /** The numeral `t` left after stripping: an optional sign and one or two
      hex digits; an error names the unstripped `s`. */
  function SignedHex(t: string, s: string): (r: Result<int>)
    requires |t| <= 2
  {
    if t == [] then ValueError(s)
    else
      var digits := if t[0] == '-' || t[0] == '+' then t[1..] else t;
      if digits == [] || !AllHexDigits(digits) then ValueError(s)
      else
        var m := if |digits| == 1 then HexDigitValue(digits[0]) else ByteOf(digits[0], digits[1]);
        if t[0] == '-' then Ok(-m) else Ok(m)
  }

  /** `int(s, 16)` on every slice `hex_to_rgb` takes (at most two
      characters), by the shape of the slice. */
  function ParseHexField(s: string): (r: Result<int>)
    requires |s| <= 2
    ensures r.Ok? ==> InFieldRange(r.value)
    ensures r.Ok? && r.value < 0 ==> |s| == 2 && s[0] == '-'
    ensures r.ValueError? ==> r.literal == s
  {
    if |s| == 0 then ValueError(s)
    else if |s| == 1 then
      if IsHexDigit(s[0]) then Ok(HexDigitValue(s[0])) else ValueError(s)
    else
      var a, b := s[0], s[1];
      if IsHexDigit(a) && IsHexDigit(b) then Ok(ByteOf(a, b))
      else if IsHexDigit(a) && IsIntSpace(b) then Ok(HexDigitValue(a))
      else if IsIntSpace(a) && IsHexDigit(b) then Ok(HexDigitValue(b))
      else if a == '+' && IsHexDigit(b) then Ok(HexDigitValue(b))
      else if a == '-' && IsHexDigit(b) then Ok(-(HexDigitValue(b) as int))
      else ValueError(s)
  }

  /** `hex_to_rgb` before the division by 255; the first slice that does not
      convert decides the error, as the generator is evaluated in order. */
  function HexToRgb(hex: string): (r: Result<Rgb>)
    ensures r.Ok? ==> InFieldRange(r.value.r) && InFieldRange(r.value.g) && InFieldRange(r.value.b)
    ensures |DropLeading(hex, '#')| <= 4 ==> r.ValueError?
  {
    var t := DropLeading(hex, '#');
    match ParseHexField(Slice(t, 0, 2))
    case ValueError(e) => ValueError(e)
    case Ok(red) =>
      match ParseHexField(Slice(t, 2, 4))
      case ValueError(e) => ValueError(e)
      case Ok(green) =>
        match ParseHexField(Slice(t, 4, 6))
        case ValueError(e) => ValueError(e)
        case Ok(blue) => Ok(Rgb(red, green, blue))
  }

  /** The division by 255 of each channel. */
  function ToUnit(c: Rgb): (u: UnitRgb)
    ensures u.r * 255.0 == c.r as real && u.g * 255.0 == c.g as real && u.b * 255.0 == c.b as real
    ensures IsByteRgb(c) ==> 0.0 <= u.r <= 1.0 && 0.0 <= u.g <= 1.0 && 0.0 <= u.b <= 1.0
  {
    UnitRgb(c.r as real / 255.0, c.g as real / 255.0, c.b as real / 255.0)
  }

  /** The shape a colour picker returns: `#` and six hex digits. */
  predicate IsPickerHex(s: string) {
    |s| == 7 && s[0] == '#' && AllHexDigits(s[1..])
  }

  /** Writes a byte triple the way a colour picker does. */
  function FormatHex(c: Rgb): (s: string)
    requires IsByteRgb(c)
    ensures IsPickerHex(s)
  {
    ['#', HexChar(c.r / 16), HexChar(c.r % 16), HexChar(c.g / 16),
     HexChar(c.g % 16), HexChar(c.b / 16), HexChar(c.b % 16)]
  }

  lemma TwoDigitField(hi: char, lo: char)
    requires IsHexDigit(hi) && IsHexDigit(lo)
    ensures ParseHexField([hi, lo]) == Ok(ByteOf(hi, lo))
  {
  }

  /** The case split of `ParseHexField` is Python's `int(s, 16)`: strip,
      optional sign, hex digits. */
  lemma ParseHexFieldIsPythonInt(s: string)
    requires |s| <= 2
    ensures ParseHexField(s) == PythonInt16(s)
  {
    if |s| == 1 {
      var c := s[0];
      assert s == [c];
      StripOne(c, IsIntSpace);
      OneCharReads(c);
    } else if |s| == 2 {
      var a, b := s[0], s[1];
      assert s == [a, b];
      StripTwo(a, b, IsIntSpace);
      if IsIntSpace(a) || IsIntSpace(b) {
        SpacedPairReads(a, b);
      } else if a == '-' || a == '+' {
        assert StripBy(s, IsIntSpace) == s;
        SignedPairReads(a, b);
      } else {
        assert StripBy(s, IsIntSpace) == s;
        PlainPairReads(a, b);
      }
    }
  }

  /** One character reads as a digit, or raises. */
  lemma OneCharReads(c: char)
    ensures SignedHex(if IsIntSpace(c) then [] else [c], [c]) == ParseHexField([c])
  {
    assert [c][0] == c;
    if !IsIntSpace(c) && (c == '-' || c == '+') {
      assert [c][1..] == [];
    }
  }

  /** A pair with `int` whitespace on one side reads as the other side. */
  lemma SpacedPairReads(a: char, b: char)
    requires IsIntSpace(a) || IsIntSpace(b)
    ensures var t := if IsIntSpace(a) && IsIntSpace(b) then [] else if IsIntSpace(a) then [b] else [a];
            SignedHex(t, [a, b]) == ParseHexField([a, b])
  {
    assert [a, b][0] == a && [a, b][1] == b;
    if IsIntSpace(a) && !IsIntSpace(b) {
      assert !IsHexDigit(a);
      if b == '-' || b == '+' {
        assert [b][1..] == [];
      }
    } else if !IsIntSpace(a) {
      assert !IsHexDigit(b);
      if a == '-' || a == '+' {
        assert [a][1..] == [];
      }
    }
  }

  /** A sign followed by something other than whitespace. */
  lemma SignedPairReads(a: char, b: char)
    requires a == '-' || a == '+'
    requires !IsIntSpace(b)
    ensures SignedHex([a, b], [a, b]) == ParseHexField([a, b])
  {
    assert [a, b][0] == a && [a, b][1..] == [b];
    if IsHexDigit(b) {
      var m: int := HexDigitValue(b);
      assert SignedHex([a, b], [a, b]) == (if a == '-' then Ok(-m) else Ok(m));
    } else {
      assert !AllHexDigits([b]);
    }
  }

  /** Two characters, neither whitespace nor a leading sign. */
  lemma PlainPairReads(a: char, b: char)
    requires !IsIntSpace(a) && !IsIntSpace(b) && a != '-' && a != '+'
    ensures SignedHex([a, b], [a, b]) == ParseHexField([a, b])
  {
    assert [a, b][0] == a && [a, b][1] == b;
    assert AllHexDigits([a, b]) <==> IsHexDigit(a) && IsHexDigit(b);
  }

  /** A picker string converts to the three two-digit values it spells, each
      a byte, so each channel of `hex_to_rgb` lies in [0, 1]. */
  lemma PickerHexParses(s: string)
    requires IsPickerHex(s)
    ensures HexToRgb(s) == Ok(Rgb(ByteOf(s[1], s[2]), ByteOf(s[3], s[4]), ByteOf(s[5], s[6])))
    ensures IsByteRgb(HexToRgb(s).value)
    ensures var u := ToUnit(HexToRgb(s).value); 0.0 <= u.r <= 1.0 && 0.0 <= u.g <= 1.0 && 0.0 <= u.b <= 1.0
  {
    assert IsHexDigit(s[1..][0]);
    var t := DropLeading(s, '#');
    assert t == s[1..];
    assert Slice(t, 0, 2) == [s[1], s[2]];
    assert Slice(t, 2, 4) == [s[3], s[4]];
    assert Slice(t, 4, 6) == [s[5], s[6]];
    TwoDigitField(s[1], s[2]);
    TwoDigitField(s[3], s[4]);
    TwoDigitField(s[5], s[6]);
  }

  lemma ByteOfHexChars(n: int)
    requires IsByte(n)
    ensures ByteOf(HexChar(n / 16), HexChar(n % 16)) == n
  {
  }

  /** Round trip: a byte triple written as a picker string reads back unchanged. */
  lemma FormatHexRoundTrip(c: Rgb)
    requires IsByteRgb(c)
    ensures HexToRgb(FormatHex(c)) == Ok(c)
  {
    var s := FormatHex(c);
    PickerHexParses(s);
    ByteOfHexChars(c.r);
    ByteOfHexChars(c.g);
    ByteOfHexChars(c.b);
  }

  /** Every leading `#` is stripped, not only one. */
  lemma HashesStripped(hex: string)
    ensures HexToRgb(['#'] + hex) == HexToRgb(hex)
  {
    assert (['#'] + hex)[1..] == hex;
  }

  /** Only the first six characters after the `#` prefix are read; whatever
      follows them is ignored. */
  lemma TailIgnored(body: string, tail: string)
    requires |body| == 6 && body[0] != '#'
    ensures HexToRgb(body + tail) == HexToRgb(body)
  {
    var s := body + tail;
    assert DropLeading(s, '#') == s;
    assert DropLeading(body, '#') == body;
    assert Slice(s, 0, 2) == Slice(body, 0, 2) == body[0..2];
    assert Slice(s, 2, 4) == Slice(body, 2, 4) == body[2..4];
    assert Slice(s, 4, 6) == Slice(body, 4, 6) == body[4..6];
  }

  /** Both defaults have the shape a colour picker returns. */
  lemma DefaultsArePickerHex()
    ensures IsPickerHex(Yellow) && IsPickerHex(Green)
  {
    assert Yellow[1..] == ['F', 'F', 'F', 'F', '0', '0'];
    assert Green[1..] == ['0', '0', 'F', 'F', '0', '0'];
  }

  /** The spreadsheet default `#FFFF00` is (1, 1, 0). */
  lemma YellowIsOneOneZero()
    ensures HexToRgb(Yellow) == Ok(Rgb(255, 255, 0))
    ensures ToUnit(Rgb(255, 255, 0)) == UnitRgb(1.0, 1.0, 0.0)
  {
    assert ToUnit(Rgb(255, 255, 0)) == UnitRgb(1.0, 1.0, 0.0) by {
      assert 255 as real / 255.0 == 1.0 && 0 as real / 255.0 == 0.0;
    }
    assert HexToRgb(Yellow) == Ok(Rgb(255, 255, 0)) by {
      PickerLiteral('F', 'F', 'F', 'F', '0', '0');
      assert ByteOf('F', 'F') == 255 && ByteOf('0', '0') == 0;
    }
  }

  /** The manual default `#00FF00` is (0, 1, 0). */
  lemma GreenIsZeroOneZero()
    ensures HexToRgb(Green) == Ok(Rgb(0, 255, 0))
    ensures ToUnit(Rgb(0, 255, 0)) == UnitRgb(0.0, 1.0, 0.0)
  {
    assert ToUnit(Rgb(0, 255, 0)) == UnitRgb(0.0, 1.0, 0.0) by {
      assert 255 as real / 255.0 == 1.0 && 0 as real / 255.0 == 0.0;
    }
    assert HexToRgb(Green) == Ok(Rgb(0, 255, 0)) by {
      PickerLiteral('0', '0', 'F', 'F', '0', '0');
      assert ByteOf('F', 'F') == 255 && ByteOf('0', '0') == 0;
    }
  }

  lemma PickerLiteral(a: char, b: char, c: char, d: char, e: char, f: char)
    requires IsHexDigit(a) && IsHexDigit(b) && IsHexDigit(c)
    requires IsHexDigit(d) && IsHexDigit(e) && IsHexDigit(f)
    ensures HexToRgb(['#', a, b, c, d, e, f]) == Ok(Rgb(ByteOf(a, b), ByteOf(c, d), ByteOf(e, f)))
  {
    var s := ['#', a, b, c, d, e, f];
    assert s[1..] == [a, b, c, d, e, f];
    assert IsPickerHex(s);
    PickerHexParses(s);
  }

  /** Python's `int` accepts a sign inside a slice, so a string that is not
      a colour can still convert, to a channel outside [0, 255]. */
  lemma SignedSliceConverts()
    ensures HexToRgb(['#', '-', '1', '0', '0', '0', '0']) == Ok(Rgb(-1, 0, 0))
  {
    var t := DropLeading(['#', '-', '1', '0', '0', '0', '0'], '#');
    assert t == ['-', '1', '0', '0', '0', '0'];
    assert Slice(t, 0, 2) == ['-', '1'];
    assert Slice(t, 2, 4) == ['0', '0'];
    assert Slice(t, 4, 6) == ['0', '0'];
    NegativeField('1');
    TwoDigitField('0', '0');
  }

  lemma NegativeField(d: char)
    requires IsHexDigit(d)
    ensures ParseHexField(['-', d]) == Ok(-(HexDigitValue(d) as int))
  {
  }
}
