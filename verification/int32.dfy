/** int.TryParse(string, out int) with NumberStyles.Integer under a culture whose signs
    are '+' and '-', and the decimal formatting it inverts. */
module Int32 {
  import opened Wrappers
  import opened Text

  const MinValue: int := -0x8000_0000
  const MaxValue: int := 0x7FFF_FFFF

  predicate IsDigit(c: char) {
    '0' <= c <= '9'
  }

  predicate AllDigits(s: string) {
    forall i | 0 <= i < |s| :: IsDigit(s[i])
  }

  /** Value of a string of decimal digits, most significant digit first. */
  function DigitsValue(s: string): nat
    requires AllDigits(s)
  {
    if s == "" then 0 else 10 * DigitsValue(s[..|s| - 1]) + (s[|s| - 1] as int - '0' as int)
  }

  /** The white space NumberStyles.AllowLeadingWhite and AllowTrailingWhite admit:
      U+0009..U+000D and U+0020 (narrower than Char.IsWhiteSpace). */
  predicate IsNumberWhite(c: char) {
    c == ' ' || '\t' <= c <= '\r'
  }

  /** What int.TryParse reads once the padding is gone: number white space at the front,
      NUL characters at the end and number white space before them are dropped. */
  function Core(s: string): string {
    var body := s[LeadingCount(s, IsNumberWhite)..];
    var unpadded := body[..|body| - TrailingCount(body, Is('\0'))];
    unpadded[..|unpadded| - TrailingCount(unpadded, IsNumberWhite)]
  }

  /** The unpadded text: an optional sign, then one or more decimal digits whose value,
      with the sign, must lie in the Int32 range. */
  function ParseSigned(core: string): (r: Option<int>)
    ensures r.Some? ==> MinValue <= r.value <= MaxValue
    ensures r.Some? ==> core != "" && IsDigit(core[|core| - 1])
  {
    var signed := |core| > 0 && (core[0] == '-' || core[0] == '+');
    var digits := if signed then core[1..] else core;
    if digits == "" || !AllDigits(digits) then
      None
    else
      var magnitude: int := DigitsValue(digits);
      var v: int := if core[0] == '-' then -magnitude else magnitude;
      if MinValue <= v <= MaxValue then
        assert digits[|digits| - 1] == core[|core| - 1];
        Some(v)
      else
        None
  }

  /** int.TryParse: optional white space, an optional sign, one or more decimal digits,
      optional white space and then nothing but NUL characters; the value must lie in the
      Int32 range. */
  function TryParse(s: string): (r: Option<int>)
    ensures r.Some? ==> MinValue <= r.value <= MaxValue
    ensures r.Some? ==> exists k :: 0 <= k < |s| && IsDigit(s[k])
  {
    var r := ParseSigned(Core(s));
    var l := LeadingCount(s, IsNumberWhite);
    assert r.Some? ==> l + |Core(s)| <= |s| && s[l + |Core(s)| - 1] == Core(s)[|Core(s)| - 1];
    r
  }

  /** The string is its padding around Core. */
  lemma CoreSplit(s: string) returns (lead: string, trail: string, nul: string)
    ensures s == lead + Core(s) + trail + nul
    ensures forall k | 0 <= k < |lead| :: IsNumberWhite(lead[k])
    ensures forall k | 0 <= k < |trail| :: IsNumberWhite(trail[k])
    ensures forall k | 0 <= k < |nul| :: nul[k] == '\0'
  {
    var body, unpadded, core;
    lead, body := LeadingSplit(s, IsNumberWhite);
    unpadded, nul := TrailingSplit(body, Is('\0'));
    core, trail := TrailingSplit(unpadded, IsNumberWhite);
    assert Core(s) == core;
    Regroup(lead, core, trail, nul);
    forall k | 0 <= k < |nul| ensures nul[k] == '\0' {
      assert Is('\0')(nul[k]);
    }
  }

  lemma Regroup(a: string, b: string, c: string, d: string)
    ensures a + b + c + d == a + ((b + c) + d)
  {
  }

  /** x as its leading run of p and the rest. */
  lemma LeadingSplit(x: string, p: char -> bool) returns (front: string, back: string)
    ensures x == front + back && |front| == LeadingCount(x, p) && back == x[|front|..]
    ensures forall k | 0 <= k < |front| :: p(front[k])
  {
    front, back := x[..LeadingCount(x, p)], x[LeadingCount(x, p)..];
    assert x == front + back;
  }

  /** x as the rest and its trailing run of p. */
  lemma TrailingSplit(x: string, p: char -> bool) returns (front: string, back: string)
    ensures x == front + back && |back| == TrailingCount(x, p) && front == x[..|x| - |back|]
    ensures forall k | 0 <= k < |back| :: p(back[k])
  {
    var n := TrailingCount(x, p);
    front, back := x[..|x| - n], x[|x| - n..];
    assert x == front + back;
    forall k | 0 <= k < |back| ensures p(back[k]) {
      assert back[k] == x[|x| - n + k];
    }
  }

  /** Padding around a text that starts and ends with neither white space nor NUL is
      stripped off exactly. */
  lemma CoreOf(lead: string, core: string, trail: string, nul: string)
    requires forall k | 0 <= k < |lead| :: IsNumberWhite(lead[k])
    requires forall k | 0 <= k < |trail| :: IsNumberWhite(trail[k])
    requires forall k | 0 <= k < |nul| :: nul[k] == '\0'
    requires core != "" && !IsNumberWhite(core[0])
    requires !IsNumberWhite(core[|core| - 1]) && core[|core| - 1] != '\0'
    ensures Core(lead + core + trail + nul) == core
  {
    var body := core + trail + nul;
    var unpadded := core + trail;
    assert lead + core + trail + nul == lead + body;
    assert body == unpadded + nul;
    assert body[0] == core[0];
    StripLead(lead, body);
    StripNul(core, trail, nul);
    StripTrail(core, trail);
  }

  lemma StripLead(lead: string, body: string)
    requires forall k | 0 <= k < |lead| :: IsNumberWhite(lead[k])
    requires body != "" && !IsNumberWhite(body[0])
    ensures (lead + body)[LeadingCount(lead + body, IsNumberWhite)..] == body
  {
    LeadingCountOf(lead, body, IsNumberWhite);
  }

  lemma StripNul(core: string, trail: string, nul: string)
    requires forall k | 0 <= k < |trail| :: IsNumberWhite(trail[k])
    requires forall k | 0 <= k < |nul| :: nul[k] == '\0'
    requires core != "" && core[|core| - 1] != '\0'
    ensures var body := core + trail + nul;
            body[..|body| - TrailingCount(body, Is('\0'))] == core + trail
  {
    var unpadded := core + trail;
    assert core + trail + nul == unpadded + nul;
    assert unpadded[|unpadded| - 1] != '\0' by {
      if trail == "" {
        assert unpadded[|unpadded| - 1] == core[|core| - 1];
      } else {
        assert unpadded[|unpadded| - 1] == trail[|trail| - 1];
      }
    }
    assert forall k | 0 <= k < |nul| :: Is('\0')(nul[k]);
    TrailingCountOf(unpadded, nul, Is('\0'));
  }

  lemma StripTrail(core: string, trail: string)
    requires forall k | 0 <= k < |trail| :: IsNumberWhite(trail[k])
    requires core != "" && !IsNumberWhite(core[|core| - 1])
    ensures var unpadded := core + trail;
            unpadded[..|unpadded| - TrailingCount(unpadded, IsNumberWhite)] == core
  {
    TrailingCountOf(core, trail, IsNumberWhite);
  }

  /** An optional sign and digits: what ParseSigned makes of them. */
  predicate Signed(core: string, sign: string, digits: string, v: int) {
    && core == sign + digits
    && (sign == "" || sign == "+" || sign == "-")
    && digits != "" && AllDigits(digits)
    && v == (if sign == "-" then -1 else 1) * DigitsValue(digits)
  }

  /** A successful ParseSigned read a sign and digits. */
  lemma SignedSplit(core: string, v: int) returns (sign: string, digits: string)
    requires ParseSigned(core) == Some(v)
    ensures Signed(core, sign, digits, v)
  {
    if |core| > 0 && (core[0] == '-' || core[0] == '+') {
      sign, digits := core[..1], core[1..];
    } else {
      sign, digits := "", core;
    }
    assert core == sign + digits;
  }

  /** A sign and digits are read as their value when it is an Int32, and refused
      otherwise. */
  lemma SignedOf(core: string, sign: string, digits: string, v: int)
    requires Signed(core, sign, digits, v)
    ensures ParseSigned(core) == (if MinValue <= v <= MaxValue then Some(v) else None)
  {
    if sign == "" {
      assert core == digits;
      assert IsDigit(digits[0]);
    } else {
      assert core[0] == sign[0] && core[1..] == digits;
    }
  }

  /** s reads as the number v: number white space, an optional sign, one or more decimal
      digits, number white space and NUL characters, in that order. */
  predicate Reads(s: string, lead: string, sign: string, digits: string, trail: string, nul: string, v: int) {
    && s == lead + (sign + digits) + trail + nul
    && (forall k | 0 <= k < |lead| :: IsNumberWhite(lead[k]))
    && Signed(sign + digits, sign, digits, v)
    && (forall k | 0 <= k < |trail| :: IsNumberWhite(trail[k]))
    && (forall k | 0 <= k < |nul| :: nul[k] == '\0')
  }

  /** A successful parse has read its value from a string of that shape. */
  lemma ParseReads(s: string, v: int)
    requires TryParse(s) == Some(v)
    ensures exists lead, sign, digits, trail, nul :: Reads(s, lead, sign, digits, trail, nul, v)
  {
    var lead, trail, nul := CoreSplit(s);
    var sign, digits := SignedSplit(Core(s), v);
    assert Reads(s, lead, sign, digits, trail, nul, v);
  }

  /** Conversely, a string of that shape parses to its value when the value is an Int32,
      and does not parse otherwise. */
  lemma ReadsParse(s: string, lead: string, sign: string, digits: string, trail: string, nul: string, v: int)
    requires Reads(s, lead, sign, digits, trail, nul, v)
    ensures TryParse(s) == (if MinValue <= v <= MaxValue then Some(v) else None)
  {
    var core := sign + digits;
    assert !IsNumberWhite(core[0]) by {
      if sign == "" { assert core[0] == digits[0]; } else { assert core[0] == sign[0]; }
    }
    assert core[|core| - 1] == digits[|digits| - 1];
    CoreOf(lead, core, trail, nul);
    SignedOf(core, sign, digits, v);
  }

  /** The leading run of p in x + y is x when p holds all over x and not at the start of y. */
  lemma LeadingCountOf(x: string, y: string, p: char -> bool)
    requires forall k | 0 <= k < |x| :: p(x[k])
    requires y != [] && !p(y[0])
    ensures LeadingCount(x + y, p) == |x|
  {
    assert (x + y)[|x|] == y[0];
  }

  /** The trailing run of p in x + y is y when p holds all over y and not at the end of x. */
  lemma TrailingCountOf(x: string, y: string, p: char -> bool)
    requires forall k | 0 <= k < |y| :: p(y[k])
    requires x != [] && !p(x[|x| - 1])
    ensures TrailingCount(x + y, p) == |y|
  {
    assert (x + y)[|x| - 1] == x[|x| - 1];
  }

  function DigitChar(d: nat): char
    requires d < 10
  {
    ('0' as int + d) as char
  }

  /** The decimal digits of n, without leading zeros. */
  function NatDigits(n: nat): (s: string)
    ensures s != "" && AllDigits(s) && DigitsValue(s) == n
    ensures s[0] != '-' && s[0] != '+' && !IsNumberWhite(s[0]) && !IsWhiteSpace(s[0])
    ensures !IsNumberWhite(s[|s| - 1]) && !IsWhiteSpace(s[|s| - 1]) && s[|s| - 1] != '\0'
    ensures ',' !in s
  {
    if n < 10 then
      [DigitChar(n)]
    else
      var s := NatDigits(n / 10) + [DigitChar(n % 10)];
      assert s[..|s| - 1] == NatDigits(n / 10);
      s
  }

  /** int.ToString(): the decimal form, with '-' in front of a negative value. */
  function Format(v: int): (s: string)
    ensures s != "" && !IsWhiteSpace(s[0]) && !IsWhiteSpace(s[|s| - 1]) && ',' !in s
  {
    if v < 0 then "-" + NatDigits(-v) else NatDigits(v)
  }

  /** Parsing the decimal form of a value in range gives the value back. */
  lemma FormatParse(v: int)
    requires MinValue <= v <= MaxValue
    ensures TryParse(Format(v)) == Some(v)
  {
    FormatReads(v);
  }

  /** Values outside the Int32 range are refused even though their digits are well formed. */
  lemma FormatOutOfRange(v: int)
    requires v < MinValue || MaxValue < v
    ensures TryParse(Format(v)) == None
  {
    FormatReads(v);
  }

  /** The decimal form of v reads as v, with no padding. */
  lemma FormatReads(v: int)
    ensures TryParse(Format(v)) == (if MinValue <= v <= MaxValue then Some(v) else None)
  {
    var sign := if v < 0 then "-" else "";
    var digits := NatDigits(if v < 0 then -v else v);
    assert Reads(Format(v), "", sign, digits, "", "", v) by {
      assert Format(v) == sign + digits;
      assert Format(v) == "" + (sign + digits) + "" + "";
      assert Signed(sign + digits, sign, digits, v);
    }
    ReadsParse(Format(v), "", sign, digits, "", "", v);
  }
}
