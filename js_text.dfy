/** The JavaScript string and number primitives the schedule code leans on,
    written out: `parseInt`, `Number.prototype.toString`, `padStart`,
    `split`, `trim` and the `%` operator.  Section numbers refer to the
    ECMAScript language specification (ECMA-262). */
module JsText {
  import opened Wrappers

  // ---------------------------------------------------------------------------
  // Characters
  // ---------------------------------------------------------------------------

  /** The WhiteSpace and LineTerminator code points (sections 12.2 and 12.3):
      what `parseInt` skips before a number and what `trim` strips. */
  predicate IsWhiteSpace(c: char) {
    c == '\t' || c == '\n' || c == '\U{B}' || c == '\U{C}' || c == '\r' || c == ' '
    || c == '\U{A0}' || c == '\U{1680}' || ('\U{2000}' <= c <= '\U{200A}')
    || c == '\U{2028}' || c == '\U{2029}' || c == '\U{202F}' || c == '\U{205F}'
    || c == '\U{3000}' || c == '\U{FEFF}'
  }

  predicate IsDigit(c: char) { '0' <= c <= '9' }

  predicate IsHexDigit(c: char) { IsDigit(c) || 'a' <= c <= 'f' || 'A' <= c <= 'F' }

  /** A digit of base 16 when `hex`, of base 10 otherwise. */
  predicate IsRadixDigit(c: char, hex: bool) { if hex then IsHexDigit(c) else IsDigit(c) }

  function Base(hex: bool): nat { if hex then 16 else 10 }

  function DigitValue(c: char, hex: bool): (v: nat)
    requires IsRadixDigit(c, hex)
    ensures v < Base(hex)
  {
    if IsDigit(c) then c as int - '0' as int
    else if 'a' <= c <= 'f' then c as int - 'a' as int + 10
    else c as int - 'A' as int + 10
  }

  function DigitChar(d: nat): (c: char)
    requires d < 10
    ensures IsDigit(c) && DigitValue(c, false) == d
  {
    ('0' as int + d) as char
  }

  lemma DigitCharOfValue(c: char)
    requires IsDigit(c)
    ensures DigitChar(DigitValue(c, false)) == c
  {
  }

  lemma DigitIsNotSpecial(c: char)
    requires IsDigit(c)
    ensures !IsWhiteSpace(c) && c != '-' && c != '+' && c != ':' && c != ' '
  {
  }

  // ---------------------------------------------------------------------------
  // parseInt (section 19.2.5)
  // ---------------------------------------------------------------------------

  /** `trimStart`: drops the leading white space. */
  function TrimStart(s: string): (r: string)
    ensures |r| <= |s| && r == s[|s| - |r|..]
    ensures |r| > 0 ==> !IsWhiteSpace(r[0])
  {
    if |s| > 0 && IsWhiteSpace(s[0]) then TrimStart(s[1..]) else s
  }

  /** What `TrimStart` drops is white space. */
  lemma {:induction false} TrimStartDropsWhiteSpace(s: string)
    ensures forall i :: 0 <= i < |s| - |TrimStart(s)| ==> IsWhiteSpace(s[i])
    decreases |s|
  {
    if |s| > 0 && IsWhiteSpace(s[0]) {
      TrimStartDropsWhiteSpace(s[1..]);
      assert forall i :: 1 <= i < |s| ==> s[i] == s[1..][i - 1];
    }
  }

  /** The longest prefix of `s` made of digits of the radix. */
  function DigitRun(s: string, hex: bool): (r: string)
    ensures r <= s
    ensures forall i :: 0 <= i < |r| ==> IsRadixDigit(r[i], hex)
    ensures |r| < |s| ==> !IsRadixDigit(s[|r|], hex)
  {
    if |s| > 0 && IsRadixDigit(s[0], hex) then [s[0]] + DigitRun(s[1..], hex) else []
  }

  predicate AllDigits(d: string, hex: bool) {
    forall i :: 0 <= i < |d| ==> IsRadixDigit(d[i], hex)
  }

  /** The number a digit string denotes, most significant digit first. */
  function DigitsValue(d: string, hex: bool): nat
    requires AllDigits(d, hex)
  {
    if |d| == 0 then 0
    else DigitsValue(d[..|d| - 1], hex) * Base(hex) + DigitValue(d[|d| - 1], hex)
  }

  /** Reads the longest run of digits of the radix at the front of `body`;
      no digit at all is `NaN`, here `None`. */
  function LeadingNumber(body: string, hex: bool): (r: Option<int>)
    ensures r.Some? ==> r.value >= 0
  {
    var digits := DigitRun(body, hex);
    if |digits| == 0 then None else Some(DigitsValue(digits, hex) as int)
  }

  predicate HasHexPrefix(u: string) {
    |u| >= 2 && u[0] == '0' && (u[1] == 'x' || u[1] == 'X')
  }

  /** The unsigned part: with `stripPrefix`, a `0x`/`0X` selects base 16. */
  function ParseUnsigned(u: string, stripPrefix: bool): (r: Option<int>)
    ensures r.Some? ==> r.value >= 0
  {
    if stripPrefix && HasHexPrefix(u) then LeadingNumber(u[2..], true) else LeadingNumber(u, false)
  }

  /** An optional sign, then the unsigned part. */
  function ParseSigned(t: string, stripPrefix: bool): Option<int> {
    if |t| > 0 && t[0] == '-' then
      match ParseUnsigned(t[1..], stripPrefix)
      case None => None
      case Some(v) => Some(-v)
    else if |t| > 0 && t[0] == '+' then
      match ParseUnsigned(t[1..], stripPrefix)
      case None => None
      case Some(v) => Some(v)
    else
      match ParseUnsigned(t, stripPrefix)
      case None => None
      case Some(v) => Some(v)
  }

  /** `parseInt(s, 10)` when `stripPrefix` is false, `parseInt(s)` (no radix)
      when it is true: skip white space, read an optional sign, with no radix
      let `0x`/`0X` select base 16, then read the longest run of digits.
      Anything after the digits is ignored. */
  function ParseIntWith(s: string, stripPrefix: bool): Option<int> {
    ParseSigned(TrimStart(s), stripPrefix)
  }

  /** `parseInt(s, 10)`. */
  function ParseInt(s: string): Option<int> { ParseIntWith(s, false) }

  /** `parseInt(s)` with the radix left out. */
  function ParseIntAuto(s: string): Option<int> { ParseIntWith(s, true) }

  lemma {:induction false} DigitRunOf(d: string, rest: string, hex: bool)
    requires AllDigits(d, hex)
    requires rest == [] || !IsRadixDigit(rest[0], hex)
    ensures DigitRun(d + rest, hex) == d
    decreases |d|
  {
    if |d| == 0 {
      assert d + rest == rest;
    } else {
      assert (d + rest)[1..] == d[1..] + rest;
      DigitRunOf(d[1..], rest, hex);
      assert [d[0]] + d[1..] == d;
    }
  }

  lemma TrimStartNoop(s: string)
    requires |s| > 0 && !IsWhiteSpace(s[0])
    ensures TrimStart(s) == s
  {
  }

  lemma LeadingNumberOf(d: string, rest: string)
    requires |d| > 0 && AllDigits(d, false)
    requires rest == [] || !IsDigit(rest[0])
    ensures LeadingNumber(d + rest, false) == Some(DigitsValue(d, false) as int)
  {
    DigitRunOf(d, rest, false);
  }

  /** A string that starts with a digit has no sign and no white space to skip. */
  lemma ParseIntOfUnsigned(s: string, stripPrefix: bool)
    requires |s| > 0 && IsDigit(s[0])
    requires stripPrefix ==> !HasHexPrefix(s)
    ensures ParseIntWith(s, stripPrefix) == LeadingNumber(s, false)
  {
    DigitIsNotSpecial(s[0]);
    TrimStartNoop(s);
    assert ParseSigned(s, stripPrefix) == ParseUnsigned(s, stripPrefix);
  }

  /** A decimal digit string followed by something that is not a digit reads
      back as its value, with either flavour of `parseInt` when no `0x`
      prefix is read. */
  lemma ParseIntOfDigits(d: string, rest: string, stripPrefix: bool, value: int)
    requires |d| > 0 && AllDigits(d, false) && value == DigitsValue(d, false)
    requires rest == [] || !IsDigit(rest[0])
    requires stripPrefix ==> !HasHexPrefix(d + rest)
    ensures ParseIntWith(d + rest, stripPrefix) == Some(value)
  {
    assert (d + rest)[0] == d[0];
    ParseIntOfUnsigned(d + rest, stripPrefix);
    LeadingNumberOf(d, rest);
  }

  lemma ParseSignedMinus(t: string, stripPrefix: bool, v: int)
    requires ParseUnsigned(t, stripPrefix) == Some(v)
    ensures ParseIntWith(['-'] + t, stripPrefix) == Some(-v)
  {
    TrimStartNoop(['-'] + t);
    assert (['-'] + t)[1..] == t;
  }

  lemma ParseUnsignedOfDigits(d: string, rest: string, stripPrefix: bool)
    requires |d| > 0 && AllDigits(d, false)
    requires rest == [] || !IsDigit(rest[0])
    requires stripPrefix ==> !HasHexPrefix(d + rest)
    ensures ParseUnsigned(d + rest, stripPrefix) == Some(DigitsValue(d, false) as int)
  {
    LeadingNumberOf(d, rest);
  }

  lemma ParseIntOfNegativeDigits(d: string, rest: string, stripPrefix: bool, t: string, v: int)
    requires |d| > 0 && AllDigits(d, false)
    requires rest == [] || !IsDigit(rest[0])
    requires t == d + rest && v == DigitsValue(d, false) as int
    requires stripPrefix ==> !HasHexPrefix(t)
    ensures ParseIntWith(['-'] + t, stripPrefix) == Some(-v)
  {
    ParseUnsignedOfDigits(d, rest, stripPrefix);
    ParseSignedMinus(t, stripPrefix, v);
  }

  // ---------------------------------------------------------------------------
  // Number.prototype.toString and padStart
  // ---------------------------------------------------------------------------

  /** The decimal numeral of a natural number, without leading zeros. */
  function NatToString(n: nat): (s: string)
    ensures |s| >= 1 && AllDigits(s, false)
    ensures DigitsValue(s, false) == n
    ensures n < 10 ==> |s| == 1
    ensures 10 <= n < 100 ==> |s| == 2
  {
    if n < 10 then [DigitChar(n)]
    else
      var s := NatToString(n / 10) + [DigitChar(n % 10)];
      assert s[..|s| - 1] == NatToString(n / 10);
      s
  }

  /** `i.toString()` for an integer: a minus sign for negatives. */
  function IntToString(i: int): (s: string)
    ensures |s| >= 1 && ':' !in s
  {
    if i < 0 then "-" + NatToString(-i) else NatToString(i)
  }

  function Zeros(k: nat): (z: string)
    ensures |z| == k && forall i :: 0 <= i < k ==> z[i] == '0'
  {
    seq(k, _ => '0')
  }

  /** `s.padStart(width, "0")`. */
  function PadStart(s: string, width: nat): (r: string)
    ensures |r| == if |s| >= width then |s| else width
    ensures r[|r| - |s|..] == s
    ensures forall i :: 0 <= i < |r| - |s| ==> r[i] == '0'
  {
    if |s| >= width then s else Zeros(width - |s|) + s
  }

  lemma {:induction false} LeadingZerosValue(k: nat, d: string)
    requires AllDigits(d, false)
    ensures AllDigits(Zeros(k) + d, false)
    ensures DigitsValue(Zeros(k) + d, false) == DigitsValue(d, false)
    decreases |d|, k
  {
    var s := Zeros(k) + d;
    if |d| == 0 {
      assert s == Zeros(k);
      if k > 0 {
        assert s[..|s| - 1] == Zeros(k - 1) + [];
        LeadingZerosValue(k - 1, []);
      }
    } else {
      assert s[..|s| - 1] == Zeros(k) + d[..|d| - 1];
      LeadingZerosValue(k, d[..|d| - 1]);
    }
  }

  /** A numeral padded to two places reads back as its integer. */
  lemma ParseIntOfPadded(i: int, rest: string, stripPrefix: bool)
    requires rest == [] || !IsDigit(rest[0])
    ensures ParseIntWith(PadStart(IntToString(i), 2) + rest, stripPrefix) == Some(i)
  {
    if i < 0 {
      ParseIntOfPaddedNegative(i, rest, stripPrefix);
    } else {
      ParseIntOfPaddedNatural(i, rest, stripPrefix);
    }
  }

  lemma ParseIntOfPaddedNegative(i: int, rest: string, stripPrefix: bool)
    requires i < 0
    requires rest == [] || !IsDigit(rest[0])
    ensures ParseIntWith(PadStart(IntToString(i), 2) + rest, stripPrefix) == Some(i)
  {
    var d := NatToString(-i);
    var t := d + rest;
    NegativeNumeral(i, rest, d, t);
    NegativeNumeralNotHex(i, rest, d, t);
    ParseIntOfNegativeDigits(d, rest, stripPrefix, t, -i);
  }

  lemma NegativeNumeral(i: int, rest: string, d: string, t: string)
    requires i < 0 && d == NatToString(-i) && t == d + rest
    ensures PadStart(IntToString(i), 2) + rest == ['-'] + t
  {
  }

  lemma NegativeNumeralNotHex(i: int, rest: string, d: string, t: string)
    requires i < 0 && d == NatToString(-i) && t == d + rest
    ensures !HasHexPrefix(t)
  {
    if |d| == 1 {
      assert t[0] == d[0] == DigitChar(-i);
    } else {
      assert t[1] == d[1];
    }
  }

  lemma ParseIntOfPaddedNatural(i: int, rest: string, stripPrefix: bool)
    requires i >= 0
    requires rest == [] || !IsDigit(rest[0])
    ensures ParseIntWith(PadStart(IntToString(i), 2) + rest, stripPrefix) == Some(i)
  {
    var p := PadStart(IntToString(i), 2);
    PaddedNumeral(i, p);
    PaddedHasNoHexPrefix(p, rest);
    ParseIntOfDigits(p, rest, stripPrefix, i);
  }

  /** A natural number padded to two places is digits only and keeps its
      value. */
  lemma PaddedNumeral(i: int, p: string)
    requires i >= 0 && p == PadStart(IntToString(i), 2)
    ensures |p| >= 2 && AllDigits(p, false) && DigitsValue(p, false) == i
  {
    var s := IntToString(i);
    var k := |p| - |s|;
    assert s == NatToString(i);
    assert p == Zeros(k) + s;
    LeadingZerosValue(k, s);
  }

  lemma PaddedHasNoHexPrefix(p: string, rest: string)
    requires |p| >= 2 && AllDigits(p, false)
    ensures !HasHexPrefix(p + rest)
  {
    assert (p + rest)[1] == p[1];
  }

  /** Two digits, the tens first, for a number below one hundred. */
  lemma PadStartTwoDigits(n: nat)
    requires n < 100
    ensures PadStart(IntToString(n), 2) == [DigitChar(n / 10), DigitChar(n % 10)]
  {
    if n >= 10 {
      assert NatToString(n) == NatToString(n / 10) + [DigitChar(n % 10)];
    }
  }

  /** A zero-padded numeral never holds the separator `:`. */
  lemma PaddedHasNoColon(i: int, width: nat)
    ensures ':' !in PadStart(IntToString(i), width)
  {
    var s := IntToString(i);
    var r := PadStart(s, width);
    forall k | 0 <= k < |r| ensures r[k] != ':' {
      if k >= |r| - |s| {
        assert r[k] == s[k - (|r| - |s|)];
      }
    }
  }

  /** The value of a two-digit string. */
  lemma TwoDigitsValue(d: string)
    requires |d| == 2 && AllDigits(d, false)
    ensures DigitsValue(d, false) == DigitValue(d[0], false) * 10 + DigitValue(d[1], false)
  {
    var one := d[..1];
    assert one[..0] == [];
    assert DigitsValue(one, false) == DigitValue(d[0], false);
    assert d[..|d| - 1] == one;
  }

  // ---------------------------------------------------------------------------
  // split and join
  // ---------------------------------------------------------------------------

  /** `s.split(sep)` for a one-character separator: the pieces between
      separators, at least one piece, an empty one at each end where `s`
      begins or ends with `sep`. */
  function Split(s: string, sep: char): (parts: seq<string>)
    ensures |parts| >= 1
    ensures forall i :: 0 <= i < |parts| ==> sep !in parts[i]
    decreases |s|
  {
    if |s| == 0 then [""]
    else
      var rest := Split(s[1..], sep);
      if s[0] == sep then [""] + rest else [[s[0]] + rest[0]] + rest[1..]
  }

  /** `parts.join(sep)`. */
  function Join(parts: seq<string>, sep: char): string
    requires |parts| >= 1
  {
    if |parts| == 1 then parts[0] else parts[0] + [sep] + Join(parts[1..], sep)
  }

  /** Joining the pieces again gives back the string that was split. */
  lemma {:induction false} JoinSplit(s: string, sep: char)
    ensures Join(Split(s, sep), sep) == s
    decreases |s|
  {
    if |s| > 0 {
      var rest := Split(s[1..], sep);
      JoinSplit(s[1..], sep);
      if s[0] == sep {
        assert ([""] + rest)[1..] == rest;
      } else {
        var parts := [[s[0]] + rest[0]] + rest[1..];
        if |rest| > 1 {
          assert parts[1..] == rest[1..];
          assert Join(rest, sep) == rest[0] + [sep] + Join(rest[1..], sep);
        }
      }
    }
  }

  lemma {:induction false} SplitWithout(a: string, sep: char)
    requires sep !in a
    ensures Split(a, sep) == [a]
    decreases |a|
  {
    if |a| > 0 {
      SplitWithout(a[1..], sep);
      assert [a[0]] + a[1..] == a;
    }
  }

  /** Splitting at the first separator: the piece before it comes first. */
  lemma {:induction false} SplitAtFirst(a: string, sep: char, b: string)
    requires sep !in a
    ensures Split(a + [sep] + b, sep) == [a] + Split(b, sep)
    decreases |a|
  {
    var s := a + [sep] + b;
    if |a| == 0 {
      assert s[1..] == b;
    } else {
      assert s[1..] == a[1..] + [sep] + b;
      SplitAtFirst(a[1..], sep, b);
      assert [a[0]] + a[1..] == a;
    }
  }

  // ---------------------------------------------------------------------------
  // trim
  // ---------------------------------------------------------------------------

  /** `trimEnd`: drops the trailing white space. */
  function TrimEnd(s: string): (r: string)
    ensures |r| <= |s| && r == s[..|r|]
    ensures |r| > 0 ==> !IsWhiteSpace(r[|r| - 1])
  {
    if |s| > 0 && IsWhiteSpace(s[|s| - 1]) then TrimEnd(s[..|s| - 1]) else s
  }

  /** What `TrimEnd` drops is white space. */
  lemma {:induction false} TrimEndDropsWhiteSpace(s: string)
    ensures forall i :: |TrimEnd(s)| <= i < |s| ==> IsWhiteSpace(s[i])
    decreases |s|
  {
    if |s| > 0 && IsWhiteSpace(s[|s| - 1]) {
      TrimEndDropsWhiteSpace(s[..|s| - 1]);
    }
  }

  /** `s.trim()`. */
  function Trim(s: string): string { TrimEnd(TrimStart(s)) }

  /** `trim()` leaves nothing exactly when every character is white space. */
  lemma TrimEmptyIff(s: string)
    ensures |Trim(s)| == 0 <==> forall i :: 0 <= i < |s| ==> IsWhiteSpace(s[i])
  {
    var t := TrimStart(s);
    TrimStartDropsWhiteSpace(s);
    TrimEndDropsWhiteSpace(t);
    if |Trim(s)| == 0 {
      forall i | 0 <= i < |s| ensures IsWhiteSpace(s[i]) {
      }
    } else {
      assert !IsWhiteSpace(t[0]);
      assert s[|s| - |t|] == t[0];
    }
  }

  // ---------------------------------------------------------------------------
  // The % operator
  // ---------------------------------------------------------------------------

  /** JavaScript's `a % b` for a positive divisor: the remainder of division
      truncated toward zero, which carries the sign of `a` (Dafny's own `%`
      is never negative). */
  function Rem(a: int, b: int): (r: int)
    requires b > 0
    ensures -b < r < b
    ensures a >= 0 ==> r >= 0
    ensures a <= 0 ==> r <= 0
  {
    if a >= 0 then a % b else -((-a) % b)
  }
}
