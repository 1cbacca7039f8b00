/**
 * The JavaScript string operations the core relies on, written out over
 * `seq<char>`: `trim`, `includes`, `startsWith`, `replace` with a string
 * pattern, `split` and `join` with a one-character separator,
 * `toLowerCase` on ASCII identifiers, `length` in UTF-16 code units,
 * decimal rendering of integers and `parseInt` without a radix.
 */
module Text {
  import opened Wrappers

  /** The code points JavaScript's `\s` and `String.prototype.trim` treat as white space. */
  predicate IsJsWhitespace(c: char) {
    var n := c as int;
    n == 0x09 || n == 0x0A || n == 0x0B || n == 0x0C || n == 0x0D || n == 0x20 || n == 0xA0
    || n == 0x1680 || (0x2000 <= n <= 0x200A) || n == 0x2028 || n == 0x2029 || n == 0x202F
    || n == 0x205F || n == 0x3000 || n == 0xFEFF
  }

  function TrimStart(s: string): (r: string)
    ensures |r| <= |s| && r == s[|s| - |r|..]
    ensures forall k :: 0 <= k < |s| - |r| ==> IsJsWhitespace(s[k])
    ensures r == [] || !IsJsWhitespace(r[0])
  {
    if s != [] && IsJsWhitespace(s[0]) then TrimStart(s[1..]) else s
  }

  function TrimEnd(s: string): (r: string)
    ensures |r| <= |s| && r == s[..|r|]
    ensures forall k :: |r| <= k < |s| ==> IsJsWhitespace(s[k])
    ensures r == [] || !IsJsWhitespace(r[|r| - 1])
  {
    if s != [] && IsJsWhitespace(s[|s| - 1]) then TrimEnd(s[..|s| - 1]) else s
  }

  /** `r` is the slice of `s` starting at `i`, and everything around it is white space. */
  ghost predicate TrimmedAt(s: string, r: string, i: int) {
    0 <= i <= |s| - |r| && r == s[i..i + |r|]
    && (forall k :: 0 <= k < i ==> IsJsWhitespace(s[k]))
    && (forall k :: i + |r| <= k < |s| ==> IsJsWhitespace(s[k]))
  }

  /** `String.prototype.trim`: the slice of `s` between its leading and trailing white space. */
  function Trim(s: string): (r: string)
    ensures exists i :: TrimmedAt(s, r, i)
    ensures r == [] || (!IsJsWhitespace(r[0]) && !IsJsWhitespace(r[|r| - 1]))
  {
    var t := TrimStart(s);
    var r := TrimEnd(t);
    assert TrimmedAt(s, r, |s| - |t|);
    r
  }

  lemma TrimOfUnpadded(s: string)
    requires s == [] || (!IsJsWhitespace(s[0]) && !IsJsWhitespace(s[|s| - 1]))
    ensures Trim(s) == s
  {
  }

  lemma TrimBlank(s: string)
    ensures Trim(s) == [] <==> forall k :: 0 <= k < |s| ==> IsJsWhitespace(s[k])
  {
    if Trim(s) == [] {
      var i :| TrimmedAt(s, Trim(s), i);
    }
  }

  predicate StartsWith(s: string, p: string) {
    p <= s
  }

  predicate OccursAt(s: string, t: string, i: int) {
    0 <= i <= |s| - |t| && s[i..i + |t|] == t
  }

  /** `String.prototype.includes`. */
  predicate Includes(s: string, t: string) {
    exists i | 0 <= i <= |s| :: OccursAt(s, t, i)
  }

  function LowerAscii(c: char): char {
    if 'A' <= c <= 'Z' then (c as int + 32) as char else c
  }

  /** `toLowerCase` restricted to ASCII letters; the source applies it here only to ASCII identifiers. */
  function AsciiLower(s: string): (r: string)
    ensures |r| == |s|
    ensures forall k :: 0 <= k < |s| ==> r[k] == LowerAscii(s[k])
  {
    seq(|s|, k requires 0 <= k < |s| => LowerAscii(s[k]))
  }

  /** `s.replace(pat, "")` with a string pattern: removes the first occurrence of `pat`, if any. */
  function ReplaceFirst(s: string, pat: string): (r: string)
    ensures |r| <= |s|
  {
    if pat <= s then s[|pat|..]
    else if s == [] then s
    else [s[0]] + ReplaceFirst(s[1..], pat)
  }

  lemma {:induction false} ReplaceFirstAbsent(s: string, pat: string)
    requires !Includes(s, pat)
    ensures ReplaceFirst(s, pat) == s
  {
    if pat <= s {
      assert OccursAt(s, pat, 0);
    } else if s != [] {
      ShiftOccurs(s, pat);
      ReplaceFirstAbsent(s[1..], pat);
    }
  }

  lemma ShiftOccurs(s: string, pat: string)
    requires s != [] && !(pat <= s)
    ensures !OccursAt(s, pat, 0)
    ensures forall j :: 1 <= j <= |s| ==> (OccursAt(s, pat, j) <==> OccursAt(s[1..], pat, j - 1))
    ensures Includes(s, pat) <==> Includes(s[1..], pat)
  {
    forall j | 1 <= j <= |s| ensures OccursAt(s, pat, j) <==> OccursAt(s[1..], pat, j - 1) {
      if j + |pat| <= |s| {
        assert s[j..j + |pat|] == s[1..][j - 1..j - 1 + |pat|];
      }
    }
    if Includes(s, pat) {
      var i :| 0 <= i <= |s| && OccursAt(s, pat, i);
      assert OccursAt(s[1..], pat, i - 1);
    }
    if Includes(s[1..], pat) {
      var i :| 0 <= i <= |s[1..]| && OccursAt(s[1..], pat, i);
      assert OccursAt(s, pat, i + 1);
    }
  }

  lemma ReplaceFirstPrefix(p: string, rest: string)
    ensures ReplaceFirst(p + rest, p) == rest
  {
    assert p <= p + rest;
  }

  /** A pattern whose first character does not occur before it is removed where it ends the string. */
  lemma {:induction false} ReplaceFirstAfter(a: string, pat: string)
    requires pat != [] && forall k :: 0 <= k < |a| ==> a[k] != pat[0]
    ensures ReplaceFirst(a + pat, pat) == a
  {
    if a == [] {
      assert a + pat == pat;
    } else {
      assert (a + pat)[0] == a[0];
      assert (a + pat)[1..] == a[1..] + pat;
      ReplaceFirstAfter(a[1..], pat);
    }
  }

  /** `Array.prototype.join(sep)` of strings. */
  function Join(parts: seq<string>, sep: string): string {
    if parts == [] then ""
    else if |parts| == 1 then parts[0]
    else parts[0] + sep + Join(parts[1..], sep)
  }

  /** `s.split(sep)` with a one-character separator. */
  function Split(s: string, sep: char): (r: seq<string>)
    ensures |r| >= 1
  {
    if s == [] then [""]
    else if s[0] == sep then [""] + Split(s[1..], sep)
    else
      var rest := Split(s[1..], sep);
      [[s[0]] + rest[0]] + rest[1..]
  }

  lemma {:induction false} SplitPieces(s: string, sep: char)
    ensures forall piece :: piece in Split(s, sep) ==> sep !in piece
    ensures Join(Split(s, sep), [sep]) == s
  {
    if s != [] {
      SplitPieces(s[1..], sep);
      var rest := Split(s[1..], sep);
      if s[0] == sep {
        assert Split(s, sep) == [""] + rest;
        assert s == [sep] + s[1..];
      } else {
        var first := [s[0]] + rest[0];
        assert Split(s, sep) == [first] + rest[1..];
        assert rest[0] in rest;
        if |rest| == 1 {
          assert s == first;
        } else {
          assert rest == [rest[0]] + rest[1..];
          assert Join(rest, [sep]) == rest[0] + [sep] + Join(rest[1..], [sep]);
          assert s == [s[0]] + s[1..];
        }
        forall piece | piece in Split(s, sep) ensures sep !in piece {
          if piece != first { assert piece in rest; }
        }
      }
    }
  }

  /** `String.prototype.length`: UTF-16 code units, two for a code point above U+FFFF. */
  function Utf16Length(s: string): (n: nat)
    ensures |s| <= n <= 2 * |s|
  {
    if s == [] then 0 else (if s[0] as int >= 0x10000 then 2 else 1) + Utf16Length(s[1..])
  }

  function DigitChar(d: nat): char
    requires d < 10
  {
    ('0' as int + d) as char
  }

  /** Decimal rendering of a natural number, as `String(n)` gives it. */
  function NatToDecimal(n: nat): (r: string)
    ensures r != [] && forall k :: 0 <= k < |r| ==> '0' <= r[k] <= '9'
    ensures |r| > 1 ==> r[0] != '0'
  {
    if n < 10 then [DigitChar(n)] else NatToDecimal(n / 10) + [DigitChar(n % 10)]
  }

  function IntToDecimal(i: int): string {
    if i < 0 then "-" + NatToDecimal(-i) else NatToDecimal(i)
  }

  function DigitValue(c: char, radix: nat): Option<nat> {
    if '0' <= c <= '9' && (c as int - '0' as int) < radix then Some(c as int - '0' as int)
    else if radix == 16 && 'a' <= c <= 'f' then Some(c as int - 'a' as int + 10)
    else if radix == 16 && 'A' <= c <= 'F' then Some(c as int - 'A' as int + 10)
    else None
  }

  /** The longest prefix of `s` made of digits of `radix`. */
  function DigitPrefix(s: string, radix: nat): (r: string)
    ensures r <= s
    ensures forall k :: 0 <= k < |r| ==> DigitValue(r[k], radix).Some?
    ensures |r| < |s| ==> DigitValue(s[|r|], radix).None?
  {
    if s != [] && DigitValue(s[0], radix).Some? then [s[0]] + DigitPrefix(s[1..], radix) else []
  }

  function DigitsValue(d: string, radix: nat): nat
    requires forall k :: 0 <= k < |d| ==> DigitValue(d[k], radix).Some?
  {
    if d == [] then 0 else DigitsValue(d[..|d| - 1], radix) * radix + DigitValue(d[|d| - 1], radix).value
  }

  /** `parseInt(s)` with no radix: leading white space, an optional sign, a `0x` prefix for hexadecimal, then the longest run of digits; `None` stands for `NaN`. */
  function ParseInt(s: string): (r: Option<int>)
    ensures r.Some? ==> TrimStart(s) != []
    ensures r.Some? && r.value < 0 ==> TrimStart(s)[0] == '-'
  {
    var t := TrimStart(s);
    if t != [] && t[0] == '-' then
      match ParseMagnitude(t[1..])
      case None => None
      case Some(m) => Some(-m)
    else if t != [] && t[0] == '+' then ParseMagnitude(t[1..])
    else ParseMagnitude(t)
  }

  function ParseMagnitude(u: string): (r: Option<int>)
    ensures r.Some? ==> u != [] && r.value >= 0
  {
    if |u| >= 2 && u[0] == '0' && (u[1] == 'x' || u[1] == 'X') then DigitsOf(u[2..], 16)
    else DigitsOf(u, 10)
  }

  function DigitsOf(body: string, radix: nat): Option<int> {
    var d := DigitPrefix(body, radix);
    if d == [] then None else Some(DigitsValue(d, radix))
  }

  lemma DecimalDigits(n: nat)
    ensures DigitPrefix(NatToDecimal(n), 10) == NatToDecimal(n)
    ensures DigitsValue(NatToDecimal(n), 10) == n
  {
    AllDigitsPrefix(NatToDecimal(n));
    DecimalValue(n);
  }

  lemma {:induction false} DecimalValue(n: nat)
    ensures DigitsValue(NatToDecimal(n), 10) == n
  {
    var r := NatToDecimal(n);
    if n >= 10 {
      DecimalValue(n / 10);
      var init := NatToDecimal(n / 10);
      assert r == init + [DigitChar(n % 10)];
      assert r[..|r| - 1] == init;
      assert DigitValue(r[|r| - 1], 10) == Some(n % 10);
    } else {
      assert DigitValue(r[0], 10) == Some(n);
      assert r[..0] == [];
    }
  }

  lemma {:induction false} AllDigitsPrefix(r: string)
    requires forall k :: 0 <= k < |r| ==> '0' <= r[k] <= '9'
    ensures DigitPrefix(r, 10) == r
  {
    if r != [] {
      AllDigitsPrefix(r[1..]);
      assert r == [r[0]] + r[1..];
    }
  }

  lemma ParseMagnitudeOfDecimal(m: nat)
    ensures ParseMagnitude(NatToDecimal(m)) == Some(m)
  {
    var d := NatToDecimal(m);
    DecimalDigits(m);
  }

  /** Rendering an integer and reading it back with `parseInt` gives the integer. */
  lemma ParseIntOfDecimal(i: int)
    ensures ParseInt(IntToDecimal(i)) == Some(i)
  {
    if i < 0 {
      ParseNegative(-i);
    } else {
      ParseNonNegative(i);
    }
  }

  lemma ParseNonNegative(m: nat)
    ensures ParseInt(NatToDecimal(m)) == Some(m)
  {
    var d := NatToDecimal(m);
    ParseMagnitudeOfDecimal(m);
    assert !IsJsWhitespace(d[0]);
    assert TrimStart(d) == d;
    assert d[0] != '-' && d[0] != '+';
  }

  lemma ParseNegative(m: nat)
    ensures ParseInt("-" + NatToDecimal(m)) == Some(-(m as int))
  {
    var d := NatToDecimal(m);
    var s := "-" + d;
    ParseMagnitudeOfDecimal(m);
    assert !IsJsWhitespace(s[0]);
    assert TrimStart(s) == s;
    assert s[1..] == d;
  }
}
