/**
 * The JavaScript string primitives the application relies on, over `string = seq<char>`:
 * the `\s` white-space class and `trim`, `includes`, decimal digits and `String(n)`,
 * `parseInt`, lexicographic `<` on strings, and `toUpperCase` restricted to the
 * characters the therapy names use.
 */
module Text {
  import opened Wrappers

  // ---------------------------------------------------------------------------
  // White space and trimming
  // ---------------------------------------------------------------------------

  /** The characters matched by JavaScript's `\s` and removed by `String.prototype.trim`. */
  predicate IsSpace(c: char) {
    || c == '\t' || c == '\n' || c == '\U{000B}' || c == '\U{000C}' || c == '\r' || c == ' '
    || c == '\U{00A0}' || c == '\U{1680}' || ('\U{2000}' <= c <= '\U{200A}')
    || c == '\U{2028}' || c == '\U{2029}' || c == '\U{202F}' || c == '\U{205F}'
    || c == '\U{3000}' || c == '\U{FEFF}'
  }

  /** `s.trimStart()`: drops the leading white space and nothing else. */
  function TrimStart(s: string): (r: string)
    ensures |r| <= |s| && r == s[|s| - |r|..]
    ensures |r| > 0 ==> !IsSpace(r[0])
    ensures forall i :: 0 <= i < |s| - |r| ==> IsSpace(s[i])
  {
    if |s| > 0 && IsSpace(s[0]) then TrimStart(s[1..]) else s
  }

  /** `s.trimEnd()`: drops the trailing white space and nothing else. */
  function TrimEnd(s: string): (r: string)
    ensures |r| <= |s| && r == s[..|r|]
    ensures |r| > 0 ==> !IsSpace(r[|r| - 1])
    ensures forall i :: |r| <= i < |s| ==> IsSpace(s[i])
  {
    if |s| > 0 && IsSpace(s[|s| - 1]) then TrimEnd(s[..|s| - 1]) else s
  }

  /** `r` occurs in `s` starting at position `k`. */
  predicate OccursAt(s: string, sub: string, k: int) {
    0 <= k <= |s| - |sub| && s[k..k + |sub|] == sub
  }

  /** `s.trim()`: a contiguous slice of `s` that neither starts nor ends with white space;
      it is empty exactly when `s` consists of white space only. */
  function Trim(s: string): (r: string)
    ensures exists k :: OccursAt(s, r, k)
    ensures |r| > 0 ==> !IsSpace(r[0]) && !IsSpace(r[|r| - 1])
    ensures r == [] <==> forall i :: 0 <= i < |s| ==> IsSpace(s[i])
  {
    var t := TrimStart(s);
    var r := TrimEnd(t);
    assert OccursAt(s, r, |s| - |t|);
    r
  }

  /** JavaScript's `!s.trim()`: the string is empty or white space only. */
  predicate IsBlank(s: string) {
    Trim(s) == []
  }

  // ---------------------------------------------------------------------------
  // Substrings
  // ---------------------------------------------------------------------------

  predicate StartsWith(s: string, prefix: string) {
    |prefix| <= |s| && s[..|prefix|] == prefix
  }

  /** `s.includes(sub)`, computed by trying every start position in turn. */
  predicate Contains(s: string, sub: string)
    decreases |s|
  {
    StartsWith(s, sub) || (|s| > 0 && Contains(s[1..], sub))
  }

  /** `includes` holds exactly when `sub` occurs at some position of `s`. */
  lemma {:induction false} ContainsIff(s: string, sub: string)
    ensures Contains(s, sub) <==> exists i :: OccursAt(s, sub, i)
    decreases |s|
  {
    if StartsWith(s, sub) {
      assert OccursAt(s, sub, 0);
    } else if |s| > 0 {
      ContainsIff(s[1..], sub);
      if Contains(s[1..], sub) {
        var i :| OccursAt(s[1..], sub, i);
        assert s[i + 1..i + 1 + |sub|] == s[1..][i..i + |sub|];
        assert OccursAt(s, sub, i + 1);
      } else {
        forall i | OccursAt(s, sub, i)
          ensures false
        {
          if i > 0 {
            OccursAtShift(s, sub, i);
          }
        }
      }
    } else {
      forall i | OccursAt(s, sub, i)
        ensures false
      {
      }
    }
  }

  lemma OccursAtShift(s: string, sub: string, i: int)
    requires 1 <= i && OccursAt(s, sub, i)
    ensures OccursAt(s[1..], sub, i - 1)
  {
    forall k | 0 <= k < |sub|
      ensures s[1..][i - 1..i - 1 + |sub|][k] == sub[k]
    {
      assert s[1..][i - 1..i - 1 + |sub|][k] == s[i + k] == s[i..i + |sub|][k];
    }
  }

  /** `sub` matches `s` from index `i` on, checked one character at a time. */
  predicate MatchesAt(s: string, sub: string, i: nat)
    requires i <= |s|
    decreases |sub|
  {
    |sub| == 0 || (i < |s| && s[i] == sub[0] && MatchesAt(s, sub[1..], i + 1))
  }

  /** `includes` as a scan over start indexes `i`, `i + 1`, ... of a fixed string. */
  predicate ContainsFrom(s: string, sub: string, i: nat)
    requires i <= |s|
    decreases |s| - i
  {
    MatchesAt(s, sub, i) || (i < |s| && ContainsFrom(s, sub, i + 1))
  }

  /** The character-wise match is a prefix test. */
  lemma {:induction false} MatchesAtIff(s: string, sub: string, i: nat)
    requires i <= |s|
    ensures MatchesAt(s, sub, i) <==> StartsWith(s[i..], sub)
    decreases |sub|
  {
    if |sub| > 0 && i < |s| {
      MatchesAtIff(s, sub[1..], i + 1);
      assert s[i..] == [s[i]] + s[i + 1..];
      if StartsWith(s[i..], sub) {
        assert s[i + 1..][..|sub| - 1] == s[i..][..|sub|][1..];
      }
      if StartsWith(s[i + 1..], sub[1..]) && s[i] == sub[0] {
        assert s[i..][..|sub|] == [s[i]] + s[i + 1..][..|sub| - 1];
        assert sub == [sub[0]] + sub[1..];
      }
    }
  }

  /** The index scan from `i` agrees with `includes` on the suffix from `i`. */
  lemma {:induction false} ContainsFromIff(s: string, sub: string, i: nat)
    requires i <= |s|
    ensures ContainsFrom(s, sub, i) <==> Contains(s[i..], sub)
    decreases |s| - i
  {
    MatchesAtIff(s, sub, i);
    if i < |s| {
      ContainsFromIff(s, sub, i + 1);
      assert s[i..][1..] == s[i + 1..];
    }
  }

  /** `includes` on a whole string is the scan from index 0. */
  lemma ContainsByScan(s: string, sub: string)
    ensures Contains(s, sub) <==> ContainsFrom(s, sub, 0)
  {
    ContainsFromIff(s, sub, 0);
    assert s[0..] == s;
  }

  /** A string lacking one of `sub`'s characters does not contain `sub`. */
  lemma NotContainsChar(s: string, sub: string, k: nat)
    requires k < |sub| && sub[k] !in s
    ensures !Contains(s, sub)
  {
    ContainsIff(s, sub);
    forall p | 0 <= p <= |s| - |sub|
      ensures !OccursAt(s, sub, p)
    {
      assert s[p..p + |sub|][k] == s[p + k];
    }
  }

  /** If `sub[j]` never occurs in `a` and a later `sub[k]` never occurs in `b`, then `sub`
      does not occur in `a + b`: the first would have to start in `b`, the second end in `a`. */
  lemma NotContainsAcross(a: string, b: string, sub: string, j: nat, k: nat)
    requires j < k < |sub|
    requires sub[j] !in a && sub[k] !in b
    ensures !Contains(a + b, sub)
  {
    var s := a + b;
    ContainsIff(s, sub);
    forall p | 0 <= p <= |s| - |sub|
      ensures !OccursAt(s, sub, p)
    {
      if p + j < |a| {
        assert s[p..p + |sub|][j] == a[p + j];
      } else {
        assert s[p..p + |sub|][k] == b[p + k - |a|];
      }
    }
  }

  /** Containment is transitive: a string holding `b` holds everything `b` holds. */
  lemma ContainsTransitive(a: string, b: string, c: string)
    requires Contains(a, b) && Contains(b, c)
    ensures Contains(a, c)
  {
    ContainsIff(a, b);
    ContainsIff(b, c);
    ContainsIff(a, c);
    var i :| OccursAt(a, b, i);
    var j :| OccursAt(b, c, j);
    forall k | 0 <= k < |c| ensures a[i + j..i + j + |c|][k] == c[k] {
      assert a[i + j + k] == a[i..i + |b|][j + k] == b[j + k] == b[j..j + |c|][k];
    }
    assert OccursAt(a, c, i + j);
  }

  /** Every string contains the empty string (`s.includes('') === true`). */
  lemma ContainsEmpty(s: string)
    ensures Contains(s, [])
  {
    assert StartsWith(s, []);
  }

  /** A string contains itself. */
  lemma ContainsSelf(s: string)
    ensures Contains(s, s)
  {
    assert s[..|s|] == s;
  }

  // ---------------------------------------------------------------------------
  // Decimal digits and `String(n)`
  // ---------------------------------------------------------------------------

  /** JavaScript `\d`: the ASCII decimal digits only. */
  predicate IsDigit(c: char) {
    '0' <= c <= '9'
  }

  predicate AllDigits(s: string) {
    forall i :: 0 <= i < |s| ==> IsDigit(s[i])
  }

  function DigitValue(c: char): (v: nat)
    requires IsDigit(c)
    ensures v < 10
  {
    c as int - '0' as int
  }

  function DigitChar(n: nat): (c: char)
    requires n < 10
    ensures IsDigit(c) && DigitValue(c) == n
  {
    ('0' as int + n) as char
  }

  /** The value of a string of decimal digits (`Number(s)` for `s` matching `\d*`). */
  function ParseDigits(s: string): nat
    requires AllDigits(s)
  {
    if |s| == 0 then 0 else ParseDigits(s[..|s| - 1]) * 10 + DigitValue(s[|s| - 1])
  }

  /** `String(n)` for a non-negative integer: the shortest decimal numeral of `n`;
      reading it back yields `n`. */
  function NatToString(n: nat): (r: string)
    ensures |r| >= 1 && AllDigits(r)
    ensures ParseDigits(r) == n
    ensures r[0] == '0' ==> n == 0
    ensures n < 10 <==> |r| == 1
  {
    if n < 10 then [DigitChar(n)]
    else
      var r := NatToString(n / 10) + [DigitChar(n % 10)];
      assert r[..|r| - 1] == NatToString(n / 10);
      r
  }

  /** Distinct numbers print differently. */
  lemma NatToStringInjective(m: nat, n: nat)
    requires NatToString(m) == NatToString(n)
    ensures m == n
  {
  }

  /** The width of the numeral of a number in `[1000, 9999]` is four. */
  lemma NatToStringFourDigits(n: nat)
    requires 1000 <= n <= 9999
    ensures |NatToString(n)| == 4
  {
    assert |NatToString(n / 1000)| == 1;
    assert |NatToString(n / 100)| == 2;
    assert |NatToString(n / 10)| == 3;
  }

  // ---------------------------------------------------------------------------
  // `parseInt`
  // ---------------------------------------------------------------------------

  /** The value of character `c` as a digit of base `radix` (10 or 16), if it is one. */
  function RadixDigit(c: char, radix: nat): (v: Option<nat>)
    requires radix == 10 || radix == 16
    ensures v.Some? ==> v.value < radix
  {
    if IsDigit(c) then Some(DigitValue(c))
    else if radix == 16 && 'a' <= c <= 'f' then Some(c as int - 'a' as int + 10)
    else if radix == 16 && 'A' <= c <= 'F' then Some(c as int - 'A' as int + 10)
    else None
  }

  /** The longest prefix of `s` made of base-`radix` digits. */
  function LeadingDigits(s: string, radix: nat): (r: string)
    requires radix == 10 || radix == 16
    ensures |r| <= |s| && r == s[..|r|]
    ensures forall i :: 0 <= i < |r| ==> RadixDigit(r[i], radix).Some?
    ensures |r| < |s| ==> RadixDigit(s[|r|], radix).None?
  {
    if |s| > 0 && RadixDigit(s[0], radix).Some? then [s[0]] + LeadingDigits(s[1..], radix) else []
  }

  function RadixValue(s: string, radix: nat): nat
    requires radix == 10 || radix == 16
    requires forall i :: 0 <= i < |s| ==> RadixDigit(s[i], radix).Some?
  {
    if |s| == 0 then 0
    else RadixValue(s[..|s| - 1], radix) * radix + RadixDigit(s[|s| - 1], radix).value
  }

  /** Base-10 digit strings have the same value read by either digit reader. */
  lemma RadixValueDecimal(s: string)
    requires AllDigits(s)
    ensures forall i :: 0 <= i < |s| ==> RadixDigit(s[i], 10).Some?
    ensures RadixValue(s, 10) == ParseDigits(s)
  {
    if |s| > 0 {
      RadixValueDecimal(s[..|s| - 1]);
    }
  }

  /** The sign and the digits left after `parseInt` has skipped leading white space. */
  function SignAndBody(s: string): (int, string)
  {
    var t := TrimStart(s);
    if |t| > 0 && t[0] == '-' then (-1, t[1..])
    else if |t| > 0 && t[0] == '+' then (1, t[1..])
    else (1, t)
  }

  /** The value of the longest base-`radix` digit prefix of `body`, or `None` when it is empty. */
  function ReadRadix(body: string, radix: nat): Option<nat>
    requires radix == 10 || radix == 16
  {
    var digits := LeadingDigits(body, radix);
    if |digits| == 0 then None else Some(RadixValue(digits, radix))
  }

  function Signed(sign: int, v: Option<nat>): Option<int> {
    match v
    case None => None
    case Some(n) => Some(sign * n)
  }

  predicate HasHexPrefix(body: string) {
    |body| >= 2 && body[0] == '0' && (body[1] == 'x' || body[1] == 'X')
  }

  /** `parseInt(s, 10)`: `None` stands for `NaN`. */
  function ParseIntDecimal(s: string): Option<int>
  {
    var (sign, body) := SignAndBody(s);
    Signed(sign, ReadRadix(body, 10))
  }

  /** `parseInt(s)` with no radix: as base 10, except that a `0x`/`0X` prefix selects base 16. */
  function ParseIntAuto(s: string): Option<int>
  {
    var (sign, body) := SignAndBody(s);
    if HasHexPrefix(body) then Signed(sign, ReadRadix(body[2..], 16))
    else Signed(sign, ReadRadix(body, 10))
  }

  /** The digits of a numeral followed by a non-digit are exactly the numeral. */
  lemma LeadingDigitsOfNumeral(d: string, rest: string)
    requires AllDigits(d)
    requires |rest| > 0 ==> !IsDigit(rest[0])
    ensures LeadingDigits(d + rest, 10) == d
  {
    if |d| > 0 {
      assert (d + rest)[1..] == d[1..] + rest;
      LeadingDigitsOfNumeral(d[1..], rest);
    } else {
      assert d + rest == rest;
    }
  }

  /** A string that starts with a digit has no sign and no leading white space to skip. */
  lemma SignAndBodyOfDigitStart(s: string)
    requires |s| > 0 && IsDigit(s[0])
    ensures SignAndBody(s) == (1, s)
  {
    assert TrimStart(s) == s;
  }

  /** `parseInt(…, 10)` of a string whose digits start right away. */
  lemma ParseIntDecimalOfDigitsThen(d: string, rest: string)
    requires |d| > 0 && AllDigits(d)
    requires |rest| > 0 ==> !IsDigit(rest[0])
    ensures ParseIntDecimal(d + rest) == Some(ParseDigits(d))
  {
    var s := d + rest;
    assert s[0] == d[0];
    SignAndBodyOfDigitStart(s);
    LeadingDigitsOfNumeral(d, rest);
    RadixValueDecimal(d);
  }

  /** `parseInt(…)` without a radix, of a digit string that is not a `0x` prefix. */
  lemma ParseIntAutoOfDigitsThen(d: string, rest: string)
    requires |d| > 0 && AllDigits(d)
    requires d[0] == '0' ==> |d| == 1
    requires |rest| > 0 ==> !IsDigit(rest[0]) && rest[0] != 'x' && rest[0] != 'X'
    ensures ParseIntAuto(d + rest) == Some(ParseDigits(d))
  {
    var s := d + rest;
    assert s[0] == d[0];
    SignAndBodyOfDigitStart(s);
    LeadingDigitsOfNumeral(d, rest);
    RadixValueDecimal(d);
    if |s| >= 2 && s[0] == '0' {
      assert s[1] == rest[0];
    }
    assert !HasHexPrefix(s);
  }

  /** `parseInt` reads back what `String(n)` prints and ignores anything after the numeral
      that does not start with a digit; without a radix the same holds unless the numeral
      `0` is followed by `x` or `X`, which `parseInt` reads as a hexadecimal prefix. */
  lemma ParseIntReadsNumeral(n: nat, rest: string)
    requires |rest| > 0 ==> !IsDigit(rest[0])
    ensures ParseIntDecimal(NatToString(n) + rest) == Some(n)
    ensures (|rest| == 0 || (rest[0] != 'x' && rest[0] != 'X')) ==>
              ParseIntAuto(NatToString(n) + rest) == Some(n)
  {
    var d := NatToString(n);
    ParseIntDecimalOfDigitsThen(d, rest);
    if |rest| == 0 || (rest[0] != 'x' && rest[0] != 'X') {
      ParseIntAutoOfDigitsThen(d, rest);
    }
  }

  /** `parseInt('0x…')` without a radix reads the hexadecimal digits after the prefix. */
  lemma ParseIntAutoHex()
    ensures ParseIntAuto("0x1A") == Some(26)
    ensures ParseIntDecimal("0x1A") == Some(0)
  {
    var s := "0x1A";
    SignAndBodyOfDigitStart(s);
    assert HasHexPrefix(s);
    assert s[2..] == "1A";
    assert LeadingDigits("1A", 16) == "1A";
    assert LeadingDigits("", 16) == "";
    assert LeadingDigits("A", 16) == "A";
    assert LeadingDigits("x1A", 10) == "";
    assert LeadingDigits(s, 10) == "0";
    assert RadixValue("1", 16) == 1;
    assert "1A"[..1] == "1";
    assert RadixValue("1A", 16) == 26;
    assert ReadRadix(s[2..], 16) == Some(26);
  }

  /** With a leading minus sign, `parseInt(…, 10)` yields the negated value. */
  lemma ParseIntReadsNegative(n: nat, rest: string)
    requires |rest| > 0 ==> !IsDigit(rest[0])
    ensures ParseIntDecimal("-" + NatToString(n) + rest) == Some(-(n as int))
  {
    var d := NatToString(n);
    assert "-" + d + rest == "-" + (d + rest);
    SignAndBodyOfMinus(d + rest);
    LeadingDigitsOfNumeral(d, rest);
    RadixValueDecimal(d);
  }

  /** A leading minus sign is the sign, and the rest is the body. */
  lemma SignAndBodyOfMinus(body: string)
    ensures SignAndBody("-" + body) == (-1, body)
  {
    var m := "-" + body;
    assert m[0] == '-' && !IsSpace(m[0]);
    assert TrimStart(m) == m;
    assert m[1..] == body;
  }

  /** A match of `(\d+)` is read by `parseInt(…, 10)` as its decimal value. */
  lemma ParseIntOfDigits(s: string)
    requires |s| > 0 && AllDigits(s)
    ensures ParseIntDecimal(s) == Some(ParseDigits(s))
  {
    LeadingDigitsOfNumeral(s, []);
    assert s + [] == s;
    RadixValueDecimal(s);
    SignAndBodyOfDigitStart(s);
  }

  // ---------------------------------------------------------------------------
  // Lexicographic order (`a < b` on strings, and the default `Array.prototype.sort`)
  // ---------------------------------------------------------------------------

  /** `a < b` on strings: the first differing character decides, and a proper prefix comes first. */
  predicate StrLt(a: string, b: string)
    decreases |a|
  {
    |b| > 0 && (|a| == 0 || a[0] < b[0] || (a[0] == b[0] && StrLt(a[1..], b[1..])))
  }

  lemma {:induction false} StrLtIrreflexive(a: string)
    ensures !StrLt(a, a)
    decreases |a|
  {
    if |a| > 0 {
      StrLtIrreflexive(a[1..]);
    }
  }

  lemma {:induction false} StrLtTransitive(a: string, b: string, c: string)
    requires StrLt(a, b) && StrLt(b, c)
    ensures StrLt(a, c)
    decreases |a|
  {
    if |a| > 0 && a[0] == b[0] && b[0] == c[0] {
      StrLtTransitive(a[1..], b[1..], c[1..]);
    }
  }

  lemma {:induction false} StrLtTotal(a: string, b: string)
    ensures a == b || StrLt(a, b) || StrLt(b, a)
    decreases |a|
  {
    if |a| > 0 && |b| > 0 && a[0] == b[0] {
      StrLtTotal(a[1..], b[1..]);
      if a[1..] == b[1..] {
        assert a == [a[0]] + a[1..] && b == [b[0]] + b[1..];
      }
    }
  }

  lemma StrLtAsymmetric(a: string, b: string)
    requires StrLt(a, b)
    ensures !StrLt(b, a)
  {
    if StrLt(b, a) {
      StrLtTransitive(a, b, a);
      StrLtIrreflexive(a);
    }
  }

  /** Comparing two concatenations whose first parts have equal length: the first parts
      decide unless they are equal, and then the second parts decide. */
  lemma {:induction false} StrLtConcat(a1: string, a2: string, b1: string, b2: string)
    requires |a1| == |b1|
    ensures StrLt(a1 + a2, b1 + b2) <==> StrLt(a1, b1) || (a1 == b1 && StrLt(a2, b2))
    decreases |a1|
  {
    if |a1| == 0 {
      assert a1 + a2 == a2 && b1 + b2 == b2;
    } else {
      assert (a1 + a2)[0] == a1[0] && (b1 + b2)[0] == b1[0];
      assert (a1 + a2)[1..] == a1[1..] + a2;
      assert (b1 + b2)[1..] == b1[1..] + b2;
      StrLtConcat(a1[1..], a2, b1[1..], b2);
      if a1[0] == b1[0] && a1[1..] == b1[1..] {
        assert a1 == [a1[0]] + a1[1..] && b1 == [b1[0]] + b1[1..];
      }
      if a1 == b1 {
        assert a1[1..] == b1[1..];
      }
      StrLtIrreflexive(a1[1..]);
    }
  }

  /** Numerals of equal width compare as strings the way their values compare. */
  lemma {:induction false} NumeralOrder(m: nat, n: nat)
    requires |NatToString(m)| == |NatToString(n)|
    ensures StrLt(NatToString(m), NatToString(n)) <==> m < n
    decreases m
  {
    if m < 10 {
      assert n < 10;
    } else {
      var sm := NatToString(m / 10);
      var sn := NatToString(n / 10);
      assert NatToString(m) == sm + [DigitChar(m % 10)];
      assert NatToString(n) == sn + [DigitChar(n % 10)];
      NumeralOrder(m / 10, n / 10);
      StrLtConcat(sm, [DigitChar(m % 10)], sn, [DigitChar(n % 10)]);
      if sm == sn {
        NatToStringInjective(m / 10, n / 10);
      }
    }
  }

  // ---------------------------------------------------------------------------
  // Upper case
  // ---------------------------------------------------------------------------

  /** `toUpperCase` on one character, for ASCII letters and the Greek alphabet with its
      accented vowels; every other character is left as it is. */
  function UpperChar(c: char): char
  {
    if 'a' <= c <= 'z' then (c as int - 32) as char
    else if c == 'ς' then 'Σ'
    else if 'α' <= c <= 'ω' then (c as int - 32) as char
    else if c == 'ά' then 'Ά'
    else if c == 'έ' then 'Έ'
    else if c == 'ή' then 'Ή'
    else if c == 'ί' then 'Ί'
    else if c == 'ό' then 'Ό'
    else if c == 'ύ' then 'Ύ'
    else if c == 'ώ' then 'Ώ'
    else if c == 'ϊ' then 'Ϊ'
    else if c == 'ϋ' then 'Ϋ'
    else c
  }

  /** `s.toUpperCase()`, character by character; the length never changes. */
  function Upper(s: string): (r: string)
    ensures |r| == |s|
    ensures forall i :: 0 <= i < |s| ==> r[i] == UpperChar(s[i])
  {
    seq(|s|, i requires 0 <= i < |s| => UpperChar(s[i]))
  }
}
