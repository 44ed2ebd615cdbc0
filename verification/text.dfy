/** Text operations the source takes from Python's `str` and `int`: literal
    substring search (`in`, `str.contains`), `split` on one separator
    character, `strip`, `int()` applied to a string, and the decimal
    formatting of `f"{n}"` and `f"{n:02d}"`. */
module Text {
  import opened Wrappers

  /** Literal substring search: `t` occurs in `s` at some position. */
  predicate Contains(s: string, t: string)
    decreases |s|
  {
    t <= s || (s != [] && Contains(s[1..], t))
  }

  /** A one-character pattern occurs exactly when the character does. */
  lemma {:induction false} ContainsChar(s: string, c: char)
    ensures Contains(s, [c]) <==> c in s
  {
    if s != [] {
      ContainsChar(s[1..], c);
      assert s == [s[0]] + s[1..];
    }
  }

  /** `t` occurs in `s` starting at index `k`. */
  predicate OccursAt(s: string, t: string, k: int)
  {
    0 <= k && k + |t| <= |s| && s[k..k + |t|] == t
  }

  /** The search finds `t` exactly when `t` occurs at some index of `s`. */
  lemma {:induction false} ContainsAt(s: string, t: string)
    ensures Contains(s, t) <==> exists k :: OccursAt(s, t, k)
  {
    if s == [] {
      if Contains(s, t) {
        assert OccursAt(s, t, 0);
      }
    } else {
      ContainsAt(s[1..], t);
      if t <= s {
        assert OccursAt(s, t, 0);
      } else if Contains(s[1..], t) {
        var k :| OccursAt(s[1..], t, k);
        assert s[k + 1..k + 1 + |t|] == s[1..][k..k + |t|];
        assert OccursAt(s, t, k + 1);
      }
      if exists k :: OccursAt(s, t, k) {
        var k :| OccursAt(s, t, k);
        if k == 0 {
          assert t <= s;
        } else {
          assert s[1..][k - 1..k - 1 + |t|] == s[k..k + |t|];
          assert OccursAt(s[1..], t, k - 1);
        }
      }
    }
  }

  /** Every string contains the empty string (so `str.contains("")` holds of
      every non-null cell). */
  lemma ContainsEmpty(s: string)
    ensures Contains(s, "")
  {
  }

  /** Number of occurrences of `c` in `s`. */
  function Count(s: string, c: char): nat
  {
    if s == [] then 0 else (if s[0] == c then 1 else 0) + Count(s[1..], c)
  }

  /** `sep.join(parts)` for a one-character separator. */
  function Join(parts: seq<string>, sep: char): string
  {
    if parts == [] then ""
    else if |parts| == 1 then parts[0]
    else parts[0] + [sep] + Join(parts[1..], sep)
  }

  /** Python's `s.split(sep)` for a one-character separator: one piece more
      than there are separators, no piece holds the separator, and joining
      the pieces gives `s` back. */
  function Split(s: string, sep: char): (parts: seq<string>)
    ensures |parts| == Count(s, sep) + 1
    ensures forall i | 0 <= i < |parts| :: sep !in parts[i]
    ensures Join(parts, sep) == s
    decreases |s|
  {
    if s == [] then [""]
    else
      var rest := Split(s[1..], sep);
      if s[0] == sep then
        assert s == [sep] + s[1..];
        [""] + rest
      else
        var parts := [[s[0]] + rest[0]] + rest[1..];
        assert parts[1..] == rest[1..];
        assert s == [s[0]] + s[1..];
        parts
  }

  /** A string without the separator splits into itself alone. */
  lemma {:induction false} SplitNoSeparator(a: string, sep: char)
    requires sep !in a
    ensures Split(a, sep) == [a]
  {
    if a != [] {
      SplitNoSeparator(a[1..], sep);
      assert [a[0]] + a[1..] == a;
    }
  }

  /** Splitting `a + sep + b` peels off `a` when `a` has no separator. */
  lemma {:induction false} SplitAtFirst(a: string, b: string, sep: char)
    requires sep !in a
    ensures Split(a + [sep] + b, sep) == [a] + Split(b, sep)
  {
    var s := a + [sep] + b;
    if a == [] {
      assert s == [sep] + b && s[1..] == b;
    } else {
      assert s[1..] == a[1..] + [sep] + b;
      SplitAtFirst(a[1..], b, sep);
      assert [a[0]] + a[1..] == a;
    }
  }

  /** Split is the inverse of Join on pieces free of the separator. */
  lemma {:induction false} SplitJoin(parts: seq<string>, sep: char)
    requires parts != []
    requires forall i | 0 <= i < |parts| :: sep !in parts[i]
    ensures Split(Join(parts, sep), sep) == parts
  {
    if |parts| == 1 {
      SplitNoSeparator(parts[0], sep);
    } else {
      SplitJoin(parts[1..], sep);
      SplitAtFirst(parts[0], Join(parts[1..], sep), sep);
      assert [parts[0]] + parts[1..] == parts;
    }
  }

  /** The characters Python's `str.strip()` and `int()` treat as white space. */
  predicate IsSpace(c: char)
  {
    c in {' ', '\t', '\n', '\r', '\U{000B}', '\U{000C}', '\U{001C}', '\U{001D}',
          '\U{001E}', '\U{001F}', '\U{0085}', '\U{00A0}', '\U{1680}', '\U{2000}',
          '\U{2001}', '\U{2002}', '\U{2003}', '\U{2004}', '\U{2005}', '\U{2006}',
          '\U{2007}', '\U{2008}', '\U{2009}', '\U{200A}', '\U{2028}', '\U{2029}',
          '\U{202F}', '\U{205F}', '\U{3000}'}
  }

  function TrimStart(s: string): string
  {
    if s != [] && IsSpace(s[0]) then TrimStart(s[1..]) else s
  }

  function TrimEnd(s: string): string
  {
    if s != [] && IsSpace(s[|s| - 1]) then TrimEnd(s[..|s| - 1]) else s
  }

  /** Python's `s.strip()`. */
  function Strip(s: string): string
  {
    TrimEnd(TrimStart(s))
  }

  /** Stripping only removes white space: every other character stays. */
  lemma {:induction false} TrimStartKeeps(s: string, c: char)
    requires c in s && !IsSpace(c)
    ensures c in TrimStart(s)
  {
    if s != [] && IsSpace(s[0]) {
      assert s == [s[0]] + s[1..];
      TrimStartKeeps(s[1..], c);
    }
  }

  lemma {:induction false} TrimEndKeeps(s: string, c: char)
    requires c in s && !IsSpace(c)
    ensures c in TrimEnd(s)
  {
    if s != [] && IsSpace(s[|s| - 1]) {
      assert s == s[..|s| - 1] + [s[|s| - 1]];
      TrimEndKeeps(s[..|s| - 1], c);
    }
  }

  /** `s.strip()` keeps every character of `s` that is not white space. */
  lemma StripKeeps(s: string, c: char)
    requires c in s && !IsSpace(c)
    ensures c in Strip(s)
  {
    TrimStartKeeps(s, c);
    TrimEndKeeps(TrimStart(s), c);
  }

  /** `s.strip()` neither starts nor ends with white space. */
  lemma {:induction false} StripEnds(s: string)
    ensures Strip(s) == [] || (!IsSpace(Strip(s)[0]) && !IsSpace(Strip(s)[|Strip(s)| - 1]))
  {
    TrimStartEnds(s);
    TrimEndEnds(TrimStart(s));
    TrimEndPrefix(TrimStart(s));
  }

  lemma {:induction false} TrimEndPrefix(s: string)
    ensures TrimEnd(s) <= s
  {
    if s != [] && IsSpace(s[|s| - 1]) {
      TrimEndPrefix(s[..|s| - 1]);
    }
  }

  lemma {:induction false} TrimStartEnds(s: string)
    ensures TrimStart(s) == [] || !IsSpace(TrimStart(s)[0])
  {
    if s != [] && IsSpace(s[0]) {
      TrimStartEnds(s[1..]);
    }
  }

  lemma {:induction false} TrimEndEnds(s: string)
    ensures TrimEnd(s) == [] || !IsSpace(TrimEnd(s)[|TrimEnd(s)| - 1])
  {
    if s != [] && IsSpace(s[|s| - 1]) {
      TrimEndEnds(s[..|s| - 1]);
    }
  }

  /** Every character of `s` is white space. */
  predicate AllSpace(s: string)
  {
    forall k | 0 <= k < |s| :: IsSpace(s[k])
  }

  /** How many characters `TrimStart` removes: a prefix made only of
      white space. */
  function LeadingSpaces(s: string): (n: nat)
    ensures n <= |s| && TrimStart(s) == s[n..] && AllSpace(s[..n])
  {
    if s != [] && IsSpace(s[0]) then
      var m := LeadingSpaces(s[1..]);
      assert s[1..][m..] == s[m + 1..];
      assert s[..m + 1] == [s[0]] + s[1..][..m];
      m + 1
    else
      assert s[0..] == s;
      0
  }

  /** How many characters `TrimEnd` keeps: what follows them is made only
      of white space. */
  function KeptLength(s: string): (n: nat)
    ensures n <= |s| && TrimEnd(s) == s[..n] && AllSpace(s[n..])
  {
    if s != [] && IsSpace(s[|s| - 1]) then
      var front := s[..|s| - 1];
      var m := KeptLength(front);
      assert front[..m] == s[..m];
      assert s[m..] == front[m..] + [s[|s| - 1]];
      m
    else
      assert s[..|s|] == s;
      |s|
  }

  /** `s.strip()` is a slice of `s` with only white space before and after it. */
  lemma StripIsInfix(s: string)
    ensures exists i, j | 0 <= i <= j <= |s| ::
              Strip(s) == s[i..j] && AllSpace(s[..i]) && AllSpace(s[j..])
  {
    var i := LeadingSpaces(s);
    var u := s[i..];
    var n := KeptLength(u);
    assert u[..n] == s[i..i + n];
    assert s[i + n..] == u[n..];
    assert Strip(s) == s[i..i + n] && AllSpace(s[..i]) && AllSpace(s[i + n..]);
  }

  /** White space in front of a text that does not start with white space
      is all that `TrimStart` removes. */
  lemma {:induction false} TrimStartSpaces(w: string, t: string)
    requires AllSpace(w)
    requires t != [] && !IsSpace(t[0])
    ensures TrimStart(w + t) == t
  {
    if w == [] {
      assert w + t == t;
    } else {
      assert (w + t)[1..] == w[1..] + t;
      TrimStartSpaces(w[1..], t);
    }
  }

  /** White space after a text that does not end with white space is all
      that `TrimEnd` removes. */
  lemma {:induction false} TrimEndSpaces(t: string, w: string)
    requires AllSpace(w)
    requires t != [] && !IsSpace(t[|t| - 1])
    ensures TrimEnd(t + w) == t
  {
    if w == [] {
      assert t + w == t;
    } else {
      assert (t + w)[..|t + w| - 1] == t + w[..|w| - 1];
      TrimEndSpaces(t, w[..|w| - 1]);
    }
  }

  predicate IsDigit(c: char)
  {
    '0' <= c <= '9'
  }

  /** A non-empty run of ASCII decimal digits. */
  predicate IsDigits(s: string)
  {
    s != [] && forall i | 0 <= i < |s| :: IsDigit(s[i])
  }

  /** A digit string holds no other character. */
  lemma DigitsExclude(s: string, c: char)
    requires IsDigits(s) && !IsDigit(c)
    ensures c !in s
  {
    forall i | 0 <= i < |s|
      ensures s[i] != c
    {
      assert IsDigit(s[i]);
    }
  }

  /** The value of a string of decimal digits, most significant first. */
  function DigitsValue(s: string): int
  {
    if s == [] then 0 else DigitsValue(s[..|s| - 1]) * 10 + (s[|s| - 1] as int - '0' as int)
  }

  /** Digits spell a number that is not negative. */
  lemma {:induction false} DigitsValueNonNegative(s: string)
    requires forall i | 0 <= i < |s| :: IsDigit(s[i])
    ensures DigitsValue(s) >= 0
  {
    if s != [] {
      DigitsValueNonNegative(s[..|s| - 1]);
    }
  }

  /** Python's `int(s)` on a string: white space around the number is
      ignored, one optional sign, then decimal digits; anything else is a
      `ValueError`, here `None`. */
  function ParseInt(s: string): Option<int>
  {
    var t := Strip(s);
    if t != [] && (t[0] == '+' || t[0] == '-') then
      if IsDigits(t[1..]) then
        Some(if t[0] == '-' then -DigitsValue(t[1..]) else DigitsValue(t[1..]))
      else None
    else if IsDigits(t) then Some(DigitsValue(t))
    else None
  }

  /** What `int()` accepts holds only white space, a sign and digits. */
  lemma ParseIntExcludes(s: string, c: char)
    requires ParseInt(s).Some?
    requires !IsSpace(c) && !IsDigit(c) && c != '+' && c != '-'
    ensures c !in s
  {
    var t := Strip(s);
    if c in s {
      StripKeeps(s, c);
      if t[0] == '+' || t[0] == '-' {
        DigitsExclude(t[1..], c);
      } else {
        DigitsExclude(t, c);
      }
    }
  }

  /** A plain run of digits parses to its value. */
  lemma ParseIntOfDigits(s: string)
    requires IsDigits(s)
    ensures ParseInt(s) == Some(DigitsValue(s))
  {
    assert !IsSpace(s[0]) && !IsSpace(s[|s| - 1]);
    assert Strip(s) == s;
  }

  /** White space on both sides of a text that neither starts nor ends
      with white space is all that `s.strip()` removes. */
  lemma StripSpaces(w1: string, t: string, w2: string)
    requires AllSpace(w1) && AllSpace(w2)
    requires t != [] && !IsSpace(t[0]) && !IsSpace(t[|t| - 1])
    ensures Strip(w1 + (t + w2)) == t
  {
    TrimStartSpaces(w1, t + w2);
    TrimEndSpaces(t, w2);
  }

  /** Digits and signs are not white space. */
  lemma NotSpace(c: char)
    requires IsDigit(c) || c == '+' || c == '-'
    ensures !IsSpace(c)
  {
  }

  /** `int()` accepts white space, an optional sign and decimal digits,
      and reads them as the signed value of the digits. */
  lemma ParseIntAccepts(w1: string, sign: string, d: string, w2: string)
    requires AllSpace(w1) && AllSpace(w2)
    requires sign == "" || sign == "+" || sign == "-"
    requires IsDigits(d)
    ensures ParseInt(w1 + sign + d + w2) == Some(if sign == "-" then -DigitsValue(d) else DigitsValue(d))
  {
    var t := sign + d;
    assert !IsSpace(t[0]) && !IsSpace(t[|t| - 1]) by {
      assert t[|t| - 1] == d[|d| - 1];
      assert t[0] == (if sign == "" then d[0] else sign[0]);
      NotSpace(t[0]);
      NotSpace(d[|d| - 1]);
    }
    assert w1 + sign + d + w2 == w1 + (t + w2);
    StripSpaces(w1, t, w2);
    if sign == "" {
      assert t == d;
      assert IsDigit(d[0]);
    } else {
      assert t[1..] == d;
    }
  }

  function Digit(d: nat): (c: char)
    requires d < 10
    ensures IsDigit(c) && c as int - '0' as int == d
  {
    ('0' as int + d) as char
  }

  /** `f"{n}"` for a natural number: its decimal digits. */
  function NatToString(n: nat): (s: string)
    ensures IsDigits(s) && DigitsValue(s) == n
    ensures |s| == 1 <==> n < 10
  {
    if n < 10 then [Digit(n)]
    else
      var front := NatToString(n / 10);
      var s := front + [Digit(n % 10)];
      assert s[..|s| - 1] == front;
      s
  }

  /** `f"{n}"` for any integer. */
  function IntToString(i: int): string
  {
    if i < 0 then "-" + NatToString(-i) else NatToString(i)
  }

  /** `int(f"{i}") == i`: printing an integer and reading it back is the
      identity. */
  lemma ParseIntToString(i: int)
    ensures ParseInt(IntToString(i)) == Some(i)
  {
    var digits := NatToString(if i < 0 then -i else i);
    if i < 0 {
      var s := "-" + digits;
      assert !IsSpace(s[0]) && !IsSpace(s[|s| - 1]);
      assert Strip(s) == s;
      assert s[1..] == digits;
    } else {
      ParseIntOfDigits(digits);
    }
  }

  /** `s` is how `str(n)` prints a natural number `n`: digits with no
      leading zero unless the number is zero. */
  predicate IsNumeral(s: string)
  {
    DigitsValue(s) >= 0 && s == NatToString(DigitsValue(s))
  }

  /** Two digits are the zero-padded form of the number they spell. */
  lemma TwoDigitsArePad2(d: string)
    requires |d| == 2 && IsDigits(d)
    ensures 0 <= DigitsValue(d) < 100 && d == Pad2(DigitsValue(d))
  {
    var a := d[0] as int - '0' as int;
    var b := d[1] as int - '0' as int;
    TwoDigitsValue(d);
    DigitOfChar(d[0]);
    DigitOfChar(d[1]);
    assert d == [Digit(a), Digit(b)];
    if a == 0 {
      Pad2OneDigit(b);
    } else {
      TensAndUnits(a, b);
      Pad2TwoDigits(10 * a + b);
    }
  }

  /** A digit character is the digit of its value. */
  lemma DigitOfChar(c: char)
    requires IsDigit(c)
    ensures Digit(c as int - '0' as int) == c
  {
  }

  lemma TwoDigitsValue(d: string)
    requires |d| == 2 && IsDigits(d)
    ensures DigitsValue(d) == 10 * (d[0] as int - '0' as int) + (d[1] as int - '0' as int)
    ensures 0 <= d[0] as int - '0' as int < 10 && 0 <= d[1] as int - '0' as int < 10
  {
    assert IsDigit(d[0]) && IsDigit(d[1]);
    assert d[..1][..0] == [] && d[..1][0] == d[0];
    assert DigitsValue(d[..1]) == d[0] as int - '0' as int;
  }

  lemma TensAndUnits(a: int, b: int)
    requires 0 <= a && 0 <= b < 10
    ensures (10 * a + b) / 10 == a && (10 * a + b) % 10 == b
  {
  }

  /** A minute prints as two digits that spell it. */
  lemma Pad2Value(n: nat)
    requires n < 100
    ensures IsDigits(Pad2(n)) && DigitsValue(Pad2(n)) == n
  {
    if n < 10 {
      Pad2OneDigit(n);
      assert Pad2(n)[..1] == ['0'];
    } else {
      Pad2TwoDigits(n);
      assert Pad2(n)[..1] == [Digit(n / 10)];
    }
  }

  /** Numbers below 10^k print with at most k digits. */
  lemma {:induction false} NatToStringLength(n: nat, k: nat)
    requires 1 <= k && n < Pow10(k)
    ensures |NatToString(n)| <= k
  {
    if n >= 10 {
      NatToStringLength(n / 10, k - 1);
    }
  }

  function Pow10(k: nat): nat
  {
    if k == 0 then 1 else 10 * Pow10(k - 1)
  }

  function Zeros(k: nat): (z: string)
    ensures |z| == k && forall i | 0 <= i < k :: z[i] == '0'
  {
    seq(k, _ => '0')
  }

  /** Leading zeros do not change the value of a digit string. */
  lemma {:induction false} LeadingZeros(k: nat, s: string)
    ensures DigitsValue(Zeros(k) + s) == DigitsValue(s)
    decreases |s|, k
  {
    if s == [] {
      if k > 0 {
        assert (Zeros(k) + s)[..k - 1] == Zeros(k - 1) + s;
        LeadingZeros(k - 1, s);
      } else {
        assert Zeros(k) + s == s;
      }
    } else {
      assert (Zeros(k) + s)[..|Zeros(k) + s| - 1] == Zeros(k) + s[..|s| - 1];
      LeadingZeros(k, s[..|s| - 1]);
    }
  }

  /** `f"{n:0{width}d}"` for a natural number: its digits, padded on the
      left with zeros up to `width` characters. */
  function ZeroPad(n: nat, width: nat): (s: string)
    ensures IsDigits(s) && DigitsValue(s) == n
    ensures |s| == if |NatToString(n)| < width then width else |NatToString(n)|
  {
    var digits := NatToString(n);
    if |digits| < width then
      LeadingZeros(width - |digits|, digits);
      Zeros(width - |digits|) + digits
    else digits
  }

  /** `f"{n:02d}"`. */
  function Pad2(n: nat): (s: string)
    ensures n < 100 ==> |s| == 2
  {
    ZeroPad(n, 2)
  }

  /** A one-digit number pads with one leading zero. */
  lemma Pad2OneDigit(n: nat)
    requires n < 10
    ensures Pad2(n) == ['0', Digit(n)]
  {
    assert NatToString(n) == [Digit(n)];
    assert Zeros(1) == ['0'];
  }

  /** A two-digit number prints as its two digits. */
  lemma Pad2TwoDigits(n: nat)
    requires 10 <= n < 100
    ensures Pad2(n) == [Digit(n / 10), Digit(n % 10)]
  {
    assert NatToString(n / 10) == [Digit(n / 10)];
  }

  /** The two-digit fields that occur in the form's options and defaults. */
  lemma Pad2Literals()
    ensures Pad2(0) == "00" && Pad2(5) == "05" && Pad2(7) == "07"
    ensures Pad2(15) == "15" && Pad2(18) == "18" && Pad2(19) == "19"
    ensures Pad2(21) == "21" && Pad2(30) == "30"
  {
    Pad2OneDigit(0);
    Pad2OneDigit(5);
    Pad2OneDigit(7);
    Pad2TwoDigits(15);
    Pad2TwoDigits(18);
    Pad2TwoDigits(19);
    Pad2TwoDigits(21);
    Pad2TwoDigits(30);
  }
}
