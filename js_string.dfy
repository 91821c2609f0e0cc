/** The JavaScript String built-ins the site script relies on: trim, split, join, startsWith,
    includes, toLowerCase (as far as the test for "kinney" needs it), replace(/c/g, '')
    and parseInt. Strings are sequences of characters. */
module JsString {
  import opened Wrappers

  /** ECMAScript WhiteSpace or LineTerminator: the characters trim() removes and parseInt() skips. */
  predicate IsWhite(c: char) {
    || c == '\t' || c == '\n' || c == '\U{000B}' || c == '\U{000C}' || c == '\r' || c == ' '
    || c == '\U{00A0}' || c == '\U{1680}' || ('\U{2000}' <= c <= '\U{200A}')
    || c == '\U{2028}' || c == '\U{2029}' || c == '\U{202F}' || c == '\U{205F}'
    || c == '\U{3000}' || c == '\U{FEFF}'
  }

  /** String.prototype.trimStart: drops the leading white characters. */
  function TrimStart(s: string): (r: string)
    ensures |r| <= |s| && r == s[|s| - |r|..]
    ensures r != [] ==> !IsWhite(r[0])
  {
    if |s| > 0 && IsWhite(s[0]) then TrimStart(s[1..]) else s
  }

  /** String.prototype.trimEnd: drops the trailing white characters. */
  function TrimEnd(s: string): (r: string)
    ensures |r| <= |s| && r == s[..|r|]
    ensures r != [] ==> !IsWhite(r[|r| - 1])
  {
    if |s| > 0 && IsWhite(s[|s| - 1]) then TrimEnd(s[..|s| - 1]) else s
  }

  /** String.prototype.trim: what is left of `s` between its leading and its trailing white
      characters; it neither starts nor ends with a white character. */
  function Trim(s: string): (r: string)
    ensures r != [] ==> !IsWhite(r[0]) && !IsWhite(r[|r| - 1])
    ensures var k := |s| - |TrimStart(s)|; k + |r| <= |s| && r == s[k..k + |r|]
  {
    TrimEnd(TrimStart(s))
  }

  /** trimStart drops only white characters. */
  lemma {:induction false} TrimStartDropsWhite(s: string)
    ensures forall i :: 0 <= i < |s| - |TrimStart(s)| ==> IsWhite(s[i])
  {
    if |s| > 0 && IsWhite(s[0]) {
      TrimStartDropsWhite(s[1..]);
      assert forall i :: 1 <= i < |s| ==> s[i] == s[1..][i - 1];
    }
  }

  /** trimEnd drops only white characters. */
  lemma {:induction false} TrimEndDropsWhite(s: string)
    ensures forall i :: |TrimEnd(s)| <= i < |s| ==> IsWhite(s[i])
  {
    if |s| > 0 && IsWhite(s[|s| - 1]) {
      TrimEndDropsWhite(s[..|s| - 1]);
    }
  }

  /** trim drops only white characters, from both ends. */
  lemma TrimDropsWhite(s: string)
    ensures var k := |s| - |TrimStart(s)|;
      && (forall i :: 0 <= i < k ==> IsWhite(s[i]))
      && (forall i :: k + |Trim(s)| <= i < |s| ==> IsWhite(s[i]))
  {
    var t := TrimStart(s);
    var k := |s| - |t|;
    TrimStartDropsWhite(s);
    TrimEndDropsWhite(t);
    forall i | k + |Trim(s)| <= i < |s|
      ensures IsWhite(s[i])
    {
      assert s[i] == t[i - k];
    }
  }

  /** Only white space: what trims to nothing. */
  predicate AllWhite(s: string) {
    forall i :: 0 <= i < |s| ==> IsWhite(s[i])
  }

  /** A string trims to the empty string exactly when all its characters are white. */
  lemma TrimEmptyIff(s: string)
    ensures Trim(s) == [] <==> AllWhite(s)
  {
    if AllWhite(s) {
      TrimStartAllWhite(s);
    } else {
      TrimDropsWhite(s);
    }
  }

  lemma {:induction false} TrimStartAllWhite(s: string)
    requires AllWhite(s)
    ensures TrimStart(s) == []
  {
    if |s| > 0 {
      assert forall i :: 0 <= i < |s| - 1 ==> s[1..][i] == s[i + 1];
      TrimStartAllWhite(s[1..]);
    }
  }

  /** A string that neither starts nor ends with a white character is its own trim. */
  lemma TrimUnchanged(s: string)
    requires s != [] && !IsWhite(s[0]) && !IsWhite(s[|s| - 1])
    ensures Trim(s) == s
  {
    assert TrimStart(s) == s;
  }

  /** Trimming twice is trimming once. */
  lemma TrimIdempotent(s: string)
    ensures Trim(Trim(s)) == Trim(s)
  {
    var r := Trim(s);
    if r != [] {
      assert TrimStart(r) == r;
      assert TrimEnd(r) == r;
    }
  }

  /** s.replace(/c/g, ''): every occurrence of `c` removed, the other characters kept in order. */
  function RemoveChar(s: string, c: char): (r: string)
    ensures c !in r
    ensures c !in s ==> r == s
    ensures |r| == |s| - multiset(s)[c]
  {
    if |s| == 0 then []
    else
      assert s == s[..|s| - 1] + [s[|s| - 1]];
      RemoveChar(s[..|s| - 1], c) + (if s[|s| - 1] == c then [] else [s[|s| - 1]])
  }

  /** Removing a character adds no other. */
  lemma {:induction false} RemoveCharKeeps(s: string, c: char, x: char)
    requires x !in s
    ensures x !in RemoveChar(s, c)
  {
    if |s| > 0 {
      RemoveCharKeeps(s[..|s| - 1], c, x);
    }
  }

  /** Trimming adds no character. */
  lemma TrimKeeps(s: string, x: char)
    requires x !in s
    ensures x !in Trim(s)
  {
    var t := Trim(s);
    var k := |s| - |TrimStart(s)|;
    assert t == s[k..k + |t|];
  }

  /** s.split(sep) for a one-character separator: there is always a part, and no part contains
      the separator. */
  function SplitOn(s: string, sep: char): (parts: seq<string>)
    ensures |parts| > 0
    ensures forall i :: 0 <= i < |parts| ==> sep !in parts[i]
  {
    if |s| == 0 then [[]]
    else
      var rest := SplitOn(s[1..], sep);
      if s[0] == sep then [[]] + rest else [[s[0]] + rest[0]] + rest[1..]
  }

  /** A split has one part more than the string has separators. */
  lemma {:induction false} SplitOnCount(s: string, sep: char)
    ensures |SplitOn(s, sep)| == multiset(s)[sep] + 1
  {
    if |s| > 0 {
      SplitOnCount(s[1..], sep);
      assert s == [s[0]] + s[1..];
    }
  }

  /** parts.join(sep). */
  function JoinWith(parts: seq<string>, sep: string): string {
    if |parts| == 0 then []
    else if |parts| == 1 then parts[0]
    else parts[0] + sep + JoinWith(parts[1..], sep)
  }

  /** Joining keeps the last part at the end: the step a left-to-right scan takes. */
  lemma {:induction false} JoinWithSnoc(parts: seq<string>, p: string, sep: string)
    requires |parts| > 0
    ensures JoinWith(parts + [p], sep) == JoinWith(parts, sep) + sep + p
  {
    if |parts| == 1 {
      assert parts + [p] == [parts[0], p];
    } else {
      assert (parts + [p])[1..] == parts[1..] + [p];
      JoinWithSnoc(parts[1..], p, sep);
    }
  }

  /** A join whose first part is non-empty is non-empty. */
  lemma JoinWithNonEmpty(parts: seq<string>, sep: string)
    requires |parts| > 0 && parts[0] != []
    ensures JoinWith(parts, sep) != []
  {
  }

  lemma JoinWithCons(p: string, rest: seq<string>, sep: string)
    requires |rest| > 0
    ensures JoinWith([p] + rest, sep) == p + sep + JoinWith(rest, sep)
  {
    assert ([p] + rest)[1..] == rest;
  }

  /** Joining the parts of a split with the separator gives back the original string. */
  lemma {:induction false} SplitThenJoin(s: string, sep: char)
    ensures JoinWith(SplitOn(s, sep), [sep]) == s
  {
    if |s| > 0 {
      var rest := SplitOn(s[1..], sep);
      SplitThenJoin(s[1..], sep);
      if s[0] == sep {
        JoinWithCons([], rest, [sep]);
        assert [] + [sep] + s[1..] == s;
      } else if |rest| == 1 {
        assert [s[0]] + rest[0] == s;
      } else {
        var tail := rest[1..];
        assert rest == [rest[0]] + tail;
        JoinWithCons(rest[0], tail, [sep]);
        JoinWithConsPrepend(s[0], rest[0], tail, [sep]);
        assert SplitOn(s, sep) == [[s[0]] + rest[0]] + tail;
        assert [s[0]] + s[1..] == s;
      }
    }
  }

  lemma JoinWithConsPrepend(c: char, p: string, tail: seq<string>, sep: string)
    requires |tail| > 0
    ensures JoinWith([[c] + p] + tail, sep) == [c] + JoinWith([p] + tail, sep)
  {
    JoinWithCons([c] + p, tail, sep);
    JoinWithCons(p, tail, sep);
    assert ([c] + p) + sep + JoinWith(tail, sep) == [c] + (p + sep + JoinWith(tail, sep));
  }

  /** A string without the separator is not split. */
  lemma {:induction false} SplitWithoutSep(p: string, sep: char)
    requires sep !in p
    ensures SplitOn(p, sep) == [p]
  {
    if |p| > 0 {
      SplitWithoutSep(p[1..], sep);
      assert [p[0]] + p[1..] == p;
    }
  }

  /** The first separator of a string ends its first part. */
  lemma {:induction false} SplitAtFirstSep(p: string, sep: char, t: string)
    requires sep !in p
    ensures SplitOn(p + [sep] + t, sep) == [p] + SplitOn(t, sep)
  {
    var s := p + [sep] + t;
    if |p| == 0 {
      assert s[1..] == t;
    } else {
      assert s[1..] == p[1..] + [sep] + t;
      SplitAtFirstSep(p[1..], sep, t);
      assert [p[0]] + p[1..] == p;
    }
  }

  /** Splitting a join of separator-free parts gives back the parts. */
  lemma {:induction false} JoinThenSplit(parts: seq<string>, sep: char)
    requires |parts| > 0
    requires forall i :: 0 <= i < |parts| ==> sep !in parts[i]
    ensures SplitOn(JoinWith(parts, [sep]), sep) == parts
  {
    if |parts| == 1 {
      SplitWithoutSep(parts[0], sep);
    } else {
      JoinThenSplit(parts[1..], sep);
      SplitAtFirstSep(parts[0], sep, JoinWith(parts[1..], [sep]));
    }
  }

  /** s.startsWith(prefix). */
  predicate StartsWith(s: string, prefix: string) {
    |prefix| <= |s| && s[..|prefix|] == prefix
  }

  /** s.includes(sub). */
  predicate Contains(s: string, sub: string)
    decreases |s|
  {
    StartsWith(s, sub) || (|s| > 0 && Contains(s[1..], sub))
  }

  /** The lower-case form of one character, as far as the test for an ASCII word needs it:
      ASCII capitals and U+212A KELVIN SIGN (whose lower case is 'k') are mapped, every other
      character is kept. */
  function LowerChar(c: char): (r: char)
    ensures 'A' <= c <= 'Z' ==> 'a' <= r <= 'z' && r as int == c as int + 32
    ensures r != c ==> ('A' <= c <= 'Z' || c == '\U{212A}')
  {
    if 'A' <= c <= 'Z' then (c as int + 32) as char
    else if c == '\U{212A}' then 'k'
    else c
  }

  /** s.toLowerCase(), with the caveat of LowerChar. */
  function ToLowerCase(s: string): (r: string)
    ensures |r| == |s|
    ensures forall i :: 0 <= i < |s| ==> r[i] == LowerChar(s[i])
  {
    seq(|s|, i requires 0 <= i < |s| => LowerChar(s[i]))
  }

  // ----- parseInt -----

  /** A digit of the radix (10 or 16). */
  predicate IsDigit(c: char, radix: int) {
    ('0' <= c <= '9') || (radix == 16 && (('a' <= c <= 'f') || ('A' <= c <= 'F')))
  }

  function DigitValue(c: char): (v: nat)
    ensures '0' <= c <= '9' ==> v < 10
    ensures IsDigit(c, 16) ==> v < 16
  {
    if '0' <= c <= '9' then c as int - '0' as int
    else if 'a' <= c <= 'f' then c as int - 'a' as int + 10
    else if 'A' <= c <= 'F' then c as int - 'A' as int + 10
    else 0
  }

  /** The longest prefix of `s` made of digits of the radix. */
  function DigitPrefix(s: string, radix: int): (d: string)
    ensures |d| <= |s| && d == s[..|d|]
    ensures forall i :: 0 <= i < |d| ==> IsDigit(d[i], radix)
    ensures |d| < |s| ==> !IsDigit(s[|d|], radix)
  {
    if |s| > 0 && IsDigit(s[0], radix) then [s[0]] + DigitPrefix(s[1..], radix) else []
  }

  /** The number a digit string denotes in the radix, most significant digit first. */
  function DigitsValue(ds: string, radix: nat): nat {
    if |ds| == 0 then 0
    else DigitsValue(ds[..|ds| - 1], radix) * radix + DigitValue(ds[|ds| - 1])
  }

  /** The unsigned part of parseInt: a "0x" or "0X" prefix selects radix 16, then the longest
      run of digits of the radix is read; None stands for NaN (no digit at all). */
  function ParseUnsigned(u: string): Option<nat> {
    var hex := |u| >= 2 && u[0] == '0' && (u[1] == 'x' || u[1] == 'X');
    var radix := if hex then 16 else 10;
    var ds := DigitPrefix(if hex then u[2..] else u, radix);
    if ds == [] then None else Some(DigitsValue(ds, radix))
  }

  /** parseInt(s) with no radix: leading white space skipped, then an optional sign before the
      unsigned part. */
  function ParseInt(s: string): Option<int> {
    var t := TrimStart(s);
    var n := if |t| > 0 && (t[0] == '-' || t[0] == '+') then ParseUnsigned(t[1..]) else ParseUnsigned(t);
    if n.None? then None
    else if |t| > 0 && t[0] == '-' then Some(-(n.value as int))
    else Some(n.value)
  }

  /** The decimal spelling of a natural number, without leading zeros. */
  function DecimalString(n: nat): (s: string)
    ensures |s| > 0
    ensures forall i :: 0 <= i < |s| ==> '0' <= s[i] <= '9'
  {
    var d := ['0' + (n % 10) as char];
    if n < 10 then d else DecimalString(n / 10) + d
  }

  lemma {:induction false} DecimalStringValue(n: nat)
    ensures DigitsValue(DecimalString(n), 10) == n
  {
    var s := DecimalString(n);
    if n >= 10 {
      DecimalStringValue(n / 10);
      assert s[..|s| - 1] == DecimalString(n / 10);
    }
  }

  /** The digit prefix of a string of digits is the whole string. */
  lemma {:induction false} DigitPrefixAll(s: string, radix: int)
    requires forall i :: 0 <= i < |s| ==> IsDigit(s[i], radix)
    ensures DigitPrefix(s, radix) == s
  {
    if |s| > 0 {
      DigitPrefixAll(s[1..], radix);
    }
  }

  lemma ParseUnsignedDecimal(s: string)
    requires |s| > 0 && forall i :: 0 <= i < |s| ==> '0' <= s[i] <= '9'
    ensures ParseUnsigned(s) == Some(DigitsValue(s, 10))
  {
    assert !(|s| >= 2 && (s[1] == 'x' || s[1] == 'X'));
    DigitPrefixAll(s, 10);
  }

  /** parseInt reads back the decimal spelling of every natural number. */
  lemma ParseIntDecimal(n: nat)
    ensures ParseInt(DecimalString(n)) == Some(n)
  {
    var s := DecimalString(n);
    assert !IsWhite(s[0]);
    assert TrimStart(s) == s;
    ParseUnsignedDecimal(s);
    DecimalStringValue(n);
  }
}
