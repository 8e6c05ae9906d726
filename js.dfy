/** The JavaScript and Web-platform built-ins the modelled code relies on,
    stated over Dafny values: `File`, string comparison and
    `Array.prototype.sort`, `join`/`split`, `Number.prototype.toString` on
    non-negative integers, `parseInt`, `Math.round`, `String.prototype.trim`,
    `startsWith` and a global `replace` of a literal pattern. */
module Js {
  import opened Wrappers

  /** A Web `File`: its name, its MIME type (`file.type`) and its bytes. */
  datatype File = File(name: string, mimeType: string, content: seq<bv8>)
  {
    /** `file.size`, the number of bytes. */
    function Size(): nat { |content| }
  }

  // ---------------------------------------------------------------------
  // String order: the comparison `Array.prototype.sort()` uses by default.
  // ---------------------------------------------------------------------

  /** `a` sorts strictly before `b`: lexicographic order on characters. */
  predicate Below(a: string, b: string)
    decreases |a|
  {
    if |b| == 0 then false
    else if |a| == 0 then true
    else if a[0] != b[0] then a[0] < b[0]
    else Below(a[1..], b[1..])
  }

  lemma {:induction false} BelowIrreflexive(a: string)
    ensures !Below(a, a)
    decreases |a|
  {
    if |a| > 0 {
      BelowIrreflexive(a[1..]);
    }
  }

  lemma {:induction false} BelowTransitive(a: string, b: string, c: string)
    requires Below(a, b) && Below(b, c)
    ensures Below(a, c)
    decreases |a|
  {
    if |a| > 0 && a[0] == b[0] && b[0] == c[0] {
      BelowTransitive(a[1..], b[1..], c[1..]);
    }
  }

  lemma {:induction false} BelowTotal(a: string, b: string)
    requires a != b
    ensures Below(a, b) || Below(b, a)
    decreases |a|
  {
    if |a| > 0 && |b| > 0 && a[0] == b[0] {
      assert a == [a[0]] + a[1..] && b == [b[0]] + b[1..];
      BelowTotal(a[1..], b[1..]);
    }
  }

  lemma BelowAsymmetric(a: string, b: string)
    requires Below(a, b)
    ensures !Below(b, a)
  {
    if Below(b, a) {
      BelowTransitive(a, b, a);
      BelowIrreflexive(a);
    }
  }

  // ---------------------------------------------------------------------
  // Array.prototype.sort() on strings, as an insertion sort.
  // ---------------------------------------------------------------------

  ghost predicate Sorted(s: seq<string>)
  {
    forall i, j :: 0 <= i < j < |s| ==> !Below(s[j], s[i])
  }

  ghost predicate StrictlySorted(s: seq<string>)
  {
    forall i, j :: 0 <= i < j < |s| ==> Below(s[i], s[j])
  }

  ghost predicate Distinct<T>(s: seq<T>)
  {
    forall i, j :: 0 <= i < j < |s| ==> s[i] != s[j]
  }

  function Insert(x: string, s: seq<string>): seq<string>
  {
    if s == [] then [x]
    else if Below(s[0], x) then [s[0]] + Insert(x, s[1..])
    else [x] + s
  }

  /** The strings of `s` in ascending order. */
  function SortStrings(s: seq<string>): seq<string>
  {
    if s == [] then [] else Insert(s[0], SortStrings(s[1..]))
  }

  lemma {:induction false} InsertSpec(x: string, s: seq<string>)
    requires Sorted(s)
    ensures multiset(Insert(x, s)) == multiset(s) + multiset{x}
    ensures Sorted(Insert(x, s))
  {
    if s != [] && Below(s[0], x) {
      InsertSpec(x, s[1..]);
      var r := Insert(x, s[1..]);
      assert s == [s[0]] + s[1..];
      BelowAsymmetric(s[0], x);
      forall k | 0 <= k < |r| ensures !Below(r[k], s[0]) {
        assert r[k] in multiset(s[1..]) + multiset{x};
      }
      ConsSorted(s[0], r);
    } else if s != [] {
      forall j | 0 <= j < |s| ensures !Below(s[j], x) {
        if Below(s[j], x) && s[j] != s[0] {
          BelowTotal(s[0], s[j]);
          BelowTransitive(s[0], s[j], x);
        }
      }
      ConsSorted(x, s);
    }
  }

  lemma ConsSorted(a: string, r: seq<string>)
    requires Sorted(r)
    requires forall k :: 0 <= k < |r| ==> !Below(r[k], a)
    ensures Sorted([a] + r)
  {
    assert forall k :: 1 <= k < |[a] + r| ==> ([a] + r)[k] == r[k - 1];
  }

  lemma ConsStrict(a: string, r: seq<string>)
    requires StrictlySorted(r)
    requires forall k :: 0 <= k < |r| ==> Below(a, r[k])
    ensures StrictlySorted([a] + r)
  {
    assert forall k :: 1 <= k < |[a] + r| ==> ([a] + r)[k] == r[k - 1];
  }

  lemma {:induction false} InsertStrict(x: string, s: seq<string>)
    requires StrictlySorted(s) && x !in s
    ensures multiset(Insert(x, s)) == multiset(s) + multiset{x}
    ensures StrictlySorted(Insert(x, s))
  {
    if s != [] && Below(s[0], x) {
      assert s == [s[0]] + s[1..];
      InsertStrict(x, s[1..]);
      var r := Insert(x, s[1..]);
      forall k | 0 <= k < |r| ensures Below(s[0], r[k]) {
        assert r[k] in multiset(s[1..]) + multiset{x};
      }
      ConsStrict(s[0], r);
    } else if s != [] {
      assert s[0] != x;
      BelowTotal(s[0], x);
      forall k | 0 <= k < |s| ensures Below(x, s[k]) {
        if k > 0 {
          BelowTransitive(x, s[0], s[k]);
        }
      }
      ConsStrict(x, s);
    }
  }

  /** `sort()` returns an ascending permutation of its input. */
  lemma {:induction false} SortSpec(s: seq<string>)
    ensures multiset(SortStrings(s)) == multiset(s)
    ensures Sorted(SortStrings(s))
  {
    if s != [] {
      SortSpec(s[1..]);
      InsertSpec(s[0], SortStrings(s[1..]));
      assert s == [s[0]] + s[1..];
    }
  }

  /** On distinct strings the order is strict. */
  lemma {:induction false} SortStrict(s: seq<string>)
    requires Distinct(s)
    ensures multiset(SortStrings(s)) == multiset(s)
    ensures StrictlySorted(SortStrings(s))
  {
    if s != [] {
      assert Distinct(s[1..]);
      SortStrict(s[1..]);
      assert s[0] !in s[1..] by {
        forall k | 1 <= k < |s| ensures s[k] != s[0] { }
      }
      assert s[0] !in multiset(SortStrings(s[1..]));
      InsertStrict(s[0], SortStrings(s[1..]));
      assert s == [s[0]] + s[1..];
    }
  }

  lemma HeadIsMember(b: seq<string>)
    ensures b != [] ==> b[0] in b
  {
  }

  /** Two strictly ascending sequences holding the same strings are equal: the
      sorted order of a set of distinct keys does not depend on where they came
      from. */
  lemma {:induction false} StrictlySortedUnique(a: seq<string>, b: seq<string>)
    requires StrictlySorted(a) && StrictlySorted(b)
    requires forall x :: x in a <==> x in b
    ensures a == b
    decreases |a|
  {
    if a == [] {
      if b != [] {
        HeadIsMember(b);
        assert false;
      }
    } else {
      assert b != [] by { assert a[0] in a; }
      assert a[0] in b;
      assert b[0] in a;
      var j :| 0 <= j < |b| && b[j] == a[0];
      var i :| 0 <= i < |a| && a[i] == b[0];
      if a[0] != b[0] {
        assert j > 0 && i > 0;
        BelowAsymmetric(b[0], a[0]);
        assert false;
      }
      forall x ensures x in a[1..] <==> x in b[1..] {
        if x in a[1..] {
          var k :| 1 <= k < |a| && a[k] == x;
          BelowIrreflexive(x);
          assert x in b;
          var m :| 0 <= m < |b| && b[m] == x;
          assert m != 0;
          assert b[1..][m - 1] == x;
        }
        if x in b[1..] {
          var k :| 1 <= k < |b| && b[k] == x;
          BelowIrreflexive(x);
          assert x in a;
          var m :| 0 <= m < |a| && a[m] == x;
          assert m != 0;
          assert a[1..][m - 1] == x;
        }
      }
      StrictlySortedUnique(a[1..], b[1..]);
      assert a == [a[0]] + a[1..] && b == [b[0]] + b[1..];
    }
  }

  // ---------------------------------------------------------------------
  // Array.prototype.join and, as its inverse, String.prototype.split.
  // ---------------------------------------------------------------------

  function Join(parts: seq<string>, sep: string): string
  {
    if |parts| == 0 then ""
    else if |parts| == 1 then parts[0]
    else parts[0] + sep + Join(parts[1..], sep)
  }

  /** `s.split(sep)` for a one-character separator. */
  function Split(s: string, sep: char): (r: seq<string>)
    ensures |r| > 0
  {
    if |s| == 0 then [""]
    else if s[0] == sep then [""] + Split(s[1..], sep)
    else
      var rest := Split(s[1..], sep);
      [[s[0]] + rest[0]] + rest[1..]
  }

  lemma {:induction false} SplitNoSeparator(x: string, sep: char)
    requires sep !in x
    ensures Split(x, sep) == [x]
  {
    if |x| > 0 {
      SplitNoSeparator(x[1..], sep);
      assert [x[0]] + x[1..] == x;
    }
  }

  lemma {:induction false} SplitAtSeparator(x: string, sep: char, y: string)
    requires sep !in x
    ensures Split(x + [sep] + y, sep) == [x] + Split(y, sep)
  {
    if |x| == 0 {
      assert x + [sep] + y == [sep] + y;
      assert ([sep] + y)[1..] == y;
    } else {
      assert (x + [sep] + y)[1..] == x[1..] + [sep] + y;
      SplitAtSeparator(x[1..], sep, y);
      assert [x[0]] + x[1..] == x;
    }
  }

  /** Splitting a join on a separator that occurs in no part gives the parts
      back. */
  lemma {:induction false} SplitJoin(parts: seq<string>, sep: char)
    requires |parts| > 0
    requires forall k :: 0 <= k < |parts| ==> sep !in parts[k]
    ensures Split(Join(parts, [sep]), sep) == parts
  {
    if |parts| == 1 {
      SplitNoSeparator(parts[0], sep);
    } else {
      SplitJoin(parts[1..], sep);
      SplitAtSeparator(parts[0], sep, Join(parts[1..], [sep]));
      assert parts == [parts[0]] + parts[1..];
    }
  }

  // ---------------------------------------------------------------------
  // Decimal rendering of a non-negative integer (`${n}`, n.toString()).
  // ---------------------------------------------------------------------

  predicate IsDigit(c: char)
  {
    '0' <= c <= '9'
  }

  function DigitChar(d: nat): (c: char)
    requires d < 10
    ensures IsDigit(c) && c as int - '0' as int == d
  {
    ('0' as int + d) as char
  }

  /** The decimal numeral of `n`, as `String(n)` writes it. */
  function NatToString(n: nat): string
    decreases n
  {
    if n < 10 then [DigitChar(n)] else NatToString(n / 10) + [DigitChar(n % 10)]
  }

  // ---------------------------------------------------------------------
  // parseInt(s) with no radix argument.
  // ---------------------------------------------------------------------

  /** The value of `c` as a digit, or 36 when `c` is no digit in any radix. */
  function DigitValue(c: char): nat
  {
    if '0' <= c <= '9' then c as int - '0' as int
    else if 'a' <= c <= 'z' then c as int - 'a' as int + 10
    else if 'A' <= c <= 'Z' then c as int - 'A' as int + 10
    else 36
  }

  /** The longest prefix of `s` made of digits of radix `radix`. */
  function LeadingDigits(s: string, radix: nat): (r: string)
    ensures |r| <= |s| && r == s[..|r|]
    ensures forall k :: 0 <= k < |r| ==> DigitValue(r[k]) < radix
    ensures |r| < |s| ==> DigitValue(s[|r|]) >= radix
  {
    if |s| == 0 || DigitValue(s[0]) >= radix then ""
    else [s[0]] + LeadingDigits(s[1..], radix)
  }

  /** The number a digit string denotes in radix `radix`. */
  function DigitsValue(ds: string, radix: nat): nat
    decreases |ds|
  {
    if |ds| == 0 then 0
    else DigitsValue(ds[..|ds| - 1], radix) * radix + DigitValue(ds[|ds| - 1])
  }

  /** `parseInt(s)`: `None` stands for `NaN`. Leading white space is skipped,
      one sign is read, a `0x`/`0X` prefix selects radix 16, and the longest
      run of digits that follows is the number. */
  function ParseInt(s: string): (r: Option<int>)
    ensures r.None? <==> LeadingDigits(ParseIntDigits(s).0, ParseIntDigits(s).1) == ""
  {
    var t := TrimStart(s);
    var negative := |t| > 0 && t[0] == '-';
    var (body, radix) := ParseIntDigits(s);
    var z := LeadingDigits(body, radix);
    if z == "" then None
    else if negative then Some(-(DigitsValue(z, radix) as int))
    else Some(DigitsValue(z, radix))
  }

  /** The text `parseInt` reads its digits from, and the radix it uses. */
  function ParseIntDigits(s: string): (string, nat)
  {
    var t := TrimStart(s);
    var u := if |t| > 0 && (t[0] == '-' || t[0] == '+') then t[1..] else t;
    if |u| >= 2 && u[0] == '0' && (u[1] == 'x' || u[1] == 'X') then (u[2..], 16)
    else (u, 10)
  }

  lemma {:induction false} NatToStringDigits(n: nat)
    ensures |NatToString(n)| > 0
    ensures forall k :: 0 <= k < |NatToString(n)| ==> IsDigit(NatToString(n)[k])
    ensures n >= 10 ==> NatToString(n)[0] != '0'
    ensures DigitsValue(NatToString(n), 10) == n
    decreases n
  {
    if n >= 10 {
      NatToStringDigits(n / 10);
      var s := NatToString(n);
      assert s[..|s| - 1] == NatToString(n / 10);
      if n / 10 >= 10 {
        assert s[0] == NatToString(n / 10)[0];
      } else {
        assert s[0] == DigitChar(n / 10);
      }
    }
  }

  lemma {:induction false} AllDigitsLeading(s: string)
    requires forall k :: 0 <= k < |s| ==> IsDigit(s[k])
    ensures LeadingDigits(s, 10) == s
  {
    if |s| > 0 {
      AllDigitsLeading(s[1..]);
      assert s == [s[0]] + s[1..];
    }
  }

  /** `parseInt` reads back what `String(n)` writes. */
  lemma ParseIntNatToString(n: nat)
    ensures ParseInt(NatToString(n)) == Some(n)
  {
    var s := NatToString(n);
    NatToStringDigits(n);
    DigitsReadAsDecimal(s);
    AllDigitsLeading(s);
  }

  /** A run of decimal digits without a leading zero is read whole, in
      radix 10. */
  lemma DigitsReadAsDecimal(s: string)
    requires |s| > 0 && forall k :: 0 <= k < |s| ==> IsDigit(s[k])
    requires |s| >= 2 ==> s[0] != '0'
    ensures TrimStart(s) == s
    ensures ParseIntDigits(s) == (s, 10)
  {
    assert IsDigit(s[0]);
    assert !IsWhiteSpace(s[0]);
  }

  // ---------------------------------------------------------------------
  // Math.round
  // ---------------------------------------------------------------------

  /** `Math.round(x)`: the nearest integer, halves rounded up. */
  function Round(x: real): (r: int)
    ensures x - 0.5 < r as real <= x + 0.5
  {
    (x + 0.5).Floor
  }

  /** A value below an integer bound rounds to at most that bound. */
  lemma RoundBelow(x: real, bound: int)
    requires x <= bound as real
    ensures Round(x) <= bound
  {
  }

  // ---------------------------------------------------------------------
  // White space, trim, startsWith, replace
  // ---------------------------------------------------------------------

  /** WhiteSpace and LineTerminator code points of ECMAScript. */
  predicate IsWhiteSpace(c: char)
  {
    var n := c as int;
    n == 0x09 || n == 0x0A || n == 0x0B || n == 0x0C || n == 0x0D || n == 0x20
    || n == 0xA0 || n == 0x1680 || (0x2000 <= n <= 0x200A) || n == 0x2028
    || n == 0x2029 || n == 0x202F || n == 0x205F || n == 0x3000 || n == 0xFEFF
  }

  /** `s.trimStart()`: what is left once the leading white space is dropped. */
  function TrimStart(s: string): (r: string)
    ensures |r| <= |s| && r == s[|s| - |r|..]
    ensures forall k :: 0 <= k < |s| - |r| ==> IsWhiteSpace(s[k])
    ensures |r| > 0 ==> !IsWhiteSpace(r[0])
  {
    if |s| > 0 && IsWhiteSpace(s[0]) then
      var t := TrimStart(s[1..]);
      assert s[1..][|s| - 1 - |t|..] == s[|s| - |t|..];
      assert forall k :: 1 <= k < |s| - |t| ==> s[k] == s[1..][k - 1];
      t
    else s
  }

  /** `s.trimEnd()`: what is left once the trailing white space is dropped. */
  function TrimEnd(s: string): (r: string)
    ensures |r| <= |s| && r == s[..|r|]
    ensures forall k :: |r| <= k < |s| ==> IsWhiteSpace(s[k])
    ensures |r| > 0 ==> !IsWhiteSpace(r[|r| - 1])
  {
    if |s| > 0 && IsWhiteSpace(s[|s| - 1]) then
      var t := TrimEnd(s[..|s| - 1]);
      assert s[..|s| - 1][..|t|] == s[..|t|];
      assert forall k :: |t| <= k < |s| - 1 ==> s[k] == s[..|s| - 1][k];
      t
    else s
  }

  /** `s.trim()`: `s` without its leading and its trailing white space. */
  function Trim(s: string): (r: string)
    ensures |r| > 0 ==> !IsWhiteSpace(r[0]) && !IsWhiteSpace(r[|r| - 1])
  {
    var t := TrimStart(s);
    var r := TrimEnd(t);
    assert |r| > 0 ==> r[0] == t[0];
    r
  }

  /** A string with no white space at either end is its own trim. */
  lemma TrimKeeps(s: string)
    requires |s| > 0 && !IsWhiteSpace(s[0]) && !IsWhiteSpace(s[|s| - 1])
    ensures Trim(s) == s
  {
    assert TrimStart(s) == s;
    assert TrimEnd(s) == s;
  }

  predicate StartsWith(s: string, prefix: string)
  {
    |prefix| <= |s| && s[..|prefix|] == prefix
  }

  /** `s.replace(/pat/g, rep)` for a pattern with no special characters: every
      occurrence, scanning left to right without overlap, is replaced. */
  function ReplaceAll(s: string, pat: string, rep: string): string
    requires |pat| > 0
    decreases |s|
  {
    if |s| < |pat| then s
    else if s[..|pat|] == pat then rep + ReplaceAll(s[|pat|..], pat, rep)
    else [s[0]] + ReplaceAll(s[1..], pat, rep)
  }

  /** Text missing some character of the pattern holds no occurrence of it
      and is left as it is. */
  lemma {:induction false} ReplaceAllMissing(s: string, pat: string, rep: string, c: char)
    requires |pat| > 0 && c in pat && c !in s
    ensures ReplaceAll(s, pat, rep) == s
    decreases |s|
  {
    if |s| >= |pat| {
      assert s[..|pat|] != pat by {
        var i :| 0 <= i < |pat| && pat[i] == c;
        assert s[i] != c;
        assert s[..|pat|][i] == s[i];
      }
      ReplaceAllMissing(s[1..], pat, rep, c);
      assert [s[0]] + s[1..] == s;
    }
  }

  /** Text before which no occurrence can start is kept as it is. */
  lemma {:induction false} ReplaceAllAfter(a: string, b: string, pat: string, rep: string)
    requires |pat| > 0 && pat[0] !in a
    ensures ReplaceAll(a + b, pat, rep) == a + ReplaceAll(b, pat, rep)
    decreases |a|
  {
    if a != [] {
      var s := a + b;
      if |s| >= |pat| {
        assert s[..|pat|][0] == a[0];
      }
      assert s[1..] == a[1..] + b;
      ReplaceAllAfter(a[1..], b, pat, rep);
      assert [a[0]] + a[1..] == a;
    } else {
      assert a + b == b;
    }
  }

  /** A text that starts with the pattern has it replaced there. */
  lemma ReplaceAllLead(pat: string, rest: string, rep: string)
    requires |pat| > 0
    ensures ReplaceAll(pat + rest, pat, rep) == rep + ReplaceAll(rest, pat, rep)
  {
    var s := pat + rest;
    assert s[..|pat|] == pat && s[|pat|..] == rest;
  }

  /** A prefix that differs from the pattern at position `i`, and holds the
      pattern's first character only at its start, is passed over. */
  lemma ReplaceAllSkip(e: string, rest: string, pat: string, rep: string, i: nat)
    requires |pat| > 0 && 0 < i < |e| && i < |pat| && e[i] != pat[i] && pat[0] !in e[1..]
    ensures ReplaceAll(e + rest, pat, rep) == e + ReplaceAll(rest, pat, rep)
  {
    var s := e + rest;
    if |s| >= |pat| {
      assert s[..|pat|] != pat by {
        assert s[..|pat|][i] == e[i];
      }
      assert ReplaceAll(s, pat, rep) == [s[0]] + ReplaceAll(s[1..], pat, rep);
      assert s[1..] == e[1..] + rest;
      ReplaceAllAfter(e[1..], rest, pat, rep);
      assert [s[0]] + e[1..] == e;
    } else {
      assert |rest| < |pat|;
    }
  }
}
