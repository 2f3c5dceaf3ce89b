/** The string primitives the depot screens rely on, written out over
    `seq<char>`: decimal rendering of integers (template literals such as
    `B${n}`), JavaScript's `parseInt`, `toLowerCase`, `includes`, `trim`,
    `replace` of the first match, `padStart(2, '0')` and `join`.

    Only the ASCII part of case folding is modelled, and `parseInt` reads
    decimal digits only (no `0x` prefix). */
module Text {
  import opened Wrappers

  // ---------------------------------------------------------------------------
  // Decimal digits

  predicate IsDigit(c: char) {
    '0' <= c <= '9'
  }

  predicate AllDigits(s: string) {
    forall i :: 0 <= i < |s| ==> IsDigit(s[i])
  }

  function DigitValue(c: char): nat
    requires IsDigit(c)
  {
    (c as int) - ('0' as int)
  }

  function DigitChar(d: nat): (c: char)
    requires d < 10
    ensures IsDigit(c) && DigitValue(c) == d
  {
    (('0' as int) + d) as char
  }

  /** The number a string of decimal digits denotes, most significant first. */
  function DigitsValue(s: string): nat
    requires AllDigits(s)
    decreases |s|
  {
    if |s| == 0 then 0 else DigitsValue(s[..|s| - 1]) * 10 + DigitValue(s[|s| - 1])
  }

  /** `${n}` for a non-negative integer: at least one digit, no sign. */
  function NatToString(n: nat): (s: string)
    ensures |s| >= 1 && AllDigits(s)
    ensures n < 10 <==> |s| == 1
    decreases n
  {
    if n < 10 then [DigitChar(n)] else NatToString(n / 10) + [DigitChar(n % 10)]
  }

  /** `${n}` for any integer: a leading '-' for negatives. */
  function IntToString(n: int): (s: string)
    ensures |s| >= 1
    ensures n < 0 <==> s[0] == '-'
  {
    if n < 0 then "-" + NatToString(-n) else NatToString(n)
  }

  /** Reading the digits back gives the number that was rendered. */
  lemma {:induction false} NatToStringValue(n: nat)
    ensures DigitsValue(NatToString(n)) == n
    decreases n
  {
    if n >= 10 {
      var s := NatToString(n);
      NatToStringValue(n / 10);
      assert s[..|s| - 1] == NatToString(n / 10);
      assert s[|s| - 1] == DigitChar(n % 10);
    }
  }

  /** Rendering is injective: distinct numbers give distinct strings. */
  lemma NatToStringInjective(a: nat, b: nat)
    requires NatToString(a) == NatToString(b)
    ensures a == b
  {
    NatToStringValue(a);
    NatToStringValue(b);
  }

  /** A leading zero does not change the value of a digit string. */
  lemma {:induction false} LeadingZeroValue(s: string)
    requires AllDigits(s)
    ensures AllDigits("0" + s) && DigitsValue("0" + s) == DigitsValue(s)
    decreases |s|
  {
    var t := "0" + s;
    assert AllDigits(t) by {
      forall i | 0 <= i < |t| ensures IsDigit(t[i]) {
        if i > 0 { assert t[i] == s[i - 1]; }
      }
    }
    if |s| > 0 {
      var init := s[..|s| - 1];
      assert t[..|t| - 1] == "0" + init;
      assert t[|t| - 1] == s[|s| - 1];
      LeadingZeroValue(init);
    }
  }

  // ---------------------------------------------------------------------------
  // parseInt

  /** The white-space characters `parseInt` and `trim` skip. */
  predicate IsSpace(c: char) {
    c == ' ' || c == '\t' || c == '\n' || c == '\r' || c == '\U{B}' || c == '\U{C}'
    || c == '\U{A0}' || c == '\U{FEFF}' || c == '\U{2028}' || c == '\U{2029}'
  }

  /** The string with its leading white space removed. */
  function SkipSpace(s: string): (r: string)
    ensures |r| <= |s| && r == s[|s| - |r|..]
    ensures |r| > 0 ==> !IsSpace(r[0])
    ensures forall i :: 0 <= i < |s| - |r| ==> IsSpace(s[i])
    decreases |s|
  {
    if |s| > 0 && IsSpace(s[0]) then
      var r := SkipSpace(s[1..]);
      assert s[1..][|s| - 1 - |r|..] == s[|s| - |r|..];
      assert forall i :: 1 <= i < |s| - |r| ==> s[i] == s[1..][i - 1];
      r
    else s
  }

  /** The longest prefix of `s` made of decimal digits. */
  function DigitPrefix(s: string): (r: string)
    ensures r <= s && AllDigits(r)
    ensures |r| < |s| ==> !IsDigit(s[|r|])
    decreases |s|
  {
    if |s| > 0 && IsDigit(s[0]) then [s[0]] + DigitPrefix(s[1..]) else []
  }

  /** The value of the leading run of digits of `t`, `None` when there is none. */
  function ParseDigits(t: string): (r: Option<nat>)
  {
    var d := DigitPrefix(t);
    if |d| == 0 then None else Some(DigitsValue(d))
  }

  /** `parseInt(s)` with the default radix: skip white space, read an optional
      sign and then the longest run of decimal digits; `None` stands for `NaN`,
      the result when no digit follows. */
  function ParseInt(s: string): (r: Option<int>)
  {
    var t := SkipSpace(s);
    if |t| > 0 && t[0] == '-' then
      (match ParseDigits(t[1..]) case None => None case Some(v) => Some(-(v as int)))
    else if |t| > 0 && t[0] == '+' then
      (match ParseDigits(t[1..]) case None => None case Some(v) => Some(v as int))
    else
      (match ParseDigits(t) case None => None case Some(v) => Some(v as int))
  }

  lemma {:induction false} DigitPrefixOfDigits(s: string)
    requires AllDigits(s)
    ensures DigitPrefix(s) == s
    decreases |s|
  {
    if |s| > 0 {
      DigitPrefixOfDigits(s[1..]);
      assert [s[0]] + s[1..] == s;
    }
  }

  lemma SkipSpaceNone(s: string)
    requires |s| > 0 && !IsSpace(s[0])
    ensures SkipSpace(s) == s
  {
  }

  lemma ParseDigitsAll(d: string)
    requires |d| > 0 && AllDigits(d)
    ensures ParseDigits(d) == Some(DigitsValue(d))
  {
    DigitPrefixOfDigits(d);
  }

  /** A non-empty digit string parses to its value. */
  lemma ParseIntDigits(d: string)
    requires |d| > 0 && AllDigits(d)
    ensures ParseInt(d) == Some(DigitsValue(d) as int)
  {
    assert IsDigit(d[0]);
    SkipSpaceNone(d);
    ParseDigitsAll(d);
  }

  /** A minus sign followed by a non-empty digit string parses to minus its value. */
  lemma ParseIntMinus(s: string)
    requires |s| > 1 && s[0] == '-' && AllDigits(s[1..])
    ensures ParseInt(s) == Some(-(DigitsValue(s[1..]) as int))
  {
    SkipSpaceNone(s);
    ParseDigitsAll(s[1..]);
  }

  /** `parseInt` undoes `${n}`: every integer survives the round trip. */
  lemma ParseIntRoundTrip(n: int)
    ensures ParseInt(IntToString(n)) == Some(n)
  {
    if n < 0 {
      ParseNegativeRoundTrip(n);
    } else {
      ParseNatRoundTrip(n);
    }
  }

  lemma ParseNatRoundTrip(n: nat)
    ensures ParseInt(IntToString(n)) == Some(n)
  {
    var d := NatToString(n);
    assert IntToString(n) == d;
    ParseIntDigits(d);
    NatToStringValue(n);
  }

  lemma ParseNegativeRoundTrip(n: int)
    requires n < 0
    ensures ParseInt(IntToString(n)) == Some(n)
  {
    NegativeRendering(n);
    ParseIntMinus(IntToString(n));
  }

  /** A negative number renders as '-' and the digits of its magnitude. */
  lemma NegativeRendering(n: int)
    requires n < 0
    ensures var s := IntToString(n);
      |s| > 1 && s[0] == '-' && AllDigits(s[1..]) && DigitsValue(s[1..]) == -n
  {
    NatToStringValue(-n);
    MinusDigits(NatToString(-n), -n);
  }

  lemma MinusDigits(d: string, v: int)
    requires |d| > 0 && AllDigits(d) && DigitsValue(d) == v
    ensures var s := "-" + d;
      |s| > 1 && s[0] == '-' && AllDigits(s[1..]) && DigitsValue(s[1..]) == v
  {
    assert ("-" + d)[1..] == d;
  }

  /** The digit prefix of digits followed by a non-digit is those digits. */
  lemma {:induction false} DigitPrefixStops(d: string, rest: string)
    requires AllDigits(d) && |rest| > 0 && !IsDigit(rest[0])
    ensures DigitPrefix(d + rest) == d
    decreases |d|
  {
    if |d| > 0 {
      assert (d + rest)[1..] == d[1..] + rest;
      DigitPrefixStops(d[1..], rest);
      assert [d[0]] + d[1..] == d;
    } else {
      assert d + rest == rest;
    }
  }

  /** `parseInt` ignores anything after the digits it reads. */
  lemma ParseIntStopsAtNonDigit(n: nat, rest: string)
    requires |rest| > 0 && !IsDigit(rest[0])
    ensures ParseInt(NatToString(n) + rest) == Some(n)
  {
    var d := NatToString(n);
    var s := d + rest;
    assert s[0] == d[0] && IsDigit(s[0]);
    SkipSpaceNone(s);
    DigitPrefixStops(d, rest);
    assert ParseDigits(s) == Some(DigitsValue(d));
    NatToStringValue(n);
  }

  // ---------------------------------------------------------------------------
  // Case, search and editing

  function LowerChar(c: char): char {
    if 'A' <= c <= 'Z' then ((c as int) + 32) as char else c
  }

  /** `toLowerCase` on the ASCII letters; every other character is kept. */
  function Lower(s: string): (r: string)
    ensures |r| == |s|
  {
    seq(|s|, i requires 0 <= i < |s| => LowerChar(s[i]))
  }

  lemma LowerConcat(a: string, b: string)
    ensures Lower(a + b) == Lower(a) + Lower(b)
  {
  }

  /** `hay.includes(needle)`: `needle` occurs as a contiguous run in `hay`. */
  predicate Contains(hay: string, needle: string)
    decreases |hay|
  {
    needle <= hay || (|hay| > 0 && Contains(hay[1..], needle))
  }

  lemma {:induction false} ContainsEmpty(hay: string)
    ensures Contains(hay, "")
  {
  }

  lemma {:induction false} ContainsSelf(s: string)
    ensures Contains(s, s)
  {
  }

  /** A string that contains a longer needle contains each of its prefixes. */
  lemma {:induction false} ContainsPrefix(hay: string, q: string, extra: string)
    requires Contains(hay, q + extra)
    ensures Contains(hay, q)
    decreases |hay|
  {
    if q + extra <= hay {
      assert q <= q + extra;
    } else {
      ContainsPrefix(hay[1..], q, extra);
    }
  }

  /** `s.replace(c, repl)` with a one-character pattern: only the first
      occurrence is replaced. */
  function ReplaceFirst(s: string, c: char, repl: string): (r: string)
    decreases |s|
  {
    if |s| == 0 then s
    else if s[0] == c then repl + s[1..]
    else [s[0]] + ReplaceFirst(s[1..], c, repl)
  }

  /** `s.replace(c, '')`. */
  function RemoveFirst(s: string, c: char): string {
    ReplaceFirst(s, c, "")
  }

  /** Removing a leading `c` drops exactly that character. */
  lemma RemoveFirstHead(s: string, c: char)
    requires |s| > 0 && s[0] == c
    ensures RemoveFirst(s, c) == s[1..]
  {
    assert "" + s[1..] == s[1..];
  }

  /** Replacing the first `c` touches only that occurrence: what precedes it
      and everything after it, later occurrences included, stay. */
  lemma {:induction false} ReplaceFirstAt(pre: string, c: char, post: string, repl: string)
    requires forall i :: 0 <= i < |pre| ==> pre[i] != c
    ensures ReplaceFirst(pre + [c] + post, c, repl) == pre + repl + post
    decreases |pre|
  {
    var s := pre + [c] + post;
    if |pre| == 0 {
      assert s == [c] + post;
      assert s[1..] == post;
    } else {
      assert s[1..] == pre[1..] + [c] + post;
      ReplaceFirstAt(pre[1..], c, post, repl);
      assert [pre[0]] + (pre[1..] + repl + post) == pre + repl + post;
    }
  }

  /** Without an occurrence there is nothing to replace. */
  lemma {:induction false} ReplaceFirstAbsent(s: string, c: char, repl: string)
    requires forall i :: 0 <= i < |s| ==> s[i] != c
    ensures ReplaceFirst(s, c, repl) == s
    decreases |s|
  {
    if |s| > 0 {
      ReplaceFirstAbsent(s[1..], c, repl);
      assert [s[0]] + s[1..] == s;
    }
  }

  /** The string with leading and trailing white space removed (`trim`). */
  function Trim(s: string): (r: string)
    decreases |s|
  {
    if |s| > 0 && IsSpace(s[0]) then Trim(s[1..])
    else if |s| > 0 && IsSpace(s[|s| - 1]) then Trim(s[..|s| - 1])
    else s
  }

  /** Trimming leaves nothing exactly when the string is all white space. */
  lemma {:induction false} TrimEmptyIff(s: string)
    ensures Trim(s) == "" <==> forall i :: 0 <= i < |s| ==> IsSpace(s[i])
    decreases |s|
  {
    if |s| > 0 && IsSpace(s[0]) {
      TrimEmptyIff(s[1..]);
      assert forall i :: 0 <= i < |s| - 1 ==> s[1..][i] == s[i + 1];
      if Trim(s) != "" {
        var j :| 0 <= j < |s| - 1 && !IsSpace(s[1..][j]);
        assert !IsSpace(s[j + 1]);
      }
    } else if |s| > 0 && IsSpace(s[|s| - 1]) {
      TrimEmptyIff(s[..|s| - 1]);
      assert forall i :: 0 <= i < |s| - 1 ==> s[..|s| - 1][i] == s[i];
    } else if |s| > 0 {
      assert !IsSpace(s[0]);
    }
  }

  /** `s.padStart(2, '0')`. */
  function PadTwo(s: string): (r: string)
    ensures |s| >= 2 ==> r == s
    ensures |s| < 2 ==> |r| == 2 && r[2 - |s|..] == s
  {
    if |s| >= 2 then s else if |s| == 1 then "0" + s else "00"
  }

  /** `cells.join(sep)`. */
  function Join(cells: seq<string>, sep: string): (r: string)
    decreases |cells|
  {
    if |cells| == 0 then ""
    else if |cells| == 1 then cells[0]
    else cells[0] + sep + Join(cells[1..], sep)
  }

  /** The number of occurrences of `c` in `s`. */
  function Count(s: string, c: char): nat
    decreases |s|
  {
    if |s| == 0 then 0 else (if s[0] == c then 1 else 0) + Count(s[1..], c)
  }

  lemma {:induction false} CountConcat(a: string, b: string, c: char)
    ensures Count(a + b, c) == Count(a, c) + Count(b, c)
    decreases |a|
  {
    if |a| > 0 {
      assert (a + b)[1..] == a[1..] + b;
      CountConcat(a[1..], b, c);
    } else {
      assert a + b == b;
    }
  }

  /** Joining `n` cells with a one-character separator adds `n - 1` of it. */
  lemma {:induction false} CountJoin(cells: seq<string>, c: char)
    requires |cells| > 0
    ensures Count(Join(cells, [c]), c) == |cells| - 1 + SumCount(cells, c)
    decreases |cells|
  {
    if |cells| > 1 {
      CountJoin(cells[1..], c);
      CountConcat(cells[0] + [c], Join(cells[1..], [c]), c);
      CountConcat(cells[0], [c], c);
      assert Count([c], c) == 1 by { assert [c][1..] == []; }
    }
  }

  /** Joining with a separator other than `d` adds no `d`. */
  lemma {:induction false} CountJoinOther(cells: seq<string>, c: char, d: char)
    requires c != d
    ensures Count(Join(cells, [c]), d) == SumCount(cells, d)
    decreases |cells|
  {
    if |cells| == 1 {
      assert Count("", d) == 0;
    } else if |cells| > 1 {
      CountJoinOther(cells[1..], c, d);
      CountConcat(cells[0] + [c], Join(cells[1..], [c]), d);
      CountConcat(cells[0], [c], d);
      assert Count([c], d) == 0 by { assert [c][1..] == []; }
      assert SumCount(cells[1..][1..], d) == SumCount(cells[2..], d) by { assert cells[1..][1..] == cells[2..]; }
    }
  }

  /** When every cell but one is free of `c`, the cells hold as many `c` as that one. */
  lemma {:induction false} SumCountOne(cells: seq<string>, c: char, k: int)
    requires 0 <= k < |cells|
    requires forall i :: 0 <= i < |cells| && i != k ==> Count(cells[i], c) == 0
    ensures SumCount(cells, c) == Count(cells[k], c)
    decreases |cells|
  {
    if k == 0 {
      SumCountNone(cells[1..], c);
    } else {
      SumCountOne(cells[1..], c, k - 1);
    }
  }

  lemma {:induction false} SumCountNone(cells: seq<string>, c: char)
    requires forall i :: 0 <= i < |cells| ==> Count(cells[i], c) == 0
    ensures SumCount(cells, c) == 0
    decreases |cells|
  {
    if |cells| > 0 {
      SumCountNone(cells[1..], c);
    }
  }

  /** A string none of whose characters is `c` holds no `c`. */
  lemma {:induction false} CountAbsent(s: string, c: char)
    requires forall i :: 0 <= i < |s| ==> s[i] != c
    ensures Count(s, c) == 0
    decreases |s|
  {
    if |s| > 0 {
      CountAbsent(s[1..], c);
    }
  }

  /** The occurrences of `c` across all of `cells`. */
  function SumCount(cells: seq<string>, c: char): nat
    decreases |cells|
  {
    if |cells| == 0 then 0 else Count(cells[0], c) + SumCount(cells[1..], c)
  }
}
