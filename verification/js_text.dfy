/**
  The few pieces of JavaScript string behaviour the chat layer relies on:
  `String.prototype.trim`, `split(' ')`, `substring(0, 2)`, template-literal
  rendering of a non-negative integer, and the global `parseInt`.
  Characters are Unicode scalar values (see README for the UTF-16 caveat).
 */
module JsText {
  import opened Wrappers

  /** ECMAScript WhiteSpace or LineTerminator: the characters `trim` and `parseInt` skip. */
  predicate IsSpace(c: char) {
    var n := c as int;
    n == 0x09 || n == 0x0A || n == 0x0B || n == 0x0C || n == 0x0D || n == 0x20
    || n == 0xA0 || n == 0x1680 || (0x2000 <= n <= 0x200A) || n == 0x2028 || n == 0x2029
    || n == 0x202F || n == 0x205F || n == 0x3000 || n == 0xFEFF
  }

  /** Drops leading white space: the result is the suffix starting at the first non-space. */
  function TrimStart(s: string): (r: string)
    ensures |r| <= |s| && r == s[|s| - |r|..]
    ensures r == [] || !IsSpace(r[0])
    ensures forall i :: 0 <= i < |s| - |r| ==> IsSpace(s[i])
  {
    if s != [] && IsSpace(s[0]) then TrimStart(s[1..]) else s
  }

  /** Drops trailing white space: the result is the prefix ending at the last non-space. */
  function TrimEnd(s: string): (r: string)
    ensures |r| <= |s| && r == s[..|r|]
    ensures r == [] || !IsSpace(r[|r| - 1])
    ensures forall i :: |r| <= i < |s| ==> IsSpace(s[i])
  {
    if s != [] && IsSpace(s[|s| - 1]) then TrimEnd(s[..|s| - 1]) else s
  }

  /** `s.trim()`. */
  function Trim(s: string): (r: string)
    ensures r == [] || (!IsSpace(r[0]) && !IsSpace(r[|r| - 1]))
  {
    var t := TrimStart(s);
    var r := TrimEnd(t);
    assert r != [] ==> r[0] == t[0];
    r
  }

  /** `r` is `s` with its first `k` characters and everything after `r` gone, all of them white space. */
  predicate StripsAt(s: string, r: string, k: nat) {
    && k + |r| <= |s| && r == s[k..k + |r|]
    && (forall i :: 0 <= i < k ==> IsSpace(s[i]))
    && (forall i :: k + |r| <= i < |s| ==> IsSpace(s[i]))
  }

  /**
    `trim` removes only white space, and only at the two ends: the result is a
    slice of the input with nothing but white space before and after it. With
    `Trim`'s own contract (no white space at either end of the result) this
    pins the result down.
   */
  lemma TrimStrips(s: string)
    ensures exists k: nat :: StripsAt(s, Trim(s), k)
  {
    var t := TrimStart(s);
    assert Trim(s) == TrimEnd(t);
    StripsAtEnds(s, t, TrimEnd(t));
  }

  /** Dropping leading white space and then trailing white space strips at the number of characters dropped first. */
  lemma StripsAtEnds(s: string, t: string, r: string)
    requires |t| <= |s| && t == s[|s| - |t|..] && forall i :: 0 <= i < |s| - |t| ==> IsSpace(s[i])
    requires |r| <= |t| && r == t[..|r|] && forall i :: |r| <= i < |t| ==> IsSpace(t[i])
    ensures StripsAt(s, r, |s| - |t|)
  {
    var k := |s| - |t|;
    assert s[k..][..|r|] == s[k..k + |r|];
    forall i | k + |r| <= i < |s| ensures IsSpace(s[i]) {
      assert s[i] == t[i - k];
    }
  }

  /** The inverse of `Split`: the parts glued back with single spaces. */
  function Join(parts: seq<string>): string
    requires |parts| >= 1
  {
    if |parts| == 1 then parts[0] else parts[0] + [' '] + Join(parts[1..])
  }

  /** `s.split(' ')`: the maximal space-free runs between single spaces, empty runs included. */
  function Split(s: string): (parts: seq<string>)
    ensures |parts| >= 1
    ensures forall i :: 0 <= i < |parts| ==> ' ' !in parts[i]
    ensures Join(parts) == s
    ensures |parts| >= 2 <==> ' ' in s
  {
    if s == [] then [[]]
    else
      var rest := Split(s[1..]);
      if s[0] == ' ' then [[]] + rest
      else
        assert |rest| >= 2 ==> Join([[s[0]] + rest[0]] + rest[1..]) == [s[0]] + Join(rest);
        [[s[0]] + rest[0]] + rest[1..]
  }

  lemma {:induction false} JoinOfLonger(parts: seq<string>)
    requires |parts| >= 2
    ensures Join(parts) == Join(parts[..|parts| - 1]) + [' '] + parts[|parts| - 1]
    decreases |parts|
  {
    if |parts| > 2 {
      JoinOfLonger(parts[1..]);
      assert parts[1..][..|parts[1..]| - 1] == parts[..|parts| - 1][1..];
    }
  }

  /** A space-free string splits into itself. */
  lemma {:induction false} SplitSpaceFree(a: string)
    requires ' ' !in a
    ensures Split(a) == [a]
  {
    if a != [] {
      assert ' ' !in a[1..] by {
        forall i | 0 <= i < |a[1..]| ensures a[1..][i] != ' ' {
          assert a[1..][i] == a[i + 1];
        }
      }
      SplitSpaceFree(a[1..]);
      assert a == [a[0]] + a[1..];
    }
  }

  /** A space-free run followed by a space splits off as the first part. */
  lemma {:induction false} SplitAtSpace(a: string, b: string)
    requires ' ' !in a
    ensures Split(a + [' '] + b) == [a] + Split(b)
  {
    var s := a + [' '] + b;
    if a == [] {
      assert s == [' '] + b && s[1..] == b;
    } else {
      assert ' ' !in a[1..] by {
        forall i | 0 <= i < |a[1..]| ensures a[1..][i] != ' ' {
          assert a[1..][i] == a[i + 1];
        }
      }
      assert s[1..] == a[1..] + [' '] + b;
      SplitAtSpace(a[1..], b);
      var rest := Split(s[1..]);
      assert rest == [a[1..]] + Split(b);
      assert s[0] == a[0] && s[0] != ' ';
      assert Split(s) == [[s[0]] + rest[0]] + rest[1..];
      assert rest[0] == a[1..] && rest[1..] == Split(b);
      assert [s[0]] + rest[0] == a;
    }
  }

  /** Splitting a space-joined list of space-free parts gives the parts back. */
  lemma {:induction false} SplitJoin(parts: seq<string>)
    requires |parts| >= 1
    requires forall i :: 0 <= i < |parts| ==> ' ' !in parts[i]
    ensures Split(Join(parts)) == parts
    decreases |parts|
  {
    if |parts| == 1 {
      SplitSpaceFree(parts[0]);
    } else {
      assert forall i :: 0 <= i < |parts[1..]| ==> ' ' !in parts[1..][i] by {
        forall i | 0 <= i < |parts[1..]| ensures ' ' !in parts[1..][i] {
          assert parts[1..][i] == parts[i + 1];
        }
      }
      SplitJoin(parts[1..]);
      SplitAtSpace(parts[0], Join(parts[1..]));
      assert parts == [parts[0]] + parts[1..];
    }
  }

  /** The index of the last space in `s`. */
  function LastSpace(s: string): (k: nat)
    requires ' ' in s
    ensures k < |s| && s[k] == ' '
    ensures forall j :: k < j < |s| ==> s[j] != ' '
  {
    if s[|s| - 1] == ' ' then |s| - 1
    else
      assert ' ' in s[..|s| - 1] by {
        var i :| 0 <= i < |s| && s[i] == ' ';
        assert s[..|s| - 1][i] == ' ';
      }
      LastSpace(s[..|s| - 1])
  }

  /** With two or more parts, the first part is the text before the first space. */
  lemma {:induction false} SplitFirst(s: string)
    requires ' ' in s
    ensures var parts := Split(s);
      s[..|parts[0]|] == parts[0] && (parts[0] == [] ==> s[0] == ' ')
  {
    var parts := Split(s);
    assert s == parts[0] + ([' '] + Join(parts[1..]));
  }

  /** The last space of `front + " " + last` is the one before a space-free `last`. */
  lemma LastSpaceBefore(front: string, last: string)
    requires ' ' !in last
    ensures var s := front + [' '] + last;
      ' ' in s && LastSpace(s) == |front| && s[|front| + 1..] == last
  {
    var s := front + [' '] + last;
    var m := |front|;
    assert s[m] == ' ';
    assert s[m + 1..] == last;
    forall j | m < j < |s| ensures s[j] != ' ' {
      assert s[j] == last[j - m - 1];
    }
  }

  /** The last of two or more space-free parts is what follows the last space of their join. */
  lemma LastPart(s: string, parts: seq<string>)
    requires |parts| >= 2 && Join(parts) == s
    requires forall i :: 0 <= i < |parts| ==> ' ' !in parts[i]
    ensures ' ' in s && s[LastSpace(s) + 1..] == parts[|parts| - 1]
  {
    JoinOfLonger(parts);
    LastSpaceBefore(Join(parts[..|parts| - 1]), parts[|parts| - 1]);
  }

  /** `name.substring(0, 2)`: at most the first two characters. */
  function FirstTwo(name: string): (r: string)
    ensures |r| == if |name| < 2 then |name| else 2
    ensures r == name[..|r|]
  {
    if |name| < 2 then name else name[..2]
  }

  /** A decimal digit's character. */
  function DigitChar(d: nat): (c: char)
    requires d < 10
    ensures IsDecimalDigit(c) && DigitValue(c) == d
  {
    ('0' as int + d) as char
  }

  predicate IsDecimalDigit(c: char) {
    '0' <= c <= '9'
  }

  /** The value of `c` as a digit in any radix up to 36 (letters either case); 36 when it is none. */
  function DigitValue(c: char): (d: nat)
    ensures d <= 36
  {
    if '0' <= c <= '9' then (c as int) - ('0' as int)
    else if 'a' <= c <= 'z' then (c as int) - ('a' as int) + 10
    else if 'A' <= c <= 'Z' then (c as int) - ('A' as int) + 10
    else 36
  }

  /** `${n}` for a non-negative integer: its decimal digits, most significant first. */
  function NatToString(n: nat): (r: string)
    ensures |r| >= 1
    ensures forall i :: 0 <= i < |r| ==> IsDecimalDigit(r[i])
    ensures |r| > 1 ==> r[0] != '0'
  {
    if n < 10 then [DigitChar(n)] else NatToString(n / 10) + [DigitChar(n % 10)]
  }

  /** The longest prefix of `s` made of digits of the given radix. */
  function DigitPrefix(s: string, radix: nat): (z: string)
    ensures |z| <= |s| && z == s[..|z|]
    ensures forall i :: 0 <= i < |z| ==> DigitValue(z[i]) < radix
    ensures |z| < |s| ==> DigitValue(s[|z|]) >= radix
  {
    if s != [] && DigitValue(s[0]) < radix then [s[0]] + DigitPrefix(s[1..], radix) else []
  }

  /** The number the digit string `z` denotes in the given radix. */
  function DigitsValue(z: string, radix: nat): nat {
    if z == [] then 0 else DigitsValue(z[..|z| - 1], radix) * radix + DigitValue(z[|z| - 1])
  }

  /**
    The global `parseInt(s)` without a radix argument: leading white space is
    skipped, one sign is read, a `0x`/`0X` prefix selects radix 16, and the
    longest run of digits that follows is read. No digit at all is `NaN`,
    modelled as `None`.
   */
  function ParseInt(s: string): Option<int> {
    ParseDigits(TrimStart(s))
  }

  /** `parseInt` once the leading white space is gone: one optional sign, then the unsigned part. */
  function ParseDigits(t: string): (r: Option<int>)
    ensures t != [] && t[0] in "+-" ==> (r.None? <==> ParseUnsigned(t[1..]).None?)
    ensures (t == [] || t[0] !in "+-") ==> r == ParseUnsigned(t)
  {
    if t != [] && t[0] in "+-" then
      match ParseUnsigned(t[1..])
      case None => None
      case Some(v) => if t[0] == '-' then Some(0 - v) else Some(v)
    else
      ParseUnsigned(t)
  }

  /** The digits after the sign: a `0x`/`0X` prefix selects radix 16; no digit at all is `NaN`. */
  function ParseUnsigned(u: string): (r: Option<nat>)
    ensures r.None? <==>
      var hex := |u| >= 2 && u[0] == '0' && u[1] in "xX";
      DigitPrefix(if hex then u[2..] else u, if hex then 16 else 10) == []
  {
    var hex := |u| >= 2 && u[0] == '0' && u[1] in "xX";
    var radix := if hex then 16 else 10;
    var z := DigitPrefix(if hex then u[2..] else u, radix);
    if z == [] then None else Some(DigitsValue(z, radix))
  }

  lemma {:induction false} DigitsValueOfNatToString(n: nat)
    ensures DigitsValue(NatToString(n), 10) == n
  {
    if n >= 10 {
      DigitsValueOfNatToString(n / 10);
      var s := NatToString(n);
      assert s[..|s| - 1] == NatToString(n / 10);
    }
  }

  /** The unsigned part reads a rendered count back when what follows it cannot extend it. */
  lemma ParseUnsignedOfDigits(n: nat, rest: string)
    requires rest == [] || !IsDecimalDigit(rest[0])
    requires n == 0 && rest != [] ==> rest[0] !in "xX"
    ensures ParseUnsigned(NatToString(n) + rest) == Some(n)
  {
    var z := NatToString(n);
    var u := z + rest;
    assert u[0] == z[0];
    if |u| >= 2 && u[0] == '0' {
      assert |z| == 1;
      assert n == 0 by { assert DigitsValue(z, 10) == 0; DigitsValueOfNatToString(n); }
      assert u[1] == rest[0];
    }
    DigitPrefixStops(z, rest);
    DigitsValueOfNatToString(n);
  }

  /** Reading back a rendered timestamp key gives the timestamp. */
  lemma ParseIntOfNatToString(n: nat)
    ensures ParseInt(NatToString(n)) == Some(n)
  {
    ParseIntStopsAtNonDigit(n, []);
    assert NatToString(n) + [] == NatToString(n);
  }

  /** The decimal digit run of `z + rest` is `z` when `rest` does not continue it. */
  lemma {:induction false} DigitPrefixStops(z: string, rest: string)
    requires forall i :: 0 <= i < |z| ==> IsDecimalDigit(z[i])
    requires rest == [] || !IsDecimalDigit(rest[0])
    ensures DigitPrefix(z + rest, 10) == z
  {
    if z == [] {
      assert z + rest == rest;
    } else {
      assert (z + rest)[1..] == z[1..] + rest;
      DigitPrefixStops(z[1..], rest);
    }
  }

  /**
    `parseInt` reads a rendered count back even when other text follows it,
    as long as that text does not start with a digit, nor with `x`/`X` right
    after a lone `0` (which would read as a hexadecimal prefix).
   */
  lemma ParseIntStopsAtNonDigit(n: nat, rest: string)
    requires rest == [] || !IsDecimalDigit(rest[0])
    requires n == 0 && rest != [] ==> rest[0] !in "xX"
    ensures ParseInt(NatToString(n) + rest) == Some(n)
  {
    var s := NatToString(n) + rest;
    assert s[0] == NatToString(n)[0];
    assert !IsSpace(s[0]) && s[0] !in "+-";
    assert TrimStart(s) == s;
    ParseUnsignedOfDigits(n, rest);
  }

  /** A minus sign in front of a rendered count negates it. */
  lemma ParseIntNegative(n: nat)
    ensures ParseInt("-" + NatToString(n)) == Some(0 - n)
  {
    var z := NatToString(n);
    ParseUnsignedOfDigits(n, []);
    assert z + [] == z;
    SignedDigits('-', z);
    assert TrimStart("-" + z) == "-" + z by { assert !IsSpace(("-" + z)[0]); }
  }

  /** A sign followed by an unsigned number: `-` negates it and `+` keeps it. */
  lemma SignedDigits(c: char, z: string)
    requires c in "+-"
    ensures ParseDigits([c] + z) ==
      match ParseUnsigned(z)
      case None => None
      case Some(v) => if c == '-' then Some(0 - v) else Some(v as int)
  {
    assert ([c] + z)[0] == c && ([c] + z)[1..] == z;
  }

  /** Leading white space does not change what `parseInt` reads. */
  lemma ParseIntSkipsSpace(c: char, s: string)
    requires IsSpace(c)
    ensures ParseInt([c] + s) == ParseInt(s)
  {
    assert ([c] + s)[1..] == s;
  }
}
