/** Integers as text: the in-place `itoa` and the C library's `atoi`. */
module Decimal {
  import opened Sequences

  type int32 = x: int | -0x8000_0000 <= x <= 0x7FFF_FFFF

  const NUL: char := '\0'

  /** What `x` becomes when it is stored in a signed 32-bit variable. */
  function Signed(x: int): int32 {
    var u := x % 0x1_0000_0000;
    if u <= 0x7FFF_FFFF then u else u - 0x1_0000_0000
  }

  /** What a signed value becomes when it meets an unsigned operand. */
  function Unsigned(v: int32): nat {
    if v < 0 then v + 0x1_0000_0000 else v
  }

  function DigitChar(d: nat): char
    requires d < 36
  {
    if d > 9 then ((d - 10) as char) + 'a' else (d as char) + '0'
  }

  /** How often `radix` can be taken away from `n`, and what is left then. */
  function Quotient(n: nat, radix: nat): (q: nat)
    requires 2 <= radix
    ensures q <= n / 2 && (q == 0 <==> n < radix)
  {
    if n < radix then 0 else 1 + Quotient(n - radix, radix)
  }

  function Remainder(n: nat, radix: nat): (r: nat)
    requires 2 <= radix
    ensures r < radix && (n < radix ==> r == n)
  {
    if n < radix then n else Remainder(n - radix, radix)
  }

  /** They are what the machine's division computes. */
  lemma {:induction false} QuotientIsDivision(n: nat, radix: nat)
    requires 2 <= radix
    ensures n / radix == Quotient(n, radix) && n % radix == Remainder(n, radix)
  {
    if n < radix {
      SmallDivision(n, radix);
    } else {
      QuotientIsDivision(n - radix, radix);
      DivisionStep(n, radix);
    }
  }

  lemma SmallDivision(u: nat, radix: nat)
    requires u < radix
    ensures u / radix == 0 && u % radix == u
  {
  }

  lemma DivisionStep(u: nat, radix: nat)
    requires 2 <= radix <= u
    ensures u / radix == (u - radix) / radix + 1 && u % radix == (u - radix) % radix
  {
    var q, m := (u - radix) / radix, (u - radix) % radix;
    assert u == radix * (q + 1) + m;
    OneDivision(radix, u / radix, u % radix, q + 1, m);
  }

  /** Quotient and remainder are determined. */
  lemma OneDivision(radix: int, q: int, m: int, p: int, l: int)
    requires radix > 0 && 0 <= m < radix && 0 <= l < radix && radix * q + m == radix * p + l
    ensures q == p && m == l
  {
    if q > p {
      MultiplesApart(radix, q, p);
    } else if q < p {
      MultiplesApart(radix, p, q);
    }
  }

  lemma {:induction false} MultiplesApart(radix: int, q: int, p: int)
    requires radix > 0 && q > p
    ensures radix * q - radix * p >= radix
    decreases q - p
  {
    OneMultiple(radix, q);
    if q > p + 1 {
      MultiplesApart(radix, q - 1, p);
    }
  }

  lemma OneMultiple(radix: int, q: int)
    ensures radix * q == radix * (q - 1) + radix
  {
  }

  /** The digits of `n`, most significant first. */
  function Digits(n: nat, radix: nat): (ds: string)
    requires 2 <= radix <= 36
    ensures ds != []
  {
    if n < radix then [DigitChar(n)]
    else Digits(Quotient(n, radix), radix) + [DigitChar(Remainder(n, radix))]
  }

  /** The usual notation of an integer. */
  function Text(v: int, radix: nat): string
    requires 2 <= radix <= 36
  {
    Sign(v) + Digits(Magnitude(v), radix)
  }

  function Sign(v: int): string {
    if v < 0 then "-" else ""
  }

  function Magnitude(v: int): nat {
    if v < 0 then -v else v
  }

  function Reversed(s: string): (r: string)
    ensures |r| == |s|
  {
    if s == [] then [] else Reversed(s[1..]) + [s[0]]
  }

  lemma {:induction false} ReversedAt(s: string, k: nat)
    requires k < |s|
    ensures Reversed(s)[k] == s[|s| - 1 - k]
  {
    if k < |s| - 1 {
      ReversedAt(s[1..], k);
    }
  }

  lemma {:induction false} ReversedPush(s: string, c: char)
    ensures Reversed(s + [c]) == [c] + Reversed(s)
  {
    if s != [] {
      ReversedPush(s[1..], c);
      assert (s + [c])[1..] == s[1..] + [c];
    }
  }

  lemma {:induction false} ReversedTwice(s: string)
    ensures Reversed(Reversed(s)) == s
  {
    if s != [] {
      ReversedTwice(s[1..]);
      ReversedPush(Reversed(s[1..]), s[0]);
    }
  }

  /** The digits still to be written when the quotient is `q`. */
  function Remaining(q: nat, radix: nat): string
    requires 2 <= radix <= 36
  {
    if q == 0 then "" else Digits(q, radix)
  }

  lemma LastDigit(u: nat, radix: nat)
    requires 2 <= radix <= 36
    ensures Digits(u, radix) == Remaining(Quotient(u, radix), radix) + [DigitChar(Remainder(u, radix))]
  {
  }

  /** Writing one digit moves it from what remains to what was written. */
  lemma OneDigit(u: nat, radix: nat, written: string)
    requires 2 <= radix <= 36
    ensures var q, c := Quotient(u, radix), DigitChar(Remainder(u, radix));
            Digits(u, radix) + Reversed(written) == Remaining(q, radix) + Reversed(written + [c])
  {
    var q, c := Remaining(Quotient(u, radix), radix), DigitChar(Remainder(u, radix));
    LastDigit(u, radix);
    ReversedPush(written, c);
    Assoc(q, [c], Reversed(written));
  }

  /** Writing the first cell of the last of three pieces. */
  lemma Overwritten(line: string, a: string, b: string, was: string, x: char)
    requires |a + b| < |was| && line == a + b + was[|a + b|..]
    ensures line[|a + b| := x] == a + (b + [x]) + was[|a + b| + 1..]
  {
  }

  /** Three pieces can be cut apart again. */
  lemma Pieces(line: string, a: string, b: string, c: string)
    requires line == a + b + c
    ensures |line| == |a| + |b| + |c|
    ensures line[..|a|] == a && line[|a|..|a| + |b|] == b && line[|a| + |b|..] == c
  {
  }

  /** The last digit of `u` as a character, and what is left of `u` without it. */
  method TakeDigit(u: nat, radix: nat, ghost written: string) returns (q: nat, c: char)
    requires 2 <= radix <= 36
    ensures q <= u / 2
    ensures Digits(u, radix) + Reversed(written) == Remaining(q, radix) + Reversed(written + [c])
  {
    QuotientIsDivision(u, radix);
    OneDigit(u, radix, written);
    q, c := u / radix, DigitChar(u % radix);
  }

  /** Writes one character behind what was written. */
  method Put(buf: array<char>, p: nat, c: char, ghost sign: string, ghost written: string, ghost was: string)
    requires |sign + written| == p < |was| && buf[..] == sign + written + was[p..]
    modifies buf
    ensures buf[..] == sign + (written + [c]) + was[p + 1..]
  {
    Overwritten(buf[..], sign, written, was, c);
    assert |buf[..]| == |was|;
    buf[p] := c;
  }

  /** Writes the digits of the unsigned value of `val` behind `sign`, least significant first. */
  method WriteDigits(val: int32, buf: array<char>, ghost sign: string, ghost was: string, radix: nat, first: nat)
    returns (p: nat)
    requires 2 <= radix <= 36
    requires val >= 0 || val == -0x8000_0000
    requires |sign| == first <= |was| == buf.Length && buf[..] == sign + was[first..]
    requires first + |Digits(Unsigned(val), radix)| <= buf.Length
    modifies buf
    ensures p == first + |Digits(Unsigned(val), radix)|
    ensures buf[..] == sign + Reversed(Digits(Unsigned(val), radix)) + was[p..]
  {
    ghost var all, left, written := Digits(Unsigned(val), radix), Digits(Unsigned(val), radix), "";
    var v := val;
    p := first;
    Untouched(buf[..], sign, was);
    assert all == left + Reversed(written);
    while true
      invariant v >= 0 || v == -0x8000_0000
      invariant left == Digits(Unsigned(v), radix) && all == left + Reversed(written)
      invariant p == first + |written| && buf[..] == sign + written + was[p..]
      decreases Unsigned(v)
    {
      var q, c := TakeDigit(Unsigned(v), radix, written);
      assert |written| < |all|;
      Put(buf, p, c, sign, written, was);
      written := written + [c];
      p := p + 1;
      SignedFits(q);
      v := Signed(q);
      left := Remaining(q, radix);
      if v <= 0 {
        AllWritten(all, left, written);
        break;
      }
    }
  }

  lemma SignedFits(x: int)
    requires 0 <= x <= 0x7FFF_FFFF
    ensures Signed(x) == x
  {
  }

  /** Nothing was written yet. */
  lemma Untouched(line: string, sign: string, was: string)
    requires |sign| <= |was| && line == sign + was[|sign|..]
    ensures line == sign + "" + was[|sign|..]
  {
  }

  lemma AllWritten(all: string, left: string, written: string)
    requires all == left + Reversed(written) && left == ""
    ensures written == Reversed(all) && |written| == |all|
  {
    assert left + Reversed(written) == Reversed(written);
    ReversedTwice(written);
  }

  /** What a reversal does, cell by cell. */
  lemma ReversedIs(s: string, r: string)
    requires |r| == |s| && forall k :: 0 <= k < |s| ==> r[k] == s[|s| - 1 - k]
    ensures r == Reversed(s)
  {
    forall k | 0 <= k < |s|
      ensures r[k] == Reversed(s)[k]
    {
      ReversedAt(s, k);
    }
  }

  /** Mirroring one stretch of a line reverses it. */
  lemma MirroredIs(was: string, now: string, first: nat, last: nat)
    requires first <= last < |was| == |now|
    requires forall k {:trigger now[k]} :: first <= k <= last ==> now[k] == was[first + last - k]
    requires now[..first] == was[..first] && now[last + 1..] == was[last + 1..]
    ensures now == was[..first] + Reversed(was[first..last + 1]) + was[last + 1..]
  {
    var part := was[first..last + 1];
    ReversedIs(part, now[first..last + 1]);
    assert now == now[..first] + now[first..last + 1] + now[last + 1..];
  }

  /** Reverses buf[first..last + 1] in place. */
  method ReverseInPlace(buf: array<char>, first: nat, last: nat)
    requires first <= last < buf.Length
    modifies buf
    ensures buf[..] == old(buf[..])[..first] + Reversed(old(buf[..])[first..last + 1]) + old(buf[..])[last + 1..]
  {
    ghost var was, sum := buf[..], first + last;
    var i, j := first, last;
    while true
      invariant first <= i <= j <= last && i + j == sum
      invariant forall k {:trigger buf[k]} ::
                  0 <= k < buf.Length ==>
                    buf[k] == if first <= k < i || j < k <= last then was[sum - k] else was[k]
      decreases j - i
    {
      buf[j], buf[i] := buf[i], buf[j];
      if i + 1 >= j - 1 {
        break;
      }
      j := j - 1;
      i := i + 1;
    }
    MirroredIs(was, buf[..], first, last);
  }

  /** Puts the terminator behind the digits and turns them round. */
  method Finish(buf: array<char>, firstdig: nat, p: nat, ghost sign: string, ghost ds: string, ghost was: string)
    requires |sign| == firstdig && |sign + ds| == p < |was| && ds != []
    requires buf[..] == sign + Reversed(ds) + was[p..]
    modifies buf
    ensures buf[..] == sign + ds + [NUL] + was[p + 1..]
  {
    ghost var line := buf[..];
    assert |line| == |was|;
    buf[p] := NUL;
    assert buf[..] == line[p := NUL];
    Terminated(line, sign, ds, was);
    ReverseInPlace(buf, firstdig, p - 1);
  }

  /** Writes the notation of `val` and a terminator, and touches nothing behind it. */
  method Itoa(val: int32, buf: array<char>, radix: nat)
    requires 2 <= radix <= 36 && |Text(val, radix)| < buf.Length
    modifies buf
    ensures buf[..] == Text(val, radix) + [NUL] + old(buf[..])[|Text(val, radix)| + 1..]
  {
    ghost var was, ds := buf[..], Digits(Magnitude(val), radix);
    var p, v := 0, val;
    if v < 0 {
      buf[p] := '-';
      p := p + 1;
      v := Signed(Magnitude(v));
    }
    var firstdig := p;
    assert Unsigned(v) == Magnitude(val);
    assert buf[..] == Sign(val) + was[firstdig..];
    p := WriteDigits(v, buf, Sign(val), was, radix, firstdig);
    Finish(buf, firstdig, p, Sign(val), ds, was);
  }

  /** Reversing the digits of a finished number leaves its notation. */
  lemma Terminated(line: string, sign: string, ds: string, was: string)
    requires |sign + ds| < |was| && line == sign + Reversed(ds) + was[|sign + ds|..]
    ensures var n, done := |sign + ds|, line[|sign + ds| := NUL];
            done[..|sign|] + Reversed(done[|sign|..n]) + done[n..] == sign + ds + [NUL] + was[n + 1..]
  {
    var n, rs, end := |sign + ds|, Reversed(ds), [NUL] + was[|sign + ds| + 1..];
    Ended(line, sign, rs, was, n);
    Pieces(line[n := NUL], sign, rs, end);
    ReversedTwice(ds);
    AssocInner(sign, ds, [NUL], was[n + 1..]);
  }

  lemma Ended(line: string, sign: string, rs: string, was: string, n: nat)
    requires n == |sign + rs| < |was| && line == sign + rs + was[n..]
    ensures line[n := NUL] == sign + rs + ([NUL] + was[n + 1..])
  {
    Overwritten(line, sign, rs, was, NUL);
    AssocInner(sign, rs, [NUL], was[n + 1..]);
  }

  /* ---------- reading a number back ---------- */

  predicate IsSpace(c: char) {
    c == ' ' || '\t' <= c <= '\r'
  }

  predicate IsDigit(c: char) {
    '0' <= c <= '9'
  }

  function SkipSpaces(s: string): string {
    if s != [] && IsSpace(s[0]) then SkipSpaces(s[1..]) else s
  }

  /** Digits up to the first other character. */
  function ReadDigits(s: string, acc: nat): nat {
    if s == [] || !IsDigit(s[0]) then acc else ReadDigits(s[1..], 10 * acc + (s[0] as int - '0' as int))
  }

  /** The C library's `atoi`, on numbers that fit its result. */
  function Atoi(s: string): int {
    var t := SkipSpaces(s);
    if t != [] && t[0] == '-' then 0 - ReadDigits(t[1..], 0)
    else if t != [] && t[0] == '+' then ReadDigits(t[1..], 0)
    else ReadDigits(t, 0)
  }

  lemma {:induction false} ReadBack(n: nat, behind: string)
    ensures ReadDigits(Digits(n, 10) + behind, 0) == ReadDigits(behind, n)
    ensures IsDigit(Digits(n, 10)[0])
  {
    var q, c := Quotient(n, 10), DigitChar(Remainder(n, 10));
    QuotientIsDivision(n, 10);
    if n < 10 {
      assert ([c] + behind)[1..] == behind;
    } else {
      ReadBack(q, [c] + behind);
      assert Digits(q, 10) + [c] + behind == Digits(q, 10) + ([c] + behind);
      assert ([c] + behind)[1..] == behind;
    }
  }

  /** Reading what `itoa` wrote gives the number back, whatever is behind the terminator. */
  lemma AtoiInvertsItoa(v: int, behind: string)
    requires behind == [] || !IsDigit(behind[0])
    ensures Atoi(Text(v, 10) + behind) == v
  {
    var ds := Digits(Magnitude(v), 10);
    ReadBack(Magnitude(v), behind);
    if v < 0 {
      assert (Text(v, 10) + behind)[1..] == ds + behind;
    } else {
      assert Text(v, 10) + behind == ds + behind;
    }
  }

  /** What a digit or a small letter stands for. */
  function DigitValue(c: char): int {
    if '0' <= c <= '9' then c as int - '0' as int else if 'a' <= c <= 'z' then c as int - 'a' as int + 10 else -1
  }

  /** The number that digits denote in a radix. */
  function ValueOf(s: string, radix: nat): int {
    if s == [] then 0 else radix * ValueOf(s[..|s| - 1], radix) + DigitValue(s[|s| - 1])
  }

  lemma DigitCharValue(d: nat)
    requires d < 36
    ensures DigitValue(DigitChar(d)) == d && (DigitChar(d) == '0' <==> d == 0)
  {
  }

  /** In every radix the digits denote the number, each of them is below the radix, and there is no leading zero except
      for zero itself. */
  lemma {:induction false} DigitsDenote(n: nat, radix: nat)
    requires 2 <= radix <= 36
    ensures ValueOf(Digits(n, radix), radix) == n
    ensures forall k :: 0 <= k < |Digits(n, radix)| ==> 0 <= DigitValue(Digits(n, radix)[k]) < radix
    ensures Digits(n, radix)[0] == '0' <==> n == 0
  {
    var ds := Digits(n, radix);
    if n < radix {
      DigitCharValue(n);
      assert ds[..0] == [];
    } else {
      var q, r := Quotient(n, radix), Remainder(n, radix);
      DigitsDenote(q, radix);
      DigitCharValue(r);
      QuotientSplits(n, radix);
      ValueMore(Digits(q, radix), DigitChar(r), radix);
    }
  }

  lemma {:induction false} QuotientSplits(n: nat, radix: nat)
    requires 2 <= radix
    ensures radix * Quotient(n, radix) + Remainder(n, radix) == n
  {
    if n >= radix {
      QuotientSplits(n - radix, radix);
      OneMultiple(radix, Quotient(n, radix));
    }
  }

  lemma ValueMore(ds: string, c: char, radix: nat)
    ensures ValueOf(ds + [c], radix) == radix * ValueOf(ds, radix) + DigitValue(c)
  {
    assert (ds + [c])[..|ds|] == ds;
  }

  predicate AllDigits(ds: string) {
    forall k :: 0 <= k < |ds| ==> IsDigit(ds[k])
  }

  lemma {:induction false} ReadConcat(ds: string, behind: string, acc: nat)
    requires AllDigits(ds)
    ensures ReadDigits(ds + behind, acc) == ReadDigits(behind, ReadDigits(ds, acc))
  {
    if ds == [] {
      assert ds + behind == behind;
    } else {
      ReadConcat(ds[1..], behind, 10 * acc + (ds[0] as int - '0' as int));
      assert (ds + behind)[1..] == ds[1..] + behind;
    }
  }

  lemma {:induction false} ReadIsValue(ds: string)
    requires AllDigits(ds)
    ensures ReadDigits(ds, 0) == ValueOf(ds, 10)
  {
    if ds != [] {
      var front, c := ds[..|ds| - 1], ds[|ds| - 1];
      ReadIsValue(front);
      ReadConcat(front, [c], 0);
      assert front + [c] == ds && [c][1..] == "";
    }
  }

  lemma {:induction false} SpacesAreSkipped(spaces: string, s: string)
    requires (forall k :: 0 <= k < |spaces| ==> IsSpace(spaces[k])) && (s == [] || !IsSpace(s[0]))
    ensures SkipSpaces(spaces + s) == s
  {
    if spaces == [] {
      assert spaces + s == s;
    } else {
      SpacesAreSkipped(spaces[1..], s);
      assert (spaces + s)[1..] == spaces[1..] + s;
    }
  }

  /** What the C library reads: white space, a sign if there is one, and digits up to the first other character. */
  lemma AtoiReads(spaces: string, sign: string, ds: string, behind: string)
    requires (forall k :: 0 <= k < |spaces| ==> IsSpace(spaces[k])) && (sign == "" || sign == "-" || sign == "+")
    requires ds != [] && AllDigits(ds) && (behind == [] || !IsDigit(behind[0]))
    ensures Atoi(spaces + (sign + (ds + behind))) == if sign == "-" then -ValueOf(ds, 10) else ValueOf(ds, 10)
  {
    var t := sign + (ds + behind);
    SpacesAreSkipped(spaces, t);
    ReadConcat(ds, behind, 0);
    ReadIsValue(ds);
    assert sign == "" ==> t == ds + behind;
    assert sign != "" ==> t[1..] == ds + behind;
  }

  function Pow10(k: nat): nat {
    if k == 0 then 1 else 10 * Pow10(k - 1)
  }

  lemma {:induction false} DigitsAreFew(n: nat, k: nat)
    requires k >= 1 && n < Pow10(k)
    ensures |Digits(n, 10)| <= k
  {
    if n >= 10 {
      QuotientIsDivision(n, 10);
      DigitsAreFew(Quotient(n, 10), k - 1);
    }
  }

  /** Every 32-bit number and its terminator fit the 13 characters of an order reference. */
  lemma TextFits(v: int32)
    ensures |Text(v, 10)| <= 11
  {
    assert Pow10(5) == 100000;
    assert Pow10(10) == 100000 * Pow10(5);
    DigitsAreFew(Magnitude(v), 10);
  }
}
