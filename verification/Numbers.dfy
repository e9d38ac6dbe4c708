/** Reading and printing numbers: strtol and strtoull
    (components/common/libc/src/strtol.c, components/common/libc/src/strtoull.c)
    and the number printer of snprintf (components/common/libc/src/snprintf.c). */
module Numbers {
  import opened Words

  const LONG_MAX := 0x7FFF_FFFF_FFFF_FFFF
  const LONG_MIN := -0x8000_0000_0000_0000
  const ULLONG_MAX := 0xFFFF_FFFF_FFFF_FFFF

  /** The character at i of a string that ends with a NUL. */
  function At(s: string, i: nat): char { if i < |s| then s[i] else '\0' }

  predicate IsSpace(c: char) { c as int == 32 || 9 <= c as int <= 13 }

  /** The value of a digit or letter, 36 for anything else. */
  function Digit(c: char): (d: nat)
    ensures d <= 36
  {
    if '0' <= c <= '9' then c as int - '0' as int
    else if 'A' <= c <= 'Z' then c as int - 'A' as int + 10
    else if 'a' <= c <= 'z' then c as int - 'a' as int + 10
    else 36
  }

  predicate IsHex(c: char) { Digit(c) < 16 }

  // ----------------------------------------------------------- what to read

  /** The first place from i on that is no white space. */
  function Skip(s: string, i: nat): nat
    decreases |s| - i
  {
    if i < |s| && IsSpace(s[i]) then Skip(s, i + 1) else i
  }

  /** The place of the sign, if any, is passed over. */
  function AfterSign(s: string, i: nat): nat {
    if At(s, i) == '-' || At(s, i) == '+' then i + 1 else i
  }

  /** At i there is 0x, or 0X, and a hexadecimal digit. */
  predicate HexPrefix(s: string, i: nat, base: nat) {
    (base == 0 || base == 16) && At(s, i) == '0' && (At(s, i + 1) == 'x' || At(s, i + 1) == 'X') && IsHex(At(s, i + 2))
  }

  predicate Negative(s: string) { At(s, Skip(s, 0)) == '-' }

  /** Where the digits start, and their base. */
  function Start(s: string, base: nat): nat {
    var i := AfterSign(s, Skip(s, 0));
    if HexPrefix(s, i, base) then i + 2 else i
  }

  function Base(s: string, base: nat): nat {
    var i := AfterSign(s, Skip(s, 0));
    if HexPrefix(s, i, base) then 16 else if base != 0 then base else if At(s, i) == '0' then 8 else 10
  }

  /** The end of the digits from i on. */
  function Stop(s: string, i: nat, base: nat): (e: nat)
    ensures i <= e && (e > i ==> e <= |s|)
    decreases |s| - i
  {
    if i < |s| && Digit(s[i]) < base then Stop(s, i + 1, base) else i
  }

  /** The number that the characters from lo to hi spell. */
  function Value(s: string, lo: nat, hi: nat, base: nat): nat
    requires hi <= |s|
    decreases hi
  {
    if hi <= lo then 0 else Value(s, lo, hi - 1, base) * base + Digit(s[hi - 1])
  }

  lemma Times(x: nat, base: nat)
    requires base > 0
    ensures x * base >= x
  {
    assert x * base == x + x * (base - 1);
  }

  /** The overflow test against cutoff and cutlim is exact. */
  lemma Cutoff(limit: nat, base: nat, acc: nat, c: nat)
    requires base > 0 && c < base
    ensures acc > limit / base || (acc == limit / base && c > limit % base) <==> acc * base + c > limit
  {
    var q, r := limit / base, limit % base;
    assert limit == q * base + r;
    if acc > q {
      assert acc * base == q * base + (acc - q) * base;
      Times2(acc - q, base);
    } else if acc < q {
      assert q * base == acc * base + (q - acc) * base;
      Times2(q - acc, base);
    }
  }

  lemma Times2(x: nat, base: nat)
    requires x >= 1
    ensures x * base >= base
  {
    assert x * base == base + (x - 1) * base;
  }

  /** White space, a sign and a prefix are passed over. */
  method ScanStart(s: string, base: nat) returns (neg: bool, i: nat, b: nat)
    requires base == 0 || 2 <= base <= 36
    ensures neg == Negative(s) && i == Start(s, base) && b == Base(s, base) && 2 <= b <= 36
  {
    hide Digit;
    i := 0;
    while IsSpace(At(s, i))
      invariant i <= |s| && Skip(s, i) == Skip(s, 0)
      decreases |s| - i
    {
      i := i + 1;
    }
    neg := At(s, i) == '-';
    if At(s, i) == '-' || At(s, i) == '+' {
      i := i + 1;
    }
    b := base;
    if HexPrefix(s, i, base) {
      i := i + 2;
      b := 16;
    }
    if b == 0 {
      b := if At(s, i) == '0' then 8 else 10;
    }
  }

  /** Accumulate digits up to a limit. */
  method Accumulate(s: string, st: nat, b: nat, top: nat) returns (any: bool, over: bool, acc: nat, end: nat)
    requires 2 <= b <= 36
    ensures var e := Stop(s, st, b);
            && end == e && (any <==> e > st)
            && (any ==> (over <==> Value(s, st, e, b) > top))
            && (any && !over ==> acc == Value(s, st, e, b)) && (!any ==> acc == 0 && !over)
  {
    hide Value, Digit;
    var cutoff, cutlim := top / b, top % b;
    any, over, acc := false, false, 0;
    var i := st;
    ghost var e := Stop(s, st, b);
    ValueEmpty(s, st, b);
    while Digit(At(s, i)) < b
      invariant st <= i && (i > st ==> i <= |s|) && Stop(s, i, b) == e && (any <==> i > st)
      invariant any ==> (over <==> Value(s, st, i, b) > top)
      invariant any && !over ==> acc == Value(s, st, i, b)
      invariant !any ==> acc == 0 && !over
      decreases |s| - i
    {
      var c := Digit(At(s, i));
      InString(s, i, b);
      Cutoff(top, b, acc, c);
      ValueStep(s, st, i, b);
      if over || acc > cutoff || (acc == cutoff && c > cutlim) {
        if over { Times(Value(s, st, i, b), b); }
        over := true;
      } else {
        acc := acc * b + c;
      }
      any := true;
      i := i + 1;
    }
    end := i;
  }

  /** The scan both functions share: the limit depends on the sign. */
  method Scan(s: string, base: nat, limit: nat, negLimit: nat) returns (neg: bool, any: bool, over: bool, acc: nat,
              end: nat)
    requires base == 0 || 2 <= base <= 36
    ensures neg == Negative(s)
    ensures var st, b := Start(s, base), Base(s, base); var e := Stop(s, st, b);
            && end == e && (any <==> e > st)
            && (any ==> (over <==> Value(s, st, e, b) > if neg then negLimit else limit))
            && (any && !over ==> acc == Value(s, st, e, b)) && (!any ==> acc == 0 && !over)
  {
    hide Value, Stop, Start, Base, Negative;
    var st, b;
    neg, st, b := ScanStart(s, base);
    any, over, acc, end := Accumulate(s, st, b, if neg then negLimit else limit);
  }

  lemma InString(s: string, i: nat, base: nat)
    requires Digit(At(s, i)) < base <= 36
    ensures i < |s|
  {
  }

  lemma ValueStep(s: string, lo: nat, i: nat, base: nat)
    requires lo <= i < |s|
    ensures Value(s, lo, i + 1, base) == Value(s, lo, i, base) * base + Digit(s[i])
  {
  }

  lemma ValueEmpty(s: string, lo: nat, base: nat)
    ensures lo <= |s| ==> Value(s, lo, lo, base) == 0
  {
  }

  /** strtol: the value, clamped to the range of long, and the first character
      that is not part of the number. */
  method Strtol(s: string, base: nat) returns (r: int, end: nat)
    requires base == 0 || 2 <= base <= 36
    ensures var st, b := Start(s, base), Base(s, base); var e := Stop(s, st, b);
            if e == st then r == 0 && end == 0
            else
              var v: int := if Negative(s) then 0 - Value(s, st, e, b) else Value(s, st, e, b);
              end == e && r == if v < LONG_MIN then LONG_MIN else if v > LONG_MAX then LONG_MAX else v
  {
    var neg, any, over, acc, e := Scan(s, base, LONG_MAX, LONG_MAX + 1);
    if over {
      r := if neg then LONG_MIN else LONG_MAX;
    } else if neg {
      var a: int := acc;
      r := 0 - a;
    } else {
      r := acc;
    }
    end := if any then e else 0;
  }

  /** strtoull: the value, or the largest number if it does not fit; a minus
      sign negates in 64 bits. */
  method Strtoull(s: string, base: nat) returns (r: nat, end: nat)
    requires base == 0 || 2 <= base <= 36
    ensures var st, b := Start(s, base), Base(s, base); var e := Stop(s, st, b);
            if e == st then r == 0 && end == 0
            else
              var v := Value(s, st, e, b);
              end == e && r == if v > ULLONG_MAX then ULLONG_MAX else if Negative(s) then (TWO64 - v) % TWO64 else v
  {
    var neg, any, over, acc, e := Scan(s, base, ULLONG_MAX, ULLONG_MAX);
    if over {
      r := ULLONG_MAX;
    } else if neg {
      r := (TWO64 - acc) % TWO64;
    } else {
      r := acc;
    }
    end := if any then e else 0;
  }

  // -------------------------------------------------- strings by their parts

  /** The character, in ASCII, stands for the digit d. */
  ghost predicate Spells(c: char, d: int) {
    || (0 <= d < 10 && c as int == 48 + d)
    || (10 <= d < 36 && (c as int == 55 + d || c as int == 87 + d))
  }

  lemma SpellsDigit(c: char, d: int)
    ensures Spells(c, d) <==> 0 <= d < 36 && Digit(c) == d
  {
  }

  /** The number with these digits, the highest first. */
  ghost function Number(ds: seq<nat>, base: nat): nat
    decreases ds
  {
    if ds == [] then 0 else Number(ds[..|ds| - 1], base) * base + ds[|ds| - 1]
  }

  /** t starts with 0x or 0X and a hexadecimal digit. */
  ghost predicate StartsHex(t: string) {
    |t| >= 3 && t[0] == '0' && (t[1] == 'x' || t[1] == 'X') && exists d :: 0 <= d < 16 && Spells(t[2], d)
  }

  ghost predicate Blank(ws: string) { forall i :: 0 <= i < |ws| ==> ws[i] as int in {9, 10, 11, 12, 13, 32} }

  /** The digits ds in base b, and a rest that starts with no further one. */
  ghost predicate Run(digits: string, ds: seq<nat>, rest: string, b: nat) {
    && b <= 36 && |digits| == |ds| && (forall i :: 0 <= i < |ds| ==> ds[i] < b && Spells(digits[i], ds[i]))
    && (rest != [] ==> forall d :: 0 <= d < b ==> !Spells(rest[0], d))
  }

  /** The base b that a prefix, or none, and the base asked for stand for. */
  ghost predicate Prefixed(prefix: string, t: string, base: nat, b: nat) {
    if prefix == "0x" || prefix == "0X" then (base == 0 || base == 16) && b == 16
    else
      && prefix == "" && !((base == 0 || base == 16) && StartsHex(t))
      && b == if base != 0 then base else if t != [] && t[0] == '0' then 8 else 10
  }

  /** The number does not start later: without a sign and digits, the rest is no
      white space and no sign. */
  ghost predicate Begun(sign: string, prefix: string, digits: string, rest: string) {
    && (sign == "" || sign == "+" || sign == "-") && (prefix != "" ==> digits != [])
    && (sign == "" && digits == [] && rest != [] ==>
          rest[0] != '+' && rest[0] != '-' && rest[0] as int !in {9, 10, 11, 12, 13, 32})
  }

  /** A string of white space, a sign, a prefix, the longest run of digits in
      base b, and a rest. */
  ghost predicate Parts(ws: string, sign: string, prefix: string, digits: string, ds: seq<nat>, rest: string,
                        base: nat, b: nat)
  {
    && Blank(ws) && Begun(sign, prefix, digits, rest) && Prefixed(prefix, digits + rest, base, b)
    && Run(digits, ds, rest, b)
  }

  lemma {:induction false} SkipAll(ws: string, t: string, i: nat)
    requires i <= |ws| && (forall k :: 0 <= k < |ws| ==> IsSpace(ws[k])) && (t != [] ==> !IsSpace(t[0]))
    ensures Skip(ws + t, i) == |ws|
    decreases |ws| - i
  {
    if i < |ws| { SkipAll(ws, t, i + 1); }
  }

  lemma {:induction false} StopAt(s: string, i: nat, e: nat, base: nat)
    requires i <= e <= |s| && (forall k :: i <= k < e ==> Digit(s[k]) < base) && (e < |s| ==> Digit(s[e]) >= base)
    ensures Stop(s, i, base) == e
    decreases e - i
  {
    hide Digit;
    if i < e { StopAt(s, i + 1, e, base); }
  }

  lemma {:induction false} ValueIsNumber(s: string, lo: nat, ds: seq<nat>, base: nat)
    requires lo + |ds| <= |s| && forall k :: 0 <= k < |ds| ==> Digit(s[lo + k]) == ds[k]
    ensures Value(s, lo, lo + |ds|, base) == Number(ds, base)
    decreases ds
  {
    hide Digit;
    if ds == [] {
      ValueEmpty(s, lo, base);
    } else {
      ValueIsNumber(s, lo, ds[..|ds| - 1], base);
    }
  }

  lemma HexAt(s: string, i: nat, t: string)
    requires i <= |s| && s[i..] == t
    ensures HexPrefix(s, i, 0) <==> StartsHex(t)
    ensures At(s, i) == if t == [] then '\0' else t[0]
  {
    hide Digit, Spells;
    assert |t| > 0 ==> s[i] == t[0];
    assert |t| > 1 ==> s[i + 1] == t[1];
    if |t| > 2 {
      assert s[i + 2] == t[2];
      SpellsDigit(t[2], Digit(t[2]));
      forall d | 0 <= d < 16 && Spells(t[2], d) ensures Digit(t[2]) == d { SpellsDigit(t[2], d); }
    }
    NulDigit();
  }

  /** The sign is where the scan looks for it. */
  lemma SignAt(s: string, ws: string, sign: string, t: string)
    requires s == ws + sign + t && Blank(ws) && (sign == "" || sign == "+" || sign == "-")
    requires sign == "" && t != [] ==> !IsSpace(t[0]) && t[0] != '+' && t[0] != '-'
    ensures Skip(s, 0) == |ws| && Negative(s) == (sign == "-") && AfterSign(s, |ws|) == |ws + sign|
  {
    SkipAll(ws, sign + t, 0);
    assert s == ws + (sign + t);
    assert At(s, |ws|) == if sign != "" then sign[0] else if t != [] then t[0] else '\0';
  }

  lemma FirstPart(sign: string, prefix: string, digits: string, ds: seq<nat>, rest: string, base: nat, b: nat)
    requires Begun(sign, prefix, digits, rest) && Prefixed(prefix, digits + rest, base, b) && Run(digits, ds, rest, b)
    ensures sign == "" || sign == "+" || sign == "-"
    ensures var t := prefix + digits + rest;
            sign == "" && t != [] ==> !IsSpace(t[0]) && t[0] != '+' && t[0] != '-'
  {
    hide StartsHex;
    if prefix == "" && digits != [] { assert (prefix + digits + rest)[0] == digits[0]; }
  }

  lemma PrefixAt(s: string, j: nat, sign: string, prefix: string, digits: string, ds: seq<nat>, rest: string,
                 base: nat, b: nat)
    requires j <= |s| && s[j..] == prefix + digits + rest && Begun(sign, prefix, digits, rest)
    requires Prefixed(prefix, digits + rest, base, b) && Run(digits, ds, rest, b)
    ensures HexPrefix(s, j, base) == (prefix != "") && (prefix != "" ==> |prefix| == 2 && b == 16)
    ensures prefix == "" ==> b == if base != 0 then base else if At(s, j) == '0' then 8 else 10
  {
    hide Digit, Spells;
    var t := prefix + digits + rest;
    HexAt(s, j, t);
    if prefix != "" {
      assert t[2] == digits[0] && Spells(t[2], ds[0]);
    } else {
      assert t == digits + rest;
    }
  }

  /** The digits are where the scan looks for them. */
  lemma DigitsAt(s: string, head: string, digits: string, ds: seq<nat>, rest: string, b: nat)
    requires s == head + digits + rest && Run(digits, ds, rest, b)
    ensures Stop(s, |head|, b) == |head + digits|
    ensures Value(s, |head|, |head + digits|, b) == Number(ds, b)
  {
    hide Digit, Spells, Number, Value, Stop;
    var lo := |head|;
    forall k | 0 <= k < |ds| ensures Digit(s[lo + k]) == ds[k] {
      assert s[lo + k] == digits[k];
      SpellsDigit(digits[k], ds[k]);
    }
    RunEnds(rest, b);
    forall k | lo <= k < lo + |ds| ensures Digit(s[k]) < b {
      assert Digit(s[lo + (k - lo)]) == ds[k - lo];
    }
    StopAt(s, lo, lo + |digits|, b);
    ValueIsNumber(s, lo, ds, b);
  }

  lemma RunEnds(rest: string, b: nat)
    requires b <= 36 && (rest != [] ==> forall d :: 0 <= d < b ==> !Spells(rest[0], d))
    ensures rest != [] ==> Digit(rest[0]) >= b
  {
    hide Digit, Spells;
    if rest != [] && Digit(rest[0]) < b { SpellsDigit(rest[0], Digit(rest[0])); }
  }

  lemma Regroup(ws: string, sign: string, prefix: string, digits: string, rest: string)
    ensures var s := ws + sign + prefix + digits + rest;
            s == ws + sign + (prefix + digits + rest) && s == (ws + sign + prefix) + digits + rest
              && s[|ws + sign|..] == prefix + digits + rest
  {
  }

  /** What the scan makes of a string with these parts. */
  lemma PartsScan(s: string, ws: string, sign: string, prefix: string, digits: string, ds: seq<nat>, rest: string,
                  base: nat, b: nat)
    requires s == ws + sign + prefix + digits + rest && Parts(ws, sign, prefix, digits, ds, rest, base, b)
    ensures Negative(s) == (sign == "-") && Start(s, base) == |ws + sign + prefix| && Base(s, base) == b
    ensures Stop(s, |ws + sign + prefix|, b) == |ws + sign + prefix + digits|
    ensures Value(s, |ws + sign + prefix|, |ws + sign + prefix + digits|, b) == Number(ds, b)
  {
    hide Blank, Begun, Prefixed, Run, Number, Value, Stop, Skip, HexPrefix, Negative, AfterSign, At, IsSpace;
    Regroup(ws, sign, prefix, digits, rest);
    FirstPart(sign, prefix, digits, ds, rest, base, b);
    SignAt(s, ws, sign, prefix + digits + rest);
    PrefixAt(s, |ws + sign|, sign, prefix, digits, ds, rest, base, b);
    DigitsAt(s, ws + sign + prefix, digits, ds, rest, b);
  }

  lemma {:induction false} SkipSpaces(s: string, i: nat)
    requires i <= |s|
    ensures i <= Skip(s, i) <= |s| && Blank(s[i..Skip(s, i)])
    ensures Skip(s, i) < |s| ==> !IsSpace(s[Skip(s, i)])
    decreases |s| - i
  {
    if i < |s| && IsSpace(s[i]) {
      SkipSpaces(s, i + 1);
      assert s[i..Skip(s, i)] == [s[i]] + s[i + 1..Skip(s, i)];
    }
  }

  lemma {:induction false} StopRun(s: string, i: nat, base: nat)
    requires i <= |s|
    ensures Stop(s, i, base) <= |s| && forall k :: i <= k < Stop(s, i, base) ==> Digit(s[k]) < base
    ensures Stop(s, i, base) < |s| ==> Digit(s[Stop(s, i, base)]) >= base
    decreases |s| - i
  {
    hide Digit;
    if i < |s| && Digit(s[i]) < base { StopRun(s, i + 1, base); }
  }

  lemma RunAt(s: string, lo: nat, b: nat) returns (ds: seq<nat>)
    requires lo <= |s| && b <= 36
    ensures Stop(s, lo, b) <= |s| && Run(s[lo..Stop(s, lo, b)], ds, s[Stop(s, lo, b)..], b)
  {
    hide Digit, Spells, Stop;
    StopRun(s, lo, b);
    var e := Stop(s, lo, b);
    var digits, rest := s[lo..e], s[e..];
    ds := seq(|digits|, k requires 0 <= k < |digits| => Digit(digits[k]));
    forall k | 0 <= k < |ds| ensures ds[k] < b && Spells(digits[k], ds[k]) {
      assert digits[k] == s[lo + k];
      SpellsDigit(digits[k], ds[k]);
    }
    if rest != [] {
      forall d | 0 <= d < b ensures !Spells(rest[0], d) { SpellsDigit(rest[0], d); }
    }
  }

  /** Every string has such parts. */
  lemma HasParts(s: string, base: nat)
    returns (ws: string, sign: string, prefix: string, digits: string, ds: seq<nat>, rest: string, b: nat)
    requires base == 0 || 2 <= base <= 36
    ensures s == ws + sign + prefix + digits + rest && Parts(ws, sign, prefix, digits, ds, rest, base, b)
  {
    hide Skip, Stop, Run, Blank, Begun, Prefixed, Start, Base, AfterSign;
    SkipSpaces(s, 0);
    var i := Skip(s, 0);
    var j, lo := AfterSign(s, i), Start(s, base);
    b := Base(s, base);
    PrefixHere(s, base);
    ds := RunAt(s, lo, b);
    var e := Stop(s, lo, b);
    ws, sign, prefix, digits, rest := s[0..i], s[i..j], s[j..lo], s[lo..e], s[e..];
    BegunHere(s, base);
    assert digits + rest == s[lo..];
    Joined(s, i, j, lo, e);
  }

  lemma Joined(s: string, i: nat, j: nat, lo: nat, e: nat)
    requires i <= j <= lo <= e <= |s|
    ensures s == s[0..i] + s[i..j] + s[j..lo] + s[lo..e] + s[e..]
  {
  }

  lemma PrefixHere(s: string, base: nat)
    requires (base == 0 || 2 <= base <= 36) && Skip(s, 0) <= |s|
    ensures var j, lo := AfterSign(s, Skip(s, 0)), Start(s, base);
            Skip(s, 0) <= j <= lo <= |s| && Prefixed(s[j..lo], s[lo..], base, Base(s, base)) && Base(s, base) <= 36
  {
    hide Digit, Spells, StartsHex, Skip;
    var j, lo := AfterSign(s, Skip(s, 0)), Start(s, base);
    HexAt(s, j, s[j..]);
    PrefixInside(s, j, base);
  }

  lemma BegunHere(s: string, base: nat)
    requires (base == 0 || 2 <= base <= 36) && Skip(s, 0) <= |s|
    requires Skip(s, 0) < |s| ==> !IsSpace(s[Skip(s, 0)])
    ensures var i, lo, b := Skip(s, 0), Start(s, base), Base(s, base); var j, e := AfterSign(s, i), Stop(s, lo, b);
            i <= j <= lo <= e <= |s| && Begun(s[i..j], s[j..lo], s[lo..e], s[e..])
  {
    hide Skip, Digit;
    var i, lo, b := Skip(s, 0), Start(s, base), Base(s, base);
    var j := AfterSign(s, i);
    PrefixInside(s, j, base);
    StopRun(s, lo, b);
  }

  lemma PrefixInside(s: string, j: nat, base: nat)
    requires j <= |s|
    ensures HexPrefix(s, j, base) ==>
              j + 2 < |s| && (s[j..j + 2] == "0x" || s[j..j + 2] == "0X") && Digit(s[j + 2]) < 16
  {
    NulDigit();
  }

  /** strtol on a string with these parts. */
  method StrtolParts(ws: string, sign: string, prefix: string, digits: string, ghost ds: seq<nat>, rest: string,
                     base: nat, ghost b: nat) returns (r: int, end: nat)
    requires (base == 0 || 2 <= base <= 36) && Parts(ws, sign, prefix, digits, ds, rest, base, b)
    ensures digits == [] ==> r == 0 && end == 0
    ensures digits != [] ==> end == |ws + sign + prefix + digits|
    ensures digits != [] ==>
      var v: int := if sign == "-" then -(Number(ds, b) as int) else Number(ds, b);
      r == if v < -0x8000_0000_0000_0000 then -0x8000_0000_0000_0000
           else if v > 0x7FFF_FFFF_FFFF_FFFF then 0x7FFF_FFFF_FFFF_FFFF else v
  {
    hide Parts, Negative, Start, Base, Stop, Value, Number;
    PartsScan(ws + sign + prefix + digits + rest, ws, sign, prefix, digits, ds, rest, base, b);
    r, end := Strtol(ws + sign + prefix + digits + rest, base);
  }

  /** strtoull on a string with these parts. */
  method StrtoullParts(ws: string, sign: string, prefix: string, digits: string, ghost ds: seq<nat>, rest: string,
                       base: nat, ghost b: nat) returns (r: nat, end: nat)
    requires (base == 0 || 2 <= base <= 36) && Parts(ws, sign, prefix, digits, ds, rest, base, b)
    ensures digits == [] ==> r == 0 && end == 0
    ensures digits != [] ==> end == |ws + sign + prefix + digits|
    ensures digits != [] ==>
      var v := Number(ds, b);
      if v >= 0x1_0000_0000_0000_0000 then r == 0xFFFF_FFFF_FFFF_FFFF
      else if sign == "-" then r == if v == 0 then 0 else 0x1_0000_0000_0000_0000 - v
      else r == v
  {
    hide Parts, Negative, Start, Base, Stop, Value, Number;
    PartsScan(ws + sign + prefix + digits + rest, ws, sign, prefix, digits, ds, rest, base, b);
    r, end := Strtoull(ws + sign + prefix + digits + rest, base);
  }

  lemma NulDigit()
    ensures Digit('\0') == 36
  {
  }

  // ---------------------------------------------------------------- printing

  function DigitChar(d: nat, capitalise: bool): char
    requires d < 36
  {
    if d < 10 then (d + '0' as int) as char
    else if capitalise then (d - 10 + 'A' as int) as char
    else (d - 10 + 'a' as int) as char
  }

  lemma DigitOfChar(d: nat, capitalise: bool)
    requires d < 36
    ensures Digit(DigitChar(d, capitalise)) == d
  {
  }

  lemma TwiceAtMost(q: nat, radix: nat)
    requires radix >= 2
    ensures q * radix >= 2 * q
  {
  }

  lemma Shrinks(u: nat, radix: nat)
    requires 2 <= radix <= u
    ensures 0 <= u / radix < u && 0 <= u % radix < radix
  {
    var q := u / radix;
    assert u == q * radix + u % radix;
    TwiceAtMost(q, radix);
  }

  /** The digits of a number, highest first. */
  function Digits(u: nat, radix: nat, capitalise: bool): (s: string)
    requires 2 <= radix <= 36
    ensures |s| > 0
    decreases u
  {
    if u < radix then [DigitChar(u, capitalise)]
    else
      Shrinks(u, radix);
      Digits(u / radix, radix, capitalise) + [DigitChar(u % radix, capitalise)]
  }

  /** Quotient and remainder, with what the proofs need of them. */
  lemma Divide(u: nat, radix: nat) returns (q: nat, r: nat)
    requires radix >= 2
    ensures q == u / radix && r == u % radix && u == q * radix + r == radix * q + r && r < radix
    ensures if u < radix then q == 0 && r == u else 0 < q < u
  {
    q, r := u / radix, u % radix;
    Times2Gap(q, radix);
    assert q == 0 ==> q * radix == 0;
  }

  lemma Times2Gap(q: nat, radix: nat)
    requires radix >= 2
    ensures q * radix >= q + q
  {
    assert q * radix == q + q + q * (radix - 2);
  }

  lemma DigitsStep(u: nat, radix: nat, capitalise: bool, q: nat, r: nat)
    requires 2 <= radix <= 36 && q == u / radix && r == u % radix && r < radix
    ensures u < radix ==> Digits(u, radix, capitalise) == [DigitChar(u, capitalise)]
    ensures u >= radix ==> Digits(u, radix, capitalise) == Digits(q, radix, capitalise) + [DigitChar(r, capitalise)]
  {
  }

  function Power(radix: nat, n: nat): nat {
    if n == 0 then 1 else radix * Power(radix, n - 1)
  }

  /** A number with n digits is at least radix to the n - 1. */
  lemma {:induction false} DigitsLength(u: nat, radix: nat, capitalise: bool)
    requires 2 <= radix <= 36
    ensures u > 0 ==> Power(radix, |Digits(u, radix, capitalise)| - 1) <= u
  {
    hide Digits, Power;
    var q, r := Divide(u, radix);
    DigitsStep(u, radix, capitalise, q, r);
    if u >= radix {
      DigitsLength(q, radix, capitalise);
      var n := |Digits(q, radix, capitalise)|;
      PowerStep(radix, n);
      TimesLe(radix, Power(radix, n - 1), q);
    } else {
      PowerStep(radix, 0);
    }
  }

  lemma PowerStep(radix: nat, n: nat)
    ensures if n == 0 then Power(radix, n) == 1 else Power(radix, n) == radix * Power(radix, n - 1)
  {
  }

  lemma TimesLe(a: nat, x: nat, y: nat)
    requires x <= y
    ensures a * x <= a * y
  {
  }

  lemma {:induction false} PowerBase(radix: nat, n: nat)
    requires radix >= 10
    ensures Power(10, n) <= Power(radix, n)
  {
    if n > 0 {
      PowerBase(radix, n - 1);
      TimesLe(10, Power(10, n - 1), Power(radix, n - 1));
      TimesLe(Power(radix, n - 1), 10, radix);
    }
  }

  lemma {:induction false} PowerGrows(radix: nat, m: nat, n: nat)
    requires m <= n && radix > 0
    ensures Power(radix, m) <= Power(radix, n)
  {
    if m < n {
      PowerGrows(radix, m, n - 1);
      TimesLe(Power(radix, n - 1), 1, radix);
    }
  }

  lemma Power20()
    ensures Power(10, 20) == 100_000_000_000_000_000_000
  {
    assert Power(10, 5) == 100_000;
    assert Power(10, 10) == 100_000 * Power(10, 5);
    assert Power(10, 15) == 100_000 * Power(10, 10);
    assert Power(10, 20) == 100_000 * Power(10, 15);
  }

  /** Every 64-bit number has at most 20 digits in radix 10 and above. */
  lemma FitsBuffer(u: nat, radix: nat, capitalise: bool)
    requires 10 <= radix <= 36 && u <= ULLONG_MAX
    ensures |Digits(u, radix, capitalise)| <= 20
  {
    var n := |Digits(u, radix, capitalise)|;
    if n > 20 {
      DigitsLength(u, radix, capitalise);
      PowerGrows(radix, 20, n - 1);
      PowerBase(radix, 20);
      Power20();
    }
  }

  function Repeat(c: char, n: int): string {
    if n <= 0 then [] else Repeat(c, n - 1) + [c]
  }

  /** The field of a number: padded on the left for a positive width, on the
      right for a negative one. */
  function Field(u: nat, radix: nat, padc: char, padn: int, capitalise: bool): string
    requires 2 <= radix <= 36
  {
    var d := Digits(u, radix, capitalise);
    Repeat(padc, padn - |d|) + d + Repeat(padc, -(|d| + padn))
  }

  /** The part of a text that fits a buffer of n characters. */
  function Clip(t: string, n: nat): string { if |t| <= n then t else t[..n] }

  /** CHECK_AND_PUT_CHAR: buf holds the clipped text so far. */
  method PutChar(buf: string, n: nat, printed: nat, ch: char, ghost text: string) returns (buf': string, printed': nat)
    requires printed == |text| && buf == Clip(text, n)
    ensures printed' == |text + [ch]| && buf' == Clip(text + [ch], n)
  {
    buf' := buf;
    if printed < n {
      buf' := buf + [ch];
    } else {
      assert (text + [ch])[..n] == text[..n];
    }
    printed' := printed + 1;
  }

  method PutRepeat(buf: string, n: nat, printed: nat, padc: char, k: int, ghost text: string) returns (buf': string,
                   printed': nat)
    requires printed == |text| && buf == Clip(text, n)
    ensures printed' == |text + Repeat(padc, k)| && buf' == Clip(text + Repeat(padc, k), n)
  {
    buf', printed' := buf, printed;
    assert text + [] == text;
    var i := 0;
    while i < k
      invariant 0 <= i && (k > 0 ==> i <= k) && (k <= 0 ==> i == 0)
      invariant printed' == |text + Repeat(padc, i)| && buf' == Clip(text + Repeat(padc, i), n)
    {
      ghost var t := text + Repeat(padc, i);
      buf', printed' := PutChar(buf', n, printed', padc, t);
      i := i + 1;
      assert t + [padc] == text + Repeat(padc, i);
    }
  }

  /** The digits of a number into the 20-character buffer, lowest first; it is
      never overrun. */
  method FillDigits(numBuf: array<char>, unum: nat, radix: nat, capitalise: bool) returns (width: nat)
    requires numBuf.Length == 20 && 10 <= radix <= 36 && unum <= ULLONG_MAX
    modifies numBuf
    ensures var d := Digits(unum, radix, capitalise);
            width == |d| <= 20 && forall k :: 0 <= k < width ==> numBuf[k] == d[width - 1 - k]
  {
    hide Digits, DigitChar;
    ghost var d := Digits(unum, radix, capitalise);
    FitsBuffer(unum, radix, capitalise);
    var i: int, u: nat := 0, unum;
    var more := true;
    assert d[|d|..] == [];
    while more
      invariant 0 <= i <= |d| && (more ==> i < |d| && d == Digits(u, radix, capitalise) + d[|d| - i..])
                && (!more ==> i == |d|)
      invariant forall k :: 0 <= k < i ==> numBuf[k] == d[|d| - 1 - k]
      decreases if more then |d| - i + 1 else 0
    {
      ghost var q, r := Divide(u, radix);
      var rem := u % radix;
      numBuf[i] := DigitChar(rem, capitalise);
      LastDigit(u, radix, capitalise, d, i, q, r);
      i := i + 1;
      u := u / radix;
      more := u > 0;
    }
    width := i;
  }

  /** unsigned_num_print: appends the field to the text printed so far, of which
      the buffer keeps the first n characters. */
  method UnsignedNumPrint(buf: string, n: nat, printed: nat, unum: nat, radix: nat, padc: char, padn: int,
                          capitalise: bool, ghost text: string)
    returns (buf': string, printed': nat)
    requires 10 <= radix <= 36 && unum <= ULLONG_MAX
    requires printed == |text| && buf == Clip(text, n)
    ensures var all := text + Field(unum, radix, padc, padn, capitalise);
            printed' == |all| && buf' == Clip(all, n) && buf' <= all && |buf'| <= n && (|buf'| == n || buf' == all)
  {
    hide Digits, Clip, Repeat;
    ghost var d := Digits(unum, radix, capitalise);
    var numBuf := new char[20];
    var width := FillDigits(numBuf, unum, radix, capitalise);
    buf', printed' := PutRepeat(buf, n, printed, padc, padn - width, text);
    ghost var t := text + Repeat(padc, padn - width);
    var i: int := width;
    assert t + d[..0] == t;
    while i > 0
      invariant 0 <= i <= width && printed' == |t + d[..width - i]| && buf' == Clip(t + d[..width - i], n)
      invariant forall k :: 0 <= k < width ==> numBuf[k] == d[width - 1 - k]
    {
      ghost var now := t + d[..width - i];
      var ch := numBuf[i - 1];
      assert ch == d[width - i] && now + [ch] == t + d[..width - i + 1];
      buf', printed' := PutChar(buf', n, printed', ch, now);
      i := i - 1;
    }
    assert d[..width] == d;
    buf', printed' := PutRepeat(buf', n, printed', padc, -(width + padn), t + d);
    assert t + d + Repeat(padc, -(width + padn)) == text + Field(unum, radix, padc, padn, capitalise);
    Clipped(text + Field(unum, radix, padc, padn, capitalise), n);
  }

  lemma Clipped(t: string, n: nat)
    ensures var c := Clip(t, n); c <= t && |c| <= n && (|c| == n || c == t)
  {
  }

  lemma {:induction false} Repeated(c: char, n: int)
    ensures |Repeat(c, n)| == (if n <= 0 then 0 else n) && forall i :: 0 <= i < |Repeat(c, n)| ==> Repeat(c, n)[i] == c
    decreases n
  {
    if n > 0 { Repeated(c, n - 1); }
  }

  /** A field is the digits, filled up with the padding character to the width:
      before the digits for a positive width, behind them for a negative one. */
  lemma FieldShape(u: nat, radix: nat, padc: char, padn: int, capitalise: bool)
    requires 2 <= radix <= 36
    ensures var f, d := Field(u, radix, padc, padn, capitalise), Digits(u, radix, capitalise);
            && |f| == (if padn > |d| then padn else if -padn > |d| then -padn else |d|)
            && (padn >= 0 ==> f[|f| - |d|..] == d && forall i :: 0 <= i < |f| - |d| ==> f[i] == padc)
            && (padn < 0 ==> f[..|d|] == d && forall i :: |d| <= i < |f| ==> f[i] == padc)
  {
    hide Repeat, Digits;
    var d := Digits(u, radix, capitalise);
    Repeated(padc, padn - |d|);
    Repeated(padc, -(|d| + padn));
  }

  /** The digits printed spell the number in this radix, without leading zeros
      and with letters of the case asked for. */
  lemma {:induction false} DigitsSpell(u: nat, radix: nat, capitalise: bool) returns (ds: seq<nat>)
    requires 2 <= radix <= 36
    ensures var s := Digits(u, radix, capitalise);
            && |s| == |ds| > 0 && (|ds| > 1 ==> ds[0] != 0) && (u > 0 ==> ds[0] != 0) && Number(ds, radix) == u
            && forall i :: 0 <= i < |ds| ==>
                 ds[i] < radix && Spells(s[i], ds[i])
                 && (if capitalise then s[i] as int < 97 else s[i] as int < 65 || s[i] as int >= 97)
  {
    hide Digits, DigitChar, Spells, Number;
    var q, r := Divide(u, radix);
    DigitsStep(u, radix, capitalise, q, r);
    CharSpells(r, capitalise);
    if u < radix {
      ds := [u];
      NumberSnoc([], u, radix);
      assert [] + [u] == ds && 0 * radix == 0;
    } else {
      var low := DigitsSpell(q, radix, capitalise);
      ds := low + [r];
      NumberSnoc(low, r, radix);
    }
  }

  lemma CharSpells(d: nat, capitalise: bool)
    requires d < 36
    ensures var c := DigitChar(d, capitalise);
            Spells(c, d) && (if capitalise then c as int < 97 else c as int < 65 || c as int >= 97)
  {
  }

  lemma NumberSnoc(ds: seq<nat>, d: nat, base: nat)
    ensures Number(ds + [d], base) == Number(ds, base) * base + d && Number([], base) == 0
  {
    assert (ds + [d])[..|ds|] == ds;
  }

  /** The next digit from the right. */
  lemma LastDigit(u: nat, radix: nat, capitalise: bool, d: string, i: nat, q: nat, r: nat)
    requires 10 <= radix <= 36 && i < |d| && d == Digits(u, radix, capitalise) + d[|d| - i..]
    requires q == u / radix && r == u % radix && r < radix && (if u < radix then q == 0 && r == u else q > 0)
    ensures d[|d| - 1 - i] == DigitChar(r, capitalise)
    ensures q > 0 ==> i + 1 < |d| && d == Digits(q, radix, capitalise) + d[|d| - i - 1..]
    ensures q == 0 ==> i + 1 == |d|
  {
    hide Digits;
    DigitsStep(u, radix, capitalise, q, r);
    var p := Digits(u, radix, capitalise);
    assert |p| == |d| - i && d[..|p|] == p;
    if u >= radix {
      assert d[|d| - i - 1..] == [DigitChar(r, capitalise)] + d[|d| - i..];
    }
  }

  // ------------------------------------------------------------- round trip

  lemma {:induction false} DigitsAreDigits(u: nat, radix: nat, capitalise: bool, i: nat)
    requires 10 <= radix <= 36 && i < |Digits(u, radix, capitalise)|
    ensures Digit(Digits(u, radix, capitalise)[i]) < radix
  {
    hide Digits, DigitChar, Digit;
    var q, r := Divide(u, radix);
    DigitsStep(u, radix, capitalise, q, r);
    DigitOfChar(r, capitalise);
    if u >= radix && i < |Digits(u, radix, capitalise)| - 1 {
      DigitsAreDigits(q, radix, capitalise, i);
    }
  }

  lemma {:induction false} ValuePrefix(s: string, t: string, hi: nat, base: nat)
    requires hi <= |s|
    ensures Value(s + t, 0, hi, base) == Value(s, 0, hi, base)
    decreases hi
  {
    if hi > 0 { ValuePrefix(s, t, hi - 1, base); }
  }

  lemma {:induction false} ValueOfDigits(u: nat, radix: nat, capitalise: bool)
    requires 10 <= radix <= 36
    ensures var s := Digits(u, radix, capitalise); Value(s, 0, |s|, radix) == u
  {
    hide Digits, DigitChar, Digit, Value;
    var s := Digits(u, radix, capitalise);
    var q, r := Divide(u, radix);
    DigitsStep(u, radix, capitalise, q, r);
    DigitOfChar(r, capitalise);
    ValueStep(s, 0, |s| - 1, radix);
    if u < radix {
      ValueEmpty(s, 0, radix);
    } else {
      var p := Digits(q, radix, capitalise);
      ValueOfDigits(q, radix, capitalise);
      ValuePrefix(p, [DigitChar(r, capitalise)], |p|, radix);
    }
  }

  lemma {:induction false} StopAtEnd(s: string, i: nat, base: nat)
    requires i <= |s| && forall k :: i <= k < |s| ==> Digit(s[k]) < base
    ensures Stop(s, i, base) == |s|
    decreases |s| - i
  {
    if i < |s| { StopAtEnd(s, i + 1, base); }
  }

  /** A digit is no space and no sign, and the digits have no prefix. */
  lemma PlainDigits(u: nat, radix: nat, capitalise: bool)
    requires radix == 10 || radix == 16
    ensures var s := Digits(u, radix, capitalise);
            !Negative(s) && Start(s, radix) == 0 && Base(s, radix) == radix && Stop(s, 0, radix) == |s|
  {
    var s := Digits(u, radix, capitalise);
    forall k | 0 <= k < |s| ensures Digit(s[k]) < radix { DigitsAreDigits(u, radix, capitalise, k); }
    StopAtEnd(s, 0, radix);
    assert Digit(s[0]) < 16;
    assert !IsSpace(s[0]) && s[0] != '-' && s[0] != '+';
    if |s| > 1 { assert Digit(s[1]) < 16; }
  }

  /** strtoull reads back every 64-bit number the printer prints. */
  method PrintThenRead(u: nat, radix: nat, capitalise: bool) returns (r: nat, end: nat)
    requires (radix == 10 || radix == 16) && u <= ULLONG_MAX
    ensures r == u && end == |Digits(u, radix, capitalise)|
  {
    FitsBuffer(u, radix, capitalise);
    var text, printed := UnsignedNumPrint([], 20, 0, u, radix, ' ', 0, capitalise, []);
    ghost var s := Digits(u, radix, capitalise);
    assert Repeat(' ', 0 - |s|) == [] && [] + s + [] == s;
    assert text == s;
    PlainDigits(u, radix, capitalise);
    ValueOfDigits(u, radix, capitalise);
    r, end := Strtoull(text, radix);
  }
}
