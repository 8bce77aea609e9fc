/** Numbers written out and read back: itoa, otoa, htoa and atoi. */
module Numerals {
  import opened LongDivision

  const TWO_32: nat := 0x1_0000_0000

  function Digit(d: nat, capital: bool): char
    requires d < 16
  { if d < 10 then '0' + d as char else if capital then 'A' + (d - 10) as char else 'a' + (d - 10) as char }

  // the digits of n, highest first
  function Digits(n: nat, base: nat, capital: bool): seq<char>
    requires 2 <= base <= 16
  { if n < base then [Digit(n, capital)] else Digits(n / base, base, capital) + [Digit(n % base, capital)] }

  // ... and lowest first, of a number that may have none
  function LowDigits(n: nat, base: nat, capital: bool): seq<char>
    requires 2 <= base <= 16
  { if n == 0 then [] else [Digit(n % base, capital)] + LowDigits(n / base, base, capital) }

  function Reversed(s: seq<char>): (r: seq<char>)
    ensures |r| == |s|
  { if s == [] then [] else Reversed(s[1..]) + [s[0]] }

  lemma {:induction false} ReversedAt(s: seq<char>, k: nat)
    requires k < |s|
    ensures Reversed(s)[k] == s[|s| - 1 - k]
  {
    if k < |s| - 1 { ReversedAt(s[1..], k); }
  }

  lemma {:induction false} HighFirst(n: nat, base: nat, capital: bool)
    requires 2 <= base <= 16 && n > 0
    ensures Reversed(LowDigits(n, base, capital)) == Digits(n, base, capital)
  {
    DivMod(n, base);
    if n < base {
      assert LowDigits(n / base, base, capital) == [];
    } else {
      HighFirst(n / base, base, capital);
    }
  }

  // ---- reading

  // what a character counts for, if it counts
  function Value(c: char, base: int): int {
    if '0' <= c <= '9' && c as int <= '0' as int + base then c as int - '0' as int
    else if base >= 16 then
      if 'a' <= c && c as int <= 'a' as int + base - 10 then c as int - 'a' as int + 10
      else if 'A' <= c && c as int <= 'A' as int + base - 10 then c as int - 'A' as int + 10
      else -1
    else -1
  }

  // the value of s read on from ret, up to the first character that does not count
  function Read(s: seq<char>, base: int, ret: nat): nat {
    if s == [] || Value(s[0], base) < 0 then ret
    else Read(s[1..], base, (ret * base + Value(s[0], base)) % TWO_32)
  }

  predicate AllCount(s: seq<char>, base: int) { forall k :: 0 <= k < |s| ==> Value(s[k], base) >= 0 }

  lemma {:induction false} ReadMore(s: seq<char>, c: char, base: nat, ret: nat)
    requires AllCount(s, base) && Value(c, base) >= 0
    ensures Read(s + [c], base, ret) == (Read(s, base, ret) * base + Value(c, base)) % TWO_32
  {
    if s == [] {
      assert [c][1..] == [];
    } else {
      assert (s + [c])[1..] == s[1..] + [c];
      ReadMore(s[1..], c, base, (ret * base + Value(s[0], base)) % TWO_32);
    }
  }

  lemma ModStep(x: nat, base: nat, d: nat)
    ensures (x % TWO_32 * base + d) % TWO_32 == (x * base + d) % TWO_32
  {
    var q, r := x / TWO_32, x % TWO_32;
    assert x * base == TWO_32 * (q * base) + r * base;
    ModAdd(r * base + d, q * base);
  }

  lemma ModAdd(x: nat, k: nat)
    ensures (x + TWO_32 * k) % TWO_32 == x % TWO_32
  {}

  lemma DigitCounts(d: nat, base: nat, capital: bool)
    requires d < base <= 16 && (base <= 10 || base == 16)
    ensures Value(Digit(d, capital), base) == d
  {}

  lemma ReadStep(ds: seq<char>, q: nat, c: char, base: nat)
    requires AllCount(ds, base) && Read(ds, base, 0) == q % TWO_32 && Value(c, base) >= 0
    ensures AllCount(ds + [c], base) && Read(ds + [c], base, 0) == (q * base + Value(c, base)) % TWO_32
  {
    ReadMore(ds, c, base, 0);
    ModStep(q, base, Value(c, base));
  }

  lemma DivMod(n: nat, base: nat)
    requires base >= 2
    ensures n == n / base * base + n % base && n % base < base && (n > 0 ==> n / base < n)
    ensures n < base ==> n % base == n && n / base == 0
  {}

  lemma DigitsStep(n: nat, base: nat, capital: bool)
    requires 2 <= base <= 16
    ensures n < base ==> Digits(n, base, capital) == [] + [Digit(n, capital)]
    ensures n >= base ==> Digits(n, base, capital) == Digits(n / base, base, capital) + [Digit(n % base, capital)]
  {}

  /** Reading what was written gives the number back, modulo 2^32. */
  lemma {:induction false} ReadBack(n: nat, base: nat, capital: bool)
    requires 2 <= base <= 16 && (base <= 10 || base == 16)
    ensures AllCount(Digits(n, base, capital), base)
    ensures Read(Digits(n, base, capital), base, 0) == n % TWO_32
    decreases n
  {
    hide Digits, Digit, Value, Read, AllCount;
    DivMod(n, base);
    DigitsStep(n, base, capital);
    var q, d := n / base, n % base;
    DigitCounts(d, base, capital);
    if n < base {
      NothingRead(base);
      ReadStep([], 0, Digit(d, capital), base);
    } else {
      ReadBack(q, base, capital);
      ReadStep(Digits(q, base, capital), q, Digit(d, capital), base);
    }
  }

  lemma NothingRead(base: nat)
    ensures AllCount([], base) && Read([], base, 0) == 0
  {}

  // ---- reading as it should be

  // what a character stands for in a base, or -1 if it is no digit of it
  function Proper(c: char, base: int): int {
    var d := if '0' <= c <= '9' then c as int - '0' as int
             else if 'a' <= c <= 'z' then c as int - 'a' as int + 10
             else if 'A' <= c <= 'Z' then c as int - 'A' as int + 10
             else 36;
    if d < base then d else -1
  }

  // the characters misread: the digit equal to the base is let through, and from 11 to 15 no letter is
  predicate Misread(c: char, base: int) {
    || (base <= 9 && c as int == '0' as int + base)
    || (base >= 16 && (c as int == 'a' as int + base - 10 || c as int == 'A' as int + base - 10))
    || (10 < base < 16
        && ('a' as int <= c as int < 'a' as int + base - 10 || 'A' as int <= c as int < 'A' as int + base - 10))
  }

  /** A character is taken for what it stands for just when it is none of the misread ones. */
  lemma ValueExact(c: char, base: int)
    requires 2 <= base <= 36
    ensures Value(c, base) == Proper(c, base) <==> !Misread(c, base)
  {}

  // the digits read from s, by the reader and as they should be
  function ReadDigits(s: seq<char>, base: int): seq<nat> {
    if s == [] || Value(s[0], base) < 0 then [] else [Value(s[0], base)] + ReadDigits(s[1..], base)
  }

  function ProperDigits(s: seq<char>, base: int): seq<nat> {
    if s == [] || Proper(s[0], base) < 0 then [] else [Proper(s[0], base)] + ProperDigits(s[1..], base)
  }

  // only digits of the base stand before k
  predicate Reached(s: seq<char>, base: int, k: nat) { k < |s| && forall j :: 0 <= j < k ==> Proper(s[j], base) >= 0 }

  predicate ReadsWell(s: seq<char>, base: int) {
    forall k: nat {:trigger s[k]} :: k < |s| && Reached(s, base, k) ==> !Misread(s[k], base)
  }

  // the number with these digits, modulo 2^32
  function Number(ds: seq<nat>, base: int, ret: nat): nat {
    if ds == [] then ret else Number(ds[1..], base, (ret * base + ds[0]) % TWO_32)
  }

  lemma ReadsWellStep(s: seq<char>, base: int)
    requires 2 <= base <= 36 && s != []
    ensures ReadsWell(s, base) <==> !Misread(s[0], base) && (Proper(s[0], base) >= 0 ==> ReadsWell(s[1..], base))
  {
    var t := s[1..];
    forall k: nat | k < |t| ensures t[k] == s[k + 1] {}
    if Proper(s[0], base) >= 0 {
      forall k: nat | k < |t| ensures Reached(t, base, k) <==> Reached(s, base, k + 1) {
        if Reached(s, base, k + 1) { assert forall j :: 0 <= j < k ==> t[j] == s[j + 1]; }
      }
      if ReadsWell(s, base) {
        assert Reached(s, base, 0);
        forall k: nat | Reached(t, base, k) ensures !Misread(t[k], base) {
          assert Reached(s, base, k + 1) && t[k] == s[k + 1];
        }
      }
      if !Misread(s[0], base) && ReadsWell(t, base) {
        forall k: nat | Reached(s, base, k) ensures !Misread(s[k], base) {
          if k > 0 { assert Reached(t, base, k - 1) && t[k - 1] == s[k]; }
        }
      }
    } else {
      assert Reached(s, base, 0);
      forall k: nat | Reached(s, base, k) ensures k == 0 {}
    }
  }

  /** In every base, the digits the reader takes from a string are those it should take just when no misread character
      is reached; the result is then the standard reading. */
  lemma ReadingExact(s: seq<char>, base: int)
    requires 2 <= base <= 36
    ensures ReadDigits(s, base) == ProperDigits(s, base) <==> ReadsWell(s, base)
    ensures ReadsWell(s, base) ==> Read(s, base, 0) == Number(ProperDigits(s, base), base, 0)
  {
    DigitsExact(s, base);
    ReadIsNumber(s, base, 0);
  }

  lemma {:induction false} DigitsExact(s: seq<char>, base: int)
    requires 2 <= base <= 36
    ensures ReadDigits(s, base) == ProperDigits(s, base) <==> ReadsWell(s, base)
  {
    if s != [] {
      var r, p := ReadDigits(s, base), ProperDigits(s, base);
      ReadsWellStep(s, base);
      ValueExact(s[0], base);
      DigitsExact(s[1..], base);
      if Value(s[0], base) >= 0 { assert r[0] == Value(s[0], base) && r[1..] == ReadDigits(s[1..], base); }
      if Proper(s[0], base) >= 0 { assert p[0] == Proper(s[0], base) && p[1..] == ProperDigits(s[1..], base); }
    }
  }

  lemma {:induction false} ReadIsNumber(s: seq<char>, base: int, ret: nat)
    ensures Read(s, base, ret) == Number(ReadDigits(s, base), base, ret)
  {
    if s != [] && Value(s[0], base) >= 0 {
      ReadIsNumber(s[1..], base, (ret * base + Value(s[0], base)) % TWO_32);
    }
  }

  /** In base 10 no character is misread; in base 8 an 8 and in base 11 an a is. */
  lemma MisreadShown(c: char)
    ensures !Misread(c, 10)
    ensures Value('8', 8) == 8 && Proper('8', 8) == -1 && Value('a', 11) == -1 && Proper('a', 11) == 10
  {}

  // the number that a numeral stands for
  function Amount(s: seq<char>, base: int): int {
    if s == [] then 0 else Amount(s[..|s| - 1], base) * base + Proper(s[|s| - 1], base)
  }

  // no letter of the other case
  predicate InCase(c: char, capital: bool) { if capital then !('a' <= c <= 'z') else !('A' <= c <= 'Z') }

  /** What is written is the numeral of the number, in the letter case asked for and without a leading zero. */
  lemma {:induction false} NumeralExact(n: nat, base: nat, capital: bool)
    requires 2 <= base <= 16
    ensures var ds := Digits(n, base, capital);
            && Amount(ds, base) == n && ds != [] && (n > 0 ==> ds[0] != '0') && (n == 0 ==> ds == ['0'])
            && forall c <- ds :: 0 <= Proper(c, base) < base && InCase(c, capital)
    decreases n
  {
    hide Digits, Digit, Proper, InCase;
    DivMod(n, base);
    DigitsStep(n, base, capital);
    var c := Digit(n % base, capital);
    DigitProper(n % base, base, capital);
    if n < base {
      assert [] + [c] == [c] && [c][..0] == [];
      assert Amount([c], base) == Amount([], base) * base + Proper(c, base);
    } else {
      var ds := Digits(n / base, base, capital);
      NumeralExact(n / base, base, capital);
      assert (ds + [c])[..|ds|] == ds;
    }
  }

  /** Letters are written in the case asked for. */
  lemma LetterCase(n: nat, base: nat, capital: bool)
    requires 2 <= base <= 16
    ensures forall c <- Digits(n, base, capital) :: if capital then !('a' <= c <= 'z') else !('A' <= c <= 'Z')
  {
    NumeralExact(n, base, capital);
    forall c | c in Digits(n, base, capital) ensures if capital then !('a' <= c <= 'z') else !('A' <= c <= 'Z') {
      assert InCase(c, capital);
    }
  }

  lemma DigitProper(d: nat, base: nat, capital: bool)
    requires d < base <= 16
    ensures Proper(Digit(d, capital), base) == d && InCase(Digit(d, capital), capital)
    ensures Digit(d, capital) == '0' <==> d == 0
  {}

  /** The result of atoi is the one number congruent to the word that 32 bits with a sign can hold. */
  lemma SignedExact(x: nat)
    requires x < TWO_32
    ensures -0x8000_0000 <= Signed(x) < 0x8000_0000 && (Signed(x) - x) % TWO_32 == 0
  {}

  // ---- strings in memory

  ghost predicate Holds(buf: array<char>, s: seq<char>)
    reads buf
  { |s| < buf.Length && buf[..|s|] == s && buf[|s|] == '\0' && '\0' !in s }

  // the first k characters of the buffer, in place
  method Reverse(buf: array<char>, k: nat)
    requires 0 < k <= buf.Length
    modifies buf
    ensures buf[..k] == Reversed(old(buf[..k])) && buf[k..] == old(buf[k..])
  {
    ghost var s := buf[..k];
    var p1, p2 := 0, k - 1;
    while p2 > p1
      invariant p1 + p2 == k - 1 && p1 <= p2 + 1
      invariant forall n :: 0 <= n < p1 || p2 < n < k ==> buf[n] == s[k - 1 - n]
      invariant forall n :: p1 <= n <= p2 ==> buf[n] == s[n]
      invariant buf[k..] == old(buf[k..])
    {
      buf[p1], buf[p2] := buf[p2], buf[p1];
      p1, p2 := p1 + 1, p2 - 1;
    }
    forall n: nat | n < k ensures buf[n] == Reversed(s)[n] { ReversedAt(s, n); }
  }

  // the digits are written lowest first, then turned round
  method Finish(buf: array<char>, p: nat, ghost num: nat, ghost base: nat, ghost capital: bool)
    requires 2 <= base <= 16 && num > 0 && 0 < p < buf.Length && buf[..p] == LowDigits(num, base, capital)
    modifies buf
    ensures Holds(buf, Digits(num, base, capital))
  {
    Reverse(buf, p);
    HighFirst(num, base, capital);
    buf[p] := '\0';
    NoNul(num, base, capital);
  }

  lemma {:induction false} NoNul(n: nat, base: nat, capital: bool)
    requires 2 <= base <= 16
    ensures '\0' !in Digits(n, base, capital) && |Digits(n, base, capital)| > 0
  {
    hide Digit;
    DivMod(n, base);
    NotNul(n % base, capital);
    if n >= base { NoNul(n / base, base, capital); }
  }

  lemma NotNul(d: nat, capital: bool)
    requires d < 16
    ensures Digit(d, capital) != '\0'
  {}

  lemma LowLength(n: nat, base: nat, capital: bool)
    requires 2 <= base <= 16 && n > 0
    ensures |LowDigits(n, base, capital)| == |Digits(n, base, capital)| && LowDigits(0, base, capital) == []
  {
    HighFirst(n, base, capital);
  }

  lemma LowNext(written: seq<char>, n: nat, base: nat, capital: bool)
    requires 2 <= base <= 16 && n > 0
    ensures n / base < n
    ensures written + LowDigits(n, base, capital) == written + [Digit(n % base, capital)] + LowDigits(n / base, base,
        capital)
  {
    DivMod(n, base);
    Regrouped(written, [Digit(n % base, capital)], LowDigits(n / base, base, capital));
  }

  lemma Regrouped(a: seq<char>, b: seq<char>, c: seq<char>)
    ensures a + (b + c) == a + b + c
  {}

  method Itoa(buf: array<char>, num: nat)
    requires num < Pow2(64) && |Digits(num, 10, false)| < buf.Length
    modifies buf
    ensures Holds(buf, Digits(num, 10, false))
  {
    if num == 0 {
      buf[0] := '0';
      buf[1] := '\0';
      return;
    }
    LowLength(num, 10, false);
    var n: nat, p: nat := num, 0;
    while n != 0
      invariant n <= num && p < buf.Length && buf[..p] + LowDigits(n, 10, false) == LowDigits(num, 10, false)
      decreases n
    {
      ghost var written := buf[..p];
      var d := Mod64(n, 10);
      buf[p] := d as char + '0';
      LowNext(written, n, 10, false);
      assert buf[..p + 1] == written + [buf[p]];
      n := Div64(n, 10);
      p := p + 1;
    }
    Finish(buf, p, num, 10, false);
  }

  method Otoa(buf: array<char>, num: nat)
    requires num < Pow2(64) && |Digits(num, 8, false)| < buf.Length
    modifies buf
    ensures Holds(buf, Digits(num, 8, false))
  {
    if num == 0 {
      buf[0] := '0';
      buf[1] := '\0';
      return;
    }
    LowLength(num, 8, false);
    var n: nat, p: nat := num, 0;
    while n != 0
      invariant n <= num && p < buf.Length && buf[..p] + LowDigits(n, 8, false) == LowDigits(num, 8, false)
      decreases n
    {
      ghost var written := buf[..p];
      buf[p] := (n % 8) as char + '0';
      LowNext(written, n, 8, false);
      assert buf[..p + 1] == written + [buf[p]];
      n := n / 8;
      p := p + 1;
    }
    Finish(buf, p, num, 8, false);
  }

  method HexDigit(t: nat, capital: bool) returns (c: char)
    requires t < 16
    ensures c == Digit(t, capital)
  {
    if t < 10 {
      c := t as char + '0';
    } else {
      if capital {
        c := (t - 10) as char + 'A';
      } else {
        c := (t - 10) as char + 'a';
      }
    }
  }

  method Htoa(buf: array<char>, num: nat, capital: bool)
    requires num < Pow2(64) && |Digits(num, 16, capital)| < buf.Length
    modifies buf
    ensures Holds(buf, Digits(num, 16, capital))
  {
    if num == 0 {
      buf[0] := '0';
      buf[1] := '\0';
      return;
    }
    LowLength(num, 16, capital);
    hide Digits, LowDigits, Pow2;
    var n: nat, p: nat := num, 0;
    while n != 0
      invariant n <= num && p < buf.Length && buf[..p] + LowDigits(n, 16, capital) == LowDigits(num, 16, capital)
      decreases n
    {
      ghost var written := buf[..p];
      var t := n % 16;
      buf[p] := HexDigit(t, capital);
      assert buf[p] == Digit(n % 16, capital) && buf[..p] == written;
      LowNext(written, n, 16, capital);
      assert buf[..p + 1] == written + [buf[p]];
      n := n / 16;
      p := p + 1;
    }
    Finish(buf, p, num, 16, capital);
  }

  // a 32-bit word taken for a signed number
  function Signed(x: nat): int { if x < TWO_32 / 2 then x else x - TWO_32 }

  // the terminator's place in a buffer of characters; WordSearch.StrLen is the search word by word
  method Length(str: array<char>, ghost s: seq<char>) returns (len: nat)
    requires Holds(str, s)
    ensures len == |s|
  {
    len := 0;
    assert forall k :: 0 <= k < |s| ==> str[k] == s[k] && s[k] in s;
    while str[len] != '\0'
      invariant len <= |s|
      decreases |s| - len
    {
      len := len + 1;
    }
  }

  method Atoi(str: array<char>, base: int, ghost s: seq<char>) returns (r: int)
    requires Holds(str, s)
    ensures r == if base > 36 then 0 else Signed(Read(s, base, 0))
  {
    var len := Length(str, s);
    if base > 36 {
      return 0;
    }
    var ret: nat, p := 0, 0;
    while p < len
      invariant p <= len && Read(s[p..], base, ret) == Read(s, base, 0)
    {
      var c := str[p];
      assert s[p] == str[..|s|][p] && s[p..][0] == c && s[p..][1..] == s[p + 1..];
      var num: nat;
      if '0' <= c <= '9' && c as int <= '0' as int + base {
        num := c as int - '0' as int;
      } else if base >= 16 {
        if 'a' <= c && c as int <= 'a' as int + base - 10 {
          num := c as int - 'a' as int + 10;
        } else if 'A' <= c && c as int <= 'A' as int + base - 10 {
          num := c as int - 'A' as int + 10;
        } else {
          return Signed(ret);
        }
      } else {
        return Signed(ret);
      }
      ret := (ret * base + num) % TWO_32;
      p := p + 1;
    }
    return Signed(ret);
  }

  datatype Format = Decimal | Octal | Hexadecimal(capital: bool) {
    function Base(): nat { if Decimal? then 10 else if Octal? then 8 else 16 }
    function Capital(): bool { Hexadecimal? && capital }
  }

  /** What is written in any of the three formats and read back in its base is the number again, as a 32-bit word. */
  method RoundTrip(buf: array<char>, num: nat, format: Format) returns (r: int)
    requires num < Pow2(64) && |Digits(num, format.Base(), format.Capital())| < buf.Length
    modifies buf
    ensures r == Signed(num % TWO_32)
  {
    match format {
      case Decimal => Itoa(buf, num);
      case Octal => Otoa(buf, num);
      case Hexadecimal(capital) => Htoa(buf, num, capital);
    }
    ReadBack(num, format.Base(), format.Capital());
    r := Atoi(buf, format.Base(), Digits(num, format.Base(), format.Capital()));
  }
}
