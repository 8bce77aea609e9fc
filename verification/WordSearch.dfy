/** Searching memory a 32-bit word at a time: strlen, memchr and strchr. */
module WordSearch {
  // memory as bytes; an address is an index, and words lie at multiples of four
  type Memory = m: seq<bv8> | |m| % 4 == 0

  function Word(b0: bv8, b1: bv8, b2: bv8, b3: bv8): bv32 {
    (b0 as bv32) | ((b1 as bv32) << 8) | ((b2 as bv32) << 16) | ((b3 as bv32) << 24)
  }

  function WordAt(m: Memory, p: nat): bv32
    requires p % 4 == 0 && p < |m|
  { Word(m[p], m[p + 1], m[p + 2], m[p + 3]) }

  const LOW_MAGIC: bv32 := 0x01010101
  const HIGH_MAGIC: bv32 := 0x80808080
  const HOLES: bv32 := 0x7efefeff

  // the test of strlen and memchr
  predicate LowTest(w: bv32) { (w - LOW_MAGIC) & !w & HIGH_MAGIC != 0 }

  // the test of strchr
  predicate HoleTest(w: bv32) { ((w + HOLES) ^ !w) & !HOLES != 0 }

  function Repeat(c: bv8): bv32 {
    var pair := (c as bv32) | ((c as bv32) << 8);
    pair | (pair << 16)
  }

  /** The first test is exact: it tells whether some byte of the word is zero. */
  lemma LowTestExact(b0: bv8, b1: bv8, b2: bv8, b3: bv8)
    ensures LowTest(Word(b0, b1, b2, b3)) <==> b0 == 0 || b1 == 0 || b2 == 0 || b3 == 0
  {}

  /** The second one misses no zero byte, and misfires just on a highest byte of 128. */
  lemma HoleTestExact(b0: bv8, b1: bv8, b2: bv8, b3: bv8)
    ensures HoleTest(Word(b0, b1, b2, b3)) <==> b0 == 0 || b1 == 0 || b2 == 0 || b3 == 0 || b3 == 128
  {}

  lemma XorZero(b: bv8, c: bv8)
    ensures b ^ c == 0 <==> b == c
  {}

  lemma MaskWord(b0: bv8, b1: bv8, b2: bv8, b3: bv8, c: bv8)
    ensures Word(b0, b1, b2, b3) ^ Repeat(c) == Word(b0 ^ c, b1 ^ c, b2 ^ c, b3 ^ c)
  {
    hide Word, Repeat;
    calc {
      Word(b0, b1, b2, b3) ^ Repeat(c);
      { RepeatIs(c); }
      Word(b0, b1, b2, b3) ^ Word(c, c, c, c);
      { XorWord(b0, b1, b2, b3, c, c, c, c); }
      Word(b0 ^ c, b1 ^ c, b2 ^ c, b3 ^ c);
    }
  }

  lemma RepeatIs(c: bv8)
    ensures Repeat(c) == Word(c, c, c, c)
  {}

  lemma XorWord(a0: bv8, a1: bv8, a2: bv8, a3: bv8, b0: bv8, b1: bv8, b2: bv8, b3: bv8)
    ensures Word(a0, a1, a2, a3) ^ Word(b0, b1, b2, b3) == Word(a0 ^ b0, a1 ^ b1, a2 ^ b2, a3 ^ b3)
  {}

  /** Combined with the repeated character, the first test tells whether the character is in the word. */
  lemma MaskedExact(b0: bv8, b1: bv8, b2: bv8, b3: bv8, c: bv8)
    ensures LowTest(Word(b0, b1, b2, b3) ^ Repeat(c)) <==> b0 == c || b1 == c || b2 == c || b3 == c
  {
    MaskWord(b0, b1, b2, b3, c);
    LowTestExact(b0 ^ c, b1 ^ c, b2 ^ c, b3 ^ c);
    XorZero(b0, c);
    XorZero(b1, c);
    XorZero(b2, c);
    XorZero(b3, c);
  }

  lemma MaskedHoles(b0: bv8, b1: bv8, b2: bv8, b3: bv8, c: bv8)
    ensures b0 == c || b1 == c || b2 == c || b3 == c ==> HoleTest(Word(b0, b1, b2, b3) ^ Repeat(c))
  {
    MaskWord(b0, b1, b2, b3, c);
    HoleTestExact(b0 ^ c, b1 ^ c, b2 ^ c, b3 ^ c);
    XorZero(b0, c);
    XorZero(b1, c);
    XorZero(b2, c);
    XorZero(b3, c);
  }

  predicate Among(m: Memory, p: nat, c: bv8)
    requires p % 4 == 0 && p < |m|
  { m[p] == c || m[p + 1] == c || m[p + 2] == c || m[p + 3] == c }

  lemma ZeroTest(m: Memory, p: nat)
    requires p % 4 == 0 && p < |m|
    ensures LowTest(WordAt(m, p)) <==> Among(m, p, 0)
  {
    LowTestExact(m[p], m[p + 1], m[p + 2], m[p + 3]);
  }

  lemma ByteTest(m: Memory, p: nat, c: bv8)
    requires p % 4 == 0 && p < |m|
    ensures LowTest(WordAt(m, p) ^ Repeat(c)) <==> Among(m, p, c)
  {
    hide Word, Repeat, LowTest;
    MaskedExact(m[p], m[p + 1], m[p + 2], m[p + 3], c);
  }

  lemma ZeroHoles(m: Memory, p: nat)
    requires p % 4 == 0 && p < |m|
    ensures Among(m, p, 0) ==> HoleTest(WordAt(m, p))
  {
    HoleTestExact(m[p], m[p + 1], m[p + 2], m[p + 3]);
  }

  lemma ByteHoles(m: Memory, p: nat, c: bv8)
    requires p % 4 == 0 && p < |m|
    ensures Among(m, p, c) ==> HoleTest(WordAt(m, p) ^ Repeat(c))
  {
    hide Word, Repeat, HoleTest;
    MaskedHoles(m[p], m[p + 1], m[p + 2], m[p + 3], c);
  }

  ghost predicate None(m: Memory, from: nat, to: nat, c: bv8) {
    from <= to <= |m| && forall k :: from <= k < to ==> m[k] != c
  }

  // the string at str ends at z
  ghost predicate Ends(m: Memory, str: nat, z: nat) { z < |m| && m[z] == 0 && None(m, str, z, 0) }

  /** strlen: the distance to the terminator, from any alignment. */
  method StrLen(m: Memory, str: nat, ghost z: nat) returns (len: nat)
    requires Ends(m, str, z)
    ensures str + len == z && m[str + len] == 0 && forall k :: str <= k < str + len ==> m[k] != 0
  {
    hide Word, LowTest;
    var p := str;
    while p % 4 != 0
      invariant str <= p <= z
      decreases z - p
    {
      if m[p] == 0 {
        return p - str;
      }
      p := p + 1;
    }
    while true
      invariant str <= p <= z && p % 4 == 0
      decreases z - p
    {
      var w := WordAt(m, p);
      ZeroTest(m, p);
      if LowTest(w) {
        if m[p] == 0 {
          return p - str;
        }
        if m[p + 1] == 0 {
          return p - str + 1;
        }
        if m[p + 2] == 0 {
          return p - str + 2;
        }
        if m[p + 3] == 0 {
          return p - str + 3;
        }
      }
      p := p + 4;
    }
  }

  /** memchr: the first occurrence in the buffer, or none. */
  method MemChr(m: Memory, buf: nat, c: bv8, count: nat) returns (found: bool, at: nat)
    requires buf + count <= |m|
    ensures if found then buf <= at < buf + count && m[at] == c && forall k :: buf <= k < at ==> m[k] != c
            else forall k :: buf <= k < buf + count ==> m[k] != c
  {
    hide Word, Repeat, LowTest;
    var p, size := buf, count;
    while size > 0 && p % 4 != 0
      invariant buf <= p && p + size == buf + count && None(m, buf, p, c)
    {
      if m[p] == c {
        return true, p;
      }
      size, p := size - 1, p + 1;
    }
    var repeated := Repeat(c);
    while size >= 4
      invariant buf <= p && p + size == buf + count && None(m, buf, p, c) && (size > 0 ==> p % 4 == 0)
    {
      var w := WordAt(m, p) ^ repeated;
      ByteTest(m, p, c);
      if LowTest(w) {
        break;
      }
      p, size := p + 4, size - 4;
    }
    while size > 0
      invariant buf <= p && p + size == buf + count && None(m, buf, p, c)
    {
      if m[p] == c {
        return true, p;
      }
      size, p := size - 1, p + 1;
    }
    return false, 0;
  }

  /** strchr: the first occurrence up to the terminator, which itself can be asked for. */
  method StrChr(m: Memory, str: nat, c: bv8, ghost z: nat) returns (found: bool, at: nat)
    requires Ends(m, str, z)
    ensures if found then str <= at <= z && m[at] == c && forall k :: str <= k < at ==> m[k] != c
            else forall k :: str <= k <= z ==> m[k] != c
  {
    hide Word, Repeat, HoleTest;
    var p := str;
    while p % 4 != 0
      invariant str <= p <= z && None(m, str, p, c)
      decreases z - p
    {
      if m[p] == c {
        return true, p;
      } else if m[p] == 0 {
        return false, 0;
      }
      p := p + 1;
    }
    var mask := Repeat(c);
    while true
      invariant str <= p <= z && p % 4 == 0 && None(m, str, p, c)
      decreases z - p
    {
      var w := WordAt(m, p);
      ZeroHoles(m, p);
      ByteHoles(m, p, c);
      if HoleTest(w) || HoleTest(w ^ mask) {
        if m[p] == c {
          return true, p;
        } else if m[p] == 0 {
          return false, 0;
        }
        if m[p + 1] == c {
          return true, p + 1;
        } else if m[p + 1] == 0 {
          return false, 0;
        }
        if m[p + 2] == c {
          return true, p + 2;
        } else if m[p + 2] == 0 {
          return false, 0;
        }
        if m[p + 3] == c {
          return true, p + 3;
        } else if m[p + 3] == 0 {
          return false, 0;
        }
      }
      p := p + 4;
    }
  }
}
