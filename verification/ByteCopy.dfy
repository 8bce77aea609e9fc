/** memcpy and memmove over one array of bytes, an address being an index. The moves by wide elements demand of their
    callers that the distance between the two addresses is a multiple of the width. */
module ByteCopy {
  type Bytes = seq<bv8>

  // m' is m but for the size bytes at dest, which are those that were at src
  ghost predicate Moved(m: Bytes, m': Bytes, dest: nat, src: nat, size: nat) {
    && |m'| == |m| && dest + size <= |m| && src + size <= |m|
    && (forall k {:trigger m'[k]} :: 0 <= k < |m| ==>
          m'[k] == if dest <= k < dest + size then m[k - dest + src] else m[k])
  }

  // copying upwards is safe: the target lies below the source or clear of it
  predicate Clear(dest: nat, src: nat, size: nat) { dest <= src || src + size <= dest }

  lemma ClearPart(dest: nat, src: nat, size: nat, n: nat, k: nat)
    requires Clear(dest, src, size) && n + k <= size
    ensures Clear(dest + n, src + n, k) && Clear(dest, src, n + k)
  {}

  // two moves in a row make one, upwards when the target lies below the source or clear of it
  lemma MovedUp(m: Bytes, m1: Bytes, m2: Bytes, dest: nat, src: nat, n: nat, k: nat)
    requires Moved(m, m1, dest, src, n) && Moved(m1, m2, dest + n, src + n, k)
    requires Clear(dest, src, n + k)
    ensures Moved(m, m2, dest, src, n + k)
  {
    forall i | 0 <= i < |m| ensures m2[i] == if dest <= i < dest + n + k then m[i - dest + src] else m[i] {
      if dest + n <= i < dest + n + k {
        assert m1[i - dest + src] == m[i - dest + src];
      } else {
        assert m2[i] == m1[i];
      }
    }
  }

  // ... and downwards when it lies above
  lemma MovedDown(m: Bytes, m1: Bytes, m2: Bytes, dest: nat, src: nat, n: nat, k: nat)
    requires Moved(m, m1, dest + n, src + n, k) && Moved(m1, m2, dest, src, n)
    requires src <= dest
    ensures Moved(m, m2, dest, src, n + k)
  {
    forall i | 0 <= i < |m| ensures m2[i] == if dest <= i < dest + n + k then m[i - dest + src] else m[i] {
      if dest <= i < dest + n {
        assert m1[i - dest + src] == m[i - dest + src];
      } else {
        assert m2[i] == m1[i];
      }
    }
  }

  // one element is read whole before it is written
  method MoveElement(mem: array<bv8>, dest: nat, src: nat, width: nat)
    requires dest + width <= mem.Length && src + width <= mem.Length
    modifies mem
    ensures Moved(old(mem[..]), mem[..], dest, src, width)
  {
    ghost var m := mem[..];
    var element := mem[src..src + width];
    var i := 0;
    while i < width
      invariant i <= width
      invariant forall k :: 0 <= k < mem.Length && !(dest <= k < dest + i) ==> mem[k] == m[k]
      invariant forall k :: dest <= k < dest + i ==> mem[k] == element[k - dest]
    {
      mem[dest + i] := element[i];
      i := i + 1;
    }
  }

  lemma MovedNone(m: Bytes, dest: nat, src: nat)
    requires dest <= |m| && src <= |m|
    ensures Moved(m, m, dest, src, 0)
  {}

  predicate Width(width: nat) { width == 1 || width == 2 || width == 4 || width == 8 }

  // both addresses lie alike between multiples of the width
  predicate Alike(dest: nat, src: nat, width: nat)
    requires width > 0
  { dest % width == src % width }

  lemma AlikeUp(dest: nat, src: nat, width: nat)
    requires Width(width) && Alike(dest, src, width)
    ensures Alike(dest + (width - dest % width), src + (width - dest % width), width)
  {
    Rounded(dest, width);
    Rounded(src, width);
  }

  lemma Rounded(x: nat, width: nat)
    requires Width(width)
    ensures (x + (width - x % width)) % width == 0
  {
    if width == 8 { Rounded8(x); } else if width == 4 { Rounded4(x); } else if width == 2 { Rounded2(x); }
  }

  lemma Rounded8(x: nat)
    ensures (x + (8 - x % 8)) % 8 == 0
  {
    assert x == 8 * (x / 8) + x % 8;
  }

  lemma Rounded4(x: nat)
    ensures (x + (4 - x % 4)) % 4 == 0
  {
    assert x == 4 * (x / 4) + x % 4;
  }

  lemma Rounded2(x: nat)
    ensures (x + (2 - x % 2)) % 2 == 0
  {
    assert x == 2 * (x / 2) + x % 2;
  }

  lemma AlikeDown(dest: nat, src: nat, width: nat, count: nat, edge: nat)
    requires Width(width) && edge <= dest && edge <= src && Alike(dest, src, width) && edge == dest % width
    requires count * width <= dest - edge && count * width <= src - edge
    ensures Alike(dest - edge - count * width, src - edge - count * width, width)
  {}

  // count elements, lowest first
  method MoveForward(mem: array<bv8>, dest: nat, src: nat, count: nat, width: nat)
    requires dest + count * width <= mem.Length && src + count * width <= mem.Length
    requires Clear(dest, src, count * width) && Width(width) && Alike(dest, src, width)
    modifies mem
    ensures Moved(old(mem[..]), mem[..], dest, src, count * width)
  {
    hide Moved, Clear, Alike, Width;
    ghost var m := mem[..];
    MovedNone(m, dest, src);
    ghost var total := count * width;
    var left: nat, offset: nat := count, 0;
    while left > 0
      invariant left <= count && offset + left * width == total && Moved(m, mem[..], dest, src, offset)
    {
      ghost var m1 := mem[..];
      LastOf(left, count, width);
      assert offset + width <= total;
      MoveElement(mem, dest + offset, src + offset, width);
      ClearPart(dest, src, total, offset, width);
      MovedUp(m, m1, mem[..], dest, src, offset, width);
      left, offset := left - 1, offset + width;
    }
  }

  // count elements, highest first
  method MoveBackward(mem: array<bv8>, dest: nat, src: nat, count: nat, width: nat)
    requires dest + count * width <= mem.Length && src + count * width <= mem.Length && src <= dest
    requires Width(width) && Alike(dest, src, width)
    modifies mem
    ensures Moved(old(mem[..]), mem[..], dest, src, count * width)
  {
    hide Moved, Clear, Alike, Width;
    ghost var m, total := mem[..], count * width;
    var i: nat, offset: nat := count, count * width;
    MovedNone(m, dest + offset, src + offset);
    while i > 0
      invariant i <= count && offset == i * width <= total
      invariant Moved(m, mem[..], dest + offset, src + offset, total - offset)
    {
      ghost var m1 := mem[..];
      LastOf(i, count, width);
      i, offset := i - 1, offset - width;
      MoveElement(mem, dest + offset, src + offset, width);
      MovedDown(m, m1, mem[..], dest + offset, src + offset, width, total - offset - width);
    }
  }

  // the last of i elements
  lemma LastOf(i: nat, count: nat, width: nat)
    requires 0 < i <= count
    ensures i * width == (i - 1) * width + width <= count * width
  {}

  // the whole elements in size bytes
  lemma Whole(size: nat, width: nat)
    requires width > 0
    ensures size / width * width <= size && size - size / width * width < width
  {}

  // the elements of this width in what is left of size bytes
  method WideUp(mem: array<bv8>, dest: nat, src: nat, size: nat, done: nat, width: nat, ghost m: Bytes)
    returns (total: nat)
    requires Width(width) && dest + size <= mem.Length && src + size <= mem.Length && Clear(dest, src, size)
    requires done <= size && Moved(m, mem[..], dest, src, done) && width > 0 && Alike(dest + done, src + done, width)
    modifies mem
    ensures done <= total <= size && Moved(m, mem[..], dest, src, total)
  {
    hide Moved, Clear, Alike, Width;
    total := done;
    if size - done >= width {
      ghost var m1 := mem[..];
      var count := (size - done) / width;
      var wide := count * width;
      Whole(size - done, width);
      ClearPart(dest, src, size, done, wide);
      MoveForward(mem, dest + done, src + done, count, width);
      MovedUp(m, m1, mem[..], dest, src, done, wide);
      total := done + wide;
    }
  }

  // one of memcpy's three stages: up to a boundary byte by byte, then by elements of this width
  method StageUp(mem: array<bv8>, dest: nat, src: nat, size: nat, width: nat) returns (done: nat)
    requires Width(width) && dest + size <= mem.Length && src + size <= mem.Length && Clear(dest, src, size)
    modifies mem
    ensures done <= size && Moved(old(mem[..]), mem[..], dest, src, done)
  {
    hide Moved, Clear, Alike, Width;
    ghost var m := mem[..];
    MovedNone(m, dest, src);
    Positive(width);
    done := 0;
    if Alike(dest, src, width) && size > width {
      done := width - dest % width;
      Ones(dest, src);
      Remainder(dest, width);
      ClearPart(dest, src, size, 0, done);
      AlikeUp(dest, src, width);
      MoveForward(mem, dest, src, done, 1);
      done := WideUp(mem, dest, src, size, done, width, m);
    }
  }

  lemma Positive(width: nat)
    requires Width(width)
    ensures width > 0
  {}

  lemma Ones(dest: nat, src: nat)
    ensures Width(1) && Alike(dest, src, 1)
  {}

  lemma Remainder(x: nat, width: nat)
    requires width > 0
    ensures 0 <= x % width < width && x % width <= x
  {}

  // the next stage, some bytes having been moved already
  method Continue(mem: array<bv8>, dest: nat, src: nat, size: nat, done: nat, width: nat, ghost m: Bytes)
    returns (total: nat)
    requires Width(width) && dest + size <= mem.Length && src + size <= mem.Length && Clear(dest, src, size)
    requires done <= size && Moved(m, mem[..], dest, src, done)
    modifies mem
    ensures done <= total <= size && Moved(m, mem[..], dest, src, total)
  {
    hide Moved, Clear;
    ghost var m1 := mem[..];
    ClearPart(dest, src, size, done, size - done);
    var more := StageUp(mem, dest + done, src + done, size - done, width);
    ClearPart(dest, src, size, done, more);
    MovedUp(m, m1, mem[..], dest, src, done, more);
    total := done + more;
  }

  // the stages of memcpy
  method CopyUp(mem: array<bv8>, dest: nat, src: nat, size: nat)
    requires dest + size <= mem.Length && src + size <= mem.Length && Clear(dest, src, size)
    modifies mem
    ensures Moved(old(mem[..]), mem[..], dest, src, size)
  {
    hide Moved, Clear;
    ghost var m := mem[..];
    var done := StageUp(mem, dest, src, size, 8);
    done := Continue(mem, dest, src, size, done, 4, m);
    done := Continue(mem, dest, src, size, done, 2, m);
    ghost var m1 := mem[..];
    if size - done >= 1 {
      ClearPart(dest, src, size, done, size - done);
      MoveForward(mem, dest + done, src + done, size - done, 1);
      MovedUp(m, m1, mem[..], dest, src, done, size - done);
    }
  }

  /** memcpy, which memmove also uses downwards over its own source. */
  method MemCpy(mem: array<bv8>, dest: nat, src: nat, size: nat)
    requires dest + size <= mem.Length && src + size <= mem.Length
    requires dest <= src || src + size <= dest
    modifies mem
    ensures Moved(old(mem[..]), mem[..], dest, src, size)
    ensures forall k :: 0 <= k < mem.Length ==>
              mem[k] == if dest <= k < dest + size then old(mem[..])[k - dest + src] else old(mem[k])
  {
    CopyUp(mem, dest, src, size);
  }

  // the stages of memmove from the upper end; the lowest left bytes are still to be moved
  method StageDown(mem: array<bv8>, dest: nat, src: nat, size: nat, width: nat) returns (left: nat)
    requires Width(width) && dest + size <= mem.Length && src + size <= mem.Length && src <= dest
    modifies mem
    ensures left <= size && Moved(old(mem[..]), mem[..], dest + left, src + left, size - left)
  {
    hide Moved, Clear, Alike, Width;
    ghost var m := mem[..];
    MovedNone(m, dest + size, src + size);
    Positive(width);
    left := size;
    if Alike(dest + size, src + size, width) && size > width {
      var edge := (dest + size) % width;
      Remainder(dest + size, width);
      if edge > 0 {
        left := left - edge;
        Ones(dest + left, src + left);
        MoveBackward(mem, dest + left, src + left, edge, 1);
      }
      if left >= width {
        ghost var m1, before := mem[..], left;
        Whole(left, width);
        var count := left / width;
        ghost var wide := count * width;
        AlikeDown(dest + size, src + size, width, count, edge);
        left := left - count * width;
        MoveBackward(mem, dest + left, src + left, count, width);
        MovedDown(m, m1, mem[..], dest + left, src + left, wide, size - before);
      }
    }
  }

  /** memmove: the target gets what the source held before, however the two overlap. */
  method MemMove(mem: array<bv8>, dest: nat, src: nat, size: nat)
    requires dest + size <= mem.Length && src + size <= mem.Length
    modifies mem
    ensures Moved(old(mem[..]), mem[..], dest, src, size)
    ensures forall k :: 0 <= k < mem.Length ==>
              mem[k] == if dest <= k < dest + size then old(mem[..])[k - dest + src] else old(mem[k])
  {
    if dest < src {
      MemCpy(mem, dest, src, size);
    } else if dest > src {
      MoveDown(mem, dest, src, size);
    }
  }

  // the next stage, the bytes from left on having been moved already
  method ContinueDown(mem: array<bv8>, dest: nat, src: nat, size: nat, left: nat, width: nat, ghost m: Bytes)
    returns (less: nat)
    requires Width(width) && dest + size <= mem.Length && src + size <= mem.Length && src <= dest
    requires left <= size && Moved(m, mem[..], dest + left, src + left, size - left)
    modifies mem
    ensures less <= left && Moved(m, mem[..], dest + less, src + less, size - less)
  {
    hide Moved;
    ghost var m1 := mem[..];
    less := StageDown(mem, dest, src, left, width);
    MovedDown(m, m1, mem[..], dest + less, src + less, left - less, size - left);
  }

  method MoveDown(mem: array<bv8>, dest: nat, src: nat, size: nat)
    requires dest + size <= mem.Length && src + size <= mem.Length && src <= dest
    modifies mem
    ensures Moved(old(mem[..]), mem[..], dest, src, size)
  {
    hide Moved;
    ghost var m := mem[..];
    var left := StageDown(mem, dest, src, size, 8);
    left := ContinueDown(mem, dest, src, size, left, 4, m);
    left := ContinueDown(mem, dest, src, size, left, 2, m);
    ghost var m1 := mem[..];
    if left >= 1 {
      MoveBackward(mem, dest, src, left, 1);
      MovedDown(m, m1, mem[..], dest, src, left, size - left);
    }
  }
}
