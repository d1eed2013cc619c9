/**
 The arena and the strings of src/Sdb.h. An arena hands out consecutive bytes of a memory; a string is a
 pointer to characters that have a header of three words in front of them in the same memory: its
 arena, its length and its capacity. Pointers are positions in the memory.
 */
module SdbString {
  import opened Options
  import opened Bytes

  const HEADER_SIZE := 24
  const ARENA_STRUCT_SIZE := 24

  class Arena {
    const mem: array<Byte>
    const base: nat
    const cap: nat
    var cur: nat

    ghost predicate Valid()
      reads this
    {
      cur <= cap && base + cap <= mem.Length < Pow256(8)
    }

    /** SdbArenaInit */
    constructor (mem: array<Byte>, base: nat, size: nat)
      requires base + size <= mem.Length < Pow256(8)
      ensures Valid() && this.mem == mem && this.base == base && cap == size && cur == 0
    {
      this.mem, this.base, cap, cur := mem, base, size, 0;
    }

    /** SdbArenaPush: the next `size` bytes, or nothing when they do not fit. */
    method Push(size: nat) returns (at: Option<nat>)
      requires Valid()
      modifies this
      ensures Valid()
      ensures old(cur) + size <= cap ==> at == Some(base + old(cur)) && cur == old(cur) + size
      ensures old(cur) + size > cap ==> at == None && cur == old(cur)
    {
      if cur + size <= cap {
        at := Some(base + cur);
        cur := cur + size;
      } else {
        at := None;
      }
    }

    /** SdbArenaPushZero */
    method PushZero(size: nat) returns (at: Option<nat>)
      requires Valid()
      modifies this, mem
      ensures Valid()
      ensures old(cur) + size <= cap ==>
                at == Some(base + old(cur)) && cur == old(cur) + size
                && mem[..] == Splice(old(mem[..]), base + old(cur), Zeros(size))
      ensures old(cur) + size > cap ==> at == None && cur == old(cur) && mem[..] == old(mem[..])
    {
      at := Push(size);
      if at.Some? {
        Memcpy(mem, at.value, Zeros(size));
      }
    }

    /** SdbArenaPop */
    method Pop(size: nat) returns (at: Option<nat>)
      requires Valid()
      modifies this
      ensures Valid()
      ensures size <= old(cur) ==> cur == old(cur) - size && at == Some(base + cur)
      ensures size > old(cur) ==> at == None && cur == old(cur)
    {
      if cur >= size {
        cur := cur - size;
        at := Some(base + cur);
      } else {
        at := None;
      }
    }

    /** SdbArenaSeek */
    method Seek(pos: nat) returns (at: Option<nat>)
      requires Valid()
      modifies this
      ensures Valid()
      ensures pos <= cap ==> cur == pos && at == Some(base + pos)
      ensures pos > cap ==> at == None && cur == old(cur)
    {
      if pos <= cap {
        cur := pos;
        at := Some(base + pos);
      } else {
        at := None;
      }
    }

    /** SdbArenaReserve: all of `size`, or what would have been left of it without reserving. */
    method Reserve(size: nat) returns (reserved: nat)
      requires Valid()
      modifies this
      ensures Valid()
      ensures old(cur) + size <= cap ==> reserved == size && cur == old(cur) + size
      ensures old(cur) + size > cap ==> reserved == cap - cur < size && cur == old(cur)
    {
      if cur + size <= cap {
        cur := cur + size;
        reserved := size;
      } else {
        reserved := cap - cur;
      }
    }

    /**
     SdbArenaBootstrap without a given structure: carves an arena out of this one. A failed request may
     still have taken the bytes of the structure.
     */
    method Bootstrap(size: nat) returns (r: Arena?)
      requires Valid()
      modifies this
      ensures Valid() && old(cur) <= cur
      ensures (r != null) == (old(cur) + ARENA_STRUCT_SIZE + size <= cap)
      ensures r != null ==> fresh(r) && r.Valid() && r.mem == mem && r.cap == size && r.cur == 0
      ensures r != null ==> base + old(cur) + ARENA_STRUCT_SIZE == r.base && r.base + r.cap == base + cur
    {
      var structure := Push(ARENA_STRUCT_SIZE);
      var memory := Push(size);
      if structure == None || memory == None {
        return null;
      }
      r := new Arena(mem, memory.value, size);
    }
  }

  // ---- Memory ----

  function Zeros(n: nat): (z: seq<Byte>)
    ensures |z| == n && forall i :: 0 <= i < n ==> z[i] == 0
  {
    seq(n, i => 0)
  }

  function Word(m: seq<Byte>, at: nat): nat
    requires at + 8 <= |m|
  {
    FromLittle(m[at..at + 8])
  }

  method WriteWord(mem: array<Byte>, at: nat, v: nat)
    requires at + 8 <= mem.Length
    modifies mem
    ensures mem[..] == Splice(old(mem[..]), at, ToLittle(v, 8))
  {
    Memcpy(mem, at, ToLittle(v, 8));
  }

  method ReadWord(mem: array<Byte>, at: nat) returns (v: nat)
    requires at + 8 <= mem.Length
    ensures v == Word(mem[..], at)
  {
    assert mem[..][at..at + 8] == mem[at..at + 8];
    v := FromLittle(mem[at..at + 8]);
  }

  // ---- Strings ----

  /** The header in front of `s` holds this length and this capacity. */
  ghost predicate HeaderIn(m: seq<Byte>, s: nat, len: nat, cap: nat) {
    HEADER_SIZE <= s && s + cap < |m| && len <= cap && Word(m, s - 16) == len && Word(m, s - 8) == cap
  }

  /** In memory `m`, `s` points to a string with these contents and this capacity, terminated. */
  ghost predicate StringIn(m: seq<Byte>, s: nat, contents: seq<Byte>, cap: nat) {
    && HeaderIn(m, s, |contents|, cap)
    && m[s..s + |contents|] == contents && m[s + |contents|] == 0
  }

  /** The string lies in the used part of the arena, with `behind` more bytes used behind it. */
  ghost predicate Placed(a: Arena, s: nat, contents: seq<Byte>, cap: nat, behind: nat)
    reads a, a.mem
  {
    && a.Valid() && StringIn(a.mem[..], s, contents, cap)
    && a.base + HEADER_SIZE <= s && s + cap + 1 + behind == a.base + a.cur
  }

  /** Nothing before the string's header and nothing behind the arena differs. */
  ghost predicate OthersKept(a: Arena, s: nat, m: seq<Byte>, r: seq<Byte>) {
    && HEADER_SIZE <= s <= |m| == |r| && a.base + a.cap <= |m|
    && r[..s - HEADER_SIZE] == m[..s - HEADER_SIZE] && r[a.base + a.cap..] == m[a.base + a.cap..]
  }

  /** What differs between two memories lies between the header of `s` and position `end`. */
  ghost predicate Within(s: nat, end: nat, m: seq<Byte>, r: seq<Byte>) {
    HEADER_SIZE <= s <= end <= |m| == |r| && r[..s - HEADER_SIZE] == m[..s - HEADER_SIZE] && r[end..] == m[end..]
  }

  lemma WithinTwice(s: nat, end: nat, end': nat, m: seq<Byte>, r: seq<Byte>, q: seq<Byte>)
    requires Within(s, end, m, r) && Within(s, end', r, q)
    ensures Within(s, if end < end' then end' else end, m, q)
  {
    var max := if end < end' then end' else end;
    assert r[max..] == r[end..][max - end..] && m[max..] == m[end..][max - end..];
    assert q[max..] == q[end'..][max - end'..] && r[max..] == r[end'..][max - end'..];
  }

  lemma WithinKeepsOthers(a: Arena, s: nat, end: nat, m: seq<Byte>, r: seq<Byte>)
    requires Within(s, end, m, r) && end <= a.base + a.cap <= |m|
    ensures OthersKept(a, s, m, r)
  {
    var top := a.base + a.cap;
    assert r[top..] == r[end..][top - end..] && m[top..] == m[end..][top - end..];
  }

  /** Writes characters of a string; the header stays as it is. */
  method WriteChars(mem: array<Byte>, s: nat, at: nat, bytes: seq<Byte>, ghost len: nat, ghost cap: nat)
    requires HeaderIn(mem[..], s, len, cap) && s <= at && at + |bytes| <= s + cap + 1
    modifies mem
    ensures HeaderIn(mem[..], s, len, cap) && Within(s, at + |bytes|, old(mem[..]), mem[..])
    ensures mem[..][s..at + |bytes|] == old(mem[..])[s..at] + bytes
  {
    ghost var m := mem[..];
    SpliceOutside(m, at, bytes, s - 16, s - 8);
    SpliceOutside(m, at, bytes, s - 8, s);
    hide Word;
    Memcpy(mem, at, bytes);
  }

  /** The two words of the header, read as ranges of the memory. */
  lemma HeaderOfRanges(m: seq<Byte>, s: nat, len: nat, cap: nat)
    requires 24 <= s && s + cap < |m| && len <= cap
    requires FromLittle(m[s - 16..s - 8]) == len && FromLittle(m[s - 8..s]) == cap
    ensures HeaderIn(m, s, len, cap)
  {
    assert s - 16 + 8 == s - 8 && s - 8 + 8 == s;
  }

  lemma RangesOfHeader(m: seq<Byte>, s: nat, len: nat, cap: nat)
    requires HeaderIn(m, s, len, cap)
    ensures 24 <= s && s + cap < |m| && len <= cap
    ensures FromLittle(m[s - 16..s - 8]) == len && FromLittle(m[s - 8..s]) == cap
  {
    assert s - 16 + 8 == s - 8 && s - 8 + 8 == s;
  }

  lemma WithinIs(s: nat, m: seq<Byte>, r: seq<Byte>)
    requires 24 <= s <= |m| == |r| && r[0..s - 24] == m[0..s - 24] && r[s..|m|] == m[s..|m|]
    ensures Within(s, s, m, r)
  {
    assert r[0..s - 24] == r[..s - 24] && m[0..s - 24] == m[..s - 24];
  }

  lemma WriteLength(m: seq<Byte>, s: nat, len: nat, cap: nat, newLen: nat)
    requires HeaderIn(m, s, len, cap) && newLen <= cap && newLen < Pow256(8)
    ensures HeaderIn(Splice(m, s - 16, ToLittle(newLen, 8)), s, newLen, cap)
    ensures Within(s, s, m, Splice(m, s - 16, ToLittle(newLen, 8)))
  {
    LittleRoundTrip(newLen, 8);
    RangesOfHeader(m, s, len, cap);
    hide *;
    var bytes := ToLittle(newLen, 8);
    SpliceInside(m, s - 16, bytes);
    SpliceOutside(m, s - 16, bytes, s - 8, s);
    SpliceOutside(m, s - 16, bytes, 0, s - 24);
    SpliceOutside(m, s - 16, bytes, s, |m|);
    var r := Splice(m, s - 16, bytes);
    HeaderOfRanges(r, s, newLen, cap);
    WithinIs(s, m, r);
  }

  lemma WriteCapacity(m: seq<Byte>, s: nat, len: nat, cap: nat, newCap: nat)
    requires HeaderIn(m, s, len, cap) && cap <= newCap && s + newCap < |m| < Pow256(8)
    ensures HeaderIn(Splice(m, s - 8, ToLittle(newCap, 8)), s, len, newCap)
    ensures Within(s, s, m, Splice(m, s - 8, ToLittle(newCap, 8)))
  {
    LittleRoundTrip(newCap, 8);
    RangesOfHeader(m, s, len, cap);
    hide *;
    var bytes := ToLittle(newCap, 8);
    SpliceInside(m, s - 8, bytes);
    SpliceOutside(m, s - 8, bytes, s - 16, s - 8);
    SpliceOutside(m, s - 8, bytes, 0, s - 24);
    SpliceOutside(m, s - 8, bytes, s, |m|);
    var r := Splice(m, s - 8, bytes);
    HeaderOfRanges(r, s, len, newCap);
    WithinIs(s, m, r);
  }

  /** The capacity after room for `add` characters was asked for: all of `add` is reserved, or nothing. */
  function Grown(len: nat, cap: nat, add: nat): nat {
    if cap < len + add then cap + add else cap
  }

  /** Whether the arena can serve such a request. */
  predicate Serves(room: nat, len: nat, cap: nat, add: nat) {
    len + add <= cap || add <= room
  }

  ghost function Room(a: Arena): nat
    requires a.Valid()
    reads a
  {
    a.cap - a.cur
  }

  lemma HeaderBounds(m: seq<Byte>, s: nat, len: nat, cap: nat)
    requires HeaderIn(m, s, len, cap)
    ensures 24 <= s && s + cap < |m| && len <= cap
  {
  }

  /** Sdb__StringSetLen__ */
  method SetLen(mem: array<Byte>, s: nat, newLen: nat, ghost len: nat, ghost cap: nat)
    requires HeaderIn(mem[..], s, len, cap) && newLen <= cap && mem.Length < Pow256(8)
    modifies mem
    ensures HeaderIn(mem[..], s, newLen, cap) && Within(s, s, old(mem[..]), mem[..])
  {
    WriteLength(mem[..], s, len, cap, newLen);
    HeaderBounds(mem[..], s, len, cap);
    hide *;
    WriteWord(mem, s - 16, newLen);
  }

  /** Sdb__StringSetCap__ */
  method SetCap(mem: array<Byte>, s: nat, newCap: nat, ghost len: nat, ghost cap: nat)
    requires HeaderIn(mem[..], s, len, cap) && cap <= newCap && s + newCap < mem.Length < Pow256(8)
    modifies mem
    ensures HeaderIn(mem[..], s, len, newCap) && Within(s, s, old(mem[..]), mem[..])
  {
    WriteCapacity(mem[..], s, len, cap, newCap);
    HeaderBounds(mem[..], s, len, cap);
    hide *;
    WriteWord(mem, s - 8, newCap);
  }

  /** SdbStringLen */
  method Length(mem: array<Byte>, s: nat, ghost len: nat, ghost cap: nat) returns (r: nat)
    requires HeaderIn(mem[..], s, len, cap)
    ensures r == len
  {
    r := ReadWord(mem, s - 16);
  }

  /** SdbStringCap */
  method Capacity(mem: array<Byte>, s: nat, ghost len: nat, ghost cap: nat) returns (r: nat)
    requires HeaderIn(mem[..], s, len, cap)
    ensures r == cap
  {
    r := ReadWord(mem, s - 8);
  }

  /** A change in front of `end` only leaves what lies behind alone. */
  lemma CharsKept(s: nat, end: nat, m: seq<Byte>, r: seq<Byte>, i: nat, j: nat)
    requires Within(s, end, m, r) && end <= i <= j <= |m|
    ensures r[i..j] == m[i..j] && (i < |m| ==> r[i] == m[i])
  {
    assert r[i..j] == r[end..][i - end..j - end] && m[i..j] == m[end..][i - end..j - end];
    if i < |m| {
      assert r[i] == r[end..][i - end] && m[i] == m[end..][i - end];
    }
  }

  /**
   SdbStringMakeSpace. All of what is asked for is reserved at the end of the arena, wherever the string
   lies, and the capacity grows by as much.
   */
  method MakeSpace(a: Arena, s: nat, add: nat, ghost contents: seq<Byte>, ghost cap: nat, ghost behind: nat) returns (ok: bool)
    requires Placed(a, s, contents, cap, behind)
    modifies a, a.mem
    ensures a.Valid() && ok == Serves(old(Room(a)), |contents|, cap, add)
    ensures Placed(a, s, contents, if ok then Grown(|contents|, cap, add) else cap, behind)
    ensures Within(s, s, old(a.mem[..]), a.mem[..])
  {
    var len := Length(a.mem, s, |contents|, cap);
    var oldCap := Capacity(a.mem, s, |contents|, cap);
    if oldCap - len < add {
      var reserved := a.Reserve(add);
      if reserved < add {
        return false;
      }
      ghost var m := a.mem[..];
      hide HeaderIn, Within, Pow256;
      SetCap(a.mem, s, oldCap + add, |contents|, cap);
      CharsKept(s, s, m, a.mem[..], s, s + len);
      CharsKept(s, s, m, a.mem[..], s + len, s + len);
    }
    ok := true;
  }

  lemma Terminated(m: seq<Byte>, s: nat, contents: seq<Byte>, cap: nat)
    requires HeaderIn(m, s, |contents|, cap) && m[s..s + |contents| + 1] == contents + [0]
    ensures StringIn(m, s, contents, cap)
  {
    assert m[s..s + |contents| + 1][..|contents|] == m[s..s + |contents|];
    assert m[s..s + |contents| + 1][|contents|] == m[s + |contents|];
  }

  /** What a string in its arena guarantees about positions. */
  lemma TopBounds(a: Arena, s: nat, contents: seq<Byte>, cap: nat, behind: nat)
    requires Placed(a, s, contents, cap, behind)
    ensures a.Valid() && 24 <= s && a.base + 24 <= s && s + cap + 1 + behind == a.base + a.cur <= a.base + a.cap <= a.mem.Length
    ensures |contents| <= cap && a.mem.Length < Pow256(8)
    ensures HeaderIn(a.mem[..], s, |contents|, cap) && a.mem[..][s..s + |contents|] == contents
  {
  }

  lemma PlacedIs(a: Arena, s: nat, contents: seq<Byte>, cap: nat, behind: nat)
    requires a.Valid() && StringIn(a.mem[..], s, contents, cap)
    requires a.base + 24 <= s && s + cap + 1 + behind == a.base + a.cur
    ensures Placed(a, s, contents, cap, behind)
  {
  }

  /** Sets the length and writes the terminator behind characters that are in place already. */
  method Finish(mem: array<Byte>, s: nat, newLen: nat, ghost chars: seq<Byte>, ghost len: nat, ghost cap: nat)
    requires HeaderIn(mem[..], s, len, cap) && newLen == |chars| <= cap && s + cap < mem.Length < Pow256(8)
    requires mem[..][s..s + newLen] == chars
    modifies mem
    ensures StringIn(mem[..], s, chars, cap) && Within(s, s + newLen + 1, old(mem[..]), mem[..])
  {
    hide *;
    ghost var m := mem[..];
    HeaderBounds(m, s, len, cap);
    SetLen(mem, s, newLen, len, cap);
    ghost var m1 := mem[..];
    CharsKept(s, s, m, m1, s, s + newLen);
    WriteChars(mem, s, s + newLen, [0], newLen, cap);
    Terminated(mem[..], s, chars, cap);
    WithinTwice(s, s, s + newLen + 1, m, m1, mem[..]);
  }

  /** The memory from a position on. */
  function From(m: seq<Byte>, s: nat): (tail: seq<Byte>)
    ensures |tail| == if s <= |m| then |m| - s else 0
  {
    if s <= |m| then m[s..] else []
  }

  /** What is in memory from a string on once a text and its terminator are written there. */
  function Stored(tail: seq<Byte>, text: seq<Byte>): (r: seq<Byte>)
    ensures |r| == if |text| < |tail| then |tail| else 0
  {
    if |text| < |tail| then text + [0] + tail[|text| + 1..] else []
  }

  lemma StoredIs(m: seq<Byte>, r: seq<Byte>, s: nat, text: seq<Byte>, cap: nat)
    requires StringIn(r, s, text, cap) && Within(s, s + |text| + 1, m, r)
    ensures From(r, s) == Stored(From(m, s), text)
  {
    var end := s + |text| + 1;
    assert r[s..] == r[s..s + |text|] + [r[s + |text|]] + r[end..];
    assert m[end..] == m[s..][|text| + 1..];
    hide HeaderIn;
  }

  lemma SameFrom(s: nat, m: seq<Byte>, r: seq<Byte>)
    requires Within(s, s, m, r)
    ensures From(r, s) == From(m, s)
  {
  }

  /** A text within the old capacity changes nothing behind it; a longer one is written there. */
  lemma WrittenBehind(tail: seq<Byte>, text: seq<Byte>, cap: nat)
    requires |text| < |tail| && cap < |tail|
    ensures |text| <= cap ==> Stored(tail, text)[cap + 1..] == tail[cap + 1..]
    ensures |text| > cap ==> Stored(tail, text)[cap + 1..|text| + 1] == (text + [0])[cap + 1..]
  {
  }

  /**
   Appending and setting leave whatever lies behind the string alone if and only if the new text fits the
   capacity the string had. Here `own` are the bytes of the string and its reserve.
   */
  lemma BehindIsKeptExactlyWithinCapacity(own: seq<Byte>, behind: nat, rest: seq<Byte>, text: seq<Byte>)
    requires own != [] && behind > 0 && |text| < |own| + behind + |rest|
    ensures (forall q: seq<Byte> | |q| == behind :: Kept(own, q, rest, text)) <==> |text| <= |own| - 1
  {
    hide Stored;
    if |text| <= |own| - 1 {
      forall q: seq<Byte> | |q| == behind
        ensures Kept(own, q, rest, text)
      {
        WrittenBehind(own + q + rest, text, |own| - 1);
        FirstBehind(own, q, rest, Stored(own + q + rest, text));
      }
    } else {
      var b := (text + [0])[|own|];
      var q := seq(behind, _ => if b == 0 then 1 else 0);
      WrittenBehind(own + q + rest, text, |own| - 1);
      var r := Stored(own + q + rest, text);
      assert r[|own|..|text| + 1][0] == b && r[|own|..|own| + behind][0] == r[|own|] && q[0] != b;
      assert !Kept(own, q, rest, text);
    }
  }

  /** What lies behind the string's own bytes is still there after the text was written. */
  predicate Kept(own: seq<Byte>, q: seq<Byte>, rest: seq<Byte>, text: seq<Byte>) {
    var r := Stored(own + q + rest, text);
    |own| + |q| <= |r| && r[|own|..|own| + |q|] == q
  }

  lemma FirstBehind(own: seq<Byte>, q: seq<Byte>, rest: seq<Byte>, r: seq<Byte>)
    requires |own| <= |r| && r[|own|..] == (own + q + rest)[|own|..]
    ensures |own| + |q| <= |r| && r[|own|..|own| + |q|] == q
  {
    assert r[|own|..][..|q|] == q;
  }

  /** Sdb__StringAppend__ */
  method Append(a: Arena, s: nat, other: seq<Byte>, ghost contents: seq<Byte>, ghost cap: nat, ghost behind: nat) returns (ok: bool)
    requires Placed(a, s, contents, cap, behind)
    modifies a, a.mem
    ensures a.Valid() && ok == Serves(old(Room(a)), |contents|, cap, |other|)
    ensures Placed(a, s, if ok then contents + other else contents, if ok then Grown(|contents|, cap, |other|) else cap, behind)
    ensures Within(s, if ok then s + |contents| + |other| + 1 else s, old(a.mem[..]), a.mem[..])
    ensures From(a.mem[..], s) ==
            if ok then Stored(From(old(a.mem[..]), s), contents + other) else From(old(a.mem[..]), s)
  {
    hide *;
    ghost var m := a.mem[..];
    TopBounds(a, s, contents, cap, behind);
    ok := MakeSpace(a, s, |other|, contents, cap, behind);
    ghost var newCap := if ok then Grown(|contents|, cap, |other|) else cap;
    TopBounds(a, s, contents, newCap, behind);
    ghost var m1 := a.mem[..];
    if !ok {
      SameFrom(s, m, m1);
      return;
    }
    GrownFits(|contents|, cap, |other|);
    var curLen := Length(a.mem, s, |contents|, newCap);
    WriteChars(a.mem, s, s + curLen, other, |contents|, newCap);
    ghost var m2 := a.mem[..];
    Finish(a.mem, s, curLen + |other|, contents + other, curLen, newCap);
    PlacedIs(a, s, contents + other, newCap, behind);
    ghost var end := s + curLen + |other| + 1;
    WithinTwice(s, s, end - 1, m, m1, m2);
    WithinTwice(s, end - 1, end, m, m2, a.mem[..]);
    StoredIs(m, a.mem[..], s, contents + other, newCap);
  }

  lemma GrownFits(len: nat, cap: nat, add: nat)
    requires len <= cap
    ensures len + add <= Grown(len, cap, add) && cap <= Grown(len, cap, add)
  {
  }

  /** Writes a whole text with its terminator. */
  method WriteText(mem: array<Byte>, s: nat, text: seq<Byte>, ghost len: nat, ghost cap: nat)
    requires HeaderIn(mem[..], s, len, cap) && |text| <= cap && s + cap < mem.Length
    modifies mem
    ensures HeaderIn(mem[..], s, len, cap) && Within(s, s + |text| + 1, old(mem[..]), mem[..])
    ensures mem[..][s..s + |text| + 1] == text + [0]
  {
    hide *;
    ghost var m := mem[..];
    HeaderBounds(m, s, len, cap);
    WriteChars(mem, s, s, text, len, cap);
    ghost var m1 := mem[..];
    TextIsThere(m1, s, text);
    WriteChars(mem, s, s + |text|, [0], len, cap);
    WithinTwice(s, s + |text|, s + |text| + 1, m, m1, mem[..]);
  }

  /** Writes a whole text with its terminator, and then its length. */
  method Replace(mem: array<Byte>, s: nat, text: seq<Byte>, ghost len: nat, ghost cap: nat)
    requires HeaderIn(mem[..], s, len, cap) && |text| <= cap && s + cap < mem.Length < Pow256(8)
    modifies mem
    ensures StringIn(mem[..], s, text, cap) && Within(s, s + |text| + 1, old(mem[..]), mem[..])
  {
    hide *;
    ghost var m := mem[..];
    WriteText(mem, s, text, len, cap);
    ghost var m2 := mem[..];
    HeaderBounds(m2, s, len, cap);
    SetLen(mem, s, |text|, len, cap);
    CharsKept(s, s, m2, mem[..], s, s + |text| + 1);
    Terminated(mem[..], s, text, cap);
    WithinTwice(s, s + |text| + 1, s, m, m2, mem[..]);
  }

  /** SdbStringSet. Room is made as if the new text came behind the old one. */
  method Set(a: Arena, s: nat, text: seq<Byte>, ghost contents: seq<Byte>, ghost cap: nat, ghost behind: nat) returns (ok: bool)
    requires Placed(a, s, contents, cap, behind)
    modifies a, a.mem
    ensures a.Valid() && ok == Serves(old(Room(a)), |contents|, cap, |text|)
    ensures Placed(a, s, if ok then text else contents, if ok then Grown(|contents|, cap, |text|) else cap, behind)
    ensures Within(s, if ok then s + |text| + 1 else s, old(a.mem[..]), a.mem[..])
    ensures From(a.mem[..], s) == if ok then Stored(From(old(a.mem[..]), s), text) else From(old(a.mem[..]), s)
  {
    hide *;
    ghost var m := a.mem[..];
    TopBounds(a, s, contents, cap, behind);
    ok := MakeSpace(a, s, |text|, contents, cap, behind);
    ghost var newCap := if ok then Grown(|contents|, cap, |text|) else cap;
    TopBounds(a, s, contents, newCap, behind);
    ghost var m1 := a.mem[..];
    if !ok {
      SameFrom(s, m, m1);
      return;
    }
    GrownFits(|contents|, cap, |text|);
    Replace(a.mem, s, text, |contents|, newCap);
    PlacedIs(a, s, text, newCap, behind);
    WithinTwice(s, s, s + |text| + 1, m, m1, a.mem[..]);
    StoredIs(m, a.mem[..], s, text, newCap);
  }

  lemma TextIsThere(m: seq<Byte>, s: nat, text: seq<Byte>)
    requires s + |text| <= |m| && m[s..s + |text|] == m[s..s] + text
    ensures m[s..s + |text|] == text
  {
  }

  /** SdbStringClear */
  method Clear(a: Arena, s: nat, ghost contents: seq<Byte>, ghost cap: nat, ghost behind: nat)
    requires Placed(a, s, contents, cap, behind)
    modifies a.mem
    ensures Placed(a, s, [], cap, behind) && Within(s, s + 1, old(a.mem[..]), a.mem[..])
  {
    hide *;
    ghost var m := a.mem[..];
    TopBounds(a, s, contents, cap, behind);
    Finish(a.mem, s, 0, [], |contents|, cap);
    PlacedIs(a, s, [], cap, behind);
  }

  /** SdbStringBackspace, which must not take away more characters than there are. */
  method Backspace(a: Arena, s: nat, n: nat, ghost contents: seq<Byte>, ghost cap: nat, ghost behind: nat)
    requires Placed(a, s, contents, cap, behind) && n <= |contents|
    modifies a.mem
    ensures Placed(a, s, contents[..|contents| - n], cap, behind) && Within(s, s + |contents| - n + 1, old(a.mem[..]), a.mem[..])
  {
    hide *;
    ghost var m := a.mem[..];
    TopBounds(a, s, contents, cap, behind);
    var len := Length(a.mem, s, |contents|, cap);
    var newLen := len - n;
    assert m[s..s + len][..newLen] == m[s..s + newLen];
    Finish(a.mem, s, newLen, contents[..newLen], len, cap);
    PlacedIs(a, s, contents[..newLen], cap, behind);
  }

  /** A string behind another one is kept as long as the other does not outgrow its old capacity. */
  lemma NeighbourIsKept(m: seq<Byte>, r: seq<Byte>, s: nat, end: nat, t: nat, contents: seq<Byte>, cap: nat)
    requires Within(s, end, m, r) && StringIn(m, t, contents, cap) && end + HEADER_SIZE <= t
    ensures StringIn(r, t, contents, cap)
  {
    RangesOfHeader(m, t, |contents|, cap);
    hide FromLittle;
    CharsKept(s, end, m, r, t - 16, t - 8);
    CharsKept(s, end, m, r, t - 8, t);
    CharsKept(s, end, m, r, t, t + |contents|);
    CharsKept(s, end, m, r, t + |contents|, t + |contents|);
    hide HeaderIn;
    HeaderOfRanges(r, t, |contents|, cap);
  }

  // ---- Making and freeing ----

  lemma TwoWords(m: seq<Byte>, s: nat, len: nat)
    requires 24 <= s && s + len < |m| < Pow256(8)
    ensures var r := Splice(Splice(m, s - 16, ToLittle(len, 8)), s - 8, ToLittle(len, 8));
            HeaderIn(r, s, len, len) && Within(s, s, m, r)
  {
    LittleRoundTrip(len, 8);
    hide *;
    var bytes := ToLittle(len, 8);
    var m1 := Splice(m, s - 16, bytes);
    var r := Splice(m1, s - 8, bytes);
    SpliceInside(m, s - 16, bytes);
    SpliceOutside(m1, s - 8, bytes, s - 16, s - 8);
    SpliceInside(m1, s - 8, bytes);
    SpliceOutside(m, s - 16, bytes, 0, s - 24);
    SpliceOutside(m1, s - 8, bytes, 0, s - 24);
    SpliceOutside(m, s - 16, bytes, s, |m|);
    SpliceOutside(m1, s - 8, bytes, s, |m|);
    HeaderOfRanges(r, s, len, len);
    WithinIs(s, m, r);
  }

  method MakeHeader(mem: array<Byte>, s: nat, len: nat)
    requires 24 <= s && s + len < mem.Length < Pow256(8)
    modifies mem
    ensures HeaderIn(mem[..], s, len, len) && Within(s, s, old(mem[..]), mem[..])
  {
    hide *;
    TwoWords(mem[..], s, len);
    WriteWord(mem, s - 16, len);
    WriteWord(mem, s - 8, len);
  }

  /** SdbMemset of a whole string to zero, header included. */
  method Memset(mem: array<Byte>, s: nat, len: nat)
    requires 24 <= s && s + len < mem.Length
    modifies mem
    ensures Within(s, s + len + 1, old(mem[..]), mem[..])
    ensures mem[..][s..s + len + 1] == Zeros(len) + [0]
  {
    ghost var m := mem[..];
    SpliceOutside(m, s - 24, Zeros(25 + len), 0, s - 24);
    SpliceOutside(m, s - 24, Zeros(25 + len), s + len + 1, |m|);
    Memcpy(mem, s - 24, Zeros(25 + len));
  }

  /** What a freshly made string holds; with an empty text that is not null the terminator is not written. */
  function InitialContents(init: Option<seq<Byte>>, len: nat): seq<Byte> {
    match init
    case None => Zeros(len)
    case Some(text) => text
  }

  /**
   Sdb__StringMake__: `len` zeros for a null pointer, otherwise a text of that length. The string is
   terminated unless its text is empty without being null and the byte behind it was not zero before.
   */
  method Make(a: Arena, init: Option<seq<Byte>>, len: nat) returns (r: Option<nat>)
    requires a.Valid() && (init.Some? ==> |init.value| == len)
    modifies a, a.mem
    ensures a.Valid()
    ensures old(a.cur) + 24 + len + 1 > a.cap ==> r == None && a.cur == old(a.cur) && a.mem[..] == old(a.mem[..])
    ensures old(a.cur) + 24 + len + 1 <= a.cap ==>
              r == Some(a.base + old(a.cur) + 24) && a.cur == old(a.cur) + 24 + len + 1
    ensures r.Some? ==>
              var s := r.value;
              && HeaderIn(a.mem[..], s, len, len) && OthersKept(a, s, old(a.mem[..]), a.mem[..])
              && (init == Some([]) ==> a.mem[s] == old(a.mem[s]))
              && (init != Some([]) || old(a.mem[s]) == 0 <==> Placed(a, s, InitialContents(init, len), len, 0))
  {
    var at := a.Push(24 + len + 1);
    if at == None {
      return None;
    }
    var s := at.value + 24;
    hide HeaderIn, Within, Splice, OthersKept;
    ghost var m := a.mem[..];
    Initialise(a.mem, s, init, len);
    WithinKeepsOthers(a, s, s + len + 1, m, a.mem[..]);
    r := Some(s);
  }

  /** Fills in the header and, where the source does, the characters of a new string. */
  method Initialise(mem: array<Byte>, s: nat, init: Option<seq<Byte>>, len: nat)
    requires 24 <= s && s + len < mem.Length < Pow256(8) && (init.Some? ==> |init.value| == len)
    modifies mem
    ensures HeaderIn(mem[..], s, len, len) && Within(s, s + len + 1, old(mem[..]), mem[..])
    ensures init == Some([]) ==> mem[s] == old(mem[s])
    ensures init != Some([]) || old(mem[s]) == 0 <==> StringIn(mem[..], s, InitialContents(init, len), len)
  {
    hide HeaderIn, Within, Splice, StringIn;
    ghost var m := mem[..];
    if init == None {
      Memset(mem, s, len);
    } else {
      WithinRefl(s, s + len + 1, m);
    }
    ghost var m1 := mem[..];
    MakeHeader(mem, s, len);
    ghost var m2 := mem[..];
    WithinTwice(s, s + len + 1, s, m, m1, m2);
    CharsKept(s, s, m1, m2, s, s + len + 1);
    if len > 0 && init.Some? {
      FillText(mem, s, init.value);
      WithinTwice(s, s + len + 1, s + len + 1, m, m2, mem[..]);
    } else {
      EmptyOrZero(m2, s, init, len);
    }
  }

  lemma WithinRefl(s: nat, end: nat, m: seq<Byte>)
    requires 24 <= s <= end <= |m|
    ensures Within(s, end, m, m)
  {
  }

  method FillText(mem: array<Byte>, s: nat, text: seq<Byte>)
    requires HeaderIn(mem[..], s, |text|, |text|)
    modifies mem
    ensures StringIn(mem[..], s, text, |text|) && HeaderIn(mem[..], s, |text|, |text|)
    ensures Within(s, s + |text| + 1, old(mem[..]), mem[..])
  {
    hide *;
    ghost var m := mem[..];
    HeaderBounds(m, s, |text|, |text|);
    WriteChars(mem, s, s, text, |text|, |text|);
    ghost var m1 := mem[..];
    TextIsThere(m1, s, text);
    WriteChars(mem, s, s + |text|, [0], |text|, |text|);
    Terminated(mem[..], s, text, |text|);
    WithinTwice(s, s + |text|, s + |text| + 1, m, m1, mem[..]);
  }

  lemma EmptyOrZero(m: seq<Byte>, s: nat, init: Option<seq<Byte>>, len: nat)
    requires HeaderIn(m, s, len, len) && (init == Some([]) ==> len == 0)
    requires init == None ==> m[s..s + len + 1] == Zeros(len) + [0]
    ensures init == None ==> StringIn(m, s, Zeros(len), len)
    ensures init == Some([]) ==> (StringIn(m, s, [], 0) <==> m[s] == 0)
  {
    if init == None {
      Terminated(m, s, Zeros(len), len);
    }
  }

  /** SdbStringFree */
  method Free(a: Arena, s: nat, ghost contents: seq<Byte>, ghost cap: nat)
    requires Placed(a, s, contents, cap, 0)
    modifies a
    ensures a.Valid() && a.base + a.cur == s - 24
  {
    TopBounds(a, s, contents, cap, 0);
    hide *;
    var cap' := Capacity(a.mem, s, |contents|, cap);
    var at := a.Pop(24 + cap' + 1);
  }

  // ---- Any sequence of operations ----

  datatype Op = AppendOp(text: seq<Byte>) | SetOp(text: seq<Byte>) | ClearOp | BackspaceOp(n: nat)

  datatype State = State(contents: seq<Byte>, cap: nat)

  /** What an operation leaves when the capacity can grow up to `limit`: a refused one leaves everything. */
  function Step(st: State, op: Op, limit: nat): (r: State)
    requires |st.contents| <= st.cap <= limit
    ensures |r.contents| <= r.cap <= limit
  {
    var len := |st.contents|;
    match op
    case AppendOp(text) =>
      if Serves(limit - st.cap, len, st.cap, |text|) then State(st.contents + text, Grown(len, st.cap, |text|)) else st
    case SetOp(text) =>
      if Serves(limit - st.cap, len, st.cap, |text|) then State(text, Grown(len, st.cap, |text|)) else st
    case ClearOp => State([], st.cap)
    case BackspaceOp(n) => if n <= len then State(st.contents[..len - n], st.cap) else st
  }

  function Run(st: State, ops: seq<Op>, limit: nat): (r: State)
    requires |st.contents| <= st.cap <= limit
    ensures |r.contents| <= r.cap <= limit
    decreases |ops|
  {
    if ops == [] then st else Run(Step(st, ops[0], limit), ops[1..], limit)
  }

  /** The same operations on a plain sequence. */
  function RunSequence(contents: seq<Byte>, ops: seq<Op>): seq<Byte>
    decreases |ops|
  {
    if ops == [] then contents
    else RunSequence(match ops[0]
      case AppendOp(text) => contents + text
      case SetOp(text) => text
      case ClearOp => []
      case BackspaceOp(n) => if n <= |contents| then contents[..|contents| - n] else contents, ops[1..])
  }

  /** All characters the operations may ask room for. */
  function Added(ops: seq<Op>): nat {
    if ops == [] then 0
    else (match ops[0] case AppendOp(text) => |text| case SetOp(text) => |text| case _ => 0) + Added(ops[1..])
  }

  /** Whenever the arena has room for everything that is added, the string is the plain sequence. */
  lemma {:induction false} RunRefinesSequence(st: State, ops: seq<Op>, limit: nat)
    requires |st.contents| <= st.cap && st.cap + Added(ops) <= limit
    ensures Run(st, ops, limit).contents == RunSequence(st.contents, ops)
    decreases |ops|
  {
    if ops != [] {
      RunRefinesSequence(Step(st, ops[0], limit), ops[1..], limit);
    }
  }

  /** How far the capacity of the string at `s` can grow. */
  ghost function Limit(a: Arena, s: nat): int
  {
    a.base + a.cap - s - 1
  }

  /** Applies operations one after the other; each must not take away more than there is. */
  method Apply(a: Arena, s: nat, ops: seq<Op>, ghost st: State)
    requires Placed(a, s, st.contents, st.cap, 0)
    modifies a, a.mem
    ensures |st.contents| <= st.cap <= Limit(a, s)
    ensures Placed(a, s, Run(st, ops, Limit(a, s)).contents, Run(st, ops, Limit(a, s)).cap, 0)
    ensures OthersKept(a, s, old(a.mem[..]), a.mem[..])
  {
    ghost var now := st;
    ghost var m := a.mem[..];
    ghost var limit := Limit(a, s);
    hide *;
    TopBounds(a, s, st.contents, st.cap, 0);
    LimitIs(a, s);
    WithinRefl(s, s, m);
    WithinKeepsOthers(a, s, s, m, m);
    assert ops[0..] == ops;
    for i := 0 to |ops|
      invariant Placed(a, s, now.contents, now.cap, 0) && |now.contents| <= now.cap <= limit
      invariant Run(now, ops[i..], limit) == Run(st, ops, limit)
      invariant OthersKept(a, s, m, a.mem[..])
    {
      ghost var before := a.mem[..];
      RunStep(now, ops, i, limit);
      ApplyOne(a, s, ops[i], now);
      now := Step(now, ops[i], limit);
      KeptTwice(a, s, m, before, a.mem[..]);
    }
    RunEnd(now, ops, limit);
  }

  lemma LimitIs(a: Arena, s: nat)
    ensures Limit(a, s) == a.base + a.cap - s - 1
  {
  }

  lemma RunStep(st: State, ops: seq<Op>, i: nat, limit: nat)
    requires |st.contents| <= st.cap <= limit && i < |ops|
    ensures Run(st, ops[i..], limit) == Run(Step(st, ops[i], limit), ops[i + 1..], limit)
  {
    assert ops[i..][1..] == ops[i + 1..];
  }

  lemma RunEnd(st: State, ops: seq<Op>, limit: nat)
    requires |st.contents| <= st.cap <= limit
    ensures Run(st, ops[|ops|..], limit) == st
  {
  }

  lemma KeptTwice(a: Arena, s: nat, m: seq<Byte>, r: seq<Byte>, q: seq<Byte>)
    requires OthersKept(a, s, m, r) && OthersKept(a, s, r, q)
    ensures OthersKept(a, s, m, q)
  {
  }

  lemma StepCases(st: State, op: Op, limit: nat, a: Arena)
    requires |st.contents| <= st.cap <= limit && a.Valid() && Room(a) == limit - st.cap
    ensures var r, len := Step(st, op, limit), |st.contents|;
            match op
            case AppendOp(text) =>
              r == if Serves(Room(a), len, st.cap, |text|) then State(st.contents + text, Grown(len, st.cap, |text|)) else st
            case SetOp(text) =>
              r == if Serves(Room(a), len, st.cap, |text|) then State(text, Grown(len, st.cap, |text|)) else st
            case ClearOp => r == State([], st.cap)
            case BackspaceOp(n) => r == if n <= len then State(st.contents[..len - n], st.cap) else st
  {
    hide Serves, Grown, Room;
  }

  lemma RoomIs(a: Arena)
    requires a.Valid()
    ensures Room(a) == a.cap - a.cur
  {
  }

  method ApplyOne(a: Arena, s: nat, op: Op, ghost st: State)
    requires Placed(a, s, st.contents, st.cap, 0) && |st.contents| <= st.cap <= Limit(a, s)
    modifies a, a.mem
    ensures Placed(a, s, Step(st, op, Limit(a, s)).contents, Step(st, op, Limit(a, s)).cap, 0)
    ensures OthersKept(a, s, old(a.mem[..]), a.mem[..])
  {
    hide *;
    ghost var m := a.mem[..];
    ghost var limit := Limit(a, s);
    ghost var r := Step(st, op, limit);
    ghost var end := s;
    TopBounds(a, s, st.contents, st.cap, 0);
    LimitIs(a, s);
    RoomIs(a);
    StepCases(st, op, limit, a);
    match op {
      case AppendOp(text) =>
        var ok := Append(a, s, text, st.contents, st.cap, 0);
        end := if ok then s + |st.contents| + |text| + 1 else s;
      case SetOp(text) =>
        var ok := Set(a, s, text, st.contents, st.cap, 0);
        end := if ok then s + |text| + 1 else s;
      case ClearOp =>
        Clear(a, s, st.contents, st.cap, 0);
        end := s + 1;
      case BackspaceOp(n) =>
        var len := Length(a.mem, s, |st.contents|, st.cap);
        if n <= len {
          Backspace(a, s, n, st.contents, st.cap, 0);
          end := s + len - n + 1;
        } else {
          WithinRefl(s, s, m);
        }
    }
    TopBounds(a, s, r.contents, r.cap, 0);
    WithinKeepsOthers(a, s, end, m, a.mem[..]);
  }

  /**
   The whole life of a string that is made from a non-empty text or from nothing: whatever is done with
   it, freeing it puts the arena back where it was, and no other byte of the memory has changed.
   */
  method UseString(a: Arena, init: Option<seq<Byte>>, len: nat, ops: seq<Op>) returns (text: Option<seq<Byte>>)
    requires a.Valid() && (init.Some? ==> |init.value| == len) && init != Some([])
    modifies a, a.mem
    ensures a.Valid() && a.cur == old(a.cur)
    ensures a.mem[..a.base + a.cur] == old(a.mem[..a.base + a.cur])
    ensures a.mem[a.base + a.cap..] == old(a.mem[a.base + a.cap..])
    ensures text.Some? <==> a.cur + 24 + len + 1 <= a.cap
    ensures text.Some? ==>
              text.value == Run(State(InitialContents(init, len), len), ops, a.cap - a.cur - 25).contents
  {
    hide *;
    ghost var m := a.mem[..];
    var r := Make(a, init, len);
    if r == None {
      return None;
    }
    var s := r.value;
    ghost var st := State(InitialContents(init, len), len);
    InitialLength(init, len);
    LimitIs(a, s);
    ghost var m1 := a.mem[..];
    Apply(a, s, ops, st);
    KeptTwice(a, s, m, m1, a.mem[..]);
    ghost var end := Run(st, ops, Limit(a, s));
    TopBounds(a, s, end.contents, end.cap, 0);
    var length := Length(a.mem, s, |end.contents|, end.cap);
    text := Some(a.mem[..][s..s + length]);
    OthersAre(a, s, m, a.mem[..]);
    assert text.value == end.contents;
    Free(a, s, end.contents, end.cap);
    LimitIs(a, s);
  }

  lemma InitialLength(init: Option<seq<Byte>>, len: nat)
    requires init.Some? ==> |init.value| == len
    ensures |InitialContents(init, len)| == len
  {
  }

  lemma OthersAre(a: Arena, s: nat, m: seq<Byte>, r: seq<Byte>)
    requires OthersKept(a, s, m, r)
    ensures 24 <= s <= |m| == |r| && r[..s - 24] == m[..s - 24]
    ensures a.base + a.cap <= |m| && r[a.base + a.cap..] == m[a.base + a.cap..]
  {
  }

  /** A string made from an empty text in memory that is not zero is not terminated. */
  method EmptyTextIsNotTerminated() returns (a: Arena, s: nat)
    ensures a.Valid() && HEADER_SIZE <= s && s < a.mem.Length
    ensures HeaderIn(a.mem[..], s, 0, 0) && a.mem[s] == 65 && !StringIn(a.mem[..], s, [], 0)
  {
    var mem := new Byte[25](i => 65);
    assert Pow256(1) == 256;
    a := new Arena(mem, 0, 25);
    var r := Make(a, Some([]), 0);
    s := r.value;
  }

  /** A string is kept by whatever changes only bytes behind it. */
  lemma FrontIsKept(m: seq<Byte>, r: seq<Byte>, end: nat, s: nat, contents: seq<Byte>, cap: nat)
    requires |m| == |r| && end <= |m| && r[..end] == m[..end]
    requires StringIn(m, s, contents, cap) && s + |contents| + 1 <= end
    ensures StringIn(r, s, contents, cap)
  {
    RangesOfHeader(m, s, |contents|, cap);
    FrontRange(m, r, end, s - 16, s - 8);
    FrontRange(m, r, end, s - 8, s);
    FrontRange(m, r, end, s, s + |contents|);
    FrontRange(m, r, end, s + |contents|, s + |contents| + 1);
    hide HeaderIn, FromLittle;
    HeaderOfRanges(r, s, |contents|, cap);
  }

  lemma FrontRange(m: seq<Byte>, r: seq<Byte>, end: nat, i: nat, j: nat)
    requires |m| == |r| && i <= j <= end <= |m| && r[..end] == m[..end]
    ensures r[i..j] == m[i..j] && (i < j ==> r[i] == m[i])
  {
    var front := r[..end];
    assert front[i..j] == r[i..j] && front[i..j] == m[i..j];
    if i < j {
      assert front[i] == r[i] && front[i] == m[i];
    }
  }

  lemma OverwrittenLength(m: seq<Byte>, s: nat, contents: seq<Byte>, cap: nat, t: nat)
    requires StringIn(m, s, contents, cap) && s <= t - 16 < s + |contents| && t - 8 <= |m|
    requires contents[t - 16 - s] > 1
    ensures !HeaderIn(m, t, 1, 1)
  {
    assert m[t - 16] == m[s..s + |contents|][t - 16 - s];
    if t - 16 + 8 <= |m| {
      assert m[t - 16..t - 16 + 8][0] == m[t - 16];
      assert Word(m, t - 16) >= m[t - 16];
    }
  }

  /** Two strings of one character each, one behind the other. */
  method TwoStrings() returns (a: Arena, first: nat, second: nat)
    ensures fresh(a) && fresh(a.mem) && Placed(a, first, [65], 1, 26) && Placed(a, second, [65], 1, 0)
    ensures second == first + 26 && Room(a) >= 10 && second < a.mem.Length
  {
    var mem := new Byte[100](i => 0);
    assert Pow256(1) == 256;
    hide *;
    a := new Arena(mem, 0, 100);
    var made := Make(a, Some([65]), 1);
    first := made.value;
    ghost var m := a.mem[..];
    PlacedSays(a, first, [65], 1, 0);
    made := Make(a, Some([65]), 1);
    second := made.value;
    OthersAre(a, second, m, a.mem[..]);
    FrontIsKept(m, a.mem[..], second - 24, first, [65], 1);
    PlacedIs(a, first, [65], 1, 26);
  }

  /**
   A string that grows beyond its capacity below the top of the arena writes over the string behind it: the
   header of that one no longer holds its length.
   */
  method GrowBelowTop() returns (a: Arena, first: nat, second: nat)
    ensures Placed(a, first, [65] + [66, 66, 66, 66, 66, 66, 66, 66, 66, 66], 11, 26)
    ensures second == first + 26 && !HeaderIn(a.mem[..], second, 1, 1)
  {
    hide *;
    a, first, second := TwoStrings();
    PlacedSays(a, first, [65], 1, 26);
    var ok := Append(a, first, [66, 66, 66, 66, 66, 66, 66, 66, 66, 66], [65], 1, 26);
    GrownByTen(a);
    PlacedSays(a, first, [65] + [66, 66, 66, 66, 66, 66, 66, 66, 66, 66], 11, 26);
    OverwrittenLength(a.mem[..], first, [65] + [66, 66, 66, 66, 66, 66, 66, 66, 66, 66], 11, second);
  }

  lemma GrownByTen(a: Arena)
    requires a.Valid()
    ensures Grown(1, 1, 10) == 11 && Room(a) == a.cap - a.cur
    ensures forall room :: room >= 10 ==> Serves(room, 1, 1, 10)
  {
  }

  lemma PlacedSays(a: Arena, s: nat, contents: seq<Byte>, cap: nat, behind: nat)
    requires Placed(a, s, contents, cap, behind)
    ensures a.Valid() && StringIn(a.mem[..], s, contents, cap)
    ensures a.base + 24 <= s && s + cap + 1 + behind == a.base + a.cur <= a.mem.Length
  {
  }
}
