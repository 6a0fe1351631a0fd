/**
 * Growable strings in arena blocks: a length, a capacity and the characters,
 * all inside the block the arena handed out.
 *
 * The code never checks for a failed allocation, so a heap that always answers
 * is part of what it demands: `Heap` below stands for `calloc` and `realloc`.
 */
module DynStr {
  import opened Options
  import opened Bytes
  import opened MemPool
  import opened Arena

  const HEADER: nat := 8    // sizeof(dynstr)

  /** The process heap: where it puts a new or resized block, given the blocks it has out. */
  datatype Heap = Heap(
    calloc: (map<int, seq<byte>>, nat) -> int,
    realloc: (map<int, seq<byte>>, int, nat) -> int,
    junk: nat -> seq<byte>)

  /** It never hands out memory that is in use. */
  ghost predicate Lawful(env: Heap, bufLen: nat) {
    (forall h: map<int, seq<byte>>, n: nat :: env.calloc(h, n) !in h && Clear(bufLen, h, env.calloc(h, n), n))
    && (forall h: map<int, seq<byte>>, p: int, n: nat ::
          (env.realloc(h, p, n) == p || env.realloc(h, p, n) !in h) && Clear(bufLen, h - {p}, env.realloc(h, p, n), n))
    && forall n: nat :: |env.junk(n)| == n
  }

  ghost predicate Ready(a: Arena, env: Heap)
    reads a, a.mem, a.pools
  {
    a.Valid() && a.allowHeap && Lawful(env, a.mem.Length)
  }

  /** Block `b` holds the string `text`: len, cap, characters, terminator. */
  ghost predicate StrBlock(b: seq<byte>, text: seq<byte>) {
    HEADER + |text| + 1 <= |b| < INT_LIMIT
    && DecodeInt(b[0..4]) == |text|
    && DecodeInt(b[4..8]) == |b| - HEADER
    && b[HEADER..HEADER + |text|] == text
    && b[HEADER + |text|] == 0
  }

  ghost predicate IsStr(a: Arena, p: int, text: seq<byte>)
    reads a
  {
    p in a.data && StrBlock(a.data[p], text)
  }

  /** The `cap` of a string: what its block leaves after the header. */
  ghost function Capacity(a: Arena, p: int): int
    requires p in a.data
    reads a
  {
    |a.data[p]| - HEADER
  }

  /** String `p` became string `q` holding `text`; all other blocks are as before. */
  twostate predicate Became(a: Arena, p: int, new q: int, new text: seq<byte>)
    reads a
  {
    IsStr(a, q, text) && (q == p || q !in old(a.data)) && a.data == (old(a.data) - {p})[q := a.data[q]]
  }

  // ---- stores ------------------------------------------------------------------

  lemma Rewritten(b: seq<byte>, t: seq<byte>, i: nat, s: seq<byte>)
    requires StrBlock(b, t) && i <= |t| && HEADER + i + |s| + 1 <= |b|
    ensures StrBlock(Overwritten(Overwritten(b, HEADER + i, s + [0]), 0, EncodeInt(i + |s|)), t[..i] + s)
  {
    var b1 := Overwritten(b, HEADER + i, s + [0]);
    var b2 := Overwritten(b1, 0, EncodeInt(i + |s|));
    DecodeEncode(i + |s|);
    assert b2[0..4] == EncodeInt(i + |s|);
    assert b2[4..8] == b1[4..8] == b[4..8];
    forall k | 0 <= k < i + |s|
      ensures b2[HEADER + k] == (t[..i] + s)[k]
    {
      assert k < i ==> b2[HEADER + k] == b[HEADER + k] == b[HEADER..HEADER + |t|][k];
    }
    assert b2[HEADER..HEADER + i + |s|] == t[..i] + s;
  }

  /** Replace the characters from `i` on by `s`: the stores behind every operation below. */
  method Splice(a: Arena, p: int, i: nat, s: seq<byte>, ghost t: seq<byte>)
    requires a.Valid() && IsStr(a, p, t) && i <= |t| && i + |s| + 1 <= Capacity(a, p)
    modifies a, a.mem
    ensures a.Valid() && Became(a, p, p, t[..i] + s) && Capacity(a, p) == old(Capacity(a, p))
  {
    hide a.Valid;
    Rewritten(a.data[p], t, i, s);
    a.Write(p, HEADER + i, s + [0]);
    a.Write(p, 0, EncodeInt(i + |s|));
  }

  /** `s->len`, `s->cap` and the characters, as they are in memory. */
  method Load(a: Arena, p: int, ghost t: seq<byte>) returns (len: nat, cap: nat, text: seq<byte>)
    requires a.Valid() && IsStr(a, p, t)
    ensures len == |t| && cap == Capacity(a, p) && text == t
  {
    hide a.Valid;
    var head := a.Read(p, HEADER);
    assert head[0..4] == a.data[p][0..4] && head[4..8] == a.data[p][4..8];
    len, cap := DecodeInt(head[0..4]), DecodeInt(head[4..8]);
    var bytes := a.Read(p, HEADER + len);
    text := bytes[HEADER..];
  }

  // ---- creation and growth --------------------------------------------------------

  lemma FreshBlock(b: seq<byte>)
    requires HEADER + 1 <= |b| < INT_LIMIT
    ensures StrBlock(Overwritten(b, 0, EncodeInt(0) + EncodeInt(|b| - HEADER) + [0]), [])
  {
    var b' := Overwritten(b, 0, EncodeInt(0) + EncodeInt(|b| - HEADER) + [0]);
    DecodeEncode(0);
    DecodeEncode(|b| - HEADER);
    assert b'[0..4] == EncodeInt(0);
    assert b'[4..8] == EncodeInt(|b| - HEADER);
  }

  /** `_alloc` and `dynstr_reserve`. */
  method Reserve(a: Arena, capacity: nat, env: Heap) returns (p: int)
    requires Ready(a, env) && HEADER + capacity + 1 < INT_LIMIT
    modifies a, a.pools, a.mem
    ensures a.Valid() && p !in old(a.data) && IsStr(a, p, []) && Capacity(a, p) > capacity
    ensures a.data == old(a.data)[p := a.data[p]]
  {
    hide a.Valid;
    var q, cap := a.Alloc(HEADER + capacity + 1, Some(env.calloc(a.heap, HEADER + capacity + 1)));
    p := q.value;
    FreshBlock(a.data[p]);
    a.Write(p, 0, EncodeInt(0) + EncodeInt(cap - HEADER) + [0]);
  }

  lemma RegrownBlock(b: seq<byte>, b': seq<byte>, t: seq<byte>)
    requires StrBlock(b, t) && |b| <= |b'| < INT_LIMIT && Agree(b, b')
    ensures StrBlock(Overwritten(b', 4, EncodeInt(|b'| - HEADER)), t)
  {
    var r := Overwritten(b', 4, EncodeInt(|b'| - HEADER));
    DecodeEncode(|b'| - HEADER);
    assert r[0..4] == b[0..4];
    assert r[4..8] == EncodeInt(|b'| - HEADER);
    assert r[HEADER..HEADER + |t|] == b[HEADER..HEADER + |t|];
  }

  /** `dynstr_resize`, with `_realloc`: afterwards the capacity exceeds `newLen`. */
  method Resize(a: Arena, p: int, newLen: nat, env: Heap, ghost t: seq<byte>) returns (q: int)
    requires Ready(a, env) && IsStr(a, p, t) && HEADER + newLen + 1 < INT_LIMIT
    modifies a, a.pools, a.mem
    ensures a.Valid() && Became(a, p, q, t) && Capacity(a, q) > newLen
  {
    hide a.Valid, StrBlock;
    var len, cap, _ := Load(a, p, t);
    if newLen < cap {
      return p;
    }
    var n := HEADER + newLen + 1;
    ghost var block := a.data[p];
    var r, newcap := a.Realloc(p, n, Some(if p in a.heap then env.realloc(a.heap, p, n) else env.calloc(a.heap, n)), env.junk(n));
    q := r.value;
    assert a.data - {q} == old(a.data) - {p} - {q};
    RegrownBlock(block, a.data[q], t);
    a.Write(q, 4, EncodeInt(newcap - HEADER));
  }

  // ---- operations -------------------------------------------------------------------

  /** What `strncpy` leaves in the destination: the text up to a NUL, then zeros. */
  function StrNCpy(s: seq<byte>): (r: seq<byte>)
    ensures |r| == |s|
  {
    if s == [] then [] else if s[0] == 0 then seq(|s|, i => 0) else [s[0]] + StrNCpy(s[1..])
  }

  /** Text without NUL is copied as it is; if it ends in a non-NUL, only such text is. */
  lemma {:induction false} StrNCpyExact(s: seq<byte>)
    ensures 0 !in s ==> StrNCpy(s) == s
    ensures |s| > 0 && s[|s| - 1] != 0 && StrNCpy(s) == s ==> 0 !in s
  {
    if s != [] && s[0] != 0 {
      StrNCpyExact(s[1..]);
      assert StrNCpy(s)[1..] == StrNCpy(s[1..]);
      assert s == [s[0]] + s[1..];
    }
  }

  /** From the first NUL on, zeros; before it, the text. */
  lemma {:induction false} StrNCpyAt(s: seq<byte>, i: nat)
    requires i < |s|
    ensures StrNCpy(s)[i] == if 0 in s[..i + 1] then 0 else s[i]
    decreases |s|
  {
    if s[0] == 0 {
      assert s[..i + 1][0] == 0;
    } else if i > 0 {
      StrNCpyAt(s[1..], i - 1);
      assert s[..i + 1] == [s[0]] + s[1..][..i];
    }
  }

  /** `dynstr_cnew`: a new string from the characters of a range. */
  method Cnew(a: Arena, src: seq<byte>, env: Heap) returns (p: int)
    requires Ready(a, env) && HEADER + |src| + 1 < INT_LIMIT
    modifies a, a.pools, a.mem
    ensures a.Valid() && p !in old(a.data) && IsStr(a, p, StrNCpy(src))
    ensures a.data == old(a.data)[p := a.data[p]]
  {
    hide a.Valid, StrNCpy;
    p := Reserve(a, |src|, env);
    ghost var empty: seq<byte> := [];
    assert empty[..0] + StrNCpy(src) == StrNCpy(src);
    Splice(a, p, 0, StrNCpy(src), empty);
  }

  /** `dynstr_cat`. Appending a string to itself is sound only as long as the string need not grow. */
  method Cat(a: Arena, dst: int, src: int, env: Heap, ghost t: seq<byte>, ghost u: seq<byte>) returns (q: int)
    requires Ready(a, env) && IsStr(a, dst, t) && IsStr(a, src, u)
    requires dst == src ==> |t| + |u| < Capacity(a, dst)
    requires HEADER + |t| + |u| + 1 < INT_LIMIT
    modifies a, a.pools, a.mem
    ensures a.Valid() && Became(a, dst, q, t + u)
  {
    hide a.Valid;
    var dlen, _, _ := Load(a, dst, t);
    var slen, _, chars := Load(a, src, u);
    q := Resize(a, dst, dlen + slen, env, t);
    assert t[..|t|] == t;
    Splice(a, q, dlen, chars, t);
  }

  function Inserted(t: seq<byte>, u: seq<byte>, index: nat): seq<byte> {
    if index >= |t| then t + u else t[..index] + u + StrNCpy(t[index..])
  }

  /** NUL-free text with another text at the index, or at the end when the index is past it. */
  lemma InsertedIs(t: seq<byte>, u: seq<byte>, index: nat)
    requires 0 !in t
    ensures var k := if index < |t| then index else |t|; Inserted(t, u, index) == t[..k] + u + t[k..]
  {
    if index < |t| {
      StrNCpyExact(t[index..]);
    } else {
      assert t[..|t|] == t && t[|t|..] == [] && t + u + [] == t + u;
    }
  }

  /** `dynstr_insert`: the tail is cut off, kept in a copy, and appended after the needle. */
  method Insert(a: Arena, into: int, needle: int, index: nat, env: Heap, ghost t: seq<byte>, ghost u: seq<byte>) returns (q: int)
    requires Ready(a, env) && IsStr(a, into, t) && IsStr(a, needle, u) && into != needle
    requires HEADER + |t| + |u| + 1 < INT_LIMIT
    modifies a, a.pools, a.mem
    ensures a.Valid() && Became(a, into, q, Inserted(t, u, index))
  {
    hide a.Valid, StrNCpy, StrBlock;
    var len, _, _ := Load(a, into, t);
    if index >= len {
      q := Cat(a, into, needle, env, t, u);
      return;
    }
    var nlen, _, _ := Load(a, needle, u);
    q := Resize(a, into, len + nlen, env, t);
    var _, _, chars := Load(a, q, t);
    var tail := Cnew(a, chars[index..], env);
    assert a.data - {q, tail} == old(a.data) - {into};
    q := ReplaceTail(a, q, index, needle, tail, env, t, u, StrNCpy(t[index..]));
    assert a.data - {q, tail} == old(a.data) - {into};
    a.Free(tail);
  }

  /** Cut the string at `index` and append two others. */
  method ReplaceTail(a: Arena, p: int, index: nat, needle: int, tail: int, env: Heap,
                     ghost t: seq<byte>, ghost u: seq<byte>, ghost w: seq<byte>) returns (q: int)
    requires Ready(a, env) && IsStr(a, p, t) && IsStr(a, needle, u) && IsStr(a, tail, w)
    requires p != needle && p != tail && needle != tail && index <= |t| && HEADER + index + |u| + |w| + 1 < INT_LIMIT
    modifies a, a.pools, a.mem
    ensures a.Valid() && Became(a, p, q, t[..index] + u + w)
  {
    hide a.Valid;
    assert t[..index] + [] == t[..index];
    Splice(a, p, index, [], t);
    hide StrBlock;
    q := Cat(a, p, needle, env, t[..index], u);
    q := Cat(a, q, tail, env, t[..index] + u, w);
  }

  /** The text with `[idx1, idx2]` taken out. */
  function WithoutRange(t: seq<byte>, idx1: nat, idx2: nat): seq<byte>
    requires idx1 <= idx2 && (idx2 < |t| || idx1 == 0)
  {
    t[..idx1] + if idx2 < |t| then t[idx2 + 1..] else []
  }

  /** Characters before the range stay where they are, those behind it move up. */
  lemma WithoutRangeAt(t: seq<byte>, idx1: nat, idx2: nat)
    requires idx1 <= idx2 < |t|
    ensures |WithoutRange(t, idx1, idx2)| == |t| - (idx2 - idx1 + 1)
    ensures forall i :: 0 <= i < |WithoutRange(t, idx1, idx2)| ==>
              WithoutRange(t, idx1, idx2)[i] == t[if i < idx1 then i else i + (idx2 - idx1 + 1)]
  {
  }

  /** The second shortcut of `dynstr_remove_range` is taken. */
  predicate TakesShortcut(len: nat, idx1: nat, idx2: nat) {
    (idx2 == 0 || idx2 < idx1) && !(idx1 == 0 && idx2 >= len)
  }

  /** What that shortcut stores: a length, and a terminator one past it. */
  function Shortcut(b: seq<byte>, idx1: nat): seq<byte>
    requires HEADER + idx1 < |b| < INT_LIMIT
  {
    Overwritten(Overwritten(b, 0, EncodeInt(idx1 - 1)), HEADER + idx1, [0])
  }

  /** The shortcut leaves a well-formed string only behind a NUL character, so never in NUL-free text. */
  lemma ShortcutLeavesStringIff(b: seq<byte>, t: seq<byte>, idx1: nat)
    requires StrBlock(b, t) && idx1 <= |t|
    ensures (exists u :: StrBlock(Shortcut(b, idx1), u)) <==> idx1 >= 1 && t[idx1 - 1] == 0
  {
    var r := Shortcut(b, idx1);
    DecodeEncode(idx1 - 1);
    assert r[0..4] == EncodeInt(idx1 - 1);
    assert r[4..8] == b[4..8];
    if idx1 >= 1 {
      assert r[HEADER + idx1 - 1] == b[HEADER + idx1 - 1] == b[HEADER..HEADER + |t|][idx1 - 1];
      assert t[idx1 - 1] == 0 ==> StrBlock(r, r[HEADER..HEADER + idx1 - 1]);
    }
  }

  /** `dynstr_remove_range`: it removes `[idx1, idx2]` unless it takes the shortcut. */
  method RemoveRange(a: Arena, p: int, idx1: nat, idx2: nat, ghost t: seq<byte>)
    requires a.Valid() && IsStr(a, p, t)
    requires if TakesShortcut(|t|, idx1, idx2) then idx1 < Capacity(a, p) else idx2 < |t| || idx1 == 0
    modifies a, a.mem
    ensures a.Valid()
    ensures TakesShortcut(|t|, idx1, idx2) ==> a.data == old(a.data)[p := Shortcut(old(a.data)[p], idx1)]
    ensures !TakesShortcut(|t|, idx1, idx2) ==>
              Became(a, p, p, WithoutRange(t, idx1, idx2)) && Capacity(a, p) == old(Capacity(a, p))
  {
    hide a.Valid;
    var len, _, chars := Load(a, p, t);
    if idx1 == 0 && idx2 >= len {
      Splice(a, p, 0, [], t);
      return;
    }
    if idx2 == 0 || idx2 < idx1 {
      a.Write(p, 0, EncodeInt(idx1 - 1));
      a.Write(p, HEADER + idx1, [0]);
      return;
    }
    Splice(a, p, idx1, chars[idx2 + 1..], t);
  }

  /** `dynstr_fill`, after `bytes` were stored at the end of the string. */
  method Fill(a: Arena, p: int, bytes: seq<byte>, ghost t: seq<byte>)
    requires a.Valid() && IsStr(a, p, t) && |t| + |bytes| + 1 <= Capacity(a, p)
    modifies a, a.mem
    ensures a.Valid() && Became(a, p, p, t + bytes) && Capacity(a, p) == old(Capacity(a, p))
  {
    hide a.Valid;
    var len, _, _ := Load(a, p, t);
    assert t[..|t|] == t;
    Splice(a, p, len, bytes, t);
  }

  /** `dynstr_slack`. */
  method Slack(a: Arena, p: int, ghost t: seq<byte>) returns (n: int)
    requires a.Valid() && IsStr(a, p, t)
    ensures n == Capacity(a, p) - |t| - 1 && n >= 0
  {
    hide a.Valid;
    var len, cap, _ := Load(a, p, t);
    n := cap - len - 1;
  }
}
