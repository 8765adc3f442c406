/** firmware/lib/skub.c: a bitmap allocator over pools of equal chunks. A bitmap
    word is the set of its one bits; a one bit is a free chunk. */
module Skub {
  import opened Words

  const WORD: nat := 32

  /** The set bits of a 32-bit word. */
  type Bits = set<nat>

  /** A pool: where its memory starts, its first word in skub_bitmaps, how many
      chunks it has and how long each is. */
  datatype Pool = Pool(base: nat, first: nat, max: nat, size: nat) {
    function Words(): nat {
      (max + 31) / WORD
    }

    function Address(c: nat): nat {
      base + c * size
    }

    predicate Owns(ptr: nat) {
      size > 0 && base <= ptr < base + max * size && (ptr - base) % size == 0
    }
  }

  /** (1 << n) - 1. */
  function Below(n: nat): (b: Bits)
    ensures forall i :: i in b <==> 0 <= i < n
  {
    if n == 0 then {} else Below(n - 1) + {n - 1}
  }

  /** The chunks of a pool whose bits are set. */
  function FreeIn(w: seq<Bits>, p: Pool): (f: set<nat>)
    requires p.first + p.Words() <= |w|
  {
    set c | 0 <= c < p.max && IsFree(w, p, c)
  }

  predicate IsFree(w: seq<Bits>, p: Pool, c: nat)
    requires p.first + p.Words() <= |w| && c < p.max
  {
    c % WORD in w[p.first + c / WORD]
  }

  /** Pools as skub-zones.h declares them: in order of chunk size, with words and
      memory of their own. */
  predicate Layout(pools: seq<Pool>, words: nat) {
    && pools != []
    && (forall k :: 0 <= k < |pools| ==>
          pools[k].max > 0 && pools[k].size > 0 && pools[k].first + pools[k].Words() <= words)
    && (forall j, k :: 0 <= j < k < |pools| ==> pools[j].size < pools[k].size && Apart(pools[j], pools[k]))
  }

  predicate Apart(p: Pool, q: Pool) {
    && (p.first + p.Words() <= q.first || q.first + q.Words() <= p.first)
    && (p.base + p.max * p.size <= q.base || q.base + q.max * q.size <= p.base)
  }

  /** The word of a chunk lies among its pool's words. */
  lemma ChunkWord(p: Pool, c: nat)
    requires c < p.max
    ensures c / WORD < p.Words() && c == WORD * (c / WORD) + c % WORD
  {
  }

  lemma ChunkOfBit(i: nat, b: nat)
    requires b < WORD
    ensures (WORD * i + b) / WORD == i && (WORD * i + b) % WORD == b
  {
  }

  function WordOf(w: seq<Bits>, p: Pool, i: nat): Bits
    requires p.first + p.Words() <= |w| && i < p.Words()
  {
    w[p.first + i]
  }

  /** No bit set beyond the chunks there are. */
  predicate Clean(w: seq<Bits>, p: Pool)
    requires p.first + p.Words() <= |w|
  {
    forall i :: 0 <= i < p.Words() ==> WordClean(p, i, WordOf(w, p, i))
  }

  predicate WordClean(p: Pool, i: nat, v: Bits) {
    forall b :: b in v ==> 0 <= b < WORD && WORD * i + b < p.max
  }

  /** Clearing or setting the bit of one chunk. */
  lemma BitChanges(w: seq<Bits>, p: Pool, c: nat)
    requires p.first + p.Words() <= |w| && c < p.max && c / WORD < p.Words()
    ensures var at, b := p.first + c / WORD, c % WORD;
            && FreeIn(w[at := w[at] - {b}], p) == FreeIn(w, p) - {c}
            && FreeIn(w[at := w[at] + {b}], p) == FreeIn(w, p) + {c}
  {
    var at, b := p.first + c / WORD, c % WORD;
    forall d | 0 <= d < p.max && d != c
      ensures IsFree(w[at := w[at] - {b}], p, d) == IsFree(w, p, d) == IsFree(w[at := w[at] + {b}], p, d)
    {
      ChunkWord(p, c);
      ChunkWord(p, d);
    }
  }

  /** Pools with words of their own do not see each other's changes. */
  lemma OthersKeep(w: seq<Bits>, q: Pool, at: nat, x: Bits)
    requires at < |w| && q.first + q.Words() <= |w| && (at < q.first || q.first + q.Words() <= at)
    ensures FreeIn(w[at := x], q) == FreeIn(w, q)
    ensures Clean(w, q) ==> Clean(w[at := x], q)
  {
    forall c | 0 <= c < q.max ensures IsFree(w[at := x], q, c) == IsFree(w, q, c) {
      ChunkWord(q, c);
    }
    if Clean(w, q) {
      var v := w[at := x];
      forall i | 0 <= i < q.Words() ensures WordClean(q, i, WordOf(v, q, i)) {
        assert WordOf(v, q, i) == WordOf(w, q, i);
      }
    }
  }

  /** Which chunk of a pool an address is, if any. */
  function ChunkAt(p: Pool, ptr: nat): (c: nat)
    requires p.Owns(ptr)
    ensures c < p.max && p.Address(c) == ptr
  {
    ChunkBound(p.size, ptr - p.base, p.max);
    (ptr - p.base) / p.size
  }

  lemma ChunkBound(size: nat, offset: nat, max: nat)
    requires size > 0 && offset < max * size
    ensures 0 <= offset / size < max && offset == offset / size * size + offset % size
  {
    var q := offset / size;
    assert offset == q * size + offset % size;
    if q >= max { MulAtLeast(q, max, size); }
  }

  /** Every chunk has an address that leads back to it and lies inside its pool. */
  lemma AddressExact(p: Pool, c: nat)
    requires p.size > 0 && c < p.max
    ensures p.base <= p.Address(c) && p.Address(c) + p.size <= p.base + p.max * p.size
    ensures p.Owns(p.Address(c)) && ChunkAt(p, p.Address(c)) == c
  {
    MulAtLeast(p.max, c + 1, p.size);
    assert (c + 1) * p.size == c * p.size + p.size;
    DivModUnique(c * p.size, p.size, c, 0);
  }

  /** The bytes of a chunk. */
  predicate Covers(p: Pool, c: nat, x: nat) {
    p.Address(c) <= x < p.Address(c) + p.size
  }

  /** No byte belongs to two chunks, of one pool or of two. */
  lemma ChunksDisjoint(pools: seq<Pool>, words: nat, j: nat, c: nat, k: nat, d: nat, x: nat)
    requires Layout(pools, words) && j < |pools| && k < |pools| && c < pools[j].max && d < pools[k].max
    requires Covers(pools[j], c, x) && Covers(pools[k], d, x)
    ensures j == k && c == d
  {
    AddressExact(pools[j], c);
    AddressExact(pools[k], d);
    if j == k {
      if c < d {
        ChunkAfter(pools[j], c, d);
      } else if d < c {
        ChunkAfter(pools[j], d, c);
      }
    }
  }

  lemma ChunkAfter(p: Pool, c: nat, d: nat)
    requires c < d
    ensures p.Address(c) + p.size <= p.Address(d)
  {
    MulAtLeast(d, c + 1, p.size);
    assert (c + 1) * p.size == c * p.size + p.size;
  }

  /** __builtin_ctz of a word that is not zero. */
  function Lowest(v: Bits, from: nat): (b: nat)
    requires from < WORD && exists x :: x in v && from <= x < WORD
    ensures b in v && from <= b < WORD && forall x :: x in v && from <= x ==> b <= x
    decreases WORD - from
  {
    if from in v then from else Lowest(v, from + 1)
  }

  /** How many chunks skub_init_pool frees: a pool whose size is a multiple of 32
      loses its last word, because 1 << 0 minus 1 is no bit at all. */
  function InitiallyFree(p: Pool): nat
    requires p.max > 0
  {
    if p.max % WORD == 0 then p.max - WORD else p.max
  }

  lemma WordCount(max: nat)
    requires max > 0
    ensures var n := (max + 31) / WORD; n > 0 && max == WORD * (n - 1) + (if max % WORD == 0 then WORD else max % WORD)
  {
  }

  lemma InitialPool(w: seq<Bits>, p: Pool)
    requires p.first + p.Words() <= |w| && p.max > 0 && p.Words() > 0
    requires forall i :: 0 <= i < p.Words() - 1 ==> WordOf(w, p, i) == Below(WORD)
    requires WordOf(w, p, p.Words() - 1) == Below(p.max % WORD)
    ensures Clean(w, p) && FreeIn(w, p) == Below(InitiallyFree(p))
  {
    hide Below;
    WordCount(p.max);
    forall i | 0 <= i < p.Words() ensures WordClean(p, i, WordOf(w, p, i)) {
    }
    forall c | 0 <= c < p.max ensures IsFree(w, p, c) <==> c < InitiallyFree(p) {
      ChunkWord(p, c);
      assert IsFree(w, p, c) <==> c % WORD in WordOf(w, p, c / WORD);
    }
  }

  /** The two sized pools of skub-zones.h meet the layout, wherever the linker
      puts them apart, and lose nothing at initialisation. */
  lemma SizedPools(a: nat, b: nat)
    requires a + 28 * 128 <= b || b + 2 * 384 <= a
    ensures var pools := [Pool(a, 0, 28, 128), Pool(b, 1, 2, 384)];
            Layout(pools, 2) && InitiallyFree(pools[0]) == 28 && InitiallyFree(pools[1]) == 2
  {
  }

  class Allocator {
    const pools: seq<Pool>
    const words: array<Bits>

    constructor (pools: seq<Pool>, words: nat)
      requires Layout(pools, words)
      ensures Valid() && this.pools == pools && fresh(this.words)
      ensures forall k :: 0 <= k < |pools| ==> Free(k) == Below(InitiallyFree(pools[k]))
    {
      this.pools := pools;
      this.words := new Bits[words](_ => {});
      new;
      Init();
    }

    ghost predicate Shape() {
      Layout(pools, words.Length)
    }

    ghost predicate Valid()
      reads words
    {
      Shape() && forall k :: 0 <= k < |pools| ==> Clean(words[..], pools[k])
    }

    /** The free chunks of pool k. */
    ghost function Free(k: nat): set<nat>
      requires Shape() && k < |pools|
      reads words
    {
      FreeIn(words[..], pools[k])
    }

    method Init()
      requires Shape()
      modifies words
      ensures Valid() && forall k :: 0 <= k < |pools| ==> Free(k) == Below(InitiallyFree(pools[k]))
    {
      hide Below, FreeIn, Clean;
      for k := 0 to |pools|
        invariant forall j :: 0 <= j < k ==> Free(j) == Below(InitiallyFree(pools[j])) && Clean(words[..], pools[j])
      {
        InitPool(k);
      }
    }

    method InitPool(k: nat)
      requires Shape() && k < |pools|
      modifies words
      ensures Free(k) == Below(InitiallyFree(pools[k])) && Clean(words[..], pools[k])
      ensures OthersSame(k, old(words[..]), words[..])
    {
      var p := pools[k];
      var n := (p.max + 31) / WORD;
      WordCount(p.max);
      hide Below, FreeIn, Clean;
      OthersSelf(k, words[..]);
      for i := 0 to n - 1
        invariant forall j :: 0 <= j < i ==> WordOf(words[..], p, j) == Below(WORD)
        invariant OthersSame(k, old(words[..]), words[..])
      {
        SetWord(k, i, Below(WORD), old(words[..]));
      }
      SetWord(k, n - 1, Below(p.max % WORD), old(words[..]));
      InitialPool(words[..], p);
    }

    /** Word i of pool k takes the value x. */
    method SetWord(k: nat, i: nat, x: Bits, ghost was: seq<Bits>)
      requires Shape() && k < |pools| && i < pools[k].Words() && OthersSame(k, was, words[..])
      modifies words
      ensures OthersSame(k, was, words[..]) && WordOf(words[..], pools[k], i) == x
      ensures forall j :: 0 <= j < pools[k].Words() && j != i ==>
                WordOf(words[..], pools[k], j) == WordOf(old(words[..]), pools[k], j)
    {
      hide FreeIn, Clean;
      ghost var before := words[..];
      OthersStep(k, was, before, pools[k].first + i, x);
      words[pools[k].first + i] := x;
      assert words[..] == before[pools[k].first + i := x];
    }

    /** No pool but k has changed. */
    ghost predicate OthersSame(k: nat, w: seq<Bits>, v: seq<Bits>)
      requires Shape()
    {
      && |w| == |v| == words.Length
      && forall j :: 0 <= j < |pools| && j != k ==>
           FreeIn(v, pools[j]) == FreeIn(w, pools[j]) && (Clean(w, pools[j]) ==> Clean(v, pools[j]))
    }

    lemma OthersSelf(k: nat, w: seq<Bits>)
      requires Shape() && |w| == words.Length
      ensures OthersSame(k, w, w)
    {
    }

    lemma OthersStep(k: nat, w: seq<Bits>, v: seq<Bits>, at: nat, x: Bits)
      requires Shape() && k < |pools| && OthersSame(k, w, v)
      requires pools[k].first <= at < pools[k].first + pools[k].Words()
      ensures OthersSame(k, w, v[at := x])
    {
      hide FreeIn, Clean;
      forall j | 0 <= j < |pools| && j != k
        ensures FreeIn(v[at := x], pools[j]) == FreeIn(v, pools[j])
        ensures Clean(v, pools[j]) ==> Clean(v[at := x], pools[j])
      {
        assert if j < k then Apart(pools[j], pools[k]) else Apart(pools[k], pools[j]);
        OthersKeep(v, pools[j], at, x);
      }
    }

    /** One chunk of pool k, the lowest that is free. The store fails, and is
        tried again, `failures` times. */
    method AllocFromPool(k: nat, failures: nat) returns (r: Option<nat>)
      requires Valid() && k < |pools|
      modifies words
      ensures Valid() && OthersSame(k, old(words[..]), words[..])
      ensures r.None? <==> old(Free(k)) == {}
      ensures r.None? ==> words[..] == old(words[..])
      ensures r.Some? ==> pools[k].Owns(r.value) && Taken(k, old(Free(k)), ChunkAt(pools[k], r.value))
    {
      hide FreeIn, Clean;
      var p, i, left := pools[k], 0, failures;
      OthersSelf(k, words[..]);
      var n := (p.max + 31) / WORD;
      while i < n
        invariant i <= n && words[..] == old(words[..])
        invariant forall j :: 0 <= j < i ==> WordOf(words[..], p, j) == {}
        decreases n - i, left
      {
        var bits := words[p.first + i];
        if bits == {} {
          i := i + 1;
        } else {
          BitInRange(words[..], p, i, bits);
          var idx := Lowest(bits, 0);
          bits := bits - {idx};
          if left > 0 {
            left := left - 1;
          } else {
            ghost var was := words[..];
            OthersStep(k, was, was, p.first + i, bits);
            words[p.first + i] := bits;
            var chunk := WORD * i + idx;
            assert words[..] == was[p.first + i := bits];
            AllocKeeps(was, p, i, idx);
            AddressExact(p, chunk);
            StillValid(k, was);
            return Some(p.Address(chunk));
          }
        }
      }
      NoneFree(words[..], p);
      r := None;
    }

    /** The first pool of chunks of at least `size` bytes with a chunk free. */
    ghost predicate Chosen(free: seq<set<nat>>, size: int, k: nat)
      requires Shape() && k < |pools| == |free|
    {
      pools[k].size >= size && free[k] != {} && forall j :: 0 <= j < k ==> pools[j].size < size || free[j] == {}
    }

    ghost function AllFree(): seq<set<nat>>
      requires Shape()
      reads words
    {
      FreeAll(pools, words[..])
    }

    /** skub_alloc_sz: fails exactly when every pool with chunks long enough is
        exhausted, which with no such pool it is. */
    method AllocSized(size: int, failures: nat) returns (r: Option<nat>)
      requires Valid()
      modifies words
      ensures Valid()
      ensures r.None? <==> forall j :: 0 <= j < |pools| && pools[j].size >= size ==> old(AllFree())[j] == {}
      ensures r.None? ==> words[..] == old(words[..])
      ensures r.Some? ==> exists k: nat ::
                k < |pools| && Chosen(old(AllFree()), size, k) && pools[k].Owns(r.value)
                && Taken(k, old(AllFree())[k], ChunkAt(pools[k], r.value)) && OthersSame(k, old(words[..]), words[..])
    {
      hide FreeIn, Clean;
      ghost var free := AllFree();
      if size > pools[|pools| - 1].size { return None; }
      for k := 0 to |pools|
        invariant Valid() && words[..] == old(words[..])
        invariant forall j :: 0 <= j < k && pools[j].size >= size ==> free[j] == {}
      {
        if pools[k].size >= size {
          r := AllocFromPool(k, failures);
          if r.Some? {
            assert Chosen(free, size, k);
            return;
          }
        }
      }
      r := None;
    }

    /** Setting the bit of chunk (ptr - base) / size of pool k. */
    method SetBit(k: nat, ptr: nat)
      requires Valid() && k < |pools| && pools[k].Owns(ptr)
      modifies words
      ensures Valid() && OthersSame(k, old(words[..]), words[..])
      ensures Free(k) == old(Free(k)) + {ChunkAt(pools[k], ptr)}
    {
      hide FreeIn, Clean;
      var p := pools[k];
      var idx := ChunkAt(p, ptr);
      ghost var was := words[..];
      ChunkWord(p, idx);
      OthersSelf(k, was);
      var at := p.first + idx / WORD;
      OthersStep(k, was, was, at, was[at] + {idx % WORD});
      words[at] := words[at] + {idx % WORD};
      assert words[..] == was[at := was[at] + {idx % WORD}];
      BitChanges(was, p, idx);
      FreeKeepsClean(was, p, idx);
      StillValid(k, was);
    }

    /** skub_free: fails where its assertions do. */
    method FreeTo(k: nat, ptr: nat) returns (ok: bool)
      requires Valid() && k < |pools|
      modifies words
      ensures Valid() && ok == pools[k].Owns(ptr) && OthersSame(k, old(words[..]), words[..])
      ensures !ok ==> words[..] == old(words[..])
      ensures ok ==> Free(k) == old(Free(k)) + {ChunkAt(pools[k], ptr)}
    {
      hide FreeIn, Clean;
      OthersSelf(k, words[..]);
      var p := pools[k];
      var offset: int := ptr - p.base;
      if offset < 0 || offset >= p.max * p.size || offset % p.size != 0 { return false; }
      SetBit(k, ptr);
      ok := true;
    }

    /** skub_free_sz: finds the pool by the address, and halts on an address that
        is no chunk of any. */
    method FreeSized(ptr: nat) returns (ok: bool)
      requires Valid()
      modifies words
      ensures Valid() && (ok <==> exists k :: 0 <= k < |pools| && pools[k].Owns(ptr))
      ensures !ok ==> words[..] == old(words[..])
      ensures forall k :: 0 <= k < |pools| && pools[k].Owns(ptr) ==>
                Free(k) == old(Free(k)) + {ChunkAt(pools[k], ptr)} && OthersSame(k, old(words[..]), words[..])
    {
      hide FreeIn, Clean;
      for k := 0 to |pools|
        invariant words[..] == old(words[..]) && Valid()
        invariant forall j :: 0 <= j < k ==> !pools[j].Owns(ptr)
      {
        var p := pools[k];
        var offset: int := ptr - p.base;
        if 0 <= offset < p.max * p.size {
          OnlyPool(k, ptr);
          if offset % p.size != 0 { return false; }
          SetBit(k, ptr);
          return true;
        }
      }
      ok := false;
    }

    lemma OnlyPool(k: nat, ptr: nat)
      requires Shape() && k < |pools| && pools[k].base <= ptr < pools[k].base + pools[k].max * pools[k].size
      ensures forall j :: 0 <= j < |pools| && j != k ==> !pools[j].Owns(ptr)
    {
      forall j | 0 <= j < |pools| && j != k ensures !pools[j].Owns(ptr) {
        assert if j < k then Apart(pools[j], pools[k]) else Apart(pools[k], pools[j]);
      }
    }

    /** Pool k has lost its lowest free chunk c and no other. */
    ghost predicate Taken(k: nat, free: set<nat>, c: nat)
      requires Shape() && k < |pools|
      reads words
    {
      c in free && Free(k) == free - {c} && forall d :: d in free ==> c <= d
    }

    lemma StillValid(k: nat, was: seq<Bits>)
      requires Shape() && k < |pools| && Clean(words[..], pools[k])
      requires OthersSame(k, was, words[..]) && forall j :: 0 <= j < |pools| ==> Clean(was, pools[j])
      ensures Valid()
    {
    }
  }

  function FreeAll(pools: seq<Pool>, w: seq<Bits>): (f: seq<set<nat>>)
    requires Layout(pools, |w|)
    ensures |f| == |pools| && forall k :: 0 <= k < |pools| ==> f[k] == FreeIn(w, pools[k])
  {
    seq(|pools|, k requires 0 <= k < |pools| => FreeIn(w, pools[k]))
  }

  lemma BitInRange(w: seq<Bits>, p: Pool, i: nat, v: Bits)
    requires p.first + p.Words() <= |w| && Clean(w, p) && i < p.Words() && v == WordOf(w, p, i) && v != {}
    ensures exists x :: x in v && 0 <= x < WORD
    ensures forall x :: x in v ==> 0 <= x < WORD && WORD * i + x < p.max
  {
    var x :| x in v;
    assert WordClean(p, i, WordOf(w, p, i));
    assert x in v && 0 <= x < WORD;
  }

  lemma FreeKeepsClean(w: seq<Bits>, p: Pool, c: nat)
    requires p.first + p.Words() <= |w| && Clean(w, p) && c < p.max && c / WORD < p.Words()
    ensures Clean(w[p.first + c / WORD := w[p.first + c / WORD] + {c % WORD}], p)
  {
    var v := w[p.first + c / WORD := w[p.first + c / WORD] + {c % WORD}];
    ChunkWord(p, c);
    forall j | 0 <= j < p.Words() ensures WordClean(p, j, WordOf(v, p, j)) {
      assert WordClean(p, j, WordOf(w, p, j));
    }
  }

  lemma NoneFree(w: seq<Bits>, p: Pool)
    requires p.first + p.Words() <= |w| && forall i :: 0 <= i < p.Words() ==> WordOf(w, p, i) == {}
    ensures FreeIn(w, p) == {}
  {
    forall c | 0 <= c < p.max ensures !IsFree(w, p, c) {
      ChunkWord(p, c);
      assert WordOf(w, p, c / WORD) == {};
    }
  }

  /** Clearing the lowest bit of the first word that has one. */
  lemma AllocKeeps(w: seq<Bits>, p: Pool, i: nat, b: nat)
    requires p.first + p.Words() <= |w| && Clean(w, p) && i < p.Words() && b in WordOf(w, p, i)
    requires forall j :: 0 <= j < i ==> WordOf(w, p, j) == {}
    requires forall x :: x in WordOf(w, p, i) ==> b <= x < WORD && WORD * i + x < p.max
    ensures var v, c := w[p.first + i := w[p.first + i] - {b}], WORD * i + b;
            && c in FreeIn(w, p) && FreeIn(v, p) == FreeIn(w, p) - {c} && Clean(v, p)
            && forall d :: d in FreeIn(w, p) ==> c <= d
  {
    var c := WORD * i + b;
    var v := w[p.first + i := w[p.first + i] - {b}];
    ChunkOfBit(i, b);
    BitChanges(w, p, c);
    forall d | d in FreeIn(w, p) ensures c <= d {
      ChunkWord(p, d);
      assert d % WORD in WordOf(w, p, d / WORD);
    }
    forall j | 0 <= j < p.Words() ensures WordClean(p, j, WordOf(v, p, j)) {
      assert WordClean(p, j, WordOf(w, p, j));
    }
  }
}
