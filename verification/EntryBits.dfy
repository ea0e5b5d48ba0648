/**
 The 64-bit page-table entry that map builds, and what the walk and the flag decoder read from it.
 A word is the set of its one bits, so that or is union and a mask is intersection.
 */
module EntryBits {
  import opened BitMath
  import opened Common
  import opened PageTables
  import opened Paging

  type Word = set<nat>

  datatype Flags = Flags(read: bool, write: bool, user: bool, execute: bool, global: bool, lazy: bool)

  const PRESENT := 0
  const WRITE := 1
  const USER := 2
  const WRITE_THROUGH := 3
  const CACHE_DISABLE := 4
  const HUGE := 7
  const GLOBAL := 8
  const LAZY := 58
  const NO_EXEC := 63
  const PAT := 7
  const LARGE_PAT := 12
  const KEY := 59

  predicate InFrame(n: nat)
  {
    12 <= n < 52
  }

  // word & page_mask
  function Masked(w: Word): Word
  {
    set n | n in w && InFrame(n)
  }

  predicate UsesPat(cache: CacheType)
  {
    cache.WriteProtected? || cache.WriteCombining?
  }

  // bit n of convert_generic_flags
  predicate ArchBit(f: Flags, cache: CacheType, size: PageSize, nx: bool, n: nat)
  {
    || (n == PRESENT && f.read) || (n == WRITE && f.write) || (n == USER && f.user) || (n == GLOBAL && f.global)
    || (n == NO_EXEC && !f.execute && nx) || (n == LAZY && f.lazy) || (n == HUGE && !size.Size4K?)
    || (n == CACHE_DISABLE && cache.Uncached?)
    || (n == WRITE_THROUGH && (cache.Uncached? || cache.WriteThrough? || cache.WriteCombining?))
    || (n == (if size.Size4K? then PAT else LARGE_PAT) && UsesPat(cache))
  }

  // bit n of the stored word: the frame bits of the address, the flags, and the key in bits 59 to 62
  predicate EntryBit(phys: Word, f: Flags, cache: CacheType, size: PageSize, nx: bool, key: Word, n: nat)
  {
    (InFrame(n) && n in phys) || ArchBit(f, cache, size, nx, n) || (KEY <= n < KEY + 4 && n - KEY in key)
  }

  // the word that map stores
  function EntryWord(phys: Word, f: Flags, cache: CacheType, size: PageSize, nx: bool, key: Word): Word
  {
    set n: nat | n < 64 && EntryBit(phys, f, cache, size, nx, key, n)
  }

  lemma FrameBit(phys: Word, f: Flags, cache: CacheType, size: PageSize, nx: bool, key: Word, n: nat)
    ensures InFrame(n) ==>
      (EntryBit(phys, f, cache, size, nx, key, n) <==> n in phys || (n == LARGE_PAT && !size.Size4K? && UsesPat(cache)))
  {
  }

  lemma LargeBit(phys: Word, f: Flags, cache: CacheType, size: PageSize, nx: bool, key: Word)
    ensures EntryBit(phys, f, cache, size, nx, key, HUGE) <==> !size.Size4K? || UsesPat(cache)
  {
  }

  // what the walk reads: present is the read flag, bit 7 means large or PAT, and the frame bits are
  // those of the address, with bit 12 added by the cache type of a large page
  lemma WalkBits(phys: Word, f: Flags, cache: CacheType, size: PageSize, nx: bool, key: Word)
    ensures var w := EntryWord(phys, f, cache, size, nx, key);
      && (PRESENT in w <==> f.read)
      && (HUGE in w <==> !size.Size4K? || UsesPat(cache))
      && Masked(w) == Masked(phys) + if !size.Size4K? && UsesPat(cache) then {LARGE_PAT} else {}
  {
    var w := EntryWord(phys, f, cache, size, nx, key);
    FlagBits(phys, f, cache, size, nx, key);
    LargeBit(phys, f, cache, size, nx, key);
    forall n: nat ensures n in Masked(w) <==> n in Masked(phys) || (n == LARGE_PAT && !size.Size4K? && UsesPat(cache)) {
      FrameBit(phys, f, cache, size, nx, key, n);
    }
  }

  // convert_arch_flags
  function Decode(w: Word, size: PageSize): (Flags, CacheType)
  {
    (Flags(PRESENT in w, WRITE in w, USER in w, NO_EXEC !in w, GLOBAL in w, false),
     DecodeCache((if size.Size4K? then PAT else LARGE_PAT) in w, CACHE_DISABLE in w, WRITE_THROUGH in w))
  }

  function DecodeCache(pat: bool, pcd: bool, pwt: bool): CacheType
  {
    if !pat && !pcd && !pwt then WriteBack
    else if !pat && !pcd && pwt then WriteThrough
    else if !pat && pcd && pwt then Uncached
    else if pat && !pcd && pwt then WriteCombining
    else if pat && !pcd && !pwt then WriteProtected
    else WriteBack
  }

  lemma FlagBits(phys: Word, f: Flags, cache: CacheType, size: PageSize, nx: bool, key: Word)
    ensures EntryBit(phys, f, cache, size, nx, key, PRESENT) == f.read && EntryBit(phys, f, cache, size, nx, key, WRITE) == f.write
    ensures EntryBit(phys, f, cache, size, nx, key, USER) == f.user && EntryBit(phys, f, cache, size, nx, key, GLOBAL) == f.global
    ensures EntryBit(phys, f, cache, size, nx, key, NO_EXEC) == (!f.execute && nx)
  {
  }

  lemma CacheBits(phys: Word, f: Flags, cache: CacheType, size: PageSize, nx: bool, key: Word)
    requires !size.Size4K? ==> LARGE_PAT !in phys
    ensures DecodeCache(
      EntryBit(phys, f, cache, size, nx, key, if size.Size4K? then PAT else LARGE_PAT),
      EntryBit(phys, f, cache, size, nx, key, CACHE_DISABLE), EntryBit(phys, f, cache, size, nx, key, WRITE_THROUGH)) == cache
  {
  }

  // decoding gives back the cache type and the flags, except that lazy is lost and execute is
  // recorded only by processors with a no-execute bit; the address of a large page is aligned
  lemma RoundTrip(phys: Word, f: Flags, cache: CacheType, size: PageSize, nx: bool, key: Word)
    requires !size.Size4K? ==> LARGE_PAT !in phys
    ensures Decode(EntryWord(phys, f, cache, size, nx, key), size) == (f.(execute := f.execute || !nx, lazy := false), cache)
  {
    FlagBits(phys, f, cache, size, nx, key);
    CacheBits(phys, f, cache, size, nx, key);
  }

  // ---------- the word as a number ----------

  predicate BitOf(n: nat, i: nat)
  {
    n / Pow2(i) % 2 == 1
  }

  // the one bits of a 64-bit number
  function Bits(n: nat): Word
  {
    set i: nat | i < 64 && BitOf(n, i)
  }

  // bit i of the frame number
  predicate FrameHas(w: Word, i: nat)
  {
    12 + i in w
  }

  // the low k bits of the frame number
  function FrameValue(w: Word, k: nat): nat
  {
    if k == 0 then 0 else FrameValue(w, k - 1) + if FrameHas(w, k - 1) then Pow2(k - 1) else 0
  }

  lemma {:induction false} Pow2Add(j: nat, k: nat)
    ensures Pow2(j + k) == Pow2(j) * Pow2(k)
  {
    if k > 0 {
      Pow2Add(j, k - 1);
      DoubleProduct(Pow2(j), Pow2(k - 1));
    }
  }

  lemma Sizes()
    ensures Pow2(12) == 0x1000 && Pow2(40) == FRAMES
  {
    assert Pow2(10) == 1024;
    Pow2Add(10, 10);
    Pow2Add(20, 20);
  }

  lemma DivDiv(n: nat, a: nat, b: nat)
    requires 0 < a && 0 < b
    ensures 0 < a * b && n / (a * b) == n / a / b
  {
    var q, r := n / a, n % a;
    DivRest(n, a);
    DivRest(q, b);
    TwoDigits(n, a, b, q, r, q / b, q % b);
  }

  lemma TwoDigits(n: nat, a: nat, b: nat, q: nat, r: nat, s: nat, t: nat)
    requires 0 < a && 0 < b && n == q * a + r && r < a && q == s * b + t && t < b
    ensures 0 < a * b && n / (a * b) == s
  {
    Mixed(s, t, r, a, b);
    DivUnique(n, a * b, s, t * a + r);
  }

  // a number with two digits to bases b and a
  lemma Mixed(s: nat, t: nat, r: nat, a: nat, b: nat)
    requires t < b && r < a
    ensures (s * b + t) * a + r == s * (a * b) + (t * a + r) && t * a + r < a * b
  {
    var u := b - 1 - t;
    assert (s * b) * a == s * (a * b) && (s * b + t) * a == (s * b) * a + t * a;
    assert u * a >= 0 && (t + 1 + u) * a == t * a + a + u * a;
  }

  // bits 12 on are those of the frame number
  lemma ShiftedBit(n: nat, i: nat)
    ensures BitOf(n, 12 + i) == BitOf(n / 0x1000, i)
  {
    Sizes();
    Pow2Add(12, i);
    DivDiv(n, 0x1000, Pow2(i));
  }

  // one more bit of a remainder
  lemma NextRest(n: nat, k: nat)
    ensures n % Pow2(k + 1) == n % Pow2(k) + if BitOf(n, k) then Pow2(k) else 0
  {
    RestOver(n, Pow2(k));
  }

  lemma DivRest(n: nat, p: nat)
    requires 0 < p
    ensures n == n / p * p + n % p && n % p < p
  {
  }

  lemma RestOver(n: nat, p: nat)
    requires 0 < p
    ensures n % (2 * p) == n % p + if n / p % 2 == 1 then p else 0
  {
    DivRest(n, p);
    var q, r := n / p, n % p;
    RestStep(n, p, q, r, q / 2, q % 2);
  }

  lemma RestStep(n: nat, p: nat, q: nat, r: nat, h: nat, b: nat)
    requires 0 < p && n == q * p + r && r < p && q == 2 * h + b && b < 2
    ensures n % (2 * p) == r + if b == 1 then p else 0
  {
    Mixed(h, b, r, p, 2);
    DivUnique(n, p * 2, h, b * p + r);
  }

  lemma {:induction false} FrameRest(w: Word, n: nat, k: nat)
    requires k <= 40 && forall i: nat {:trigger FrameHas(w, i)} :: i < 40 ==> FrameHas(w, i) == BitOf(n, i)
    ensures FrameValue(w, k) == n % Pow2(k)
  {
    if k > 0 {
      FrameRest(w, n, k - 1);
      NextRest(n, k - 1);
    }
  }

  lemma {:induction false} LowestBit(w: Word, w': Word, k: nat)
    requires 0 < k && !FrameHas(w, 0) && forall i: nat {:trigger FrameHas(w', i)} :: 0 < i < k ==> FrameHas(w', i) == FrameHas(w, i)
    requires FrameHas(w', 0)
    ensures FrameValue(w', k) == FrameValue(w, k) + 1
  {
    if k > 1 {
      LowestBit(w, w', k - 1);
    }
  }

  // the frame bits of an address are its frame number
  lemma AddressFrame(phys: nat)
    ensures FrameValue(Bits(phys), 40) == phys / 0x1000 % FRAMES
    ensures FrameHas(Bits(phys), 0) <==> phys / 0x1000 % FRAMES % 2 == 1
  {
    Sizes();
    var w, n := Bits(phys), phys / 0x1000;
    forall i: nat | i < 40 ensures FrameHas(w, i) == BitOf(n, i) {
      ShiftedBit(phys, i);
    }
    FrameRest(w, n, 40);
    assert FrameHas(w, 0) == BitOf(n, 0) && Pow2(0) == 1;
    SameParity(n);
  }

  lemma SameParity(n: nat)
    ensures n % 0x100_0000_0000 % 2 == n % 2
  {
    var q := n / 0x100_0000_0000;
    Halves(n, 0x80_0000_0000 * q, n % 0x100_0000_0000);
  }

  // words with the same frame bits have the same frame number
  lemma {:induction false} SameFrame(w: Word, w': Word, k: nat)
    requires forall i: nat {:trigger FrameHas(w', i)} :: i < k ==> FrameHas(w', i) == FrameHas(w, i)
    ensures FrameValue(w', k) == FrameValue(w, k)
  {
    if k > 0 {
      SameFrame(w, w', k - 1);
    }
  }

  lemma EntryFrame(phys: Word, f: Flags, cache: CacheType, size: PageSize, nx: bool, key: Word, i: nat)
    requires i < 40
    ensures FrameHas(EntryWord(phys, f, cache, size, nx, key), i) <==>
      FrameHas(phys, i) || (i == 0 && !size.Size4K? && UsesPat(cache))
  {
    FrameBit(phys, f, cache, size, nx, key, 12 + i);
  }

  // what a walk reads from the stored word is the entry that the page tables hold in this model
  lemma WalkReads(phys: nat, f: Flags, cache: CacheType, size: PageSize, nx: bool, key: Word)
    ensures var w := EntryWord(Bits(phys), f, cache, size, nx, key);
      Entry(PRESENT in w, HUGE in w, FrameValue(w, 40)) == LeafEntry(phys, f.read, UsesPat(cache), size)
  {
    var p, w := Bits(phys), EntryWord(Bits(phys), f, cache, size, nx, key);
    WalkBits(p, f, cache, size, nx, key);
    AddressFrame(phys);
    forall i: nat | i < 40 ensures FrameHas(w, i) <==> FrameHas(p, i) || (i == 0 && !size.Size4K? && UsesPat(cache)) {
      EntryFrame(p, f, cache, size, nx, key, i);
    }
    if !size.Size4K? && UsesPat(cache) && !FrameHas(p, 0) {
      LowestBit(p, w, 40);
    } else {
      SameFrame(p, w, 40);
    }
  }

  // the number whose one bits are those of w, below bit k
  function Number(w: Word, k: nat): nat
  {
    if k == 0 then 0 else Number(w, k - 1) + if k - 1 in w then Pow2(k - 1) else 0
  }

  lemma {:induction false} NumberFrame(w: Word, k: nat)
    ensures Number(w, 12 + k) == Number(w, 12) + 0x1000 * FrameValue(w, k)
  {
    if k > 0 {
      NumberFrame(w, k - 1);
      Sizes();
      Pow2Add(12, k - 1);
      assert FrameHas(w, k - 1) <==> 12 + (k - 1) in w;
    }
  }

  function Weight(b: bool, n: nat): nat
  {
    if b then n else 0
  }

  lemma NumberStep(w: Word, k: nat, p: nat)
    requires p == Pow2(k)
    ensures Number(w, k + 1) == Number(w, k) + Weight(k in w, p)
  {
  }

  lemma LowestNumber(w: Word)
    ensures Number(w, 5) == Weight(0 in w, 1) + Weight(1 in w, 2) + Weight(2 in w, 4) + Weight(3 in w, 8) + Weight(4 in w, 0x10)
  {
    NumberStep(w, 0, 1);
    NumberStep(w, 1, 2);
    NumberStep(w, 2, 4);
    NumberStep(w, 3, 8);
    NumberStep(w, 4, 0x10);
  }

  lemma LowNumber(w: Word)
    requires 5 !in w && 6 !in w && 9 !in w && 10 !in w && 11 !in w
    ensures Number(w, 12) == Number(w, 5) + Weight(7 in w, 0x80) + Weight(8 in w, 0x100)
  {
    NumberEmpty(w, 5, 7);
    NumberStep(w, 7, 0x80);
    NumberStep(w, 8, 0x100);
    NumberEmpty(w, 9, 12);
  }

  lemma {:induction false} NumberEmpty(w: Word, j: nat, k: nat)
    requires j <= k && forall n: nat {:trigger n in w} :: j <= n < k ==> n !in w
    ensures Number(w, k) == Number(w, j)
    decreases k
  {
    if j < k {
      NumberEmpty(w, j, k - 1);
    }
  }

  lemma KeyPowers(i: nat)
    ensures Pow2(KEY + i) == 0x800_0000_0000_0000 * Pow2(i) && Pow2(58) == 0x400_0000_0000_0000 && Pow2(63) == 0x8000_0000_0000_0000
  {
    Sizes();
    Pow2Add(40, 12);
    Pow2Add(52, 6);
    assert Pow2(6) == 64;
    Pow2Add(58, 1);
    Pow2Add(59, i);
    Pow2Add(59, 4);
    assert Pow2(1) == 2 && Pow2(4) == 16;
  }

  lemma {:induction false} NumberKey(w: Word, key: Word, k: nat)
    requires k <= 4 && forall i: nat {:trigger i in key} :: i < 4 ==> (KEY + i in w <==> i in key)
    ensures Number(w, KEY + k) == Number(w, KEY) + 0x800_0000_0000_0000 * Number(key, k)
  {
    if k > 0 {
      NumberKey(w, key, k - 1);
      KeyPowers(k - 1);
      assert KEY + (k - 1) in w <==> k - 1 in key;
    }
  }

  lemma HighNumber(w: Word, key: Word)
    requires forall n: nat {:trigger n in w} :: 52 <= n < 58 ==> n !in w
    requires forall i: nat {:trigger i in key} :: i < 4 ==> (KEY + i in w <==> i in key)
    ensures Number(w, 64) == Number(w, 52) + Weight(58 in w, 0x400_0000_0000_0000) + 0x800_0000_0000_0000 * Number(key, 4)
        + Weight(63 in w, 0x8000_0000_0000_0000)
  {
    NumberEmpty(w, 52, 58);
    KeyPowers(0);
    NumberStep(w, 58, 0x400_0000_0000_0000);
    NumberKey(w, key, 4);
    NumberStep(w, 63, 0x8000_0000_0000_0000);
  }

  // the bits of the stored word outside the frame
  lemma StoredBits(phys: Word, f: Flags, cache: CacheType, size: PageSize, nx: bool, key: Word, n: nat)
    requires n < 12 || 52 <= n < 64
    ensures n in EntryWord(phys, f, cache, size, nx, key) <==>
      || (n == 0 && f.read) || (n == 1 && f.write) || (n == 2 && f.user)
      || (n == 3 && (cache.Uncached? || cache.WriteThrough? || cache.WriteCombining?)) || (n == 4 && cache.Uncached?)
      || (n == 7 && (size.Size2M? || size.Size1G? || cache.WriteProtected? || cache.WriteCombining?)) || (n == 8 && f.global)
      || (n == 58 && f.lazy) || (59 <= n < 63 && n - 59 in key) || (n == 63 && !f.execute && nx)
  {
  }

  lemma LowPart(phys: Word, f: Flags, cache: CacheType, size: PageSize, nx: bool, key: Word)
    ensures Number(EntryWord(phys, f, cache, size, nx, key), 12) ==
      Weight(f.read, 1) + Weight(f.write, 2) + Weight(f.user, 4)
      + Weight(cache.Uncached? || cache.WriteThrough? || cache.WriteCombining?, 8) + Weight(cache.Uncached?, 0x10)
      + Weight(size.Size2M? || size.Size1G? || cache.WriteProtected? || cache.WriteCombining?, 0x80) + Weight(f.global, 0x100)
  {
    var w := EntryWord(phys, f, cache, size, nx, key);
    forall n: nat | n < 12 ensures n in w <==>
      || (n == 0 && f.read) || (n == 1 && f.write) || (n == 2 && f.user)
      || (n == 3 && (cache.Uncached? || cache.WriteThrough? || cache.WriteCombining?)) || (n == 4 && cache.Uncached?)
      || (n == 7 && (size.Size2M? || size.Size1G? || cache.WriteProtected? || cache.WriteCombining?)) || (n == 8 && f.global)
    {
      StoredBits(phys, f, cache, size, nx, key, n);
    }
    LowestNumber(w);
    LowNumber(w);
  }

  lemma HighPart(phys: Word, f: Flags, cache: CacheType, size: PageSize, nx: bool, key: Word)
    ensures var w := EntryWord(phys, f, cache, size, nx, key);
      Number(w, 64) == Number(w, 52) + Weight(f.lazy, 0x400_0000_0000_0000) + 0x800_0000_0000_0000 * Number(key, 4)
        + Weight(!f.execute && nx, 0x8000_0000_0000_0000)
  {
    var w := EntryWord(phys, f, cache, size, nx, key);
    forall n: nat | 52 <= n < 64 ensures n in w <==> (n == 58 && f.lazy) || (59 <= n < 63 && n - 59 in key) || (n == 63 && !f.execute && nx) {
      StoredBits(phys, f, cache, size, nx, key, n);
    }
    HighNumber(w, key);
  }

  // the stored word as a number, flag by flag
  lemma StoredNumber(phys: nat, f: Flags, cache: CacheType, size: PageSize, nx: bool, key: Word)
    ensures Number(EntryWord(Bits(phys), f, cache, size, nx, key), 64) ==
      Weight(f.read, 1) + Weight(f.write, 2) + Weight(f.user, 4)
      + Weight(cache.Uncached? || cache.WriteThrough? || cache.WriteCombining?, 8) + Weight(cache.Uncached?, 0x10)
      + Weight(size.Size2M? || size.Size1G? || cache.WriteProtected? || cache.WriteCombining?, 0x80) + Weight(f.global, 0x100)
      + 0x1000 * LeafEntry(phys, f.read, UsesPat(cache), size).frame
      + Weight(f.lazy, 0x400_0000_0000_0000) + 0x800_0000_0000_0000 * Number(key, 4)
      + Weight(!f.execute && nx, 0x8000_0000_0000_0000)
  {
    var w := EntryWord(Bits(phys), f, cache, size, nx, key);
    LowPart(Bits(phys), f, cache, size, nx, key);
    NumberFrame(w, 40);
    WalkReads(phys, f, cache, size, nx, key);
    HighPart(Bits(phys), f, cache, size, nx, key);
  }
}
