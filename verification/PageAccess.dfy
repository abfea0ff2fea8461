// Reading and writing target memory by pages (src/jtag2rw.cc): the one-page read
// caches, and page writes in chunks the emulator can take.

module PageAccess {
  import opened Common

  // Device memory; a cell that was never written holds the erased value.
  type Memory = map<nat, byte>

  function At(m: Memory, a: nat): byte { if a in m then m[a] else 0xff }

  function Bytes(m: Memory, a: nat, n: nat): (s: seq<byte>)
    ensures |s| == n && forall i :: 0 <= i < n ==> s[i] == At(m, a + i)
  {
    seq(n, i requires 0 <= i < n => At(m, a + i))
  }

  function Store(m: Memory, a: nat, data: seq<byte>): (r: Memory)
    ensures forall i: nat :: At(r, i) == if a <= i < a + |data| then data[i - a] else At(m, i)
    decreases |data|
  {
    if data == [] then m else Store(m[a := data[0]], a + 1, data[1..])
  }

  const MAX_FLASH_PAGE_SIZE: nat := 512
  const MAX_EEPROM_PAGE_SIZE: nat := 32
  const EMULATOR_MAX: nat := 256  // bytes the emulator handles in one command
  const NO_FLASH_PAGE: nat := 0xffff_ffff
  const NO_EEPROM_PAGE: nat := 0xffff

  predicate PowerOfTwo(n: nat) {
    n in {1, 2, 4, 8, 16, 32, 64, 128, 256, 512}
  }

  // The start of the page a lies in.
  function PageOf(a: nat, size: nat): (p: nat)
    requires size > 0
    ensures p <= a < p + size
    decreases a
  {
    if a < size then 0 else size + PageOf(a - size, size)
  }

  predicate IsPage(a: nat, size: nat)
    requires size > 0
  {
    PageOf(a, size) == a
  }

  lemma {:induction false} PageOfIsPage(a: nat, size: nat)
    requires size > 0
    ensures IsPage(PageOf(a, size), size)
    decreases a
  {
    if a >= size {
      PageOfIsPage(a - size, size);
    }
  }

  lemma {:induction false} PageIsUnique(page: nat, a: nat, size: nat)
    requires size > 0 && IsPage(page, size) && page <= a < page + size
    ensures PageOf(a, size) == page
    decreases page
  {
    if page >= size {
      PageIsUnique(page - size, a - size, size);
    }
  }

  lemma NextIsPage(page: nat, size: nat)
    requires size > 0 && IsPage(page, size)
    ensures IsPage(page + size, size)
  {
  }

  // A page of two emulator pages starts on an emulator page.
  lemma {:induction false} BigPageIsPage(a: nat)
    requires IsPage(a, 2 * EMULATOR_MAX)
    ensures IsPage(a, EMULATOR_MAX)
    decreases a
  {
    if a >= 2 * EMULATOR_MAX {
      BigPageIsPage(a - 2 * EMULATOR_MAX);
    }
  }

  lemma RemainderIsUnique(q: int, r: int, n: int)
    requires 0 <= r < n
    ensures (q * n + r) % n == r
  {
    var x := q * n + r;
    var d := x / n - q;
    assert d >= 1 ==> d * n >= n;
    assert d <= -1 ==> d * n <= -n;
    assert x == x / n * n + x % n && d * n == x / n * n - q * n;
  }

  // The program masks the low bits away, which for its powers of two is this.
  lemma {:induction false} PageOfIsRemainder(a: nat, size: nat)
    requires size > 0
    ensures PageOf(a, size) == a - a % size
    decreases a
  {
    if a >= size {
      PageOfIsRemainder(a - size, size);
      assert (a - size) / size * size + (a - size) % size == a - size;
      assert ((a - size) / size + 1) * size == (a - size) / size * size + size;
      RemainderIsUnique((a - size) / size + 1, (a - size) % size, size);
    }
  }

  // A one-page cache and the page address it records.
  datatype Cache = Cache(data: seq<byte>, base: nat)

  // What a read that starts on page first sees: the cached page if it is that
  // one, and the device everywhere else.
  function Seen(m: Memory, c: Cache, size: nat, first: nat, a: nat): byte
    requires size <= |c.data|
  {
    if c.base == first && first <= a < first + size then c.data[a - first] else At(m, a)
  }

  function SeenBytes(m: Memory, c: Cache, size: nat, first: nat, a: nat, n: nat): (s: seq<byte>)
    requires size <= |c.data|
    ensures |s| == n && forall i :: 0 <= i < n ==> s[i] == Seen(m, c, size, first, a + i)
  {
    seq(n, i requires 0 <= i < n => Seen(m, c, size, first, a + i))
  }

  // The cache holds the device page it records, or none.
  predicate Coherent(m: Memory, c: Cache, size: nat, none: nat) {
    size <= |c.data| && (c.base != none ==> c.data[..size] == Bytes(m, c.base, size))
  }

  lemma CoherentSeesDevice(m: Memory, c: Cache, size: nat, none: nat, first: nat, a: nat, n: nat)
    requires Coherent(m, c, size, none) && first != none
    ensures SeenBytes(m, c, size, first, a, n) == Bytes(m, a, n)
  {
  }

  // Requests that start a page or stay inside one.
  predicate Aligned(a: nat, n: nat, size: nat)
    requires size > 0
  {
    IsPage(a, size) || a + n <= PageOf(a, size) + size
  }

  // Where in the cache byte t of a request is taken from.  On pages after the first the
  // offset into the first page is added once more.
  function Reach(addr: nat, size: nat, t: nat): nat
    requires size > 0
  {
    var first := PageOf(addr, size);
    var a := addr + t;
    if a < first + size then a - first else a - PageOf(a, size) + (addr - first)
  }

  // Byte t of the answer: on the first page what that page shows, on later pages the
  // byte one offset further on, or past the page what is left in the end of the cache.
  function Got(m: Memory, c: Cache, size: nat, addr: nat, t: nat): byte
    requires 0 < size <= |c.data| && Reach(addr, size, t) < |c.data|
  {
    var first := PageOf(addr, size);
    if addr + t < first + size then Seen(m, c, size, first, addr + t)
    else if Reach(addr, size, t) < size then At(m, addr + t + (addr - first))
    else c.data[Reach(addr, size, t)]
  }

  // The bytes copied out so far.  What lies past the end of the cache is not known.
  predicate Copied(out: seq<byte>, m: Memory, c: Cache, size: nat, addr: nat)
    requires 0 < size <= |c.data|
  {
    forall t: nat | t < |out| && Reach(addr, size, t) < |c.data| :: out[t] == Got(m, c, size, addr, t)
  }

  // As much of a chunk as the cache has.
  predicate Supplied(chunk: seq<byte>, held: seq<byte>, offset: nat) {
    forall i: nat | i < |chunk| && i < |held| - offset :: chunk[i] == held[offset + i]
  }

  lemma ChunkIsCopied(out: seq<byte>, chunk: seq<byte>, held: seq<byte>, m: Memory, c: Cache, size: nat,
                      addr: nat, page: nat)
    requires 0 < size <= |c.data| == |held| && Copied(out, m, c, size, addr) && |chunk| <= size && IsPage(page, size)
    requires held[..size] == SeenBytes(m, c, size, PageOf(addr, size), page, size) && held[size..] == c.data[size..]
    requires if out == [] then page == PageOf(addr, size) && |chunk| <= page + size - addr
             else page == addr + |out| && page >= PageOf(addr, size) + size
    requires Supplied(chunk, held, addr - PageOf(addr, size))
    ensures Copied(out + chunk, m, c, size, addr)
  {
    hide PageOf, SeenBytes, Reach, Got, Supplied, IsPage;
    forall t: nat | |out| <= t < |out| + |chunk| && Reach(addr, size, t) < |c.data|
      ensures (out + chunk)[t] == Got(m, c, size, addr, t)
    {
      assert (out + chunk)[t] == chunk[t - |out|];
      ByteIsCopied(chunk, held, m, c, size, addr, page, |out|, t - |out|);
    }
    forall t: nat | t < |out| && Reach(addr, size, t) < |c.data|
      ensures (out + chunk)[t] == Got(m, c, size, addr, t)
    {
      assert (out + chunk)[t] == out[t];
    }
  }

  lemma ByteIsCopied(chunk: seq<byte>, held: seq<byte>, m: Memory, c: Cache, size: nat,
                     addr: nat, page: nat, done: nat, i: nat)
    requires 0 < size <= |c.data| == |held| && i < |chunk| <= size && IsPage(page, size)
    requires held[..size] == SeenBytes(m, c, size, PageOf(addr, size), page, size) && held[size..] == c.data[size..]
    requires if done == 0 then page == PageOf(addr, size) && |chunk| <= page + size - addr
             else page == addr + done && page >= PageOf(addr, size) + size
    requires Supplied(chunk, held, addr - PageOf(addr, size)) && Reach(addr, size, done + i) < |c.data|
    ensures chunk[i] == Got(m, c, size, addr, done + i)
  {
    hide PageOf, SeenBytes;
    var first := PageOf(addr, size);
    var offset := addr - first;
    if done > 0 {
      PageIsUnique(page, addr + done + i, size);
    }
    assert Reach(addr, size, done + i) == offset + i && chunk[i] == held[offset + i];
    HeldByte(held, m, c, size, first, page, offset + i);
  }

  lemma HeldByte(held: seq<byte>, m: Memory, c: Cache, size: nat, first: nat, page: nat, j: nat)
    requires size <= |c.data| == |held| && j < |held|
    requires held[..size] == SeenBytes(m, c, size, first, page, size) && held[size..] == c.data[size..]
    ensures held[j] == if j < size then Seen(m, c, size, first, page + j) else c.data[j]
  {
    if j < size {
      assert held[..size][j] == SeenBytes(m, c, size, first, page, size)[j];
    } else {
      assert held[size..][j - size] == c.data[size..][j - size];
    }
  }

  lemma NoneCopied(m: Memory, c: Cache, size: nat, addr: nat)
    requires 0 < size <= |c.data|
    ensures Copied([], m, c, size, addr)
  {
  }

  // A page served from the cache as it is now is the page the whole request sees.
  lemma ServedIsSeen(m: Memory, c: Cache, now: Cache, size: nat, first: nat, page: nat)
    requires size <= |c.data| && size <= |now.data|
    requires (now == c && page == first) || (now.base != page && page >= first + size)
    ensures SeenBytes(m, now, size, page, page, size) == SeenBytes(m, c, size, first, page, size)
  {
  }

  // A request takes bytes from past the end of a cache of this capacity.
  predicate Overruns(addr: nat, count: nat, size: nat, capacity: nat)
    requires size > 0
  {
    var offset := addr - PageOf(addr, size);
    var rest := size - offset;
    count > rest && offset + Min(count - rest, size) > capacity
  }

  // What a paged read of count bytes at addr answers and leaves behind, from cache c to
  // cache after.
  predicate PagedRead(m: Memory, c: Cache, after: Cache, size: nat, addr: nat, count: nat,
                      response: seq<byte>, overrun: bool)
    requires 0 < size <= |c.data| && count > 0
  {
    && |response| == count && |after.data| == |c.data|
    && (overrun <==> Overruns(addr, count, size, |c.data|))
    && Copied(response, m, c, size, addr)
    && after.base == PageOf(addr + count - 1, size)
    && after.data[..size] == SeenBytes(m, c, size, PageOf(addr, size), after.base, size)
    && after.data[size..] == c.data[size..]
  }

  // Without an overrun every byte of the answer is known.
  lemma ReachIsInside(addr: nat, count: nat, size: nat, capacity: nat, t: nat)
    requires 0 < size <= capacity && t < count && !Overruns(addr, count, size, capacity)
    ensures Reach(addr, size, t) < capacity
  {
    var first := PageOf(addr, size);
    if addr + t >= first + size {
      PageOfIsPage(addr, size);
      NextIsPage(first, size);
      PageIsMonotone(first + size, addr + t, size);
    }
  }

  lemma {:induction false} PageIsMonotone(page: nat, a: nat, size: nat)
    requires size > 0 && IsPage(page, size) && page <= a
    ensures page <= PageOf(a, size)
    decreases page
  {
    if page >= size {
      PageIsMonotone(page - size, a - size, size);
    }
  }

  // An aligned request never overruns and gets what its first page and the device show.
  lemma AlignedReadIsSeen(m: Memory, c: Cache, after: Cache, size: nat, addr: nat, count: nat,
                          response: seq<byte>, overrun: bool)
    requires 0 < size <= |c.data| && count > 0 && Aligned(addr, count, size)
    requires PagedRead(m, c, after, size, addr, count, response, overrun)
    ensures !overrun && response == SeenBytes(m, c, size, PageOf(addr, size), addr, count)
  {
    hide PageOf, SeenBytes;
    var first := PageOf(addr, size);
    var seen := SeenBytes(m, c, size, first, addr, count);
    forall t: nat | t < count
      ensures response[t] == seen[t]
    {
      assert addr != first ==> addr + t < first + size;
      assert Reach(addr, size, t) < size;
    }
  }

  // The bytes past the first page happen to be those asked for.
  predicate RestAgrees(m: Memory, c: Cache, size: nat, addr: nat, count: nat)
    requires 0 < size <= |c.data|
  {
    forall t: nat | t < count && addr + t >= PageOf(addr, size) + size && Reach(addr, size, t) < |c.data| ::
      At(m, addr + t) == if Reach(addr, size, t) < size then At(m, addr + t + (addr - PageOf(addr, size)))
                         else c.data[Reach(addr, size, t)]
  }

  // So do those on it: the cache is that page's and true, or is not asked.
  predicate FirstAgrees(m: Memory, c: Cache, size: nat, addr: nat, count: nat)
    requires 0 < size <= |c.data|
  {
    var first := PageOf(addr, size);
    c.base == first ==>
      forall a: nat | addr <= a < addr + count && a < first + size :: c.data[a - first] == At(m, a)
  }

  // Exactly when a read without an overrun is right.
  lemma PagedReadIsRight(m: Memory, c: Cache, after: Cache, size: nat, addr: nat, count: nat, response: seq<byte>)
    requires 0 < size <= |c.data| && count > 0 && PagedRead(m, c, after, size, addr, count, response, false)
    ensures response == Bytes(m, addr, count) <==>
            FirstAgrees(m, c, size, addr, count) && RestAgrees(m, c, size, addr, count)
  {
    hide PageOf, Bytes, Reach, Overruns;
    var want := Bytes(m, addr, count);
    forall t: nat | t < count
      ensures Reach(addr, size, t) < |c.data| && response[t] == Got(m, c, size, addr, t) && want[t] == At(m, addr + t)
    {
      ReachIsInside(addr, count, size, |c.data|, t);
    }
    if FirstAgrees(m, c, size, addr, count) && RestAgrees(m, c, size, addr, count) {
      assert forall t: nat | t < count :: response[t] == want[t];
    }
    if response == want {
      assert forall a: nat | addr <= a < addr + count :: Got(m, c, size, addr, a - addr) == At(m, a);
    }
  }

  // With a true cache the requests that are right on every device are the aligned ones.
  ghost predicate RightEverywhere(addr: nat, count: nat, size: nat, none: nat, capacity: nat)
    requires 0 < size <= capacity && count > 0
  {
    forall m, c: Cache, after, response, overrun |
      && |c.data| == capacity && Coherent(m, c, size, none)
      && PagedRead(m, c, after, size, addr, count, response, overrun) ::
      !overrun && response == Bytes(m, addr, count)
  }

  lemma RightEverywhereIsAligned(addr: nat, count: nat, size: nat, none: nat, capacity: nat)
    requires 0 < size <= capacity && count > 0 && PageOf(addr, size) != none
    ensures RightEverywhere(addr, count, size, none, capacity) <==> Aligned(addr, count, size)
  {
    hide PagedRead, Coherent, Aligned;
    if Aligned(addr, count, size) {
      forall m, c: Cache, after, response, overrun |
        && |c.data| == capacity && Coherent(m, c, size, none)
        && PagedRead(m, c, after, size, addr, count, response, overrun)
        ensures !overrun && response == Bytes(m, addr, count)
      {
        AlignedReadIsSeen(m, c, after, size, addr, count, response, overrun);
        CoherentSeesDevice(m, c, size, none, PageOf(addr, size), addr, count);
      }
    } else {
      var m, c, after, response, overrun := UnalignedReadIsWrong(addr, count, size, none, capacity);
      assert PagedRead(m, c, after, size, addr, count, response, overrun);
    }
  }

  // An unaligned request fails on a device where only the first byte past its first page
  // is not blank.
  lemma UnalignedReadIsWrong(addr: nat, count: nat, size: nat, none: nat, capacity: nat)
      returns (m: Memory, c: Cache, after: Cache, response: seq<byte>, overrun: bool)
    requires 0 < size <= capacity && count > 0 && !Aligned(addr, count, size)
    ensures |c.data| == capacity && Coherent(m, c, size, none)
    ensures PagedRead(m, c, after, size, addr, count, response, overrun)
    ensures overrun || response != Bytes(m, addr, count)
  {
    var first := PageOf(addr, size);
    var next := first + size;
    m := map[next := 0];
    c := Cache(seq(capacity, _ => 0xff), none);
    var last := PageOf(addr + count - 1, size);
    after := Cache(SeenBytes(m, c, size, first, last, size) + c.data[size..], last);
    overrun := Overruns(addr, count, size, capacity);
    response := seq(count, t requires 0 <= t < count =>
      if Reach(addr, size, t) < capacity then Got(m, c, size, addr, t) else 0);
    assert after.data[..size] == SeenBytes(m, c, size, first, last, size) && after.data[size..] == c.data[size..];
    var k := next - addr;
    PageOfIsPage(addr, size);
    NextIsPage(first, size);
    PageIsUnique(next, addr + k, size);
    assert Reach(addr, size, k) == addr - first < size;
    assert response[k] == At(m, next + (addr - first)) == 0xff;
    assert Bytes(m, addr, count)[k] == At(m, addr + k) == 0;
  }

  // Reads keep the cache true to the device.
  lemma ReadKeepsCoherent(m: Memory, c: Cache, after: Cache, size: nat, none: nat, addr: nat, count: nat,
                          response: seq<byte>, overrun: bool)
    requires 0 < size <= |c.data| && count > 0 && PageOf(addr, size) != none
    requires Coherent(m, c, size, none) && PagedRead(m, c, after, size, addr, count, response, overrun)
    ensures Coherent(m, after, size, none) && |after.data| == |c.data|
    ensures Aligned(addr, count, size) ==> !overrun && response == Bytes(m, addr, count)
  {
    hide PageOf, Aligned, Copied, Overruns;
    CoherentSeesDevice(m, c, size, none, PageOf(addr, size), after.base, size);
    if Aligned(addr, count, size) {
      AlignedReadIsSeen(m, c, after, size, addr, count, response, overrun);
      CoherentSeesDevice(m, c, size, none, PageOf(addr, size), addr, count);
    }
  }

  // A run of reads through one cache, with what each one answered and left behind.
  datatype ReadStep = ReadStep(addr: nat, count: nat, response: seq<byte>, overrun: bool, after: Cache)

  predicate ReadRun(m: Memory, c: Cache, size: nat, steps: seq<ReadStep>)
    requires size > 0
    decreases |steps|
  {
    steps == [] ||
    (&& size <= |c.data| && steps[0].count > 0
     && PagedRead(m, c, steps[0].after, size, steps[0].addr, steps[0].count, steps[0].response, steps[0].overrun)
     && ReadRun(m, steps[0].after, size, steps[1..]))
  }

  // As long as nothing is written, every aligned read of the run gets the device's bytes
  // and every read, of whatever kind, leaves a cache that equals the page it records.
  lemma {:induction false} ReadsAreRight(m: Memory, c: Cache, size: nat, none: nat, steps: seq<ReadStep>, i: nat)
    requires size > 0 && !IsPage(none, size) && Coherent(m, c, size, none)
    requires ReadRun(m, c, size, steps) && i < |steps|
    ensures Coherent(m, steps[i].after, size, none)
    ensures Aligned(steps[i].addr, steps[i].count, size) ==>
              !steps[i].overrun && steps[i].response == Bytes(m, steps[i].addr, steps[i].count)
    decreases |steps|
  {
    hide PagedRead, Coherent;
    var s := steps[0];
    PageOfIsPage(s.addr, size);
    ReadKeepsCoherent(m, c, s.after, size, none, s.addr, s.count, s.response, s.overrun);
    if i > 0 {
      ReadsAreRight(m, s.after, size, none, steps[1..], i - 1);
    }
  }

  // The marks for an empty cache are page addresses only where a page is one byte.
  lemma EmptyMarksAreNoPages(size: nat)
    requires PowerOfTwo(size)
    ensures IsPage(NO_FLASH_PAGE, size) <==> size == 1
    ensures IsPage(NO_EEPROM_PAGE, size) <==> size == 1
  {
    PageOfIsRemainder(NO_FLASH_PAGE, size);
    PageOfIsRemainder(NO_EEPROM_PAGE, size);
  }

  // A write does not touch the cache: the cached page stays true exactly when the
  // write missed it or changed nothing in it.
  lemma WriteKeepsCoherent(m: Memory, c: Cache, size: nat, none: nat, a: nat, data: seq<byte>)
    requires Coherent(m, c, size, none) && c.base != none
    ensures Coherent(Store(m, a, data), c, size, none) <==>
            forall i: nat | i < |data| && c.base <= a + i < c.base + size :: data[i] == At(m, a + i)
  {
    var now := Bytes(Store(m, a, data), c.base, size);
    var was := Bytes(m, c.base, size);
    if now == was {
      forall i: nat | i < |data| && c.base <= a + i < c.base + size
        ensures data[i] == At(m, a + i)
      {
        assert now[a + i - c.base] == was[a + i - c.base];
      }
    }
    if forall i: nat | i < |data| && c.base <= a + i < c.base + size :: data[i] == At(m, a + i) {
      forall k | 0 <= k < |now|
        ensures now[k] == was[k]
      {
        if a <= c.base + k < a + |data| {
          assert data[c.base + k - a] == At(m, a + (c.base + k - a));
        }
      }
    }
  }

  lemma {:induction false} StoreConcat(m: Memory, a: nat, d: seq<byte>, e: seq<byte>)
    ensures Store(m, a, d + e) == Store(Store(m, a, d), a + |d|, e)
    decreases |d|
  {
    if d == [] {
      assert d + e == e;
    } else {
      assert (d + e)[1..] == d[1..] + e;
      StoreConcat(m[a := d[0]], a + 1, d[1..], e);
    }
  }

  // Requests and their chunks, in one cache.
  class PageReader {
    const cache: array<byte>
    var base: nat

    ghost function View(): Cache
      reads this, cache
    {
      Cache(cache[..], base)
    }

    constructor (capacity: nat, none: nat)
      ensures fresh(cache) && cache.Length == capacity && base == none
    {
      cache := new byte[capacity];
      base := none;
    }

    // Fetches one page unless it is the one in the cache.
    method Fetch(m: Memory, page: nat, size: nat)
      requires size <= cache.Length
      modifies this`base, cache
      ensures base == page && cache[size..] == old(cache[size..])
      ensures cache[..size] == SeenBytes(m, old(View()), size, page, page, size)
    {
      ghost var c := View();
      if page != base {
        forall i | 0 <= i < size {
          cache[i] := At(m, page + i);
        }
        base := page;
      }
      assert cache[..size] == SeenBytes(m, c, size, page, page, size);
    }

    // Fetches a page and copies out what the request wants of it.  What lies past the
    // end of the cache is left open.
    method ServePage(m: Memory, page: nat, size: nat, response: array<byte>, done: nat, offset: nat, chunk: nat)
        returns (overrun: bool)
      requires done + chunk <= response.Length && size <= cache.Length && response != cache
      modifies this`base, cache, response
      ensures base == page && cache[size..] == old(cache[size..])
      ensures cache[..size] == SeenBytes(m, old(View()), size, page, page, size)
      ensures overrun <==> offset + chunk > cache.Length
      ensures response[..done] == old(response[..done])
      ensures Supplied(response[done..done + chunk], cache[..], offset)
    {
      Fetch(m, page, size);
      overrun := offset + chunk > cache.Length;
      forall i | 0 <= i < chunk && offset + i < cache.Length {
        response[done + i] := cache[offset + i];
      }
    }

    // The paged branch of a read.  The offset into the first page is used for every
    // later page too.
    method ReadPages(m: Memory, addr: nat, count: nat, pageSize: nat)
        returns (response: array<byte>, overrun: bool)
      requires pageSize > 0 && count > 0 && Min(pageSize, EMULATOR_MAX) <= cache.Length
      modifies this`base, cache
      ensures fresh(response)
      ensures PagedRead(m, old(View()), View(), Min(pageSize, EMULATOR_MAX), addr, count, response[..], overrun)
    {
      hide Copied, PageOf, Seen, SeenBytes, At, IsPage, Supplied;
      var ps := Min(pageSize, EMULATOR_MAX);
      ghost var c := View();
      response := new byte[count];
      overrun := false;
      ghost var first := PageOf(addr, ps);
      var page: nat := PageOf(addr, ps);
      PageOfIsPage(addr, ps);
      var offset := addr - page;
      var chunk := Min(count, ps - offset);
      var left: nat, done: nat := count, 0;
      NoneCopied(m, c, ps, addr);
      assert response[..0] == [];
      while left > 0
        invariant done + left == count && IsPage(page, ps)
        invariant done == 0 ==> page == first && View() == c && chunk == Min(count, ps - offset)
        invariant done > 0 ==> base + ps == page && IsPage(base, ps) && base <= addr + done - 1 < page
        invariant done > 0 && left > 0 ==> page == addr + done && chunk == Min(left, ps)
        invariant done > 0 ==> page >= first + ps
        invariant done > 0 ==> cache[..ps] == SeenBytes(m, c, ps, first, base, ps)
        invariant cache[ps..] == c.data[ps..]
        invariant overrun <==> done > ps - offset && offset + Min(count - (ps - offset), ps) > cache.Length
        invariant Copied(response[..done], m, c, ps, addr)
      {
        ghost var sofar := response[..done];
        ServedIsSeen(m, c, View(), ps, first, page);
        var past := ServePage(m, page, ps, response, done, offset, chunk);
        overrun := overrun || past;
        ChunkIsCopied(sofar, response[done..done + chunk], cache[..], m, c, ps, addr, page);
        assert response[..done + chunk] == sofar + response[done..done + chunk];
        NextIsPage(page, ps);
        left := left - chunk;
        done := done + chunk;
        chunk := Min(left, ps);
        page := page + ps;
      }
      PageIsUnique(base, addr + count - 1, ps);
      assert response[..done] == response[..];
    }
  }
}
