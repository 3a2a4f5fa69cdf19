/** The GART table of an ATI device (drivers/gpu/drm/ati_pcigart.c).

    A page of memory is `ratio` pages of the device, which are of 4096 bytes. What the allocator and
    the DMA mapping answer is a parameter.
  */
module PciGart {
  import opened Bits
  import opened Errno
  import opened Options
  import opened Words

  const ATI_PAGE_SIZE: int := 4096

  datatype Interface = Pci | Igp | Pcie

  // What pci_map_page returns, and whether pci_dma_mapping_error objects to it.
  datatype MapResult = Mapped(busaddr: nat) | MapError(busaddr: nat)

  // A table in memory: its address, and its address on the bus.
  datatype Table = Table(vaddr: nat, busaddr: nat)

  /* ---------- encodings ---------- */

  function Encode(interface: Interface, base: nat): nat {
    match interface
    case Igp => SetC(base)
    case Pcie => SetC(base / 256)
    case Pci => base
  }

  // The same on words, as the source writes it.
  function EncodeWord(interface: Interface, base: bv32): bv32 {
    match interface
    case Igp => base | 0xc
    case Pcie => (base >> 8) | 0xc
    case Pci => base
  }

  lemma EncodeIsWord(interface: Interface, base: bv32)
    ensures Num(EncodeWord(interface, base)) == Encode(interface, Num(base))
  {
    match interface
    case Igp => BitsOfC(base);
    case Pcie =>
      ShiftNum(base);
      BitsOfC(base >> 8);
    case Pci =>
  }

  // The address a word stands for.
  function Decode(interface: Interface, word: nat): nat {
    match interface
    case Igp => ClearC(word)
    case Pcie => ClearC(word) * 256
    case Pci => word
  }

  lemma ClearSetC(x: nat)
    ensures ClearC(SetC(x)) == ClearC(x)
    ensures ClearC(x) <= x && (ClearC(x) == x <==> x / 4 % 4 == 0)
  {
    var q, m, r := x / 16, x / 4 % 4, x % 4;
    assert x == 16 * q + 4 * m + r && m >= 0;
    ModUnique(SetC(x), q, 12 + r, 16);
    ModUnique(SetC(x), 4 * q + 3, r, 4);
  }

  // A word stands for the address it was made from exactly when the bits it gives up are clear.
  lemma DecodeEncodeIff(interface: Interface, base: nat)
    ensures Decode(interface, Encode(interface, base)) == base <==>
      match interface
      case Igp => base / 4 % 4 == 0
      case Pcie => base % 256 == 0 && base / 1024 % 4 == 0
      case Pci => true
  {
    ClearSetC(base);
    ClearSetC(base / 256);
    DivDiv(base, 256, 4);
    assert base == base / 256 * 256 + base % 256;
    assert 0 <= base % 256 < 256;
  }

  // Page addresses have them clear.
  lemma DecodePage(interface: Interface, base: nat)
    requires base % ATI_PAGE_SIZE == 0
    ensures Decode(interface, Encode(interface, base)) == base
  {
    var n := base / ATI_PAGE_SIZE;
    ModUnique(base, 1024 * n, 0, 4);
    ModUnique(1024 * n, 256 * n, 0, 4);
    ModUnique(base, 16 * n, 0, 256);
    ModUnique(base, 4 * n, 0, 1024);
    ModUnique(4 * n, n, 0, 4);
    DecodeEncodeIff(interface, base);
  }

  lemma DecodeAtMost(interface: Interface, base: nat)
    ensures Decode(interface, Encode(interface, base)) <= base
  {
    ClearSetC(base);
    ClearSetC(base / 256);
    DivBounds(base, 256);
  }

  /* ---------- table contents ---------- */

  // The device page that word k of the table is for.
  function PageFor(busaddr: seq<nat>, ratio: nat, k: nat): nat
    requires ratio > 0 && k / ratio < |busaddr|
  {
    busaddr[k / ratio] + k % ratio * ATI_PAGE_SIZE
  }

  // The word for device page j of a page: the address is cut to 32 bits.
  function DeviceWord(interface: Interface, base: nat, j: nat): nat {
    Encode(interface, (base + j * ATI_PAGE_SIZE) % TWO_32)
  }

  // Every word written is what the source's bit operations make of the 32-bit word for its address.
  lemma DeviceWordIsWord(interface: Interface, base: nat, j: nat) returns (w: bv32)
    ensures Num(w) == (base + j * ATI_PAGE_SIZE) % TWO_32
    ensures Num(EncodeWord(interface, w)) == DeviceWord(interface, base, j) < TWO_32
  {
    w := WordOf((base + j * ATI_PAGE_SIZE) % TWO_32);
    EncodeIsWord(interface, w);
    NumBelow(EncodeWord(interface, w));
  }

  // Adding pages one by one as an u32.
  lemma NextBase(base: nat, j: nat)
    ensures ((base + j * ATI_PAGE_SIZE) % TWO_32 + ATI_PAGE_SIZE) % TWO_32 ==
      (base + (j + 1) * ATI_PAGE_SIZE) % TWO_32
  {
    var x := base + j * ATI_PAGE_SIZE;
    var y := x % TWO_32 + ATI_PAGE_SIZE;
    ModUnique(x + ATI_PAGE_SIZE, x / TWO_32 + y / TWO_32, y % TWO_32, TWO_32);
  }

  // Word k of the table.
  function WordFor(interface: Interface, busaddr: seq<nat>, ratio: nat, k: nat): nat
    requires ratio > 0 && k / ratio < |busaddr|
  {
    DeviceWord(interface, busaddr[k / ratio], k % ratio)
  }

  // An address survives exactly when it fits and has the needed bits clear.
  lemma DecodesIff(interface: Interface, x: nat)
    ensures Decode(interface, Encode(interface, x % TWO_32)) == x <==>
      x < TWO_32 && Decode(interface, Encode(interface, x)) == x
  {
    DecodeAtMost(interface, x % TWO_32);
    if x < TWO_32 {
      ModUnique(x, 0, x, TWO_32);
    }
  }

  // The page is aligned for the device and lies below 2^32.
  predicate Addressable(base: nat, ratio: nat) {
    base % ATI_PAGE_SIZE == 0 && base + ratio * ATI_PAGE_SIZE <= TWO_32
  }

  // Every word stands for its device page, in each of the three encodings.
  lemma WordDecodes(interface: Interface, busaddr: seq<nat>, ratio: nat, k: nat)
    requires ratio > 0 && k / ratio < |busaddr|
    requires Addressable(busaddr[k / ratio], ratio)
    ensures Decode(interface, WordFor(interface, busaddr, ratio, k)) == PageFor(busaddr, ratio, k)
  {
    var x := PageFor(busaddr, ratio, k);
    var q := busaddr[k / ratio] / ATI_PAGE_SIZE;
    assert 0 <= k % ratio < ratio;
    ModUnique(x, q + k % ratio, 0, ATI_PAGE_SIZE);
    DecodePage(interface, x);
    DecodesIff(interface, x);
  }

  /* ---------- mapping and unmapping ---------- */

  function Min(a: nat, b: nat): nat { if a <= b then a else b }

  function Addresses(results: seq<MapResult>): (s: seq<nat>)
    ensures |s| == |results| && forall i :: 0 <= i < |s| ==> s[i] == results[i].busaddr
  {
    if results == [] then [] else Addresses(results[..|results| - 1]) + [results[|results| - 1].busaddr]
  }

  // The first of n pages that cannot be mapped, or n.
  function FirstError(results: seq<MapResult>, n: nat): (f: nat)
    requires n <= |results|
    ensures f <= n && (f < n ==> results[f].MapError?)
    ensures forall i :: 0 <= i < f ==> results[i].Mapped?
  {
    if n == 0 then 0
    else
      var f := FirstError(results, n - 1);
      if f < n - 1 || results[n - 1].MapError? then f else n
  }

  lemma {:induction false} FirstErrorKept(results: seq<MapResult>, i: nat, n: nat)
    requires i < n <= |results| && FirstError(results, i) == i
    ensures results[i].MapError? ==> FirstError(results, n) == i
    ensures results[i].Mapped? ==> FirstError(results, i + 1) == i + 1
  {
  }

  // The addresses before the first zero.
  function Leading(s: seq<nat>): seq<nat> {
    if s == [] || s[0] == 0 then [] else [s[0]] + Leading(s[1..])
  }

  // The addresses cleanup unmaps.
  function Unmapped(busaddr: seq<nat>, max: nat, tableBus: nat): seq<nat> {
    if tableBus == 0 then [] else Leading(busaddr[..Min(|busaddr|, max)])
  }

  lemma {:induction false} LeadingOf(a: seq<nat>, rest: seq<nat>)
    ensures 0 !in a ==> Leading(a + rest) == a + Leading(rest)
    ensures 0 in a ==> |Leading(a + rest)| < |a|
    decreases |a|
  {
    if a != [] {
      LeadingOf(a[1..], rest);
      assert (a + rest)[1..] == a[1..] + rest;
    } else {
      assert a + rest == rest;
    }
  }

  predicate AllZero(s: seq<nat>) {
    forall i :: 0 <= i < |s| ==> s[i] == 0
  }

  lemma CutAt(a: seq<nat>, before: seq<nat>, max: nat)
    requires |a| <= |before| && |a| <= max
    ensures var m := Min(|before|, max); (a + before[|a|..])[..m] == a + before[|a|..m]
  {
  }

  // After a successful init of n pages on a fresh list, cleanup unmaps each mapped page exactly
  // once and nothing else, exactly when neither the table nor a page has the bus address zero.
  lemma CleanupUnmapsIff(mapped: seq<nat>, before: seq<nat>, max: nat, tableBus: nat)
    requires |mapped| <= |before| && |mapped| <= max && AllZero(before)
    ensures Unmapped(mapped + before[|mapped|..], max, tableBus) == mapped <==>
      mapped == [] || (tableBus != 0 && 0 !in mapped)
  {
    var zeros := before[|mapped|..Min(|before|, max)];
    CutAt(mapped, before, max);
    LeadingOf(mapped, zeros);
    assert Leading(zeros) == [] && mapped + [] == mapped;
  }

  // When mapping a page fails with some bus address, init has cleanup unmap the pages before it,
  // which it does with the table bus address of before. That unmaps exactly them exactly when
  // there are none and nothing was published before, or something was and no address but the
  // failing one is zero.
  lemma FailureUnmapsIff(mapped: seq<nat>, failing: nat, before: seq<nat>, max: nat, tableBus: nat)
    requires |mapped| < |before| && |mapped| < max && AllZero(before)
    ensures Unmapped(mapped + [failing] + before[|mapped| + 1..], max, tableBus) == mapped <==>
      if tableBus == 0 then mapped == [] else failing == 0 && 0 !in mapped
  {
    var zeros := before[|mapped| + 1..Min(|before|, max)];
    CutAt(mapped + [failing], before, max);
    assert mapped + [failing] + zeros == mapped + ([failing] + zeros);
    LeadingOf(mapped, [failing] + zeros);
    assert mapped + [] == mapped;
  }

  // A page with bus address zero hides the ones behind it, mapped or not.
  lemma ZeroPageStopsCleanup()
    ensures Unmapped([4096, 0, 8192], 3, 1) == [4096]
  {
    assert [4096, 0, 8192][..3] == [4096, 0, 8192];
    assert [4096, 0, 8192][1..] == [0, 8192];
    assert Leading([0, 8192]) == [];
  }

  // The second of two pages cannot be mapped. Without an earlier table the first stays mapped; with
  // one, a failing address other than zero is unmapped as well.
  lemma FailureUnmapsTooLittleOrTooMuch()
    ensures Unmapped([4096] + [7] + [0, 0, 0][2..], 3, 0) == []
    ensures Unmapped([4096] + [7] + [0, 0, 0][2..], 3, 1) == [4096, 7]
  {
    var after := [4096] + [7] + [0, 0, 0][2..];
    assert after == [4096, 7, 0] && after[..3] == after;
    assert after[1..] == [7, 0] && after[1..][1..] == [0];
    assert Leading([0]) == [];
    assert Leading([7, 0]) == [7];
  }

  /* ---------- in place ---------- */

  // The words of page i, from start on.
  lemma PageOfWord(k: nat, i: nat, start: nat, ratio: nat)
    requires ratio > 0 && start == i * ratio
    ensures start <= k < start + ratio <==> k / ratio == i
    ensures k < start ==> k / ratio < i
    ensures k / ratio == i ==> k % ratio == k - start
  {
    DivBounds(k, ratio);
    if start <= k < start + ratio {
      ModUnique(k, i, k - start, ratio);
    }
  }

  lemma PagesFit(pages: nat, words: nat, ratio: nat)
    requires ratio > 0
    ensures Min(pages, words / ratio) * ratio <= words
  {
    DivBounds(words, ratio);
    MulMonotone(ratio, Min(pages, words / ratio), words / ratio);
  }

  lemma PagesWithin(words: nat, ratio: nat)
    requires ratio > 0
    ensures words / ratio <= words
  {
    DivBounds(words, ratio);
    MulMonotone(words / ratio, 1, ratio);
  }

  // Page i is recorded behind those before it.
  lemma RecordNext(results: seq<MapResult>, before: seq<nat>, i: nat)
    requires i < |results| && i < |before|
    ensures (Addresses(results[..i]) + before[i..])[i := results[i].busaddr] ==
      Addresses(results[..i + 1]) + before[i + 1..]
  {
  }

  // The scatter-gather list of a device, if it has one, and its struct drm_ati_pcigart_info.
  // table: the words of the table, in memory (main) or in video memory.
  class Gart {
    const ratio: nat
    const hasSg: bool
    const busaddr: array<nat>
    const main: bool
    const interface: Interface
    const tableSize: nat
    const table: array<nat>
    var addr: nat
    var busAddr: nat
    var handle: Option<Table>

    ghost predicate Valid() {
      ratio > 0 && table.Length == tableSize / 4 && busaddr != table
    }

    function RealPages(): nat
      requires ratio > 0
    {
      Min(busaddr.Length, tableSize / 4 / ratio)
    }

    // The table has room for the words of the first i + 1 pages, and the list has them.
    predicate HasRoom(i: nat) {
      i < busaddr.Length && (i + 1) * ratio <= table.Length
    }

    lemma RealPagesIff(i: nat)
      requires Valid()
      ensures i < RealPages() <==> HasRoom(i)
    {
      DivIsGreatest(table.Length, ratio, i + 1);
    }

    predicate MapsAt(results: seq<MapResult>, i: nat) {
      i < |results| && results[i].Mapped?
    }

    // Every page there is room for can be mapped.
    ghost predicate AllMap(results: seq<MapResult>) {
      forall i :: HasRoom(i) ==> MapsAt(results, i)
    }

    lemma AllMapIff(results: seq<MapResult>)
      requires Valid() && RealPages() <= |results|
      ensures AllMap(results) <==> FirstError(results, RealPages()) == RealPages()
    {
      forall i: nat
        ensures i < RealPages() <==> HasRoom(i)
      {
        RealPagesIff(i);
      }
      var f := FirstError(results, RealPages());
      assert f < RealPages() ==> !MapsAt(results, f);
    }

    // Word j of page i decodes to the j-th 4096 bytes of the page, if the device can address it.
    ghost predicate EntryAt(i: nat, j: nat)
      requires HasRoom(i) && j < ratio
      reads table, busaddr
    {
      i * ratio + j < table.Length
      && (Addressable(busaddr[i], ratio) ==> Decode(interface, table[i * ratio + j]) == busaddr[i] + j * 4096)
    }

    ghost predicate PageEntered(i: nat)
      requires HasRoom(i)
      reads table, busaddr
    {
      forall j :: 0 <= j < ratio ==> EntryAt(i, j)
    }

    // If there is room for page i, it is entered, as it was mapped.
    ghost predicate PageDone(results: seq<MapResult>, i: nat)
      reads table, busaddr
    {
      HasRoom(i) ==> PageEntered(i) && MapsAt(results, i) && busaddr[i] == results[i].busaddr
    }

    // The word belongs to a page there is room for, or is zero.
    ghost predicate ZeroBehind(k: nat)
      requires Valid() && k < table.Length
      reads table
    {
      DivIsGreatest(k, ratio, 0);
      HasRoom(k / ratio) || table[k] == 0
    }

    ghost predicate AllEntered(results: seq<MapResult>)
      requires Valid()
      reads table, busaddr
    {
      (forall i :: PageDone(results, i)) && (forall k :: 0 <= k < table.Length ==> ZeroBehind(k))
    }

    // The first n pages are in the table, and the rest of the table is zero.
    ghost predicate Built(n: nat)
      requires Valid() && n <= busaddr.Length
      reads table, busaddr
    {
      forall k :: 0 <= k < table.Length ==> WordOk(n, k)
    }

    ghost predicate WordOk(n: nat, k: nat)
      requires Valid() && n <= busaddr.Length && k < table.Length
      reads table, busaddr
    {
      table[k] == if k / ratio < n then WordFor(interface, busaddr[..], ratio, k) else 0
    }

    // Word k stands for its device page, if its page is one of the first n and the device can
    // address it.
    ghost predicate TranslatesAt(n: nat, k: nat)
      requires Valid() && n <= busaddr.Length && k < table.Length
      reads table, busaddr
    {
      k / ratio < n && Addressable(busaddr[k / ratio], ratio) ==>
        Decode(interface, table[k]) == PageFor(busaddr[..], ratio, k)
    }

    ghost predicate Translates(n: nat)
      requires Valid() && n <= busaddr.Length
      reads table, busaddr
    {
      forall k :: 0 <= k < table.Length ==> TranslatesAt(n, k)
    }

    lemma WordTranslates(n: nat, k: nat)
      requires Valid() && n <= busaddr.Length && k < table.Length && WordOk(n, k)
      ensures TranslatesAt(n, k)
    {
      if k / ratio < n && Addressable(busaddr[k / ratio], ratio) {
        WordDecodes(interface, busaddr[..], ratio, k);
      }
    }

    lemma BuiltTranslates(n: nat)
      requires Valid() && n <= busaddr.Length && Built(n)
      ensures Translates(n)
    {
      forall k | 0 <= k < table.Length
        ensures TranslatesAt(n, k)
      {
        assert WordOk(n, k);
        WordTranslates(n, k);
      }
    }

    lemma EntersPage(n: nat, i: nat, j: nat)
      requires Valid() && n <= busaddr.Length && i < n && HasRoom(i) && j < ratio && Built(n)
      ensures EntryAt(i, j)
    {
      var k := i * ratio + j;
      assert (i + 1) * ratio == i * ratio + ratio;
      PageOfWord(k, i, i * ratio, ratio);
      assert WordOk(n, k);
      WordTranslates(n, k);
      assert TranslatesAt(n, k);
    }

    lemma DonePage(results: seq<MapResult>, before: seq<nat>, n: nat, i: nat)
      requires Valid() && n <= |results| && n <= busaddr.Length == |before| && Built(n)
      requires busaddr[..] == Addresses(results[..n]) + before[n..]
      requires i < n && HasRoom(i) && MapsAt(results, i)
      ensures PageDone(results, i)
    {
      forall j | 0 <= j < ratio
        ensures EntryAt(i, j)
      {
        EntersPage(n, i, j);
      }
      assert busaddr[..][i] == Addresses(results[..n])[i];
    }

    lemma BuiltIsAllEntered(results: seq<MapResult>, before: seq<nat>)
      requires Valid() && RealPages() <= |results| && Built(RealPages()) && AllMap(results)
      requires |before| == busaddr.Length
      requires busaddr[..] == Addresses(results[..RealPages()]) + before[RealPages()..]
      ensures AllEntered(results)
    {
      var n := RealPages();
      forall i: nat
        ensures PageDone(results, i)
      {
        RealPagesIff(i);
        if HasRoom(i) {
          DonePage(results, before, n, i);
        }
      }
      forall k | 0 <= k < table.Length
        ensures ZeroBehind(k)
      {
        DivIsGreatest(k, ratio, 0);
        RealPagesIff(k / ratio);
        assert WordOk(n, k);
      }
    }

    // drm_ati_pcigart_cleanup
    method Cleanup() returns (ret: int, unmapped: seq<nat>)
      requires Valid()
      modifies `busAddr, `handle
      ensures ret == if hasSg then 1 else 0
      ensures unmapped == if hasSg then Unmapped(busaddr[..], tableSize / 4, old(busAddr)) else []
      ensures busAddr == if hasSg && main then 0 else old(busAddr)
      ensures handle == if hasSg && main then None else old(handle)
    {
      unmapped := [];
      if !hasSg {
        return 0, unmapped;
      }
      if busAddr != 0 {
        var pages := Min(busaddr.Length, tableSize / 4);
        var i := 0;
        while i < pages && busaddr[i] != 0
          invariant i <= pages && busAddr == old(busAddr) && handle == old(handle)
          invariant unmapped + Leading(busaddr[..pages][i..]) == Leading(busaddr[..pages])
        {
          assert busaddr[..pages][i..][1..] == busaddr[..pages][i + 1..];
          unmapped := unmapped + [busaddr[i]];
          i := i + 1;
        }
        assert busaddr[..pages] == busaddr[..][..pages];
        if main {
          busAddr := 0;
        }
      }
      if main && handle.Some? {
        handle := None;
      }
      return 1, unmapped;
    }

    // The words of one page: page_base advances as an u32.
    method FillPage(idx: nat, base: nat)
      requires Valid() && idx + ratio <= table.Length
      modifies table
      ensures forall k :: idx <= k < idx + ratio ==>
        table[k] == DeviceWord(interface, base, k - idx)
      ensures forall k :: 0 <= k < idx || idx + ratio <= k < table.Length ==> table[k] == old(table[k])
    {
      var pageBase := base % TWO_32;
      for j := 0 to ratio
        invariant pageBase == (base + j * ATI_PAGE_SIZE) % TWO_32
        invariant forall k :: idx <= k < idx + j ==>
          table[k] == DeviceWord(interface, base, k - idx)
        invariant forall k :: 0 <= k < idx || idx + j <= k < table.Length ==> table[k] == old(table[k])
      {
        table[idx + j] := Encode(interface, pageBase);
        NextBase(base, j);
        pageBase := (pageBase + ATI_PAGE_SIZE) % TWO_32;
      }
    }

    // Page i is entered behind the pages before it.
    method EnterPage(i: nat, pages: nat, gartIdx: nat, result: MapResult) returns (next: nat)
      requires Valid() && i < pages <= busaddr.Length && pages * ratio <= table.Length
      requires gartIdx == i * ratio && Built(i) && result.Mapped?
      modifies table, busaddr
      ensures next == (i + 1) * ratio
      ensures busaddr[..] == old(busaddr[..])[i := result.busaddr]
      ensures Built(i + 1)
    {
      next := gartIdx + ratio;
      assert next <= table.Length by {
        MulMonotone(ratio, i + 1, pages);
      }
      busaddr[i] := result.busaddr;
      FillPage(gartIdx, busaddr[i]);
      ghost var n := i + 1;
      forall k | 0 <= k < table.Length
        ensures WordOk(n, k)
      {
        assert old(WordOk(i, k));
        PageOfWord(k, i, gartIdx, ratio);
      }
    }

    // The address of a page that could not be mapped is kept, but not entered.
    method RecordError(i: nat, result: MapResult)
      requires Valid() && i < busaddr.Length && Built(i)
      modifies busaddr
      ensures busaddr[..] == old(busaddr[..])[i := result.busaddr]
      ensures Built(i)
    {
      busaddr[i] := result.busaddr;
      forall k | 0 <= k < table.Length
        ensures WordOk(i, k)
      {
        assert old(WordOk(i, k));
      }
    }

    // The whole table starts out as zeros.
    method Zero()
      requires Valid()
      modifies table
      ensures Built(0)
    {
      for k := 0 to table.Length
        invariant forall j :: 0 <= j < k ==> table[j] == 0
      {
        table[k] := 0;
      }
      forall k | 0 <= k < table.Length
        ensures WordOk(0, k)
      {
        DivBounds(k, ratio);
        assert k / ratio >= 0;
      }
    }

    // One turn of the loop: map page i, and enter it if that went well.
    method DoPage(i: nat, pages: nat, gartIdx: nat, results: seq<MapResult>, ghost before: seq<nat>)
      returns (ok: bool, next: nat)
      requires Valid() && i < pages <= busaddr.Length && pages <= |results| && pages * ratio <= table.Length
      requires gartIdx == i * ratio && Built(i) && |before| == busaddr.Length
      requires busaddr[..] == Addresses(results[..i]) + before[i..]
      modifies table, busaddr
      ensures ok == results[i].Mapped? && next == (if ok then i + 1 else i) * ratio
      ensures Built(if ok then i + 1 else i) && busaddr[..] == Addresses(results[..i + 1]) + before[i + 1..]
    {
      RecordNext(results, before, i);
      if results[i].MapError? {
        RecordError(i, results[i]);
        return false, gartIdx;
      }
      next := EnterPage(i, pages, gartIdx, results[i]);
      return true, next;
    }

    // The loop over the pages, up to the first that cannot be mapped.
    method Fill(pages: nat, results: seq<MapResult>) returns (ok: bool)
      requires Valid() && Built(0)
      requires pages <= |results| && pages <= busaddr.Length && pages * ratio <= table.Length
      modifies table, busaddr
      ensures ok <==> FirstError(results, pages) == pages
      ensures var f := FirstError(results, pages);
        var n := if ok then f else f + 1;
        && Built(f) && busaddr[..] == Addresses(results[..n]) + old(busaddr[..])[n..]
    {
      var gartIdx, i := 0, 0;
      while i < pages
        invariant i <= pages && gartIdx == i * ratio && Built(i)
        invariant FirstError(results, i) == i
        invariant busaddr[..] == Addresses(results[..i]) + old(busaddr[..])[i..]
      {
        FirstErrorKept(results, i, pages);
        ok, gartIdx := DoPage(i, pages, gartIdx, results, old(busaddr[..]));
        if !ok {
          return;
        }
        i := i + 1;
      }
      ok := true;
    }

    // Clear the table and enter as many pages as it has room for.
    method Build(results: seq<MapResult>) returns (ok: bool)
      requires Valid() && RealPages() <= |results|
      modifies table, busaddr
      ensures ok <==> FirstError(results, RealPages()) == RealPages()
      ensures var f := FirstError(results, RealPages());
        var n := if ok then f else f + 1;
        && Built(f) && busaddr[..] == Addresses(results[..n]) + old(busaddr[..])[n..]
      // so every page there is room for is entered, exactly if all of them can be mapped
      ensures ok <==> AllMap(results)
      ensures ok ==> AllEntered(results)
    {
      Zero();
      PagesFit(busaddr.Length, tableSize / 4, ratio);
      ok := Fill(RealPages(), results);
      AllMapIff(results);
      if ok {
        BuiltIsAllEntered(results, old(busaddr[..]));
      }
    }

    // drm_ati_pcigart_init. newTable is what allocating the table gives.
    method Init(maskRet: int, newTable: Option<Table>, results: seq<MapResult>)
      returns (ret: int, unmapped: seq<nat>)
      requires Valid() && RealPages() <= |results|
      modifies `addr, `busAddr, `handle, table, busaddr
      // no list, no DMA or no table
      ensures !hasSg ==> ret == 0
      ensures hasSg && main && maskRet != 0 ==> ret == 1
      ensures hasSg && main && maskRet == 0 && newTable.None? ==> ret == -ENOMEM
      ensures !hasSg || (main && (maskRet != 0 || newTable.None?)) ==>
        addr == 0 && busAddr == 0 && unmapped == [] && unchanged(table, busaddr)
      // all pages there is room for mapped and entered, or not
      ensures hasSg && !(main && (maskRet != 0 || newTable.None?)) ==>
        && ret == (if AllMap(results) then 1 else 0) && (AllMap(results) ==> AllEntered(results))
      ensures hasSg && !(main && (maskRet != 0 || newTable.None?)) ==>
        var f := FirstError(results, RealPages());
        if f == RealPages() then
          && ret == 1 && unmapped == [] && Built(f) && Translates(f)
          && busaddr[..] == Addresses(results[..f]) + old(busaddr[..])[f..]
          && (addr, busAddr) == (if main then (newTable.value.vaddr, newTable.value.busaddr) else old((addr, busAddr)))
          && handle == (if main then newTable else old(handle))
        else
          && ret == 0 && addr == 0 && busAddr == 0 && (main ==> handle == None)
          && busaddr[..] == Addresses(results[..f + 1]) + old(busaddr[..])[f + 1..]
          && unmapped == Unmapped(busaddr[..], tableSize / 4, old(busAddr))
    {
      unmapped := [];
      if !hasSg {
        addr, busAddr := 0, 0;
        return 0, unmapped;
      }
      var address, busAddress := 0, 0;
      if main {
        if maskRet != 0 {
          addr, busAddr := address, busAddress;
          return 1, unmapped;
        }
        handle := newTable;
        if handle.None? {
          addr, busAddr := address, busAddress;
          return -ENOMEM, unmapped;
        }
        address, busAddress := handle.value.vaddr, handle.value.busaddr;
      } else {
        address, busAddress := addr, busAddr;
      }
      var ok := Build(results);
      ret := 1;
      if !ok {
        var cleaned;
        cleaned, unmapped := Cleanup();
        address, busAddress, ret := 0, 0, 0;
      } else {
        BuiltTranslates(RealPages());
      }
      addr, busAddr := address, busAddress;
    }
  }

  // A cleanup that follows a successful init on a fresh list.
  method InitThenCleanup(g: Gart, maskRet: int, newTable: Option<Table>, results: seq<MapResult>)
    returns (ret: int, unmapped: seq<nat>)
    requires g.Valid() && g.RealPages() <= |results| && AllZero(g.busaddr[..])
    requires g.hasSg && (g.main ==> maskRet == 0 && newTable.Some?)
    requires g.AllMap(results)
    modifies g`addr, g`busAddr, g`handle, g.table, g.busaddr
    ensures var mapped := Addresses(results[..g.RealPages()]);
      var tableBus := if g.main then newTable.value.busaddr else old(g.busAddr);
      && ret == 1 && (unmapped == mapped <==> mapped == [] || (tableBus != 0 && 0 !in mapped))
      && (g.main ==> g.busAddr == 0 && g.handle == None)
  {
    g.AllMapIff(results);
    var _, _ := g.Init(maskRet, newTable, results);
    ghost var mapped := Addresses(results[..g.RealPages()]);
    assert |mapped| <= g.tableSize / 4 by {
      PagesWithin(g.tableSize / 4, g.ratio);
    }
    CleanupUnmapsIff(mapped, old(g.busaddr[..]), g.tableSize / 4, g.busAddr);
    ret, unmapped := g.Cleanup();
  }
}
