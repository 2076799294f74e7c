// The module's heap arena: pages handed out first fit, starting where the last search ended.
module Arena {
  import opened Options

  // ---------- Runs of free pages ----------

  // n free pages from `at`.
  predicate FreeRun(used: seq<bool>, at: nat, n: nat) {
    at + n <= |used| && forall i :: at <= i < at + n ==> !used[i]
  }

  // The first free run at or after `from`.
  ghost predicate FirstRun(used: seq<bool>, from: nat, n: nat, at: nat) {
    from <= at && FreeRun(used, at, n) && forall j :: from <= j < at ==> !FreeRun(used, j, n)
  }

  ghost predicate NoRun(used: seq<bool>, from: nat, n: nat) {
    forall j :: from <= j ==> !FreeRun(used, j, n)
  }

  // Where first fit finds n pages: at or after the hint if it can, else from the start.
  ghost predicate Fits(used: seq<bool>, hint: nat, n: nat, found: Option<nat>) {
    match found
    case Some(at) => FirstRun(used, hint, n, at) || (NoRun(used, hint, n) && FirstRun(used, 0, n, at))
    case None => NoRun(used, 0, n)
  }

  // ---------- The search ----------

  // Counts free pages from page i on, `run` of them behind it, to the first n in a row.
  function Pass(used: seq<bool>, i: nat, run: nat, n: nat): Option<nat>
    decreases |used| - i
  {
    if i >= |used| then None else
      var longer := if used[i] then 0 else run + 1;
      if longer == n && n <= i + 1 then Some(i + 1 - n) else Pass(used, i + 1, longer, n)
  }

  // One pass from the hint, and one from the start if that finds nothing.
  function TwoPasses(used: seq<bool>, hint: nat, n: nat): Option<nat> {
    if n > |used| then None
    else if Pass(used, hint, 0, n).Some? then Pass(used, hint, 0, n)
    else Pass(used, 0, 0, n)
  }

  // The pages counted so far are free, the one before them is not, and no earlier run is long enough.
  ghost predicate Counting(used: seq<bool>, from: nat, i: nat, run: nat, n: nat) {
    && run < n && run <= i - from && i <= |used|
    && (forall j :: i - run <= j < i ==> !used[j])
    && (i - run > from ==> used[i - run - 1])
    && forall j :: from <= j < i - run ==> !FreeRun(used, j, n)
  }

  lemma CountingStep(used: seq<bool>, from: nat, i: nat, run: nat, n: nat)
    requires Counting(used, from, i, run, n) && i < |used|
    ensures used[i] ==> Counting(used, from, i + 1, 0, n)
    ensures !used[i] && run + 1 < n ==> Counting(used, from, i + 1, run + 1, n)
    ensures !used[i] && run + 1 == n ==> FirstRun(used, from, n, i + 1 - n)
  {
    if used[i] {
      forall j | from <= j < i + 1 ensures !FreeRun(used, j, n) {
        if i - run <= j {
          assert used[i];
        }
      }
    }
  }

  lemma {:induction false} PassFinds(used: seq<bool>, from: nat, i: nat, run: nat, n: nat)
    requires Counting(used, from, i, run, n)
    ensures var found := Pass(used, i, run, n);
            if found.Some? then FirstRun(used, from, n, found.value) else NoRun(used, from, n)
    decreases |used| - i
  {
    hide FirstRun, FreeRun;
    if i < |used| {
      CountingStep(used, from, i, run, n);
      if used[i] {
        PassFinds(used, from, i + 1, 0, n);
      } else if run + 1 < n {
        PassFinds(used, from, i + 1, run + 1, n);
      }
    } else {
      NoRoom(used, from, i, run, n);
    }
  }

  lemma NoRoom(used: seq<bool>, from: nat, i: nat, run: nat, n: nat)
    requires Counting(used, from, i, run, n) && i == |used|
    ensures NoRun(used, from, n)
  {
  }

  // The two passes are first fit.
  lemma PassesFit(used: seq<bool>, hint: nat, n: nat)
    requires hint <= |used| && n > 0
    ensures Fits(used, hint, n, TwoPasses(used, hint, n))
  {
    PassFinds(used, hint, hint, 0, n);
    PassFinds(used, 0, 0, 0, n);
  }

  // ---------- Flags and their count ----------

  function CountUsed(used: seq<bool>): (c: nat)
    ensures c <= |used|
    decreases |used|
  {
    if used == [] then 0 else CountUsed(used[..|used| - 1]) + if used[|used| - 1] then 1 else 0
  }

  lemma {:induction false} CountSet(used: seq<bool>, i: nat, b: bool)
    requires i < |used| && used[i] != b
    ensures CountUsed(used[i := b]) == if b then CountUsed(used) + 1 else CountUsed(used) - 1
    decreases |used|
  {
    var last := |used| - 1;
    if i == last {
      assert used[i := b][..last] == used[..last];
    } else {
      assert used[i := b][..last] == used[..last][i := b];
      CountSet(used[..last], i, b);
    }
  }

  // The flags from `at` on set, n of them.
  function SetFlags(used: seq<bool>, at: nat, n: nat, b: bool): (r: seq<bool>)
    requires at + n <= |used|
    ensures |r| == |used|
    ensures forall i :: 0 <= i < |used| ==> r[i] == if at <= i < at + n then b else used[i]
  {
    used[..at] + seq(n, _ => b) + used[at + n..]
  }

  // ---------- The code ----------

  const PAGE: nat := 0x4000
  const SIZE: nat := 0x1_0000_0000_0000_0000

  // Rounded up, in 64-bit arithmetic: the sum wraps for the greatest lengths, and gives no page at all.
  function PagesOf(length: nat): nat {
    (length + PAGE - 1) % SIZE / PAGE
  }

  // ---------- Bytes ----------

  // Byte b of the arena is on a page that is not in use.
  predicate FreeByte(used: seq<bool>, b: nat) {
    b / PAGE < |used| && !used[b / PAGE]
  }

  // `length` bytes from page `at` on are inside the arena and free.
  ghost predicate FreeBytes(used: seq<bool>, at: nat, length: nat) {
    forall b: nat :: at * PAGE <= b < at * PAGE + length ==> FreeByte(used, b)
  }

  // A length takes the fewest pages that hold it, or none if it is within a page of 2^64.
  lemma PagesHold(length: nat)
    requires length < SIZE
    ensures length + PAGE <= SIZE && length > 0 ==> (PagesOf(length) - 1) * PAGE < length <= PagesOf(length) * PAGE
    ensures length == 0 || length + PAGE > SIZE ==> PagesOf(length) == 0
  {
  }

  // A run of pages is free exactly when the bytes it is for are.
  lemma RunOfBytes(used: seq<bool>, at: nat, length: nat)
    requires 0 < length && length + PAGE <= SIZE
    ensures FreeRun(used, at, PagesOf(length)) <==> FreeBytes(used, at, length)
  {
    var n := PagesOf(length);
    PagesHold(length);
    if FreeBytes(used, at, length) {
      var last := at * PAGE + (n - 1) * PAGE;
      assert FreeByte(used, last);
      OnPage(at + n - 1, 0);
      forall i | at <= i < at + n ensures i < |used| && !used[i] {
        OnPage(i, 0);
        assert FreeByte(used, i * PAGE);
      }
    }
    if FreeRun(used, at, n) {
      forall b: nat | at * PAGE <= b < at * PAGE + length ensures FreeByte(used, b) {
        assert at <= b / PAGE < at + n;
      }
    }
  }

  // Page i holds some of the `length` bytes from page `first` on.
  predicate HoldsBytes(i: nat, first: nat, length: nat) {
    i * PAGE < first * PAGE + length && first * PAGE < (i + 1) * PAGE
  }

  lemma HeldPages(i: nat, first: nat, length: nat)
    requires length + PAGE <= SIZE && length > 0
    ensures HoldsBytes(i, first, length) <==> first <= i < first + PagesOf(length)
  {
    PagesHold(length);
  }

  lemma OnPage(i: nat, d: nat)
    requires d < PAGE
    ensures (i * PAGE + d) / PAGE == i
  {
  }

  // In an arena of less than 2^64 bytes, a length that needs more room than there is finds none.
  lemma TooLong(used: seq<bool>, length: nat)
    requires |used| * PAGE + PAGE < SIZE && length + PAGE > SIZE
    ensures forall at: nat :: !FreeBytes(used, at, length)
  {
    forall at: nat ensures !FreeBytes(used, at, length) {
      OnPage(at + |used|, 0);
      assert !FreeByte(used, (at + |used|) * PAGE);
    }
  }

  class Heap {
    const used: array<bool>
    var hint: nat
    var usedPages: nat
    var peakPages: nat
    const mapped: bool

    ghost predicate Valid()
      reads this, used
    {
      && used.Length * PAGE + PAGE < SIZE
      && hint <= used.Length && usedPages == CountUsed(used[..]) <= peakPages
    }

    constructor (mapped: bool, pages: nat)
      requires pages * PAGE + PAGE < SIZE
      ensures Valid() && fresh(used) && this.mapped == mapped && used[..] == seq(pages, _ => false)
    {
      this.mapped := mapped;
      used := new bool[pages](_ => false);
      hint, usedPages, peakPages := 0, 0, 0;
      new;
      NoneUsed(used[..]);
    }

    // One pass over the flags from a start.
    method Search(from: nat, pages: nat) returns (found: Option<nat>)
      requires pages > 0 && from <= used.Length
      ensures found == Pass(used[..], from, 0, pages)
    {
      var run := 0;
      for i := from to used.Length
        invariant 0 <= run <= i - from && run < pages
        invariant Pass(used[..], i, run, pages) == Pass(used[..], from, 0, pages)
      {
        run := if used[i] then 0 else run + 1;
        if run == pages {
          return Some(i + 1 - pages);
        }
      }
      found := None;
    }

    // The first page for a block of `length` bytes, or nothing; the pages it spans are then in use. There is nothing
    // exactly where no free stretch of the arena is long enough, page by page.
    method Allocate(length: nat) returns (found: Option<nat>)
      requires Valid() && length < SIZE
      modifies this, used
      ensures Valid()
      ensures found.Some? <==> mapped && length > 0 && exists at: nat :: FreeBytes(old(used[..]), at, length)
      ensures found.Some? ==> FreeBytes(old(used[..]), found.value, length)
      ensures found.Some? ==> forall i :: 0 <= i < used.Length ==>
                used[i] == (HoldsBytes(i, found.value, length) || old(used[i]))
      ensures found.None? ==> !mapped || PagesOf(length) == 0 || NoRun(old(used[..]), 0, PagesOf(length))
      ensures found == if mapped && PagesOf(length) > 0 then TwoPasses(old(used[..]), old(hint), PagesOf(length)) else None
      ensures found.None? ==> used[..] == old(used[..]) && hint == old(hint) && usedPages == old(usedPages)
      ensures peakPages == if usedPages > old(peakPages) then usedPages else old(peakPages)
      ensures found.Some? ==> mapped && PagesOf(length) > 0 && Fits(old(used[..]), old(hint), PagesOf(length), found)
      ensures found.Some? ==>
                && found.value + PagesOf(length) <= used.Length
                && used[..] == SetFlags(old(used[..]), found.value, PagesOf(length), true)
                && hint == found.value + PagesOf(length) && usedPages == old(usedPages) + PagesOf(length)
    {
      var pages := PagesOf(length);
      AllocatesBytes(used[..], hint, length);
      if !mapped || pages == 0 || pages > used.Length {
        return None;
      }
      found := None;
      var pass := 0;
      while pass < 2 && found.None?
        invariant 0 <= pass <= 2 && unchanged(this) && unchanged(used)
        invariant found.None? && pass >= 1 ==> Pass(used[..], hint, 0, pages).None?
        invariant found.None? && pass == 2 ==> TwoPasses(used[..], hint, pages).None?
        invariant found.Some? ==> TwoPasses(used[..], hint, pages) == found
        decreases 2 - pass
      {
        found := Search(if pass == 0 then hint else 0, pages);
        pass := pass + 1;
      }
      assert used[..] == old(used[..]);
      PassesFit(used[..], hint, pages);
      if found.None? {
        return;
      }
      MarkUsed(found.value, pages);
      assert CountUsed(used[..]) == usedPages + pages;
      hint := found.value + pages;
      usedPages := usedPages + pages;
      if usedPages > peakPages {
        peakPages := usedPages;
      }
    }

    method MarkUsed(at: nat, pages: nat)
      requires FreeRun(used[..], at, pages)
      modifies used
      ensures at + pages <= used.Length
      ensures used[..] == SetFlags(old(used[..]), at, pages, true)
      ensures CountUsed(used[..]) == CountUsed(old(used[..])) + pages
    {
      for i := 0 to pages
        invariant forall k :: 0 <= k < used.Length ==> used[k] == if at <= k < at + i then true else old(used[k])
        invariant CountUsed(used[..]) == CountUsed(old(used[..])) + i
      {
        ghost var before := used[..];
        used[at + i] := true;
        assert used[..] == before[at + i := true];
        CountSet(before, at + i, true);
      }
    }

    // Frees the pages of a block, as far as they lie in the arena.
    method Release(first: nat, length: nat)
      requires Valid()
      modifies this, used
      ensures Valid() && peakPages == old(peakPages)
      ensures 0 < length && length + PAGE <= SIZE ==> forall i :: 0 <= i < used.Length ==>
                used[i] == (!HoldsBytes(i, first, length) && old(used[i]))
      ensures used[..] == Cleared(old(used[..]), first, PagesOf(length))
      ensures hint == if first < old(hint) then first else old(hint)
    {
      hide CountUsed, PagesOf;
      if 0 < length && length + PAGE <= SIZE {
        forall k: nat ensures HoldsBytes(k, first, length) <==> first <= k < first + PagesOf(length) {
          HeldPages(k, first, length);
        }
      }
      hide HoldsBytes;
      var pages := PagesOf(length);
      var i := first;
      while i < first + pages && i < used.Length
        invariant first <= i <= first + pages && (i <= used.Length || i == first)
        invariant hint == old(hint) <= used.Length && peakPages == old(peakPages)
        invariant used[..] == Cleared(old(used[..]), first, i - first)
        invariant usedPages == CountUsed(used[..]) <= peakPages
      {
        ghost var before := used[..];
        ClearOne(before, old(used[..]), first, i);
        if used[i] {
          usedPages := usedPages - 1;
        }
        used[i] := false;
        assert used[..] == before[i := false];
        i := i + 1;
      }
      if first < hint {
        hint := first;
      }
    }
  }

  // The flags of n pages from `first` cleared, as far as there are any.
  function Cleared(used: seq<bool>, first: nat, n: nat): (r: seq<bool>)
    ensures |r| == |used|
    ensures forall i :: 0 <= i < |used| ==> r[i] == if first <= i < first + n then false else used[i]
  {
    seq(|used|, i requires 0 <= i < |used| => if first <= i < first + n then false else used[i])
  }

  lemma ClearOne(before: seq<bool>, used: seq<bool>, first: nat, i: nat)
    requires first <= i < |used| && before == Cleared(used, first, i - first)
    ensures before[i := false] == Cleared(used, first, i + 1 - first)
    ensures CountUsed(before[i := false]) == CountUsed(before) - if before[i] then 1 else 0
  {
    if before[i] {
      CountSet(before, i, false);
    } else {
      assert before[i := false] == before;
    }
    hide CountUsed;
  }

  lemma {:induction false} NoneUsed(used: seq<bool>)
    requires forall i :: 0 <= i < |used| ==> !used[i]
    ensures CountUsed(used) == 0
    decreases |used|
  {
    if used != [] {
      NoneUsed(used[..|used| - 1]);
    }
  }

  // What the two passes find for a length, told in bytes.
  lemma AllocatesBytes(used: seq<bool>, hint: nat, length: nat)
    requires length < SIZE && |used| * PAGE + PAGE < SIZE && hint <= |used|
    ensures var n := PagesOf(length);
            && (length > 0 && n > 0 ==> length + PAGE <= SIZE)
            && (length == 0 ==> n == 0)
            && (length > 0 && n == 0 ==> forall at: nat :: !FreeBytes(used, at, length))
            && (n > 0 && TwoPasses(used, hint, n).None? ==> forall at: nat :: !FreeBytes(used, at, length))
            && (n > 0 && TwoPasses(used, hint, n).Some? ==> FreeBytes(used, TwoPasses(used, hint, n).value, length))
            && (n > 0 ==> forall i: nat, at: nat :: HoldsBytes(i, at, length) <==> at <= i < at + n)
  {
    var n := PagesOf(length);
    PagesHold(length);
    hide Pass, TwoPasses, PagesOf, FreeBytes, HoldsBytes;
    if length > 0 && n == 0 {
      TooLong(used, length);
    }
    if n > 0 {
      PassesFit(used, hint, n);
      forall at: nat ensures FreeRun(used, at, n) <==> FreeBytes(used, at, length) {
        RunOfBytes(used, at, length);
      }
      forall i: nat, at: nat ensures HoldsBytes(i, at, length) <==> at <= i < at + n {
        HeldPages(i, at, length);
      }
    }
  }
}
