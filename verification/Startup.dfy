/** __cmsis_start: the table-driven copy and zero loops that run before main. Memory is one
  * array of words; the linker's tables hold word addresses in it.
  */
module Startup {
  import opened Bits

  datatype CopyEntry = CopyEntry(src: nat, dest: nat, wlen: nat)
  datatype ZeroEntry = ZeroEntry(dest: nat, wlen: nat)

  // What the linker script provides: regions that exist.
  predicate CopyFits(e: CopyEntry, size: nat) { e.src + e.wlen <= size && e.dest + e.wlen <= size }
  predicate ZeroFits(e: ZeroEntry, size: nat) { e.dest + e.wlen <= size }

  ghost predicate TablesFit(copies: seq<CopyEntry>, zeros: seq<ZeroEntry>, size: nat) {
    && (forall k :: 0 <= k < |copies| ==> CopyFits(copies[k], size))
    && (forall k :: 0 <= k < |zeros| ==> ZeroFits(zeros[k], size))
  }

  // ---- The loops as functions: n words of an entry, then k entries of a table ----

  function CopyWords(mem: seq<int>, e: CopyEntry, n: nat): (r: seq<int>)
    requires CopyFits(e, |mem|) && n <= e.wlen
    ensures |r| == |mem|
  {
    if n == 0 then mem
    else
      var m := CopyWords(mem, e, n - 1);
      m[e.dest + n - 1 := m[e.src + n - 1]]
  }

  function ZeroWords(mem: seq<int>, e: ZeroEntry, n: nat): (r: seq<int>)
    requires ZeroFits(e, |mem|) && n <= e.wlen
    ensures |r| == |mem|
  {
    if n == 0 then mem else ZeroWords(mem, e, n - 1)[e.dest + n - 1 := 0]
  }

  ghost function CopyEntries(mem: seq<int>, copies: seq<CopyEntry>, k: nat): (r: seq<int>)
    requires TablesFit(copies, [], |mem|) && k <= |copies|
    ensures |r| == |mem|
  {
    if k == 0 then mem
    else CopyWords(CopyEntries(mem, copies, k - 1), copies[k - 1], copies[k - 1].wlen)
  }

  ghost function ZeroEntries(mem: seq<int>, zeros: seq<ZeroEntry>, k: nat): (r: seq<int>)
    requires TablesFit([], zeros, |mem|) && k <= |zeros|
    ensures |r| == |mem|
  {
    if k == 0 then mem
    else ZeroWords(ZeroEntries(mem, zeros, k - 1), zeros[k - 1], zeros[k - 1].wlen)
  }

  ghost function Started(mem: seq<int>, copies: seq<CopyEntry>, zeros: seq<ZeroEntry>): (r: seq<int>)
    requires TablesFit(copies, zeros, |mem|)
    ensures |r| == |mem|
  {
    ZeroEntries(CopyEntries(mem, copies, |copies|), zeros, |zeros|)
  }

  method CmsisStart(mem: array<int>, copies: seq<CopyEntry>, zeros: seq<ZeroEntry>)
    requires TablesFit(copies, zeros, mem.Length)
    modifies mem
    ensures mem[..] == Started(old(mem[..]), copies, zeros)
  {
    var p := 0;
    while p < |copies|
      invariant 0 <= p <= |copies|
      invariant mem[..] == CopyEntries(old(mem[..]), copies, p)
    {
      ghost var before := mem[..];
      var e := copies[p];
      var i := 0;
      while i < e.wlen
        invariant 0 <= i <= e.wlen
        invariant mem[..] == CopyWords(before, e, i)
      {
        mem[e.dest + i] := mem[e.src + i];
        i := i + 1;
      }
      p := p + 1;
    }
    ghost var copied := mem[..];
    var q := 0;
    while q < |zeros|
      invariant 0 <= q <= |zeros|
      invariant mem[..] == ZeroEntries(copied, zeros, q)
    {
      ghost var before := mem[..];
      var z := zeros[q];
      var i := 0;
      while i < z.wlen
        invariant 0 <= i <= z.wlen
        invariant mem[..] == ZeroWords(before, z, i)
      {
        mem[z.dest + i] := 0;
        i := i + 1;
      }
      q := q + 1;
    }
  }

  // ---- One entry ----

  predicate In(a: int, start: nat, len: nat) { start <= a < start + len }

  predicate Apart(a: nat, alen: nat, b: nat, blen: nat) { a + alen <= b || b + blen <= a || alen == 0 || blen == 0 }

  // An upward word-by-word copy may overlap its source only from below.
  predicate CopiesUpward(e: CopyEntry) { e.dest <= e.src || e.src + e.wlen <= e.dest }

  lemma {:induction false} CopyWordsEffect(mem: seq<int>, e: CopyEntry, n: nat, a: nat)
    requires CopyFits(e, |mem|) && n <= e.wlen && CopiesUpward(e) && a < |mem|
    ensures CopyWords(mem, e, n)[a] == if In(a, e.dest, n) then mem[e.src + (a - e.dest)] else mem[a]
  {
    if n == 0 {
    } else {
      CopyWordsEffect(mem, e, n - 1, a);
      CopyWordsEffect(mem, e, n - 1, e.src + n - 1);
    }
  }

  ghost predicate EntryCopied(mem: seq<int>, e: CopyEntry)
    requires CopyFits(e, |mem|)
  {
    CopyWords(mem, e, e.wlen)[e.dest..e.dest + e.wlen] == mem[e.src..e.src + e.wlen]
  }

  /** When the destination starts inside the source, g words above it, the first g words of the
    * source are repeated all the way up. */
  lemma {:induction false} SmearEffect(mem: seq<int>, e: CopyEntry, n: nat, a: nat)
    requires CopyFits(e, |mem|) && n <= e.wlen && !CopiesUpward(e) && a < |mem|
    ensures CopyWords(mem, e, n)[a]
      == if In(a, e.dest, n) then mem[e.src + (a - e.dest) % (e.dest - e.src)] else mem[a]
  {
    if n == 0 {
    } else {
      var g := e.dest - e.src;
      SmearEffect(mem, e, n - 1, a);
      SmearEffect(mem, e, n - 1, e.src + n - 1);
      assert 0 <= (n - 1) % g < g && 0 < g;
      if n - 1 < g { DivModUnique(n - 1, g, 0, n - 1); } else { SubtractOnce(n - 1, g); }
    }
  }

  lemma SubtractOnce(o: nat, g: nat)
    requires 0 < g <= o
    ensures (o - g) % g == o % g
  {
    DivModUnique(o - g, g, o / g - 1, o % g);
  }

  lemma UpwardCopies(mem: seq<int>, e: CopyEntry)
    requires CopyFits(e, |mem|) && CopiesUpward(e)
    ensures EntryCopied(mem, e)
  {
    var got, want := CopyWords(mem, e, e.wlen)[e.dest..e.dest + e.wlen], mem[e.src..e.src + e.wlen];
    forall o | 0 <= o < e.wlen ensures got[o] == want[o] {
      CopyWordsEffect(mem, e, e.wlen, e.dest + o);
    }
  }

  lemma OverlapSmears(e: CopyEntry, mem: seq<int>)
    requires CopyFits(e, |mem|) && !CopiesUpward(e) && mem[e.src] != mem[e.dest]
    ensures !EntryCopied(mem, e)
  {
    var g := e.dest - e.src;
    SmearEffect(mem, e, e.wlen, e.dest + g);
    DivModUnique(g, g, 1, 0);
    assert CopyWords(mem, e, e.wlen)[e.dest..e.dest + e.wlen][g] == mem[e.src];
    assert mem[e.src..e.src + e.wlen][g] == mem[e.dest];
  }

  /** An entry delivers its source for every memory content if and only if its destination does
    * not start inside its source. */
  lemma EntryCopiedIff(e: CopyEntry, size: nat)
    requires CopyFits(e, size)
    ensures (forall mem: seq<int> :: |mem| == size ==> EntryCopied(mem, e)) <==> CopiesUpward(e)
  {
    hide EntryCopied;
    if CopiesUpward(e) {
      forall mem: seq<int> | |mem| == size ensures EntryCopied(mem, e) { UpwardCopies(mem, e); }
    } else {
      OverlapSmears(e, seq(size, i => i));
    }
  }

  lemma {:induction false} ZeroWordsEffect(mem: seq<int>, e: ZeroEntry, n: nat, a: nat)
    requires ZeroFits(e, |mem|) && n <= e.wlen && a < |mem|
    ensures ZeroWords(mem, e, n)[a] == if In(a, e.dest, n) then 0 else mem[a]
  {
    if n == 0 {
    } else {
      ZeroWordsEffect(mem, e, n - 1, a);
    }
  }

  // ---- Whole tables ----

  // Destinations do not overlap each other, and no entry's source was already overwritten by
  // an earlier entry. Zeroed regions may cover sources: everything has been copied by then.
  ghost predicate WellPlaced(copies: seq<CopyEntry>, zeros: seq<ZeroEntry>) {
    && (forall i :: 0 <= i < |copies| ==> CopiesUpward(copies[i]))
    && (forall i, j :: 0 <= i < j < |copies| ==>
          Apart(copies[i].dest, copies[i].wlen, copies[j].dest, copies[j].wlen)
          && Apart(copies[i].dest, copies[i].wlen, copies[j].src, copies[j].wlen))
    && (forall i, j :: 0 <= i < |copies| && 0 <= j < |zeros| ==>
          Apart(copies[i].dest, copies[i].wlen, zeros[j].dest, zeros[j].wlen))
  }

  lemma {:induction false} CopyEntriesKeep(mem: seq<int>, copies: seq<CopyEntry>, k: nat, a: nat)
    requires TablesFit(copies, [], |mem|) && k <= |copies| && a < |mem|
    requires forall i :: 0 <= i < |copies| ==> CopiesUpward(copies[i])
    requires forall i :: 0 <= i < k ==> !In(a, copies[i].dest, copies[i].wlen)
    ensures CopyEntries(mem, copies, k)[a] == mem[a]
  {
    if k == 0 {
    } else {
      CopyEntriesKeep(mem, copies, k - 1, a);
      CopyWordsEffect(CopyEntries(mem, copies, k - 1), copies[k - 1], copies[k - 1].wlen, a);
    }
  }

  lemma {:induction false} CopyEntriesDeliver(mem: seq<int>, copies: seq<CopyEntry>, k: nat, i: nat, o: nat)
    requires TablesFit(copies, [], |mem|) && WellPlaced(copies, []) && i < k <= |copies| && o < copies[i].wlen
    ensures CopyEntries(mem, copies, k)[copies[i].dest + o] == mem[copies[i].src + o]
  {
    var e := copies[k - 1];
    var before := CopyEntries(mem, copies, k - 1);
    CopyWordsEffect(before, e, e.wlen, copies[i].dest + o);
    if i == k - 1 {
      CopyEntriesKeep(mem, copies, k - 1, e.src + o);
    } else {
      CopyEntriesDeliver(mem, copies, k - 1, i, o);
    }
  }

  lemma {:induction false} ZeroEntriesEffect(mem: seq<int>, zeros: seq<ZeroEntry>, k: nat, a: nat)
    requires TablesFit([], zeros, |mem|) && k <= |zeros| && a < |mem|
    ensures ZeroEntries(mem, zeros, k)[a]
      == if exists j :: 0 <= j < k && In(a, zeros[j].dest, zeros[j].wlen) then 0 else mem[a]
  {
    if k == 0 {
    } else {
      ZeroEntriesEffect(mem, zeros, k - 1, a);
      ZeroWordsEffect(ZeroEntries(mem, zeros, k - 1), zeros[k - 1], zeros[k - 1].wlen, a);
    }
  }

  ghost predicate Untouched(a: nat, copies: seq<CopyEntry>, zeros: seq<ZeroEntry>) {
    && (forall i :: 0 <= i < |copies| ==> !In(a, copies[i].dest, copies[i].wlen))
    && (forall j :: 0 <= j < |zeros| ==> !In(a, zeros[j].dest, zeros[j].wlen))
  }

  // Copied from its source, zeroed, or left alone, as the tables say.
  ghost predicate ImageAt(mem: seq<int>, r: seq<int>, copies: seq<CopyEntry>, zeros: seq<ZeroEntry>, a: nat)
    requires |r| == |mem| && a < |mem| && TablesFit(copies, zeros, |mem|)
  {
    && (forall i | 0 <= i < |copies| && In(a, copies[i].dest, copies[i].wlen) ::
          r[a] == mem[copies[i].src + (a - copies[i].dest)])
    && (forall j | 0 <= j < |zeros| && In(a, zeros[j].dest, zeros[j].wlen) :: r[a] == 0)
    && (Untouched(a, copies, zeros) ==> r[a] == mem[a])
  }

  /** For any number of well-placed entries: every word of a copied region holds what its source
    * held at the start, every word of a zero region is zero, and all other memory is as it was. */
  lemma StartupImage(mem: seq<int>, copies: seq<CopyEntry>, zeros: seq<ZeroEntry>)
    requires TablesFit(copies, zeros, |mem|) && WellPlaced(copies, zeros)
    ensures forall a :: 0 <= a < |mem| ==> ImageAt(mem, Started(mem, copies, zeros), copies, zeros, a)
  {
    var copied := CopyEntries(mem, copies, |copies|);
    forall a | 0 <= a < |mem| ensures ImageAt(mem, Started(mem, copies, zeros), copies, zeros, a) {
      ZeroEntriesEffect(copied, zeros, |zeros|, a);
      if i :| 0 <= i < |copies| && In(a, copies[i].dest, copies[i].wlen) {
        CopyEntriesDeliver(mem, copies, |copies|, i, a - copies[i].dest);
        assert forall k :: 0 <= k < |copies| && k != i ==> !In(a, copies[k].dest, copies[k].wlen);
      } else {
        CopyEntriesKeep(mem, copies, |copies|, a);
      }
    }
  }
}
