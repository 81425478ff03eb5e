/** The circular buffer itself, updated in place: `struct aesd_circular_buffer` and its functions. */
module RingBuffer {
  import opened Parts
  import opened Machine
  import opened CommandLog
  import opened RingModel
  import opened Positions
  import opened Kernel
  import opened CStrings

  datatype Entry = Entry(buffptr: Ptr, size: nat)

  /** Command numbers and byte positions of the log stay below 2^31. */
  ghost predicate Fits(log: Log) {
    |log.commands| < LIMIT && |log.Bytes()| < LIMIT
  }

  /** A slot in use has a live buffer with the command; an unused one has none. */
  ghost predicate Holds(e: Entry, command: string, mem: map<Ptr, string>) {
    && e.size == |command|
    && if command == "" then e.buffptr == NULL else e.buffptr != NULL && e.buffptr in mem && mem[e.buffptr] == command
  }

  /** Slots in use have different buffers. */
  ghost predicate Apart(es: seq<Entry>) {
    forall i, j :: 0 <= i < j < |es| && es[i].buffptr == es[j].buffptr ==> es[i].buffptr == NULL
  }

  /** The slots hold these commands, each in a buffer of its own. */
  ghost predicate SlotsHold(es: seq<Entry>, commands: seq<string>, mem: map<Ptr, string>) {
    && |es| == |commands|
    && (forall j :: 0 <= j < |es| ==> Holds(es[j], commands[j], mem))
    && Apart(es)
  }

  /** The pending string, when there is one, has a buffer that no slot has. */
  ghost predicate PendingHolds(tmp: Entry, es: seq<Entry>, pending: string, mem: map<Ptr, string>) {
    && tmp.size == |pending|
    && (pending != "" ==>
          && tmp.buffptr in mem && mem[tmp.buffptr] == pending
          && forall j :: 0 <= j < |es| ==> es[j].buffptr != tmp.buffptr)
  }

  lemma {:induction false} StoreHolds(es: seq<Entry>, commands: seq<string>, mem: map<Ptr, string>,
                                      wi: nat, p: Ptr, c: string)
    requires SlotsHold(es, commands, mem) && wi < |es| && c != ""
    requires p != NULL && p !in mem - {es[wi].buffptr}
    ensures SlotsHold(es[wi := Entry(p, |c|)], commands[wi := c], (mem - {es[wi].buffptr})[p := c])
  {
    var es', mem' := es[wi := Entry(p, |c|)], (mem - {es[wi].buffptr})[p := c];
    forall j | 0 <= j < |es| && j != wi
      ensures Holds(es[j], commands[j], mem') && es[j].buffptr != p
    {
      assert Holds(es[j], commands[j], mem);
      assert es[j].buffptr == es[wi].buffptr ==> es[j].buffptr == NULL;
    }
    assert Holds(es'[wi], c, mem');
    assert Apart(es');
  }

  lemma {:induction false} HoldsAt(es: seq<Entry>, commands: seq<string>, mem: map<Ptr, string>, j: nat)
    requires SlotsHold(es, commands, mem) && j < |es|
    ensures Holds(es[j], commands[j], mem)
  {
  }

  /** Whatever becomes of a buffer that no slot has, the slots hold what they held. */
  lemma {:induction false} ElsewhereHolds(es: seq<Entry>, commands: seq<string>,
                                          mem: map<Ptr, string>, mem': map<Ptr, string>, p: Ptr)
    requires SlotsHold(es, commands, mem)
    requires forall j :: 0 <= j < |es| ==> es[j].buffptr != p
    requires forall q :: q in mem && q != p ==> q in mem' && mem'[q] == mem[q]
    ensures SlotsHold(es, commands, mem')
  {
    forall j | 0 <= j < |es| ensures Holds(es[j], commands[j], mem') {
      assert Holds(es[j], commands[j], mem);
    }
  }

  lemma {:induction false} FreshApart(es: seq<Entry>, commands: seq<string>, mem: map<Ptr, string>, p: Ptr)
    requires SlotsHold(es, commands, mem) && p != NULL && p !in mem
    ensures forall j :: 0 <= j < |es| ==> es[j].buffptr != p
  {
    forall j | 0 <= j < |es| ensures es[j].buffptr != p {
      assert Holds(es[j], commands[j], mem);
    }
  }

  /** Nothing that was there before is lost or changed, except the buffer of the slot overwritten. */
  lemma {:induction false} HeapAfterCommit(mem: map<Ptr, string>, tmp: Ptr, bytes: string, slot: Ptr, taken: Ptr)
    requires tmp !in mem && taken !in mem[tmp := bytes] - {slot}
    ensures var mem' := (mem[tmp := bytes] - {slot})[taken := bytes] - {tmp};
            forall p :: p in mem && p != slot ==> p != taken && p in mem' && mem'[p] == mem[p]
  {
  }

  /** `start_char_abs` when H grows by one command: the size of the new oldest one is added. */
  lemma {:induction false} StartCharAfterCommit(H: seq<string>, c: string)
    ensures var H' := H + [c];
            if |H| < SLOTS then StartChar(H') == StartChar(H) == 0
            else StartChar(H') == StartChar(H) + |H'[StartAbs(|H'|)]|
  {
    var H' := H + [c];
    var s := StartAbs(|H'|);
    if |H| >= SLOTS {
      ConcatStep(H'[1..s + 1], s - 1);
      assert H'[1..s] == H[1..s] by { assert H'[..|H|] == H; }
      assert H'[1..s + 1][..s - 1] == H'[1..s];
    } else {
      assert H'[1..s + 1] == [] && (|H| > 0 ==> H[1..StartAbs(|H|) + 1] == []);
    }
  }

  /** The slot about to be written is empty until ten commands are in. */
  lemma {:induction false} SlotBefore(H: seq<string>)
    requires Commands(H)
    ensures Slots(H)[|H| % 10] == "" <==> |H| < SLOTS
  {
    hide Slots, Live;
    if |H| >= SLOTS {
      var k := |H| - SLOTS;
      assert k % 10 == |H| % 10;
      SlotHolds(H, k);
    } else {
      UnusedSlots(H, |H|);
    }
  }

  lemma {:induction false} ConcatSnoc(H: seq<string>, c: string)
    ensures Concat(H + [c]) == Concat(H) + c
  {
    assert (H + [c])[..|H|] == H;
  }

  lemma {:induction false} StartCharBound(H: seq<string>)
    ensures StartChar(H) <= |Concat(H)|
  {
    if |H| > 0 {
      var s := StartAbs(|H|);
      ConcatSplit(H, 1);
      ConcatSplit(H[1..], s);
      assert H[1..][..s] == H[1..s + 1];
    }
  }

  lemma {:induction false} FullPrefix(parts: seq<string>, n: nat)
    requires n <= |parts|
    ensures Concat(parts[..0]) == ""
    ensures forall j :: 0 <= j <= n ==> parts[..n][..j] == parts[..j]
  {
  }

  lemma {:induction false} WindowPart(slots: seq<string>, inOffs: nat, outOffs: nat, t: nat)
    requires |slots| == SLOTS && inOffs < SLOTS && outOffs < SLOTS && t < |Window(slots, inOffs, outOffs)|
    ensures var w := Window(slots, inOffs, outOffs);
            var i := if outOffs + t < SLOTS then outOffs + t else outOffs + t - SLOTS;
            && |Concat(w[..t + 1])| == |Concat(w[..t])| + |slots[i]| <= |Concat(w)|
            && forall off :: |Concat(w[..t])| <= off < |Concat(w[..t + 1])| ==>
                 WindowFind(slots, inOffs, outOffs, off) == Found(i, off - |Concat(w[..t])|)
  {
    hide Concat;
    var w := Window(slots, inOffs, outOffs);
    ConcatStep(w, t);
    PrefixMonotone(w, t + 1, |w|);
    forall off | |Concat(w[..t])| <= off < |Concat(w[..t + 1])|
      ensures Locate(w, off) == (t, off - |Concat(w[..t])|)
    {
      LocateIs(w, off, t, off - |Concat(w[..t])|);
    }
  }

  lemma {:induction false} PastWindow(slots: seq<string>, inOffs: nat, outOffs: nat, off: nat)
    requires |slots| == SLOTS && inOffs < SLOTS && outOffs < SLOTS
    requires off >= |Concat(Window(slots, inOffs, outOffs))|
    ensures WindowFind(slots, inOffs, outOffs, off) == Nothing
  {
  }

  /** How many bytes the loop copies next. The sum is unsigned, so a start past the end of the command
      (a negative remainder) asks for all that is left to read. */
  function CopyLen(readLen: nat, len: nat, remainInEntry: int): (n: nat)
    requires readLen < len < LIMIT && -LIMIT <= remainInEntry < LIMIT
    requires remainInEntry < 0 ==> readLen == 0
    ensures n == if remainInEntry < 0 then len else Min(remainInEntry, len - readLen)
  {
    if U64(readLen + remainInEntry) >= len then U64(len - readLen) else U64(remainInEntry)
  }

  /** One copy of the loop: n more bytes of the data, from the command at hand. */
  lemma {:induction false} CopyStep(H: seq<string>, all: string, done: nat, cmd: nat, ofs: nat, n: nat)
    requires cmd < |H| && ofs + n <= |H[cmd]| && done <= |all| && From(all, done) == Rest(H, cmd, ofs)
    ensures done + n <= |all| && Take(all, done + n) == Take(all, done) + From(H[cmd], ofs)[..n]
    ensures ofs + n == |H[cmd]| ==>
              if cmd + 1 < |H| then From(all, done + n) == Rest(H, cmd + 1, 0) else done + n == |all|
  {
    var part, tail := From(H[cmd], ofs), Concat(H[cmd + 1..]);
    assert all == Take(all, done) + From(all, done);
    assert all == Take(all, done) + part[..n] + (part[n..] + tail);
    if cmd + 1 < |H| {
      ConcatHead(H[cmd + 1..]);
      assert H[cmd + 1..][1..] == H[cmd + 2..];
    }
  }

  lemma {:induction false} CopyEnds(all: string, n: nat, len: nat)
    requires n <= |all| && n <= len && (n == len || n == |all|)
    ensures Take(all, n) == Take(all, len) && Take(all, 0) == "" && From(all, 0) == all
  {
  }

  class Ring {
    const heap: Heap
    const entry: array<Entry>
    var tmpEntry: Entry
    var inOffs: nat
    var wAbs: nat
    var startAbs: nat
    var wCharAbs: nat
    var startCharAbs: nat
    ghost var log: Log

    /** The five counters, each as a function of the commands committed. */
    ghost predicate CountersOk()
      reads this
    {
      var H := log.commands;
      && wAbs == |H| && startAbs == StartAbs(|H|) && inOffs == |H| % 10
      && wCharAbs == |Concat(H)| && startCharAbs == StartChar(H)
    }

    ghost predicate SlotsOk(H: seq<string>)
      reads entry, heap
    {
      entry.Length == SLOTS && SlotsHold(entry[..], Slots(H), heap.mem)
    }

    /** After a commit the old address of the pending buffer stays behind unused. */
    ghost predicate PendingOk(pending: string)
      reads this, entry, heap
    {
      PendingHolds(tmpEntry, entry[..], pending, heap.mem)
    }

    ghost predicate Valid()
      reads this, entry, heap
    {
      && heap.Valid() && log.WellFormed() && Fits(log)
      && CountersOk() && SlotsOk(log.commands) && PendingOk(log.pending)
    }

    /** The ring does not refer to this buffer. */
    ghost predicate Foreign(p: Ptr)
      reads this, entry
    {
      && (forall j :: 0 <= j < entry.Length ==> entry[j].buffptr != p)
      && (tmpEntry.size > 0 ==> tmpEntry.buffptr != p)
    }

    /** What others do with a buffer of theirs does not concern the ring. */
    twostate lemma ForeignChange(p: Ptr)
      requires old(Valid()) && unchanged(this, entry) && heap.Valid() && Foreign(p)
      requires forall q :: q in old(heap.mem) && q != p ==> q in heap.mem && heap.mem[q] == old(heap.mem[q])
      ensures Valid()
    {
      hide Slots, StartChar, Concat, SlotsHold;
      assert old(entry[..]) == entry[..];
      ElsewhereHolds(entry[..], Slots(log.commands), old(heap.mem), heap.mem, p);
    }

    constructor (heap: Heap)
      requires heap.Valid()
      ensures Valid() && this.heap == heap && fresh(entry) && log == EMPTY
    {
      this.heap := heap;
      entry := new Entry[SLOTS](_ => Entry(NULL, 0));
      tmpEntry := Entry(NULL, 0);
      inOffs, wAbs, startAbs, wCharAbs, startCharAbs := 0, 0, 0, 0, 0;
      log := EMPTY;
      new;
      UnevictedSlots([]);
    }

    /** aesd_circular_buffer_add_entry. The chunk joins the log; the caller's buffer stays the caller's;
        no buffer but the one of the slot overwritten is freed or changed. */
    method AddEntry(add: Entry)
      requires Valid() && add.size >= 1
      requires add.buffptr in heap.mem && |heap.mem[add.buffptr]| == add.size && Foreign(add.buffptr)
      requires Fits(log.Append(heap.mem[add.buffptr]))
      modifies this, entry, heap
      ensures Valid() && log == old(log.Append(heap.mem[add.buffptr]))
      ensures var was, chunk := old(log), old(heap.mem[add.buffptr]);
              log == if chunk[add.size - 1] == '\n' then Log(was.commands + [was.pending + chunk], "")
                     else Log(was.commands, was.pending + chunk)
      ensures Foreign(add.buffptr)
      ensures forall p :: p in old(heap.mem)
                && !(Ends(old(heap.mem[add.buffptr])) && p == old(entry[wAbs % 10].buffptr))
                ==> p in heap.mem && heap.mem[p] == old(heap.mem[p])
      ensures |heap.mem| == |old(heap.mem)| + |Live(log.commands)| - |Live(old(log.commands))|
                            + if Ends(old(heap.mem[add.buffptr])) then 0 else 1
    {
      hide Slots, StartChar, Concat, SlotsHold;
      ghost var chunk: Chunk, pending := heap.mem[add.buffptr], log.pending + heap.mem[add.buffptr];
      ghost var was, slot := heap.mem, entry[wAbs % 10].buffptr;
      AppendBytes(log, chunk);
      Accumulate(add);
      var lastChar := heap.mem[add.buffptr][add.size - 1];
      assert Ends(pending) == Ends(chunk) == (lastChar == '\n');
      if lastChar == '\n' {
        Commit(pending);
        HeapAfterCommit(was, tmpEntry.buffptr, pending, slot, entry[old(wAbs) % 10].buffptr);
      } else {
        log := Log(log.commands, pending);
      }
    }

    /** A new buffer with the pending bytes followed by the chunk: two copies into zeroed memory. */
    method Join(currentStr: Ptr, size: nat, add: Entry) returns (p: Ptr)
      requires heap.Valid() && size + add.size < 0x1_0000_0000_0000_0000
      requires add.buffptr in heap.mem && add.size <= |heap.mem[add.buffptr]|
      requires size > 0 ==> currentStr != NULL && currentStr in heap.mem && size <= |heap.mem[currentStr]|
      modifies heap
      ensures heap.Valid() && |heap.mem| == |old(heap.mem)| + 1
      ensures p != NULL && p !in old(heap.mem)
      ensures heap.mem == old(heap.mem)[p := (if size > 0 then old(heap.mem[currentStr])[..size] else "")
                                             + old(heap.mem[add.buffptr])[..add.size]]
    {
      hide Patch;
      ghost var was := heap.mem;
      ghost var a, b := if size > 0 then was[currentStr][..size] else "", was[add.buffptr][..add.size];
      p := heap.KmallocZeroed(U64(size + add.size));
      ghost var zeroed := heap.mem[p];
      PatchJoin(zeroed, a, b);
      if currentStr != NULL {
        heap.Memcpy(p, 0, currentStr, size);
      }
      assert heap.mem == was[p := Patch(zeroed, 0, a)];
      heap.Memcpy(p, size, add.buffptr, add.size);
      assert heap.mem == was[p := a + b];
    }

    /** First half of aesd_circular_buffer_add_entry: a longer pending buffer replaces the old one,
        which is given up without being freed. */
    method Accumulate(add: Entry)
      requires Valid() && add.size >= 1
      requires add.buffptr in heap.mem && |heap.mem[add.buffptr]| == add.size
      requires |log.Bytes()| + add.size < LIMIT
      modifies this`tmpEntry, heap
      ensures heap.Valid() && SlotsOk(log.commands) && PendingOk(log.pending + old(heap.mem[add.buffptr]))
      ensures tmpEntry.buffptr !in old(heap.mem) && tmpEntry.buffptr != NULL
      ensures heap.mem == old(heap.mem)[tmpEntry.buffptr := log.pending + old(heap.mem[add.buffptr])]
      ensures |heap.mem| == |old(heap.mem)| + 1
    {
      hide Slots, StartChar, Concat, Live, SlotsHold;
      var newSize := U64(tmpEntry.size + add.size);
      var p := Join(tmpEntry.buffptr, tmpEntry.size, add);
      tmpEntry := Entry(p, newSize);
      FreshApart(entry[..], Slots(log.commands), old(heap.mem), p);
      ElsewhereHolds(entry[..], Slots(log.commands), old(heap.mem), heap.mem, p);
    }

    /** Second half of aesd_circular_buffer_add_entry. */
    method Commit(ghost pending: string)
      requires heap.Valid() && log.WellFormed() && CountersOk() && SlotsOk(log.commands) && PendingOk(pending)
      requires Ends(pending) && Fits(Log(log.commands + [pending], ""))
      modifies this, entry, heap
      ensures Valid() && log == Log(old(log.commands) + [pending], "")
      ensures var slot := old(entry[wAbs % 10].buffptr);
              var taken := entry[old(wAbs) % 10].buffptr;
              && taken !in old(heap.mem) - {slot}
              && heap.mem == (old(heap.mem) - {slot})[taken := pending] - {old(tmpEntry.buffptr)}
      ensures forall j :: 0 <= j < SLOTS && j != old(wAbs) % 10 ==> entry[j] == old(entry[j])
      ensures |heap.mem| == |old(heap.mem)| - if |old(log.commands)| < SLOTS then 0 else 1
      ensures tmpEntry == Entry(old(tmpEntry.buffptr), 0)
    {
      hide Slots, StartChar, Concat, Live, SlotsHold;
      var wi := U8(wAbs % 10);
      StoreInSlot(wi, pending);
      AdvanceCounters(pending);
      log := Log(log.commands + [pending], "");
      InitEntry(pending);
    }

    /** The counter updates of a commit, in the driver's order: the slot is already overwritten. */
    method AdvanceCounters(ghost pending: string)
      requires CountersOk() && Fits(Log(log.commands + [pending], ""))
      requires SlotsOk(log.commands + [pending]) && tmpEntry.size == |pending|
      modifies this`inOffs, this`wAbs, this`startAbs, this`wCharAbs, this`startCharAbs
      ensures var H := log.commands + [pending];
              && wAbs == |H| && startAbs == StartAbs(|H|) && inOffs == |H| % 10
              && wCharAbs == |Concat(H)| && startCharAbs == StartChar(H)
    {
      hide Slots, StartChar, Concat, Live;
      ghost var H, H' := log.commands, log.commands + [pending];
      StartCharAfterCommit(H, pending);
      ConcatSnoc(H, pending);
      NextMod10(|H|);
      inOffs := U8(inOffs + 1);
      if U32(wAbs - startAbs) >= 10 {
        startAbs := U32(startAbs + 1);
        SlotHolds(H', startAbs);
        assert Holds(entry[..][startAbs % 10], Slots(H')[startAbs % 10], heap.mem);
        StartCharBound(H');
        startCharAbs := U32(startCharAbs + entry[startAbs % 10].size);
      }
      wAbs := U32(wAbs + 1);
      wCharAbs := U32(wCharAbs + tmpEntry.size);
      if inOffs >= 10 {
        inOffs := 0;
      }
    }

    /** A copy of n bytes in a new buffer, after the buffer it replaces is freed. */
    method Replace(target: Ptr, src: Ptr, n: nat) returns (p: Ptr)
      requires heap.Valid() && (target != NULL ==> target in heap.mem)
      requires src in heap.mem && src != target && n == |heap.mem[src]|
      modifies heap
      ensures heap.Valid() && p != NULL && p !in old(heap.mem) - {target}
      ensures heap.mem == (old(heap.mem) - {target})[p := old(heap.mem[src])]
      ensures |heap.mem| == |old(heap.mem)| + if target != NULL then 0 else 1
    {
      hide Patch;
      ghost var was: map<Ptr, string> := heap.mem;
      if target != NULL {
        heap.Kfree(target);
      }
      assert heap.mem.Keys == was.Keys - {target};
      p := heap.Kmalloc(n);
      ghost var raw := heap.mem[p];
      assert heap.mem[src][..n] == was[src];
      heap.Memcpy(p, 0, src, n);
      PatchJoin(raw, was[src], "");
    }

    /** The slot takes a copy of the pending bytes in a buffer of its own; its old buffer is freed. */
    method StoreInSlot(wi: nat, ghost pending: string)
      requires heap.Valid() && Commands(log.commands) && SlotsOk(log.commands)
      requires PendingOk(pending) && pending != "" && wi == |log.commands| % 10
      modifies entry, heap
      ensures heap.Valid() && SlotsOk(log.commands + [pending]) && PendingOk(pending)
      ensures entry[wi].buffptr !in old(heap.mem) - {old(entry[wi].buffptr)}
      ensures forall j :: 0 <= j < SLOTS && j != wi ==> entry[j] == old(entry[j])
      ensures heap.mem == (old(heap.mem) - {old(entry[wi].buffptr)})[entry[wi].buffptr := pending]
      ensures |heap.mem| == |old(heap.mem)| + if |log.commands| < SLOTS then 1 else 0
    {
      hide Slots, Live, SlotsHold, Apart;
      ghost var H, es, was := log.commands, entry[..], heap.mem;
      SlotBefore(H);
      SlotsAfterCommit(H, pending);
      HoldsAt(es, Slots(H), was, wi);
      var p := Replace(entry[wi].buffptr, tmpEntry.buffptr, tmpEntry.size);
      entry[wi] := Entry(p, tmpEntry.size);
      assert entry[..] == es[wi := Entry(p, |pending|)];
      StoreHolds(es, Slots(H), was, wi, p, pending);
    }

    /** aesd_init_entry on the pending entry: the buffer is freed, the stale address stays. */
    method InitEntry(ghost pending: string)
      requires heap.Valid() && SlotsOk(log.commands) && PendingOk(pending) && pending != ""
      modifies this`tmpEntry, heap
      ensures heap.Valid() && SlotsOk(log.commands) && PendingOk("")
      ensures tmpEntry == Entry(old(tmpEntry.buffptr), 0)
      ensures heap.mem == old(heap.mem) - {tmpEntry.buffptr} && |heap.mem| == |old(heap.mem)| - 1
    {
      hide Slots, SlotsHold;
      if tmpEntry.buffptr != NULL {
        heap.Kfree(tmpEntry.buffptr);
      }
      ElsewhereHolds(entry[..], Slots(log.commands), old(heap.mem), heap.mem, tmpEntry.buffptr);
      tmpEntry := tmpEntry.(size := 0);
    }

    /** The size the driver reads from a slot, and what the first slots add up to. */
    lemma {:induction false} SlotSum(j: nat)
      requires Valid() && j < SLOTS
      ensures entry[j].size == |Slots(log.commands)[j]|
      ensures |Concat(Slots(log.commands)[..j + 1])| == |Concat(Slots(log.commands)[..j])| + entry[j].size < LIMIT
    {
      hide Slots, StartChar, Live;
      HoldsAt(entry[..], Slots(log.commands), heap.mem, j);
      ConcatStep(Slots(log.commands), j);
      PrefixMonotone(Slots(log.commands), j + 1, SLOTS);
      SlotsTotal(log.commands);
    }

    /** aesd_circular_buffer_find_entry_offset_and_index_for_fpos: a running sum over the slots from slot 0. */
    method FindEntryOffsetAndIndexForFpos(charOffset: nat) returns (i: int, entryOffsetByte: nat)
      requires Valid() && charOffset < 0x1_0000_0000_0000_0000
      ensures var scanned := Scanned(log.commands);
              if charOffset < |Concat(scanned)| then (i - startAbs, entryOffsetByte) == Locate(scanned, charOffset)
              else i == wAbs
    {
      hide Slots, StartChar, Live, Concat;
      ghost var slots, n := Slots(log.commands), |Live(log.commands)|;
      ghost var scanned := Scanned(log.commands);
      assert scanned == slots[..n];
      ScannedLive(log.commands);
      FullPrefix(slots, n);
      if n == 0 {
        UnusedSlots(log.commands, 0);
      }
      var totalLen := 0;
      i, entryOffsetByte := S32(startAbs), 0;
      while true
        invariant startAbs <= i && (n > 0 ==> i < wAbs) && (n == 0 ==> i == wAbs)
        invariant totalLen == |Concat(slots[..i - startAbs])| <= charOffset
        decreases wAbs - i
      {
        ghost var j := i - startAbs;
        SlotSum(j);
        var nextLen := entry[i - startAbs].size;
        if U64(totalLen + nextLen) > charOffset || nextLen == 0 {
          entryOffsetByte := U64(charOffset - totalLen);
          if n > 0 {
            assert scanned[..j] == slots[..j] && scanned[j] == slots[j];
            LocateIs(scanned, charOffset, j, entryOffsetByte);
          }
          return;
        }
        totalLen := S32(totalLen + nextLen);
        i := i + 1;
        if i >= wAbs {
          return;
        }
      }
    }

    /** aesd_circular_buffer_get_bytes_to_ofs. */
    method GetBytesToOfs(elemInd: nat, ofsInElem: nat) returns (byteLen: nat)
      requires Valid() && elemInd <= SLOTS && ofsInElem < 0x1_0000_0000
      ensures byteLen == U32(SeekOffset(log.commands, elemInd, ofsInElem))
    {
      hide Slots, StartChar, Live, Concat;
      byteLen := 0;
      var i := 0;
      assert Concat(Slots(log.commands)[..0]) == "" by { FullPrefix(Slots(log.commands), 0); }
      while i < elemInd
        invariant 0 <= i <= elemInd
        invariant byteLen == |Concat(Slots(log.commands)[..i])| < LIMIT
      {
        SlotSum(i);
        byteLen := U32(byteLen + entry[i].size);
        i := i + 1;
      }
      byteLen := U32(byteLen + ofsInElem);
    }

    /** One step of the window search: entry t of the window is slot i. */
    lemma {:induction false} WindowStep(inOffs: nat, outOffs: nat, t: nat, i: nat)
      requires Valid() && inOffs < SLOTS && outOffs < SLOTS
      requires i == (if outOffs + t < SLOTS then outOffs + t else outOffs + t - SLOTS)
      requires t < |Window(Slots(log.commands), inOffs, outOffs)|
      ensures var w := Window(Slots(log.commands), inOffs, outOffs);
              && |Concat(w[..t + 1])| == |Concat(w[..t])| + entry[i].size < LIMIT
              && forall off :: |Concat(w[..t])| <= off < |Concat(w[..t + 1])| ==>
                   WindowFind(Slots(log.commands), inOffs, outOffs, off) == Found(i, off - |Concat(w[..t])|)
    {
      hide Slots, StartChar, Live, Concat, WindowFind;
      var slots := Slots(log.commands);
      SlotSum(i);
      SlotsTotal(log.commands);
      WindowTotal(slots, inOffs, outOffs);
      WindowPart(slots, inOffs, outOffs, t);
    }

    /** aesd_circular_buffer_find_entry_offset_for_fpos: the window from outOffs to inOffs, in ring order.
        Both ends are parameters, since the search takes whatever the two fields hold. */
    method FindEntryOffsetForFpos(inOffs: nat, outOffs: nat, charOffset: nat) returns (found: Found)
      requires Valid() && inOffs < SLOTS && outOffs < SLOTS && charOffset < 0x1_0000_0000_0000_0000
      ensures found == WindowFind(Slots(log.commands), inOffs, outOffs, charOffset)
    {
      hide Slots, StartChar, Live, Concat, WindowFind, SlotsHold, StartAbs;
      ghost var w := Window(Slots(log.commands), inOffs, outOffs);
      FullPrefix(w, |w|);
      var totalLen, i := 0, outOffs;
      if inOffs <= outOffs {
        while i < SLOTS
          invariant outOffs <= i <= SLOTS
          invariant totalLen == |Concat(w[..i - outOffs])| <= charOffset && totalLen < LIMIT
        {
          WindowStep(inOffs, outOffs, i - outOffs, i);
          if U64(totalLen + entry[i].size) > charOffset {
            return Found(i, U64(charOffset - totalLen));
          }
          totalLen := S32(totalLen + entry[i].size);
          i := i + 1;
        }
        i := 0;
        while i < inOffs
          invariant 0 <= i <= inOffs
          invariant totalLen == |Concat(w[..SLOTS - outOffs + i])| <= charOffset && totalLen < LIMIT
        {
          WindowStep(inOffs, outOffs, SLOTS - outOffs + i, i);
          if U64(totalLen + entry[i].size) > charOffset {
            return Found(i, U64(charOffset - totalLen));
          }
          totalLen := S32(totalLen + entry[i].size);
          i := i + 1;
        }
      } else {
        while i < inOffs
          invariant outOffs <= i <= inOffs
          invariant totalLen == |Concat(w[..i - outOffs])| <= charOffset && totalLen < LIMIT
        {
          WindowStep(inOffs, outOffs, i - outOffs, i);
          if U64(totalLen + entry[i].size) > charOffset {
            return Found(i, U64(charOffset - totalLen));
          }
          totalLen := S32(totalLen + entry[i].size);
          i := i + 1;
        }
      }
      assert w[..|w|] == w;
      PastWindow(Slots(log.commands), inOffs, outOffs, charOffset);
      return Nothing;
    }

    /** aesd_circular_buffer_raed, into a zeroed buffer of len bytes. */
    method Read(resultBuf: array<char>, len: nat, fPos: int) returns (ret: int, newPos: int, overrun: bool)
      requires Valid() && 1 <= len < LIMIT && resultBuf.Length == len
      requires forall k :: 0 <= k < len ==> resultBuf[k] == NUL
      modifies resultBuf
      ensures Valid()
      ensures match ReadAt(log.commands, fPos, len)
              case Failed => !overrun && ret == -1 && newPos == fPos
              case Overrun => overrun
              case Data(data) =>
                && !overrun && ret == |data| <= len && newPos == fPos + ret
                && resultBuf[..ret] == data && forall k :: ret <= k < len ==> resultBuf[k] == NUL
    {
      hide Slots, StartChar, Live, Concat;
      ghost var H := log.commands;
      ret, newPos, overrun := 0, fPos, false;
      if fPos < startCharAbs || wCharAbs < fPos {
        ret := -1;
        return;
      }
      var startp, startByteOfs := FindEntryOffsetAndIndexForFpos(U64(fPos - startCharAbs));
      if startp < 0 {
        return;
      }
      if startp == wAbs {
        return;
      }
      assert Resolve(H, fPos) == At(startp, startByteOfs);
      assert resultBuf[..][0] == NUL;
      var copyStart := Strlen(resultBuf);
      assert copyStart == 0;
      var readLen: nat;
      readLen, overrun := CopyOut(resultBuf, len, startp, startByteOfs);
      newPos := fPos + readLen;
      ret := readLen;
    }

    lemma {:induction false} LiveSlot(k: nat)
      requires Valid() && startAbs <= k < wAbs
      ensures var e, command := entry[k % 10], log.commands[k];
              && LIMIT > e.size == |command| > 0
              && e.buffptr != NULL && e.buffptr in heap.mem && heap.mem[e.buffptr] == command
    {
      hide Slots, StartChar, Live, Concat;
      SlotHolds(log.commands, k);
      ConcatCut(log.commands, k);
      HoldsAt(entry[..], Slots(log.commands), heap.mem, k % 10);
    }

    /** The copy loop: one command after the other, the first from byte startByteOfs. */
    method CopyOut(resultBuf: array<char>, len: nat, first: nat, startByteOfs: nat)
      returns (readLen: nat, overrun: bool)
      requires Valid() && 1 <= len < LIMIT && resultBuf.Length == len
      requires startAbs <= first < wAbs && startByteOfs < LIMIT
      requires forall k :: 0 <= k < len ==> resultBuf[k] == NUL
      modifies resultBuf
      ensures Valid()
      ensures overrun <==> startByteOfs > |log.commands[first]|
      ensures !overrun ==>
                && readLen <= len && resultBuf[..readLen] == Take(Rest(log.commands, first, startByteOfs), len)
                && forall k :: readLen <= k < len ==> resultBuf[k] == NUL
    {
      hide Slots, StartChar, Live, Concat, Rest, From, Take, SlotsHold, Fits, CopyLen;
      ghost var H := log.commands;
      ghost var inside := startByteOfs <= |H[first]|;
      ghost var all := if inside then Rest(H, first, startByteOfs) else "";
      var startp, isFirstEntry := first, true;
      readLen, overrun := 0, false;
      CopyEnds(all, 0, 0);
      while true
        invariant first <= startp < wAbs && readLen < len && (isFirstEntry <==> startp == first)
        invariant readLen <= |all| && resultBuf[..readLen] == Take(all, readLen)
        invariant forall k :: readLen <= k < len ==> resultBuf[k] == NUL
        invariant if inside then From(all, readLen) == Rest(H, startp, if isFirstEntry then startByteOfs else 0)
                  else isFirstEntry && readLen == 0
        decreases wAbs - startp
      {
        var ri := U8(startp % 10);
        var nextEntry := entry[ri];
        LiveSlot(startp);
        var ofsInEntry := if isFirstEntry then S32(startByteOfs) else 0;
        var remainInEntry := S32(nextEntry.size - ofsInEntry);
        if nextEntry.buffptr == NULL {
          break;
        }
        var copyLen := CopyLen(readLen, len, remainInEntry);
        if ofsInEntry + copyLen > nextEntry.size {
          overrun := true;
          return;
        }
        var src := heap.mem[nextEntry.buffptr];
        CopyStep(H, all, readLen, startp, ofsInEntry, copyLen);
        CopyInto(resultBuf, readLen, From(src, ofsInEntry), copyLen);
        readLen := readLen + copyLen;
        if copyLen >= U64(remainInEntry) {
          startp := startp + 1;
          isFirstEntry := false;
          if startp == wAbs {
            break;
          }
        }
        if readLen >= len {
          break;
        }
      }
      CopyEnds(all, readLen, len);
    }
  }
}
