/** Exact conditions under which file positions, seeks and reads of the ring mean what they should. */
module Positions {
  import opened Parts
  import opened RingModel
  import Search

  /** The search adds up physical slots; this says they are as long as the live commands it means. */
  ghost predicate SearchAligned(H: seq<string>) {
    SameSizes(Scanned(H), Live(H))
  }

  ghost predicate Aligned(H: seq<string>) {
    SearchAligned(H) && Conserved(H)
  }

  /** The position leads to the very byte it numbers in the log. */
  ghost predicate Faithful(H: seq<string>, pos: int) {
    Search.FaithfulIn(H, Scanned(H), StartChar(H), pos)
  }

  lemma {:induction false} RingRow(H: seq<string>)
    requires Commands(H)
    ensures Search.Row(H, Scanned(H), StartChar(H)) && Search.Meant(H, Scanned(H)) == Live(H)
  {
    SlotsTotal(H);
    ScannedLive(H);
    StartCharInRange(H);
  }

  /** Every live position is resolved to the byte it numbers exactly when the first slots
      are as long as the live commands and the window start is right. */
  lemma {:induction false} AlignedIff(H: seq<string>)
    requires Commands(H)
    ensures Aligned(H) <==> forall pos :: StartChar(H) <= pos < |Concat(H)| ==> Faithful(H, pos)
  {
    RingRow(H);
    Search.FaithfulIff(H, Scanned(H), StartChar(H));
    if forall pos :: StartChar(H) <= pos < |Concat(H)| ==> Faithful(H, pos) {
      forall pos | StartChar(H) <= pos < |Concat(H)| ensures Search.FaithfulIn(H, Scanned(H), StartChar(H), pos) {
        assert Faithful(H, pos);
      }
    }
  }

  // ---- which runs are aligned --------------------------------------------------------------

  lemma {:induction false} FewAligned(H: seq<string>)
    requires |H| <= SLOTS
    ensures Aligned(H)
  {
    UnevictedSlots(H);
    SlotsTotal(H);
  }

  ghost predicate Uniform(H: seq<string>) {
    forall i, j :: 0 <= i < |H| && 0 <= j < |H| ==> |H[i]| == |H[j]|
  }

  lemma {:induction false} UniformAligned(H: seq<string>)
    requires Uniform(H)
    ensures Aligned(H)
  {
    if |H| <= SLOTS {
      FewAligned(H);
    } else {
      ConservedIff(H);
      forall j | 0 <= j < SLOTS ensures |Scanned(H)[j]| == |Live(H)[j]| {
        var k := SlotIsLive(H, j);
      }
    }
  }

  /** After every ten commits slot and command numbers line up again, whatever the lengths. */
  lemma {:induction false} FullTurnSearchAligned(H: seq<string>)
    requires |H| % 10 == 0
    ensures SearchAligned(H)
  {
    if |H| >= SLOTS {
      assert Turn(|H|) == 0;
      assert Scanned(H) == Live(H);
    }
  }

  /** Eleven commands, the last one longer than the one it evicts. */
  const LATE_LONG: seq<string> :=
    ["\n", "\n", "\n", "\n", "\n", "\n", "\n", "\n", "\n", "\n", "ab\n"]

  /** The search can miss although the window start is right: position 3 is the only byte of
      command 3 but leads past the end of command 1. */
  lemma {:induction false} SearchCanMiss()
    ensures Commands(LATE_LONG) && Conserved(LATE_LONG) && !SearchAligned(LATE_LONG)
    ensures IsAt(LATE_LONG, 3, 3, 0)
    ensures Resolve(LATE_LONG, 3) == At(1, 2) && ReadAt(LATE_LONG, 3, 1) == Overrun
  {
    var H := LATE_LONG;
    ConservedIff(H);
    SlotHolds(H, 10);
    assert Scanned(H)[0] == "ab\n" && Live(H)[0] == "\n";
    assert Scanned(H)[..0] == [];
    UniformTotal(H[..3], 1);
    UniformTotal(H[1..2], 1);
    PrefixMonotone(H, 3, |H|);
    ConcatStep(H, 3);
    PrefixMonotone(H, 4, |H|);
    Search.RowFinds(H, Scanned(H), 1, 0, 2);
  }

  lemma {:induction false} UniformTotal(parts: seq<string>, n: nat)
    requires forall i :: 0 <= i < |parts| ==> |parts[i]| == n
    ensures |Concat(parts)| == n * |parts|
  {
    if |parts| > 0 {
      UniformTotal(parts[..|parts| - 1], n);
    }
  }

  // ---- reading -----------------------------------------------------------------------------

  /** A read at an in-range position gives the next bytes of the live commands. */
  lemma {:induction false} ReadIsLiveSlice(H: seq<string>, off: nat, len: nat)
    requires SearchAligned(H) && StartChar(H) + off <= |Concat(H)|
    ensures ReadAt(H, StartChar(H) + off, len)
         == var data := Concat(Live(H));
            Data(if off <= |data| then Slice(data, off, Min(off + len, |data|)) else "")
  {
    Search.RowReads(H, Scanned(H), StartChar(H), off, len);
  }

  /** What a read should give: the log from the position on, or a failure outside the window. */
  ghost function LogSlice(H: seq<string>, pos: int, len: nat): ReadResult {
    Search.SliceFrom(H, StartChar(H), pos, len)
  }

  /** A condition on sizes alone: the slot that the position falls into begins, in absolute positions, where the
      command it stands for begins, and the position is not past the end of that command. */
  ghost predicate Placed(H: seq<string>, pos: int) {
    Search.PlacedIn(H, Scanned(H), StartChar(H), pos)
  }

  /** The reads at a position return the log from there on exactly when the position is in place,
      whatever the rest of the ring is like. */
  lemma {:induction false} ReadExactIff(H: seq<string>, pos: int)
    ensures (forall len: nat :: ReadAt(H, pos, len) == LogSlice(H, pos, len)) <==> Placed(H, pos)
  {
    hide Slots, StartChar, Live, Concat;
    Search.ReadsIff(H, Scanned(H), StartChar(H), pos);
    if forall len: nat :: ReadAt(H, pos, len) == LogSlice(H, pos, len) {
      forall len: nat
        ensures ReadFrom(H, ResolveIn(H, Scanned(H), StartChar(H), pos), len)
             == Search.SliceFrom(H, StartChar(H), pos, len)
      {
        assert ReadAt(H, pos, len) == LogSlice(H, pos, len);
      }
    }
  }

  lemma {:induction false} PlacedRead(H: seq<string>, pos: int, len: nat)
    requires Placed(H, pos)
    ensures ReadAt(H, pos, len) == LogSlice(H, pos, len)
  {
    hide Placed, LogSlice, ReadAt;
    ReadExactIff(H, pos);
  }

  lemma {:induction false} AlignedPlacedIff(H: seq<string>)
    requires Commands(H)
    ensures Aligned(H) <==> forall pos :: Placed(H, pos)
  {
    hide Slots, StartChar, Concat;
    RingRow(H);
    Search.PlacedIff(H, Scanned(H), StartChar(H));
    if forall pos :: Placed(H, pos) {
      forall pos ensures Search.PlacedIn(H, Scanned(H), StartChar(H), pos) {
        assert Placed(H, pos);
      }
    }
  }

  /** Every read, at every position and of every length, is right exactly when the ring is aligned. */
  lemma {:induction false} AlignedReadsIff(H: seq<string>)
    requires Commands(H)
    ensures Aligned(H) <==> forall pos, len: nat :: ReadAt(H, pos, len) == LogSlice(H, pos, len)
  {
    hide Aligned, Placed, LogSlice, ReadAt;
    AlignedPlacedIff(H);
    if Aligned(H) {
      forall pos, len: nat ensures ReadAt(H, pos, len) == LogSlice(H, pos, len) {
        PlacedRead(H, pos, len);
      }
    }
    if forall pos, len: nat :: ReadAt(H, pos, len) == LogSlice(H, pos, len) {
      forall pos ensures Placed(H, pos) {
        ReadExactIff(H, pos);
      }
    }
  }

  lemma {:induction false} AlignedIsPlaced(H: seq<string>, pos: int)
    requires Aligned(H)
    ensures Placed(H, pos)
  {
    hide Slots, StartChar, Concat;
    assert Search.Meant(H, Scanned(H)) == Live(H);
    Search.SizesMakePlaced(H, Scanned(H), StartChar(H), pos);
  }

  lemma {:induction false} ReadIsLogSlice(H: seq<string>, pos: int, len: nat)
    requires Aligned(H)
    ensures ReadAt(H, pos, len) == LogSlice(H, pos, len)
  {
    hide Aligned, Placed, LogSlice, ReadAt;
    AlignedIsPlaced(H, pos);
    PlacedRead(H, pos, len);
  }

  /** A read at the end of the log finds the end exactly when the oldest live command is no longer
      than the first one ever was. */
  lemma {:induction false} EndFoundIff(H: seq<string>)
    requires Commands(H) && |H| > 0
    ensures Resolve(H, |Concat(H)|) == AtEnd <==> |H[StartAbs(|H|)]| <= |H[0]|
  {
    hide Slots, Live;
    SlotsTotal(H);
    StartCharExact(H);
    StartCharInRange(H);
    ConcatSplit(H, StartAbs(|H|));
    assert H[StartAbs(|H|)..] == Live(H) by { LiveIs(H); }
  }

  lemma {:induction false} LiveIs(H: seq<string>)
    ensures Live(H) == H[StartAbs(|H|)..]
  {
  }

  /** No read is undefined exactly when no slot outgrows the live command it stands for by two bytes or more,
      or the end of the log keeps positions away from the excess. */
  lemma {:induction false} DefinedIff(H: seq<string>, len: nat)
    requires Commands(H)
    ensures (forall pos :: ReadAt(H, pos, len) != Overrun) <==> forall j :: 0 <= j < |Live(H)| ==> Fenced(H, j)
  {
    hide Slots, StartChar, Concat, Live;
    if j :| 0 <= j < |Live(H)| && !Fenced(H, j) {
      var pos := UnfencedOverruns(H, j, len);
    } else {
      forall pos ensures ReadAt(H, pos, len) != Overrun {
        var w := Resolve(H, pos);
        if w.At? {
          var j := w.cmd - StartAbs(|H|);
          assert Fenced(H, j);
          assert IsAt(Scanned(H), pos - StartChar(H), j, w.ofs);
        }
      }
    }
  }

  lemma {:induction false} UnfencedOverruns(H: seq<string>, j: nat, len: nat) returns (pos: int)
    requires j < |Live(H)| && !Fenced(H, j)
    ensures ReadAt(H, pos, len) == Overrun
  {
    hide Slots, StartChar, Concat, Live;
    var b := |H[StartAbs(|H|) + j]| + 1;
    pos := StartChar(H) + |Concat(Scanned(H)[..j])| + b;
    Search.RowFinds(H, Scanned(H), StartChar(H), j, b);
  }

  ghost predicate Fenced(H: seq<string>, j: nat)
    requires j < |Live(H)|
  {
    var size := |H[StartAbs(|H|) + j]|;
    |Scanned(H)[j]| <= size + 1 || StartChar(H) + |Concat(Scanned(H)[..j])| + size + 1 > |Concat(H)|
  }

  /** Rewinding needs no alignment: the first slot is never empty, so offset 0 is the oldest command. */
  lemma {:induction false} RewindReadsLive(H: seq<string>, len: nat)
    requires Commands(H)
    ensures ReadAt(H, StartChar(H), len) == Data(Take(Concat(Live(H)), len))
  {
    hide Slots;
    RingRow(H);
    if |H| == 0 {
      assert Live(H) == [] && Scanned(H) == [];
      assert Resolve(H, 0) == AtEnd;
    } else {
      var s := StartAbs(|H|);
      assert Resolve(H, StartChar(H)) == At(s, 0) by {
        assert Scanned(H)[..0] == [];
        Search.RowFinds(H, Scanned(H), StartChar(H), 0, 0);
      }
      assert Concat(Live(H)) == Rest(H, s, 0) by {
        ConcatHead(Live(H));
        assert Live(H)[1..] == H[s + 1..];
      }
    }
  }

  /** Reading a bytes and then b more is reading a + b bytes. */
  lemma {:induction false} ReadSplits(H: seq<string>, pos: int, a: nat, b: nat, first: string, second: string)
    requires Placed(H, pos) && Placed(H, pos + |first|)
    requires ReadAt(H, pos, a) == Data(first) && ReadAt(H, pos + |first|, b) == Data(second)
    ensures ReadAt(H, pos, a + b) == Data(first + second)
  {
    hide ReadAt, Placed, Slots, Live;
    var all := Concat(H);
    PlacedRead(H, pos, a);
    var mid, end := Min(pos + a, |all|), Min(pos + a + b, |all|);
    assert first == Slice(all, pos, mid);
    assert second == Slice(all, mid, end) by { PlacedRead(H, pos + |first|, b); }
    assert ReadAt(H, pos, a + b) == Data(Slice(all, pos, end)) by { PlacedRead(H, pos, a + b); }
    SliceJoin(all, pos, mid, end);
  }

  // ---- seeking -----------------------------------------------------------------------------

  /** The byte count that the seek ioctl adds to `start_char_abs`. */
  function SeekOffset(H: seq<string>, cmd: nat, ofs: nat): nat
    requires cmd <= SLOTS
  {
    |Concat(Slots(H)[..cmd])| + ofs
  }

  lemma {:induction false} SeekOffsetScanned(H: seq<string>, cmd: nat, ofs: nat)
    requires cmd <= |Live(H)|
    ensures SeekOffset(H, cmd, ofs) == |Concat(Scanned(H)[..cmd])| + ofs
  {
    assert Slots(H)[..cmd] == Scanned(H)[..cmd];
  }

  /** Seek sum and search undo each other in every state: each offset below the slot total is the
      seek sum of exactly one live slot and byte in it, the pair that the search returns. */
  lemma {:induction false} SeekInvertsSearch(H: seq<string>, off: nat, j: nat, b: nat)
    requires Commands(H) && off < |Concat(Slots(H))|
    ensures Locate(Scanned(H), off) == (j, b)
       <==> j < |Live(H)| && b < |Slots(H)[j]| && SeekOffset(H, j, b) == off
  {
    SlotsTotal(H);
    ScannedLive(H);
    if j < |Live(H)| {
      SeekOffsetScanned(H, j, b);
      if b < |Slots(H)[j]| && SeekOffset(H, j, b) == off {
        LocateIs(Scanned(H), off, j, b);
      }
    }
  }

  /** A seek to live command `cmd`, byte `ofs` leads there exactly when slot `cmd` is long enough and
      the sum does not pass the end of the log. The seek and the search take slot `cmd` for the command
      alike, so their mistakes cancel and no alignment is needed. */
  lemma {:induction false} SeekResolvesIff(H: seq<string>, cmd: nat, ofs: nat)
    requires cmd < |Live(H)|
    ensures Resolve(H, StartChar(H) + SeekOffset(H, cmd, ofs)) == At(StartAbs(|H|) + cmd, ofs)
       <==> ofs < |Slots(H)[cmd]| && StartChar(H) + SeekOffset(H, cmd, ofs) <= |Concat(H)|
  {
    hide Slots, Live, Concat, StartChar, ResolveIn;
    Search.RowResolvesIff(H, Slots(H), |Live(H)|, StartChar(H), cmd, ofs);
  }

  /** A slot and a byte in it. */
  ghost predicate InSlot(H: seq<string>, cmd: nat, ofs: nat) {
    cmd < |Live(H)| && ofs < |Slots(H)[cmd]|
  }

  /** The end check refuses no slot and byte exactly when the oldest live command is at most one byte longer than
      the first one ever was; and none of them is sought at the very end exactly when it is no longer. */
  lemma {:induction false} SeekEndCheckIff(H: seq<string>)
    requires Commands(H) && |H| > 0
    ensures (forall cmd: nat, ofs: nat :: InSlot(H, cmd, ofs) ==> StartChar(H) + SeekOffset(H, cmd, ofs) <= |Concat(H)|)
       <==> |H[StartAbs(|H|)]| <= |H[0]| + 1
    ensures (forall cmd: nat, ofs: nat :: InSlot(H, cmd, ofs) ==> StartChar(H) + SeekOffset(H, cmd, ofs) < |Concat(H)|)
       <==> |H[StartAbs(|H|)]| <= |H[0]|
  {
    hide Slots, Live, Concat, StartChar;
    var n := |Live(H)|;
    SeekRange(H);
    assert InSlot(H, n - 1, |Slots(H)[n - 1]| - 1);
    StartCharExact(H);
    ConcatSplit(H, StartAbs(|H|));
    LiveIs(H);
  }

  /** Seek sums stay below the live total and reach it but for one. */
  lemma {:induction false} SeekRange(H: seq<string>)
    requires Commands(H) && |H| > 0
    ensures |Live(H)| > 0
    ensures forall cmd: nat, ofs: nat :: InSlot(H, cmd, ofs) ==> SeekOffset(H, cmd, ofs) < |Concat(Live(H))|
    ensures var last := |Live(H)| - 1;
            |Slots(H)[last]| > 0 && SeekOffset(H, last, |Slots(H)[last]| - 1) == |Concat(Live(H))| - 1
  {
    hide Slots, Live, Concat, StartChar;
    var scanned, n := Scanned(H), |Live(H)|;
    SlotsTotal(H);
    ScannedLive(H);
    forall cmd: nat, ofs: nat | InSlot(H, cmd, ofs) ensures SeekOffset(H, cmd, ofs) < |Concat(Live(H))| {
      SeekOffsetScanned(H, cmd, ofs);
      ConcatStep(scanned, cmd);
      PrefixMonotone(scanned, cmd + 1, n);
    }
    SeekOffsetScanned(H, n - 1, |Slots(H)[n - 1]| - 1);
    ConcatStep(scanned, n - 1);
    assert scanned[..n] == scanned;
  }

  /** A live command and a byte of it. */
  ghost predicate LiveByte(H: seq<string>, cmd: nat, ofs: nat) {
    cmd < |Live(H)| && ofs < |H[StartAbs(|H|) + cmd]|
  }

  /** Slots that hold every byte of the commands they stand for are of the same sizes. */
  lemma {:induction false} SlotsCover(H: seq<string>)
    requires forall j :: 0 <= j < |Live(H)| ==> |Slots(H)[j]| >= |H[StartAbs(|H|) + j]|
    ensures SearchAligned(H)
  {
    hide Slots, Concat;
    SlotsTotal(H);
    NowhereShorter(Scanned(H), Live(H));
  }

  ghost predicate SeekLands(H: seq<string>, cmd: nat, ofs: nat)
    requires cmd <= SLOTS
  {
    Resolve(H, StartChar(H) + SeekOffset(H, cmd, ofs)) == At(StartAbs(|H|) + cmd, ofs)
  }

  /** Every live command and byte can be sought exactly when the search is aligned and the end check refuses none. */
  lemma {:induction false} SeeksIff(H: seq<string>)
    requires Commands(H) && |H| > 0
    ensures (forall cmd: nat, ofs: nat :: LiveByte(H, cmd, ofs) ==> SeekLands(H, cmd, ofs))
       <==> SearchAligned(H) && |H[StartAbs(|H|)]| <= |H[0]| + 1
  {
    hide Slots, Live, Concat, StartChar, Resolve, SeekOffset;
    SeekEndCheckIff(H);
    if forall cmd: nat, ofs: nat :: LiveByte(H, cmd, ofs) ==> SeekLands(H, cmd, ofs) {
      forall j | 0 <= j < |Live(H)| ensures |Slots(H)[j]| >= |H[StartAbs(|H|) + j]| {
        var last := |H[StartAbs(|H|) + j]| - 1;
        assert LiveByte(H, j, last) && SeekLands(H, j, last);
        SeekResolvesIff(H, j, last);
      }
      SlotsCover(H);
      forall cmd: nat, ofs: nat | InSlot(H, cmd, ofs)
        ensures StartChar(H) + SeekOffset(H, cmd, ofs) <= |Concat(H)|
      {
        SlotSize(H, cmd);
        assert LiveByte(H, cmd, ofs) && SeekLands(H, cmd, ofs);
        SeekResolvesIff(H, cmd, ofs);
      }
    }
    if SearchAligned(H) && |H[StartAbs(|H|)]| <= |H[0]| + 1 {
      forall cmd: nat, ofs: nat | LiveByte(H, cmd, ofs) ensures SeekLands(H, cmd, ofs) {
        SlotSize(H, cmd);
        assert InSlot(H, cmd, ofs);
        SeekResolvesIff(H, cmd, ofs);
      }
    }
  }

  lemma {:induction false} SlotSize(H: seq<string>, cmd: nat)
    requires SearchAligned(H) && cmd < |Live(H)|
    ensures |Slots(H)[cmd]| == |H[StartAbs(|H|) + cmd]|
  {
    hide Slots;
    assert Scanned(H)[cmd] == Slots(H)[cmd];
    assert |Scanned(H)[cmd]| == |Live(H)[cmd]|;
  }

  /** Eleven commands, the second one longer than the first. */
  const OLDEST_LONG: seq<string> :=
    ["\n", "ab\n", "\n", "\n", "\n", "\n", "\n", "\n", "\n", "\n", "\n"]

  /** The window can start too far right: a live command is refused by the end check, and a read at the
      end of the log gives old bytes. */
  lemma {:induction false} WindowTooFar()
    ensures var H := OLDEST_LONG;
            && Commands(H) && StartChar(H) == 3 && |Concat(H[..StartAbs(|H|)])| == 1 && |Concat(H)| == 13
            && 9 < |Live(H)| && 0 < |Slots(H)[9]| && 0 < |H[StartAbs(|H|) + 9]|
            && Resolve(H, StartChar(H) + SeekOffset(H, 9, 0)) == OutOfRange
            && Resolve(H, |Concat(H)|) == At(9, 0) && ReadAt(H, |Concat(H)|, 2) == Data("\n\n")
  {
    var H := OLDEST_LONG;
    LongSecond(H);
    assert Take(H[9] + H[10], 2) == "\n\n";
  }

  /** Sums and positions of any eleven commands of these sizes. */
  lemma {:induction false} LongSecond(H: seq<string>)
    requires |H| == 11 && forall i :: 0 <= i < 11 ==> |H[i]| == if i == 1 then 3 else 1
    ensures StartChar(H) == 3 && |Concat(H[..1])| == 1 && |Concat(H)| == 13 && |Slots(H)[9]| == 1
    ensures Resolve(H, 3 + SeekOffset(H, 9, 0)) == OutOfRange
    ensures Resolve(H, 13) == At(9, 0) && ReadAt(H, 13, 2) == Data(Take(H[9] + H[10], 2))
  {
    hide Slots, Live, Concat;
    var slots, scanned := Slots(H), Scanned(H);
    forall j | 0 <= j < SLOTS ensures |slots[j]| == if j == 1 then 3 else 1 {
      var k := SlotIsLive(H, j);
    }
    OneLong(H, 3);
    OneLong(slots[..8], 3);
    OneLong(slots[..9], 3);
    UniformTotal(H[..1], 1);
    UniformTotal(H[1..2], 3);
    assert scanned[..8] == slots[..8] && scanned[..9] == slots[..9];
    Search.RowFinds(H, scanned, 3, 8, 0);
    Search.RowFinds(H, scanned, 3, 9, 0);
    RestIs(H, 9);
  }

  lemma {:induction false} OneLong(parts: seq<string>, n: nat)
    requires |parts| > 1 && |parts[1]| == n && forall i :: 0 <= i < |parts| && i != 1 ==> |parts[i]| == 1
    ensures |Concat(parts)| == |parts| - 1 + n
  {
    ConcatCut(parts, 1);
    UniformTotal(parts[..1], 1);
    UniformTotal(parts[2..], 1);
  }

  lemma {:induction false} RestIs(H: seq<string>, k: nat)
    requires k + 2 == |H|
    ensures Rest(H, k, 0) == H[k] + H[k + 1]
  {
    ConcatHead(H[k + 1..]);
    assert H[k + 1..][1..] == [];
  }

  /** The read after such a seek starts at the byte sought and crosses into the later commands. */
  lemma {:induction false} SeekThenRead(H: seq<string>, cmd: nat, ofs: nat, len: nat)
    requires cmd < |Live(H)| && ofs <= |H[StartAbs(|H|) + cmd]|
    requires ofs < |Slots(H)[cmd]| && StartChar(H) + SeekOffset(H, cmd, ofs) <= |Concat(H)|
    ensures ReadAt(H, StartChar(H) + SeekOffset(H, cmd, ofs), len)
         == Data(Take(Rest(H, StartAbs(|H|) + cmd, ofs), len))
  {
    SeekResolvesIff(H, cmd, ofs);
  }

  /** In an aligned ring every live (command, byte) can be sought, and the position reached is its number. */
  lemma {:induction false} AlignedSeek(H: seq<string>, cmd: nat, ofs: nat)
    requires Aligned(H) && cmd < |Live(H)| && ofs < |H[StartAbs(|H|) + cmd]|
    ensures var pos := StartChar(H) + SeekOffset(H, cmd, ofs);
            && Resolve(H, pos) == At(StartAbs(|H|) + cmd, ofs)
            && StartChar(H) <= pos < |Concat(H)|
            && From(Concat(H), pos) == Rest(H, StartAbs(|H|) + cmd, ofs)
  {
    hide Aligned, Slots, Live, Concat;
    var pos, s := StartChar(H) + SeekOffset(H, cmd, ofs), StartAbs(|H|);
    SeekIsAt(H, cmd, ofs);
    assert pos < |Concat(H)| && From(Concat(H), pos) == Rest(H, s + cmd, ofs) by {
      IsAtBytes(H, pos, s + cmd, ofs);
    }
    assert Resolve(H, pos) == At(s + cmd, ofs) by {
      SeekResolvesIff(H, cmd, ofs);
    }
  }

  lemma {:induction false} SeekIsAt(H: seq<string>, cmd: nat, ofs: nat)
    requires Aligned(H) && cmd < |Live(H)| && ofs < |H[StartAbs(|H|) + cmd]|
    ensures ofs < |Slots(H)[cmd]|
    ensures IsAt(H, StartChar(H) + SeekOffset(H, cmd, ofs), StartAbs(|H|) + cmd, ofs)
  {
    hide Slots, Concat, StartChar, SameSizes;
    Search.RowIsAt(H, Slots(H), |Live(H)|, StartChar(H), cmd, ofs);
  }

  // ---- the circular-window search ----------------------------------------------------------

  /** The slots from out_offs up to in_offs, wrapping when in_offs <= out_offs. */
  function Window(slots: seq<string>, inOffs: nat, outOffs: nat): seq<string>
    requires |slots| == SLOTS && inOffs < SLOTS && outOffs < SLOTS
  {
    if inOffs <= outOffs then slots[outOffs..] + slots[..inOffs] else slots[outOffs..inOffs]
  }

  /** A window of (in + 9 - out) mod 10 + 1 slots, the next one after out each time, wrapping at ten. */
  lemma {:induction false} WindowIs(slots: seq<string>, inOffs: nat, outOffs: nat)
    requires |slots| == SLOTS && inOffs < SLOTS && outOffs < SLOTS
    ensures var w := Window(slots, inOffs, outOffs);
            && |w| == (inOffs + 9 - outOffs) % 10 + 1
            && forall t :: 0 <= t < |w| ==> w[t] == slots[(outOffs + t) % 10]
  {
    assert (inOffs + 9 - outOffs) % 10 == if inOffs <= outOffs then inOffs + 9 - outOffs else inOffs - outOffs - 1;
    var w := Window(slots, inOffs, outOffs);
    forall t | 0 <= t < |w| ensures w[t] == slots[(outOffs + t) % 10] {
      assert (outOffs + t) % 10 == if outOffs + t < 10 then outOffs + t else outOffs + t - 10;
    }
  }

  lemma {:induction false} WindowTotal(slots: seq<string>, inOffs: nat, outOffs: nat)
    requires |slots| == SLOTS && inOffs < SLOTS && outOffs < SLOTS
    ensures |Concat(Window(slots, inOffs, outOffs))| <= |Concat(slots)|
  {
    ConcatSplit(slots, outOffs);
    if inOffs <= outOffs {
      ConcatAppend(slots[outOffs..], slots[..inOffs]);
      PrefixMonotone(slots, inOffs, outOffs);
    } else {
      ConcatSplit(slots[outOffs..], inOffs - outOffs);
      assert slots[outOffs..][..inOffs - outOffs] == slots[outOffs..inOffs];
    }
  }

  datatype Found = Nothing | Found(slot: nat, byte: nat)

  ghost function WindowFind(slots: seq<string>, inOffs: nat, outOffs: nat, off: nat): Found
    requires |slots| == SLOTS && inOffs < SLOTS && outOffs < SLOTS
  {
    var w := Window(slots, inOffs, outOffs);
    if off < |Concat(w)| then
      var (t, b) := Locate(w, off);
      Found(if outOffs + t < SLOTS then outOffs + t else outOffs + t - SLOTS, b)
    else Nothing
  }

  ghost predicate InWindow(slot: nat, inOffs: nat, outOffs: nat) {
    slot < SLOTS && if inOffs <= outOffs then slot < inOffs || outOffs <= slot else outOffs <= slot < inOffs
  }

  /** The search finds the one byte of the window at that offset, in the slot where it lies, or nothing exactly
      past its end. */
  lemma {:induction false} WindowFindExact(slots: seq<string>, inOffs: nat, outOffs: nat, off: nat)
    requires |slots| == SLOTS && inOffs < SLOTS && outOffs < SLOTS
    ensures var w, r := Window(slots, inOffs, outOffs), WindowFind(slots, inOffs, outOffs, off);
            match r
            case Nothing => off >= |Concat(w)|
            case Found(i, b) =>
              && InWindow(i, inOffs, outOffs) && off < |Concat(w)|
              && b < |slots[i]| && slots[i][b] == Concat(w)[off]
              && var t := (i + 10 - outOffs) % 10;
                 t < |w| && w[t] == slots[i] && |Concat(w[..t])| + b == off
  {
    hide Concat, Locate;
    var w := Window(slots, inOffs, outOffs);
    if off < |Concat(w)| {
      var (t, b) := Locate(w, off);
      IsAtBytes(w, off, t, b);
      var i := if outOffs + t < SLOTS then outOffs + t else outOffs + t - SLOTS;
      assert (i + 10 - outOffs) % 10 == t;
    }
  }

  /** With no eviction the two searches agree, and past the end one says nothing and the other w_abs. */
  lemma {:induction false} SearchesAgree(H: seq<string>, off: nat)
    requires |H| <= SLOTS
    ensures var r, l := WindowFind(Slots(H), |H| % 10, 0, off), Locate(Scanned(H), off);
            if off < |Concat(H)| then r == Found(l.0, l.1) else r == Nothing && l.0 == |H|
  {
    var w := Window(Slots(H), |H| % 10, 0);
    assert |Concat(w)| == |Concat(H)| && (off < |Concat(H)| ==> w == H) by {
      UnevictedSlots(H);
      SlotsTotal(H);
      assert w == if |H| == 0 then Slots(H) else H;
    }
    assert Scanned(H) == H;
    var l := Locate(H, off);
    if off < |Concat(H)| {
      assert l.0 < |H|;
    }
  }
}
