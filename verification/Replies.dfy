/** What a reply loop over the device sends, in every state of the ring, and when that is the log. */
module Replies {
  import opened Parts
  import opened RingModel
  import opened Positions

  const BUF_SIZE: nat := 1024

  /** How a drain ends: a read that gives nothing, a read that fails, a read that C does not define. */
  datatype End = Complete | Refused | Lost

  datatype Drained = Drained(bytes: string, end: End, calls: nat)

  /** Reads of 1024 bytes one after the other from pos on, until one gives no data. */
  ghost function Drain(H: seq<string>, pos: int): Drained
    decreases if pos <= |Concat(H)| then |Concat(H)| - pos + 1 else 0
  {
    match ReadAt(H, pos, BUF_SIZE)
    case Failed => Drained("", Refused, 1)
    case Overrun => Drained("", Lost, 1)
    case Data(data) =>
      if data == "" then Drained("", Complete, 1)
      else
        var r := Drain(H, pos + |data|);
        Drained(data + r.bytes, r.end, r.calls + 1)
  }

  /** The positions a drain from pos passes when its reads are full (BUF_SIZE, 1024 bytes) are in place,
      and so is the end. */
  ghost predicate PlacedOnTheWay(H: seq<string>, pos: int) {
    forall q :: pos <= q <= |Concat(H)| && ((q - pos) % 1024 == 0 || q == |Concat(H)|) ==> Placed(H, q)
  }

  /** Such a drain gives the log from there to the end, in one read more than the data takes. */
  lemma {:induction false} DrainPlaced(H: seq<string>, pos: int)
    requires StartChar(H) <= pos <= |Concat(H)| && PlacedOnTheWay(H, pos)
    ensures Drain(H, pos) == Drained(From(Concat(H), pos), Complete, (|Concat(H)| - pos + 1023) / 1024 + 1)
    decreases |Concat(H)| - pos
  {
    hide StartChar, Concat, Placed, ReadAt;
    var all := Concat(H);
    var next := Min(pos + BUF_SIZE, |all|);
    assert Placed(H, pos);
    PlacedRead(H, pos, BUF_SIZE);
    assert ReadAt(H, pos, BUF_SIZE) == Data(Slice(all, pos, next));
    if pos < |all| {
      assert PlacedOnTheWay(H, next);
      DrainPlaced(H, next);
      SliceFromEnd(all, pos, next);
      ReadsLeft(|all| - pos);
    } else {
      SliceFromEnd(all, pos, pos);
    }
  }

  lemma {:induction false} SliceFromEnd(s: string, lo: nat, mid: nat)
    requires lo <= mid <= |s|
    ensures Slice(s, lo, mid) + From(s, mid) == From(s, lo)
    ensures lo == |s| ==> From(s, lo) == ""
  {
  }

  lemma {:induction false} ReadsLeft(n: nat)
    requires n > 0
    ensures (n - Min(1024, n) + 1023) / 1024 + 1 == (n + 1023) / 1024
  {
  }

  lemma {:induction false} AlignedOnTheWay(H: seq<string>, pos: int)
    requires Aligned(H)
    ensures PlacedOnTheWay(H, pos)
  {
    hide Aligned, Placed, Concat;
    forall q | pos <= q <= |Concat(H)| && ((q - pos) % 1024 == 0 || q == |Concat(H)|) ensures Placed(H, q) {
      AlignedIsPlaced(H, q);
    }
  }

  lemma {:induction false} DrainOutside(H: seq<string>, pos: int)
    requires pos < StartChar(H) || |Concat(H)| < pos
    ensures Drain(H, pos) == Drained("", Refused, 1)
  {
  }

  /** Position 0 is in the window exactly while nothing has been evicted. */
  lemma {:induction false} FreshPosition(H: seq<string>)
    requires Commands(H)
    ensures StartChar(H) == 0 <==> |H| <= SLOTS
    ensures |H| <= SLOTS ==> Aligned(H)
    ensures From(Concat(H), 0) == Concat(H)
  {
    if |H| <= SLOTS {
      UnevictedSlots(H);
      FewAligned(H);
    } else {
      ConcatHead(H[1..StartAbs(|H|) + 1]);
    }
  }

  /** From position 0 a drain gives the whole log while nothing has been evicted, and ever after it is refused. */
  lemma {:induction false} FreshDrain(H: seq<string>)
    requires Commands(H)
    ensures var r := Drain(H, 0);
            if |H| <= SLOTS then r.bytes == Concat(H) && r.end == Complete else r.bytes == "" && r.end == Refused
  {
    hide StartChar, Concat, Aligned;
    FreshPosition(H);
    if |H| <= SLOTS {
      AlignedOnTheWay(H, 0);
      DrainPlaced(H, 0);
    } else {
      DrainOutside(H, 0);
    }
  }

  // ---- replies to seeks --------------------------------------------------------------------

  /** Seeks and searches share the slots that they take for the commands, so replies to seeks need no right
      window start; it must only not be too far right for the end of the data to be found. */
  ghost predicate SeekAligned(H: seq<string>) {
    SearchAligned(H) && (|H| > 0 ==> |H[StartAbs(|H|)]| <= |H[0]|)
  }

  /** The reply to a seek to (c, o) is the log from the byte sought, and it ends as it should. */
  ghost predicate SeekReplied(H: seq<string>, c: nat, o: nat)
    requires LiveByte(H, c, o)
  {
    var r := Drain(H, StartChar(H) + SeekOffset(H, c, o));
    r.bytes == Rest(H, StartAbs(|H|) + c, o) && r.end == Complete
  }

  /** With the search aligned and the end of the data in range, a drain from any offset gives the live bytes. */
  lemma {:induction false} DrainLive(H: seq<string>, off: nat)
    requires SearchAligned(H) && StartChar(H) + |Concat(Live(H))| <= |Concat(H)| && off <= |Concat(Live(H))|
    ensures Drain(H, StartChar(H) + off)
         == Drained(From(Concat(Live(H)), off), Complete, (|Concat(Live(H))| - off + 1023) / 1024 + 1)
    decreases |Concat(Live(H))| - off
  {
    hide StartChar, Concat, ReadAt, SearchAligned, Live;
    var data := Concat(Live(H));
    var next := Min(off + BUF_SIZE, |data|);
    ReadIsLiveSlice(H, off, BUF_SIZE);
    if off < |data| {
      DrainLive(H, next);
      SliceFromEnd(data, off, next);
      ReadsLeft(|data| - off);
    } else {
      SliceFromEnd(data, off, off);
    }
  }

  /** A drain that is complete ended with a read in range, right behind what it gave. */
  lemma {:induction false} DrainEnds(H: seq<string>, pos: int)
    requires Drain(H, pos).end == Complete
    ensures var end := pos + |Drain(H, pos).bytes|; StartChar(H) <= end <= |Concat(H)|
    decreases if pos <= |Concat(H)| then |Concat(H)| - pos + 1 else 0
  {
    hide Slots, Live, StartChar, Concat, ReadFrom;
    InWindow(H, pos);
    var r := ReadAt(H, pos, BUF_SIZE);
    if r.Data? && r.bytes != "" {
      DrainEnds(H, pos + |r.bytes|);
    }
  }

  lemma {:induction false} InWindow(H: seq<string>, pos: int)
    ensures ReadAt(H, pos, BUF_SIZE) != Failed ==> StartChar(H) <= pos <= |Concat(H)|
  {
    hide Slots, Live, StartChar, Concat;
  }

  lemma {:induction false} LiveTotal(H: seq<string>)
    requires |H| > 0
    ensures StartChar(H) + |Concat(Live(H))| <= |Concat(H)| <==> |H[StartAbs(|H|)]| <= |H[0]|
  {
    hide Live, StartChar;
    StartCharExact(H);
    ConcatSplit(H, StartAbs(|H|));
    LiveIs(H);
  }

  lemma {:induction false} SeekAlignedReplies(H: seq<string>, c: nat, o: nat)
    requires SeekAligned(H) && LiveByte(H, c, o)
    ensures SeekReplied(H, c, o)
  {
    hide Concat, StartChar, Drain, Slots;
    var live := Live(H);
    LiveTotal(H);
    SeekOffsetScanned(H, c, o);
    SameSizesPrefix(Scanned(H), live, c);
    FromPart(live, c, o);
    DrainLive(H, SeekOffset(H, c, o));
    assert live[c + 1..] == H[StartAbs(|H|) + c + 1..];
  }

  /** The length of what follows a live byte. */
  lemma {:induction false} RestLength(H: seq<string>, c: nat, o: nat)
    requires LiveByte(H, c, o)
    ensures |Rest(H, StartAbs(|H|) + c, o)| == |Concat(H)| - |Concat(H[..StartAbs(|H|) + c])| - o
    ensures Concat(H[..StartAbs(|H|) + c + 1]) == Concat(H[..StartAbs(|H|) + c]) + H[StartAbs(|H|) + c]
  {
    hide Concat, Live;
    FromPart(H, StartAbs(|H|) + c, o);
    ConcatStep(H, StartAbs(|H|) + c);
  }

  /** Behind all slots a drain gives nothing. */
  lemma {:induction false} DrainPastSlots(H: seq<string>)
    ensures Drain(H, StartChar(H) + |Concat(Scanned(H))|).bytes == ""
  {
    hide Slots, Live, StartChar, Concat;
    assert Locate(Scanned(H), |Concat(Scanned(H))|).0 == |Live(H)|;
  }

  /** A slot too short for its command makes two seeks one, or a seek reach the end. */
  lemma {:induction false} RepliesCover(H: seq<string>, c: nat)
    requires Commands(H) && c < |Live(H)|
    requires forall i: nat, o: nat :: LiveByte(H, i, o) ==> SeekReplied(H, i, o)
    ensures |Slots(H)[c]| >= |H[StartAbs(|H|) + c]|
  {
    hide Slots, Live, StartChar, Concat, Drain, Rest;
    var size := |Slots(H)[c]|;
    if size < |H[StartAbs(|H|) + c]| {
      assert LiveByte(H, c, size) && SeekReplied(H, c, size);
      RestLength(H, c, size);
      PrefixMonotone(H, StartAbs(|H|) + c + 1, |H|);
      ConcatStep(Slots(H), c);
      if c + 1 < |Live(H)| {
        assert LiveByte(H, c + 1, 0) && SeekReplied(H, c + 1, 0);
        assert SeekOffset(H, c + 1, 0) == SeekOffset(H, c, size);
        RestLength(H, c + 1, 0);
      } else {
        assert SeekOffset(H, c, size) == |Concat(Scanned(H))|;
        DrainPastSlots(H);
      }
      assert false;
    }
  }

  lemma {:induction false} AlignedIsSeekAligned(H: seq<string>)
    requires Aligned(H)
    ensures SeekAligned(H)
  {
    if |H| > 0 {
      ConservedIff(H);
    }
  }

  /** All replies to seeks to live bytes are the log from the byte sought exactly when the search is aligned
      and the oldest live command is no longer than the first one ever was. */
  lemma {:induction false} SeekRepliesIff(H: seq<string>)
    requires Commands(H)
    ensures (forall c: nat, o: nat :: LiveByte(H, c, o) ==> SeekReplied(H, c, o)) <==> SeekAligned(H)
  {
    hide Slots, Live, StartChar, Concat, Drain, SearchAligned, SeekReplied;
    if SeekAligned(H) {
      forall c: nat, o: nat | LiveByte(H, c, o) ensures SeekReplied(H, c, o) {
        SeekAlignedReplies(H, c, o);
      }
    }
    if forall c: nat, o: nat :: LiveByte(H, c, o) ==> SeekReplied(H, c, o) {
      forall c | 0 <= c < |Live(H)| ensures |Slots(H)[c]| >= |H[StartAbs(|H|) + c]| {
        RepliesCover(H, c);
      }
      SlotsCover(H);
      if |H| > 0 {
        assert LiveByte(H, 0, 0) && SeekReplied(H, 0, 0);
        FirstReply(H);
      }
    }
  }

  lemma {:induction false} FirstReply(H: seq<string>)
    requires |H| > 0 && LiveByte(H, 0, 0) && SeekReplied(H, 0, 0)
    ensures |H[StartAbs(|H|)]| <= |H[0]|
  {
    hide Slots, Live, StartChar, Concat, Drain, Rest;
    assert SeekOffset(H, 0, 0) == 0 by { EmptyPrefix(Slots(H)); }
    DrainEnds(H, StartChar(H));
    RestLength(H, 0, 0);
    ConcatSplit(H, StartAbs(|H|));
    LiveIs(H);
    LiveTotal(H);
  }

  lemma {:induction false} EmptyPrefix(parts: seq<string>)
    ensures Concat(parts[..0]) == ""
  {
  }

  /** Whenever the number of commits is a multiple of ten, only the oldest live command matters. */
  lemma {:induction false} SeekRepliesAtFullTurn(H: seq<string>)
    requires Commands(H) && |H| > 0 && |H| % 10 == 0
    ensures (forall c: nat, o: nat :: LiveByte(H, c, o) ==> SeekReplied(H, c, o)) <==> |H[StartAbs(|H|)]| <= |H[0]|
  {
    hide SeekReplied, SearchAligned;
    FullTurnSearchAligned(H);
    SeekRepliesIff(H);
  }

  /** On the log whose last command is longer than the one it evicted, the seek to command 1 of the live ones
      sends every byte it should, and then ends with an error. */
  lemma {:induction false} SeekReplyCanFail()
    ensures var H := LATE_LONG;
            && LiveByte(H, 1, 0)
            && Drain(H, StartChar(H) + SeekOffset(H, 1, 0)) == Drained(Rest(H, 2, 0), Refused, 2)
  {
    LateLong(LATE_LONG);
  }

  /** The same for any eleven commands of these sizes. */
  lemma {:induction false} LateLong(H: seq<string>)
    requires |H| == 11 && forall i :: 0 <= i < 11 ==> |H[i]| == if i == 10 then 3 else 1
    ensures LiveByte(H, 1, 0)
    ensures Drain(H, StartChar(H) + SeekOffset(H, 1, 0)) == Drained(Rest(H, 2, 0), Refused, 2)
  {
    hide Slots, Live, Concat;
    var slots := Slots(H);
    SlotHolds(H, 10);
    UniformTotal(H[1..2], 1);
    assert |Concat(H)| == 13 by {
      ConcatStep(H, 10);
      UniformTotal(H[..10], 1);
      assert H[..11] == H;
    }
    assert |Concat(slots[..1])| == 3 && |slots[1]| == 1 by {
      UniformTotal(slots[..1], 3);
      SlotHolds(H, 1);
    }
    SeekResolvesIff(H, 1, 0);
    assert |Rest(H, 2, 0)| == 11 by {
      RestLength(H, 1, 0);
      UniformTotal(H[..2], 1);
    }
    assert ReadAt(H, 4, BUF_SIZE) == Data(Rest(H, 2, 0));
    DrainOutside(H, 15);
  }

  /** The seek leads to its byte and the drain from there passes positions in place. */
  ghost predicate SoughtInPlace(H: seq<string>, c: nat, o: nat)
    requires LiveByte(H, c, o)
  {
    && o < |Slots(H)[c]|
    && var pos := StartChar(H) + SeekOffset(H, c, o);
       pos <= |Concat(H)| && PlacedOnTheWay(H, pos)
  }

  /** The seek is to a live byte, and all seeks are replied to as they should or this one meets positions in place. */
  ghost predicate Sought(H: seq<string>, c: nat, o: nat) {
    LiveByte(H, c, o) && (SeekAligned(H) || SoughtInPlace(H, c, o))
  }

  /** The reply to such a seek is the log from the byte sought. */
  lemma {:induction false} SoughtDrain(H: seq<string>, c: nat, o: nat)
    requires Sought(H, c, o)
    ensures SeekReplied(H, c, o)
  {
    hide Concat, Slots, StartChar, Live, ReadAt, SeekAligned, Drain;
    if SeekAligned(H) {
      SeekAlignedReplies(H, c, o);
    } else {
      var k, pos := StartAbs(|H|) + c, StartChar(H) + SeekOffset(H, c, o);
      assert Placed(H, pos);
      PlacedSeek(H, c, o);
      FromPart(H, k, o);
      DrainPlaced(H, pos);
    }
  }

  /** A seek that leads to its byte and to a position in place leads to the position of that byte. */
  lemma {:induction false} PlacedSeek(H: seq<string>, c: nat, o: nat)
    requires c < |Live(H)| && o < |Slots(H)[c]|
    requires var pos := StartChar(H) + SeekOffset(H, c, o); pos <= |Concat(H)| && Placed(H, pos)
    ensures StartChar(H) + SeekOffset(H, c, o) == |Concat(H[..StartAbs(|H|) + c])| + o
  {
    hide Concat, Slots, StartChar, Live;
    SeekOffsetScanned(H, c, o);
    assert Scanned(H)[c] == Slots(H)[c];
    LocateIs(Scanned(H), SeekOffset(H, c, o), c, o);
    IsAtBytes(Scanned(H), SeekOffset(H, c, o), c, o);
  }
}
