/** The ten-slot ring as a function of the committed commands H, the way the driver addresses it:
    physical slots, absolute command numbers and absolute byte positions. */
module RingModel {
  import opened Parts
  import opened CommandLog

  const SLOTS: nat := 10

  /** Every command holds at least its newline. */
  ghost predicate Commands(H: seq<string>) {
    forall i :: 0 <= i < |H| ==> Ends(H[i])
  }

  /** Number of the oldest command kept after n commits. */
  function StartAbs(n: nat): nat {
    if n < SLOTS then 0 else n - SLOTS
  }

  function Live(H: seq<string>): (live: seq<string>)
    ensures |live| == |H| - StartAbs(|H|)
  {
    if |H| <= SLOTS then H else H[|H| - SLOTS..]
  }

  /** Which live command slot 0 of a full ring holds. */
  function Turn(n: nat): (m: nat)
    ensures m < SLOTS
  {
    if StartAbs(n) % 10 == 0 then 0 else SLOTS - StartAbs(n) % 10
  }

  /** What the physical slots hold: the live commands, rotated, and nothing in unused slots. */
  function Slots(H: seq<string>): (s: seq<string>)
    ensures |s| == SLOTS
  {
    if |H| < SLOTS then H + seq(SLOTS - |H|, _ => "")
    else if Turn(|H|) == 0 then Live(H)
    else Live(H)[Turn(|H|)..] + Live(H)[..Turn(|H|)]
  }

  /** The slots that the position search adds up: from slot 0, as many as there are live commands. */
  function Scanned(H: seq<string>): (s: seq<string>)
    ensures |s| == |Live(H)|
  {
    Slots(H)[..|Live(H)|]
  }

  /** `start_char_abs`: the lengths of commands 1 .. start_abs. */
  function StartChar(H: seq<string>): nat {
    if |H| == 0 then 0 else |Concat(H[1..StartAbs(|H|) + 1])|
  }

  /** Where a file position leads: nowhere, to the end of the data, or to a byte of a command. */
  datatype Where = OutOfRange | AtEnd | At(cmd: nat, ofs: nat)

  /** The position counts from startChar over the scanned slots; slot j stands for the j-th of
      the last |scanned| commands. */
  ghost function ResolveIn(H: seq<string>, scanned: seq<string>, startChar: nat, pos: int): (w: Where)
    requires |scanned| <= |H|
    ensures w.At? ==> |H| - |scanned| <= w.cmd < |H|
  {
    if pos < startChar || |Concat(H)| < pos then OutOfRange
    else
      var (j, b) := Locate(scanned, pos - startChar);
      if j == |scanned| then AtEnd else At(|H| - |scanned| + j, b)
  }

  ghost function Resolve(H: seq<string>, pos: int): (w: Where)
    ensures w.At? ==> StartAbs(|H|) <= w.cmd < |H|
  {
    ResolveIn(H, Scanned(H), StartChar(H), pos)
  }

  /** Overrun: the copy would start past the end of its command, where C defines nothing. */
  datatype ReadResult = Failed | Overrun | Data(bytes: string)

  /** The data from byte `ofs` of command `cmd` to the end of the log. */
  function Rest(H: seq<string>, cmd: nat, ofs: nat): string
    requires cmd < |H| && ofs <= |H[cmd]|
  {
    From(H[cmd], ofs) + Concat(H[cmd + 1..])
  }

  function ReadFrom(H: seq<string>, w: Where, len: nat): ReadResult
    requires w.At? ==> w.cmd < |H|
  {
    match w
    case OutOfRange => Failed
    case AtEnd => Data("")
    case At(cmd, ofs) => if ofs <= |H[cmd]| then Data(Take(Rest(H, cmd, ofs), len)) else Overrun
  }

  ghost function ReadAt(H: seq<string>, pos: int, len: nat): ReadResult {
    ReadFrom(H, Resolve(H, pos), len)
  }

  // ---- slots -------------------------------------------------------------------------------

  lemma {:induction false} TurnSlot(n: nat, t: nat)
    requires SLOTS <= n && t < SLOTS
    ensures (StartAbs(n) + t) % 10 == if t < Turn(n) then t - Turn(n) + SLOTS else t - Turn(n)
  {
    var q, r := StartAbs(n) / 10, StartAbs(n) % 10;
    assert StartAbs(n) == 10 * q + r;
  }

  lemma {:induction false} RotatedAt(H: seq<string>, t: nat)
    requires SLOTS <= |H| && t < SLOTS
    ensures Slots(H)[if t < Turn(|H|) then t - Turn(|H|) + SLOTS else t - Turn(|H|)] == H[StartAbs(|H|) + t]
  {
    hide Turn;
    assert Live(H)[t] == H[StartAbs(|H|) + t];
  }

  /** Slot k % 10 holds live command k. */
  lemma {:induction false} SlotHolds(H: seq<string>, k: nat)
    requires StartAbs(|H|) <= k < |H|
    ensures Slots(H)[k % 10] == H[k]
  {
    hide Turn, Live;
    if |H| >= SLOTS {
      var t := k - StartAbs(|H|);
      TurnSlot(|H|, t);
      RotatedAt(H, t);
    }
  }

  /** Slots not yet written are empty. */
  lemma {:induction false} UnusedSlots(H: seq<string>, j: nat)
    requires |H| <= j < SLOTS
    ensures Slots(H)[j] == ""
  {
  }

  lemma {:induction false} SlotIsLive(H: seq<string>, j: nat) returns (k: nat)
    requires j < SLOTS && j < |H|
    ensures StartAbs(|H|) <= k < |H| && k % 10 == j && Slots(H)[j] == H[k]
  {
    if |H| < SLOTS {
      k := j;
    } else {
      var t := j + Turn(|H|);
      t := if t < SLOTS then t else t - SLOTS;
      k := StartAbs(|H|) + t;
      TurnSlot(|H|, t);
      assert k % 10 == j;
      SlotHolds(H, k);
    }
  }

  /** A commit writes slot |H| % 10 and leaves the other nine as they were. */
  lemma {:induction false} SlotsAfterCommit(H: seq<string>, c: string)
    ensures Slots(H + [c]) == Slots(H)[|H| % 10 := c]
  {
    forall j | 0 <= j < SLOTS ensures Slots(H + [c])[j] == Slots(H)[|H| % 10 := c][j] {
      SlotAfterCommit(H, c, j);
    }
  }

  lemma {:induction false} SlotAfterCommit(H: seq<string>, c: string, j: nat)
    requires j < SLOTS
    ensures Slots(H + [c])[j] == if j == |H| % 10 then c else Slots(H)[j]
  {
    hide Slots, Live;
    if j <= |H| {
      var k := SlotIsLive(H + [c], j);
      if k < |H| {
        SlotHolds(H, k);
        OtherSlot(k, |H|);
      }
    } else {
      UnusedSlots(H, j);
      UnusedSlots(H + [c], j);
    }
  }

  lemma {:induction false} OtherSlot(k: nat, k': nat)
    requires k < k' < k + SLOTS
    ensures k % 10 != k' % 10
  {
  }

  lemma {:induction false} UnevictedSlots(H: seq<string>)
    requires |H| <= SLOTS
    ensures Scanned(H) == H == Live(H)
    ensures Slots(H) == H + seq(SLOTS - |H|, _ => "")
    ensures StartChar(H) == 0
  {
  }

  lemma {:induction false} ConcatBlank(n: nat)
    ensures Concat(seq(n, _ => "")) == ""
  {
    if n > 0 {
      ConcatBlank(n - 1);
      assert seq(n, _ => "")[..n - 1] == seq<string>(n - 1, _ => "");
    }
  }

  /** Together the slots hold as many bytes as the live commands. */
  lemma {:induction false} SlotsTotal(H: seq<string>)
    ensures |Concat(Slots(H))| == |Concat(Live(H))| == |Concat(Scanned(H))| <= |Concat(H)|
  {
    ConcatSplit(H, StartAbs(|H|));
    if |H| < SLOTS {
      UnevictedSlots(H);
      ConcatAppend(H, seq(SLOTS - |H|, _ => ""));
      ConcatBlank(SLOTS - |H|);
    } else {
      var live, m := Live(H), Turn(|H|);
      ConcatAppend(live[m..], live[..m]);
      ConcatSplit(live, m);
      assert Scanned(H) == Slots(H);
    }
  }

  /** Every scanned slot is in use. */
  lemma {:induction false} ScannedLive(H: seq<string>)
    requires Commands(H)
    ensures forall j :: 0 <= j < |Scanned(H)| ==> Ends(Scanned(H)[j]) && Scanned(H)[j] == Slots(H)[j]
  {
    forall j | 0 <= j < |Scanned(H)| ensures Ends(Scanned(H)[j]) && Scanned(H)[j] == Slots(H)[j] {
      var k := SlotIsLive(H, j);
    }
  }

  // ---- the window start --------------------------------------------------------------------

  /** `start_char_abs` is off by the first command ever against the oldest live one. */
  lemma {:induction false} StartCharExact(H: seq<string>)
    requires |H| > 0
    ensures StartChar(H) + |H[0]| == |Concat(H[..StartAbs(|H|)])| + |H[StartAbs(|H|)]|
  {
    var s := StartAbs(|H|);
    ConcatStep(H, s);
    ConcatHead(H[..s + 1]);
    assert H[..s + 1][1..] == H[1..s + 1];
  }

  lemma {:induction false} StartCharInRange(H: seq<string>)
    requires Commands(H)
    ensures if |H| == 0 then StartChar(H) == |Concat(H)| == 0 else StartChar(H) < |Concat(H)|
  {
    if |H| > 0 {
      var s := StartAbs(|H|);
      StartCharExact(H);
      ConcatStep(H, s);
      PrefixMonotone(H, s + 1, |H|);
      assert H[..|H|] == H;
    }
  }

  ghost predicate Conserved(H: seq<string>) {
    StartChar(H) + |Concat(Live(H))| == |Concat(H)|
  }

  /** The window start and the live bytes add up to the bytes written
      exactly when the oldest live command is as long as the first one ever was. */
  lemma {:induction false} ConservedIff(H: seq<string>)
    requires |H| > 0
    ensures Conserved(H) <==> |H[StartAbs(|H|)]| == |H[0]|
  {
    StartCharExact(H);
    ConcatSplit(H, StartAbs(|H|));
  }
}
