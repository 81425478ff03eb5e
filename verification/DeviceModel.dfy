/** The character device as a state machine: one log, many open files with a position each.
    Every system call is one step. */
module DeviceModel {
  import opened Parts
  import opened Machine
  import opened CommandLog
  import opened RingModel
  import opened Positions

  const EINVAL: int := 22
  const SEEK_SET: int := 0
  const SEEK_CUR: int := 1
  const SEEK_END: int := 2

  /** _IOWR(0x16, 1, struct aesd_seekto): direction 3, size 8, magic 0x16, number 1. */
  const AESDCHAR_IOCSEEKTO: nat := 0xC008_1601

  datatype State = State(log: Log, pos: map<nat, int>)

  datatype Op =
    | Open(file: nat)
    | Write(file: nat, chunk: Chunk)
    | Read(file: nat, count: nat)
    | Llseek(file: nat, off: int, whence: int)
    | Ioctl(file: nat, cmd: nat, writeCmd: nat, writeCmdOffset: nat)

  /** What the call returns, and for a read what it copies to the user. */
  datatype Outcome = Code(ret: int) | Bytes(data: string) | Undefined

  /** The file is open, a read asks for a byte at least, a seek stays inside the slot array. */
  predicate Enabled(s: State, op: Op) {
    match op
    case Open(f) => f !in s.pos
    case Write(f, _) => f in s.pos
    case Read(f, count) => f in s.pos && 1 <= count < LIMIT
    case Llseek(f, _, _) => f in s.pos
    case Ioctl(f, cmd, c, o) => f in s.pos && (cmd == AESDCHAR_IOCSEEKTO ==> c <= SLOTS && o < 0x1_0000_0000)
  }

  ghost function Step(s: State, op: Op): (State, Outcome)
    requires Enabled(s, op)
  {
    var H := s.log.commands;
    match op
    case Open(f) => (s.(pos := s.pos[f := 0]), Code(0))
    case Write(f, chunk) => (s.(log := s.log.Append(chunk)), Code(|chunk|))
    case Read(f, count) => AfterRead(s, f, ReadAt(H, s.pos[f], count))
    case Llseek(f, off, whence) =>
      if whence == SEEK_SET then Moved(s, f, StartChar(H) + off)
      else if whence == SEEK_CUR then Moved(s, f, s.pos[f] + off)
      else if whence == SEEK_END then Moved(s, f, |Concat(H)| + off)
      else (s, Code(-EINVAL))
    case Ioctl(f, cmd, c, o) =>
      if cmd == AESDCHAR_IOCSEEKTO then (s.(pos := s.pos[f := U32(U32(SeekOffset(H, c, o)) + StartChar(H))]), Code(0))
      else (s, Code(-EINVAL))
  }

  /** C defines nothing after an undefined read. Here the state stays as it was, so what is said of longer
      runs is meant for those in which no file's read is undefined. */
  function AfterRead(s: State, f: nat, r: ReadResult): (State, Outcome)
    requires f in s.pos
  {
    match r
    case Failed => (s, Code(-1))
    case Overrun => (s, Undefined)
    case Data(data) => (s.(pos := s.pos[f := s.pos[f] + |data|]), Bytes(data))
  }

  function Moved(s: State, f: nat, to: int): (State, Outcome) {
    (s.(pos := s.pos[f := to]), Code(to))
  }

  ghost predicate Legal(s: State, ops: seq<Op>)
    decreases |ops|
  {
    |ops| == 0 || (Enabled(s, ops[0]) && Legal(Step(s, ops[0]).0, ops[1..]))
  }

  ghost function Exec(s: State, ops: seq<Op>): State
    requires Legal(s, ops)
    decreases |ops|
  {
    if |ops| == 0 then s else Exec(Step(s, ops[0]).0, ops[1..])
  }

  // ---- one file read through a run of others' calls ----------------------------------------

  /** File f is only read (and written) in this run; other files do as they like. */
  predicate OnlyReads(f: nat, ops: seq<Op>) {
    forall i :: 0 <= i < |ops| ==> ops[i].file == f ==> ops[i].Read? || ops[i].Write?
  }

  /** All bytes that the reads of file f return, in order. */
  ghost function Collected(s: State, f: nat, ops: seq<Op>): string
    requires Legal(s, ops)
    decreases |ops|
  {
    if |ops| == 0 then ""
    else
      var (s', out) := Step(s, ops[0]);
      (if ops[0].file == f && out.Bytes? then out.data else "") + Collected(s', f, ops[1..])
  }

  /** Whenever file f reads, its position is in place. */
  ghost predicate PlacedAtReads(s: State, f: nat, ops: seq<Op>)
    requires Legal(s, ops)
    decreases |ops|
  {
    |ops| > 0 ==>
      && (ops[0].file == f && ops[0].Read? ==> Placed(s.log.commands, s.pos[f]))
      && PlacedAtReads(Step(s, ops[0]).0, f, ops[1..])
  }

  /** Whenever file f reads, the ring is aligned. */
  ghost predicate AlignedAtReads(s: State, f: nat, ops: seq<Op>)
    requires Legal(s, ops)
    decreases |ops|
  {
    |ops| > 0 ==>
      && (ops[0].file == f && ops[0].Read? ==> Aligned(s.log.commands))
      && AlignedAtReads(Step(s, ops[0]).0, f, ops[1..])
  }

  /** The log only grows, and no file is closed. */
  lemma {:induction false} StepGrows(s: State, op: Op)
    requires Enabled(s, op)
    ensures s.log.commands <= Step(s, op).0.log.commands
    ensures s.pos.Keys <= Step(s, op).0.pos.Keys
    ensures s.log.WellFormed() ==> Step(s, op).0.log.WellFormed()
  {
  }

  lemma {:induction false} RunGrows(s: State, ops: seq<Op>)
    requires Legal(s, ops)
    ensures s.log.WellFormed() ==> Exec(s, ops).log.WellFormed()
    ensures s.log.commands <= Exec(s, ops).log.commands
    ensures s.pos.Keys <= Exec(s, ops).pos.Keys
    decreases |ops|
  {
    if |ops| > 0 {
      StepGrows(s, ops[0]);
      RunGrows(Step(s, ops[0]).0, ops[1..]);
    }
  }

  /** A byte keeps its absolute position for good. */
  lemma {:induction false} BytesStay(H: seq<string>, H': seq<string>)
    requires H <= H'
    ensures Concat(H) <= Concat(H')
  {
    ConcatSplit(H', |H|);
    assert H'[..|H|] == H;
  }

  /** The chunks written in a run, by whatever file. */
  function Writes(ops: seq<Op>): seq<Chunk> {
    if |ops| == 0 then []
    else if ops[0].Write? then [ops[0].chunk] + Writes(ops[1..])
    else Writes(ops[1..])
  }

  /** The log after a run is that of its writes alone: reads, seeks and opens leave no trace in it. */
  lemma {:induction false} RunLog(s: State, ops: seq<Op>)
    requires Legal(s, ops)
    ensures Exec(s, ops).log == RunFrom(s.log, Writes(ops))
    decreases |ops|
  {
    hide Step, Enabled, ReadAt;
    if |ops| > 0 {
      StepLog(s, ops[0]);
      RunLog(Step(s, ops[0]).0, ops[1..]);
      if ops[0].Write? {
        RunFirst(s.log, ops[0].chunk, Writes(ops[1..]));
      }
    }
  }

  /** What the writes of a run return, summed up. */
  ghost function Written(s: State, ops: seq<Op>): int
    requires Legal(s, ops)
    decreases |ops|
  {
    if |ops| == 0 then 0
    else
      var (s', out) := Step(s, ops[0]);
      (if ops[0].Write? && out.Code? then out.ret else 0) + Written(s', ops[1..])
  }

  /** The writes tell the truth: what they return adds up to what the log has grown by. */
  lemma {:induction false} RunWritten(s: State, ops: seq<Op>)
    requires Legal(s, ops)
    ensures s.log.Bytes() <= Exec(s, ops).log.Bytes()
    ensures Written(s, ops) == |Exec(s, ops).log.Bytes()| - |s.log.Bytes()|
    decreases |ops|
  {
    hide ReadAt, StartChar, Concat, SeekOffset;
    if |ops| > 0 {
      StepLog(s, ops[0]);
      if ops[0].Write? {
        AppendBytes(s.log, ops[0].chunk);
      }
      RunWritten(Step(s, ops[0]).0, ops[1..]);
    }
  }

  lemma {:induction false} StepLog(s: State, op: Op)
    requires Enabled(s, op)
    ensures Step(s, op).0.log == if op.Write? then s.log.Append(op.chunk) else s.log
  {
    hide ReadAt, StartChar, Concat, SeekOffset;
  }

  /** What a step does to file f when it is not f's own seek or open. */
  lemma {:induction false} StepReads(s: State, f: nat, op: Op)
    requires Enabled(s, op) && f in s.pos && 0 <= s.pos[f] <= |Concat(s.log.commands)|
    requires op.file == f ==> op.Read? || op.Write?
    requires op.file == f && op.Read? ==> Placed(s.log.commands, s.pos[f])
    ensures var (s', out) := Step(s, op);
            var all := Concat(s'.log.commands);
            && f in s'.pos && s.pos[f] <= s'.pos[f] <= |all|
            && (if op.file == f && out.Bytes? then out.data else "") == Slice(all, s.pos[f], s'.pos[f])
            && (op.file == f && op.Read? ==>
                  (out == Code(-1)
                   <==> s.pos[f] < StartChar(s.log.commands) || |Concat(s.log.commands)| < s.pos[f]))
  {
    hide ReadAt, Placed, Concat, StartChar, Slots;
    StepGrows(s, op);
    var H, H' := s.log.commands, Step(s, op).0.log.commands;
    BytesStay(H, H');
    if op.file == f && op.Read? {
      PlacedRead(H, s.pos[f], op.count);
    }
  }

  /** Whatever other calls come between, the reads of a file that starts at a byte of the log and only
      reads return the log from there on, without a gap, a repeat or a change, up to the file's position. */
  lemma {:induction false} LogRefinement(s: State, f: nat, ops: seq<Op>)
    requires Legal(s, ops) && OnlyReads(f, ops) && PlacedAtReads(s, f, ops)
    requires f in s.pos && 0 <= s.pos[f] <= |Concat(s.log.commands)|
    ensures var s' := Exec(s, ops);
            var all := Concat(s'.log.commands);
            && f in s'.pos && s.pos[f] <= s'.pos[f] <= |all|
            && Collected(s, f, ops) == Slice(all, s.pos[f], s'.pos[f])
    decreases |ops|
  {
    if |ops| > 0 {
      var s1, end := Step(s, ops[0]).0, Exec(s, ops);
      StepReads(s, f, ops[0]);
      assert OnlyReads(f, ops[1..]);
      LogRefinement(s1, f, ops[1..]);
      RunGrows(s1, ops[1..]);
      BytesStay(s1.log.commands, end.log.commands);
      SlicePrefix(Concat(s1.log.commands), Concat(end.log.commands), s.pos[f], s1.pos[f]);
      SliceJoin(Concat(end.log.commands), s.pos[f], s1.pos[f], end.pos[f]);
    }
  }

  // ---- runs that keep the ring aligned -----------------------------------------------------

  lemma {:induction false} PrefixAligned(H: seq<string>, H': seq<string>)
    requires H <= H' && (|H'| <= SLOTS || Uniform(H'))
    ensures Aligned(H)
  {
    if |H'| <= SLOTS {
      FewAligned(H);
    } else {
      UniformAligned(H);
    }
  }

  lemma {:induction false} RunAligned(s: State, f: nat, ops: seq<Op>)
    requires Legal(s, ops)
    requires |Exec(s, ops).log.commands| <= SLOTS || Uniform(Exec(s, ops).log.commands)
    ensures AlignedAtReads(s, f, ops)
    decreases |ops|
  {
    hide Aligned, Step, Enabled, Uniform;
    if |ops| > 0 {
      RunGrows(s, ops);
      PrefixAligned(s.log.commands, Exec(s, ops).log.commands);
      RunAligned(Step(s, ops[0]).0, f, ops[1..]);
    }
  }

  lemma {:induction false} AlignedIsPlacedAtReads(s: State, f: nat, ops: seq<Op>)
    requires Legal(s, ops) && AlignedAtReads(s, f, ops)
    ensures PlacedAtReads(s, f, ops)
    decreases |ops|
  {
    hide Aligned, Placed, Step;
    if |ops| > 0 {
      if ops[0].file == f && ops[0].Read? {
        AlignedIsPlaced(s.log.commands, s.pos[f]);
      }
      AlignedIsPlacedAtReads(Step(s, ops[0]).0, f, ops[1..]);
    }
  }

  /** The same when the ring is aligned at each read of the file. */
  lemma {:induction false} LogRefinementAligned(s: State, f: nat, ops: seq<Op>)
    requires Legal(s, ops) && OnlyReads(f, ops) && AlignedAtReads(s, f, ops)
    requires f in s.pos && 0 <= s.pos[f] <= |Concat(s.log.commands)|
    ensures var s' := Exec(s, ops);
            f in s'.pos && s.pos[f] <= s'.pos[f] <= |Concat(s'.log.commands)|
            && Collected(s, f, ops) == Slice(Concat(s'.log.commands), s.pos[f], s'.pos[f])
  {
    AlignedIsPlacedAtReads(s, f, ops);
    LogRefinement(s, f, ops);
  }

  /** Runs that commit at most ten commands, and runs whose commands all have one length,
      need no further hypothesis. */
  lemma {:induction false} LogRefinementUnconditional(s: State, f: nat, ops: seq<Op>)
    requires Legal(s, ops) && OnlyReads(f, ops)
    requires f in s.pos && 0 <= s.pos[f] <= |Concat(s.log.commands)|
    requires |Exec(s, ops).log.commands| <= SLOTS || Uniform(Exec(s, ops).log.commands)
    ensures var s' := Exec(s, ops);
            f in s'.pos && s.pos[f] <= s'.pos[f] <= |Concat(s'.log.commands)|
            && Collected(s, f, ops) == Slice(Concat(s'.log.commands), s.pos[f], s'.pos[f])
  {
    RunAligned(s, f, ops);
    LogRefinementAligned(s, f, ops);
  }

  /** Rewind, then one read: the oldest live bytes, in every state. */
  lemma {:induction false} RewindThenRead(s: State, f: nat, count: nat)
    requires s.log.WellFormed() && f in s.pos && 1 <= count < LIMIT
    ensures var s1 := Step(s, Llseek(f, 0, SEEK_SET)).0;
            var (s2, out) := Step(s1, Read(f, count));
            var data := Take(Concat(Live(s.log.commands)), count);
            && out == Bytes(data)
            && s2 == s.(pos := s.pos[f := StartChar(s.log.commands) + |data|])
  {
    hide ReadAt, Concat, Live, StartChar;
    var H := s.log.commands;
    var s1 := Moved(s, f, StartChar(H)).0;
    RewindReadsLive(H, count);
    var data := Take(Concat(Live(H)), count);
    assert ReadAt(H, s1.pos[f], count) == Data(data);
  }

  /** So it is after every run of calls from a well-formed state, such as the empty one. */
  lemma {:induction false} RewindAfterRun(s0: State, ops: seq<Op>, f: nat, count: nat)
    requires s0.log.WellFormed() && Legal(s0, ops) && f in Exec(s0, ops).pos && 1 <= count < LIMIT
    ensures var s := Exec(s0, ops);
            var s1 := Step(s, Llseek(f, 0, SEEK_SET)).0;
            Step(s1, Read(f, count)).1 == Bytes(Take(Concat(Live(s.log.commands)), count))
  {
    hide Step, Exec, Concat, Live;
    RunGrows(s0, ops);
    RewindThenRead(Exec(s0, ops), f, count);
  }

  // ---- seeks, by the numbers a caller passes ------------------------------------------------

  /** For whence 0, 1 and 2 the result is the position set, counted from the window start, the position and the
      end, and a following seek by 0 from where the file is tells it; any other whence is refused. */
  lemma {:induction false} SeekTells(s: State, f: nat, off: int, whence: int)
    requires f in s.pos
    ensures var (s', out) := Step(s, Llseek(f, off, whence));
            if 0 <= whence <= 2 then
              && out == Code(s'.pos[f]) && s' == s.(pos := s.pos[f := s'.pos[f]])
              && s'.pos[f] == off + [StartChar(s.log.commands), s.pos[f], |Concat(s.log.commands)|][whence]
              && Step(s', Llseek(f, 0, 1)) == (s', out)
            else s' == s && out == Code(-22)
  {
    hide StartChar, Concat;
    var s', out := Step(s, Llseek(f, off, whence)).0, Step(s, Llseek(f, off, whence)).1;
    if 0 <= whence <= 2 {
      assert s'.pos[f := s'.pos[f]] == s'.pos;
    }
  }

  /** A read is refused, and then leaves all as it was, exactly outside the window. */
  lemma {:induction false} ReadRefusedIff(s: State, f: nat, count: nat)
    requires f in s.pos && 1 <= count < LIMIT
    ensures var (s', out) := Step(s, Read(f, count));
            && (out == Code(-1) <==> s.pos[f] < StartChar(s.log.commands) || |Concat(s.log.commands)| < s.pos[f])
            && (out == Code(-1) ==> s' == s)
  {
    hide StartChar, Concat, Scanned;
  }

  /** A read at a position in place, as a step. */
  lemma {:induction false} StepRead(s: State, f: nat, count: nat)
    requires f in s.pos && 1 <= count < LIMIT && Placed(s.log.commands, s.pos[f])
    requires StartChar(s.log.commands) <= s.pos[f] <= |Concat(s.log.commands)|
    ensures var all, pos := Concat(s.log.commands), s.pos[f];
            var end := Min(pos + count, |all|);
            Step(s, Read(f, count)) == (s.(pos := s.pos[f := end]), Bytes(Slice(all, pos, end)))
  {
    hide ReadAt, Placed, StartChar, Concat;
    PlacedRead(s.log.commands, s.pos[f], count);
  }

  /** Seek to k bytes before the end and read k: the last k bytes of the log. */
  lemma {:induction false} EndThenRead(s: State, f: nat, k: int)
    requires f in s.pos && 1 <= k < LIMIT
    requires var H := s.log.commands;
             StartChar(H) + k <= |Concat(H)| && Placed(H, |Concat(H)| - k)
    ensures Step(Step(s, Llseek(f, -k, 2)).0, Read(f, k))
         == (var all := Concat(s.log.commands); (s.(pos := s.pos[f := |all|]), Bytes(all[|all| - k..])))
  {
    hide Placed, StartChar, Concat, Step;
    var H, s1 := s.log.commands, Step(s, Llseek(f, -k, 2)).0;
    SeekTells(s, f, -k, 2);
    StepRead(s1, f, k);
    assert Slice(Concat(H), |Concat(H)| - k, |Concat(H)|) == Concat(H)[|Concat(H)| - k..];
    assert s1.pos[f := |Concat(H)|] == s.pos[f := |Concat(H)|];
  }

  /** Seek to byte k of the window and read: the live bytes from k on. */
  lemma {:induction false} SetThenRead(s: State, f: nat, k: nat, count: nat)
    requires f in s.pos && 1 <= count < LIMIT && SearchAligned(s.log.commands)
    requires StartChar(s.log.commands) + k <= |Concat(s.log.commands)|
    ensures Step(Step(s, Llseek(f, k, 0)).0, Read(f, count)).1
         == (var live := Concat(Live(s.log.commands));
             Bytes(if k <= |live| then live[k..Min(k + count, |live|)] else ""))
  {
    hide ReadAt, SearchAligned, StartChar, Live, Concat;
    ReadIsLiveSlice(s.log.commands, k, count);
  }

  /** Read n bytes, seek k bytes on or back, read again: the second read goes on k bytes from where the first ended. */
  lemma {:induction false} ReadThenSkip(s: State, s1: State, s2: State, f: nat, n: nat, k: int, count: nat)
    requires f in s.pos && f in s1.pos && f in s2.pos && 1 <= n < LIMIT && 1 <= count < LIMIT
    requires s1 == Step(s, Read(f, n)).0 && s2 == Step(s1, Llseek(f, k, 1)).0
    requires var H, pos := s.log.commands, s.pos[f];
             && Placed(H, pos) && StartChar(H) <= pos && pos + n <= |Concat(H)|
             && Placed(H, pos + n + k) && StartChar(H) <= pos + n + k <= |Concat(H)|
    ensures var all, pos, from := Concat(s.log.commands), s.pos[f], s.pos[f] + n + k;
            && Step(s, Read(f, n)).1 == Bytes(Slice(all, pos, pos + n))
            && Step(s2, Read(f, count)).1 == Bytes(Slice(all, from, Min(from + count, |all|)))
  {
    hide Placed, StartChar, Concat, Step;
    StepRead(s, f, n);
    SkipThenRead(s1, f, k, count);
  }

  lemma {:induction false} SkipThenRead(s: State, f: nat, k: int, count: nat)
    requires f in s.pos && 1 <= count < LIMIT && Placed(s.log.commands, s.pos[f] + k)
    requires StartChar(s.log.commands) <= s.pos[f] + k <= |Concat(s.log.commands)|
    ensures var all, from := Concat(s.log.commands), s.pos[f] + k;
            Step(Step(s, Llseek(f, k, 1)).0, Read(f, count)).1 == Bytes(Slice(all, from, Min(from + count, |all|)))
  {
    hide Placed, StartChar, Concat, Step;
    SeekTells(s, f, k, 1);
    StepRead(Step(s, Llseek(f, k, 1)).0, f, count);
  }

  /** Of all 32-bit command words one alone seeks: direction 3, size 8, type 0x16, number 1. It returns 0 and
      sets the position to the 32-bit sum of window start, slot sizes and offset; any other word is refused. */
  lemma {:induction false} IoctlVerdict(s: State, f: nat, cmd: nat, c: nat, o: nat)
    requires Enabled(s, Ioctl(f, cmd, c, o)) && cmd < 0x1_0000_0000
    ensures var H := s.log.commands;
            var (s', out) := Step(s, Ioctl(f, cmd, c, o));
            if cmd / 0x4000_0000 == 3 && cmd / 0x1_0000 % 0x4000 == 8 && cmd / 0x100 % 0x100 == 0x16
               && cmd % 0x100 == 1 then
              && out == Code(0) && c <= 10 && s' == s.(pos := s.pos[f := s'.pos[f]])
              && s'.pos[f] == (StartChar(H) + |Concat(Slots(H)[..c])| + o) % 0x1_0000_0000
            else s' == s && out == Code(-22)
  {
    hide StartChar, Concat, Slots;
  }

  /** Seek ioctl, then one read: the bytes from (cmd, ofs) on, whenever slot `cmd` is long enough
      and the position stays within the log. */
  lemma {:induction false} IoctlThenRead(s: State, f: nat, c: nat, o: nat, count: nat)
    requires f in s.pos && 1 <= count < LIMIT
    requires var H := s.log.commands;
             && |Concat(H)| < LIMIT && c < |Live(H)| && o <= |H[StartAbs(|H|) + c]|
             && o < |Slots(H)[c]| && StartChar(H) + SeekOffset(H, c, o) <= |Concat(H)|
    ensures var H := s.log.commands;
            var s1 := Step(s, Ioctl(f, AESDCHAR_IOCSEEKTO, c, o)).0;
            Step(s1, Read(f, count)).1 == Bytes(Take(Rest(H, StartAbs(|H|) + c, o), count))
  {
    hide ReadAt, Concat, Live, StartChar, Slots;
    var H := s.log.commands;
    var pos := StartChar(H) + SeekOffset(H, c, o);
    var s1 := Moved(s, f, pos).0;
    assert Step(s, Ioctl(f, AESDCHAR_IOCSEEKTO, c, o)).0 == s1;
    SeekThenRead(H, c, o, count);
    assert Step(s1, Read(f, count)) == AfterRead(s1, f, ReadAt(H, pos, count));
  }
}
