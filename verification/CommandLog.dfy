/** What the writes mean: chunks gather in a pending string until a chunk ends in a newline,
    which commits the whole pending string as one command. */
module CommandLog {
  import opened Parts

  /** A write of size zero has no last byte to look at, so the driver needs at least one. */
  type Chunk = s: string | |s| > 0 witness "\n"

  predicate Ends(s: string) {
    |s| > 0 && s[|s| - 1] == '\n'
  }

  datatype Log = Log(commands: seq<string>, pending: string) {
    function Append(chunk: Chunk): Log {
      if Ends(chunk) then Log(commands + [pending + chunk], "") else Log(commands, pending + chunk)
    }

    function Bytes(): string {
      Concat(commands) + pending
    }

    ghost predicate WellFormed() {
      (forall i :: 0 <= i < |commands| ==> Ends(commands[i])) && !Ends(pending)
    }
  }

  const EMPTY: Log := Log([], "")

  function RunFrom(log: Log, chunks: seq<Chunk>): Log {
    if |chunks| == 0 then log
    else RunFrom(log, chunks[..|chunks| - 1]).Append(chunks[|chunks| - 1])
  }

  lemma {:induction false} AppendBytes(log: Log, chunk: Chunk)
    ensures log.Append(chunk).Bytes() == log.Bytes() + chunk
  {
    assert (log.commands + [log.pending + chunk])[..|log.commands|] == log.commands;
  }

  /** No byte is lost, duplicated or moved: log and pending together are all that was written. */
  lemma {:induction false} RunBytes(log: Log, chunks: seq<Chunk>)
    ensures RunFrom(log, chunks).Bytes() == log.Bytes() + Concat(chunks)
  {
    if |chunks| > 0 {
      RunBytes(log, chunks[..|chunks| - 1]);
      AppendBytes(RunFrom(log, chunks[..|chunks| - 1]), chunks[|chunks| - 1]);
    }
  }

  /** Commands are non-empty and end in a newline, what is pending does not, and no command goes away. */
  lemma {:induction false} RunWellFormed(log: Log, chunks: seq<Chunk>)
    requires log.WellFormed()
    ensures var log' := RunFrom(log, chunks);
            && log'.WellFormed() && log.commands <= log'.commands
            && (forall c <- log'.commands :: |c| > 0 && c[|c| - 1] == '\n')
            && (var p := log'.pending; |p| > 0 ==> p[|p| - 1] != '\n')
  {
    if |chunks| > 0 {
      RunWellFormed(log, chunks[..|chunks| - 1]);
    }
  }

  lemma {:induction false} RunCompose(log: Log, a: seq<Chunk>, b: seq<Chunk>)
    ensures RunFrom(log, a + b) == RunFrom(RunFrom(log, a), b)
    decreases |b|
  {
    if |b| == 0 {
      assert a + b == a;
    } else {
      RunCompose(log, a, b[..|b| - 1]);
      assert (a + b)[..|a + b| - 1] == a + b[..|b| - 1];
    }
  }

  lemma {:induction false} RunFirst(log: Log, c: Chunk, rest: seq<Chunk>)
    ensures RunFrom(log, [c] + rest) == RunFrom(log.Append(c), rest)
  {
    RunCompose(log, [c], rest);
    assert [c][..0] == [];
    assert RunFrom(log, [c]) == RunFrom(log, [c][..0]).Append(c);
  }

  /** There is one command for each chunk whose last byte is a newline. */
  lemma {:induction false} RunCommits(log: Log, chunks: seq<Chunk>)
    ensures |RunFrom(log, chunks).commands|
         == |log.commands| + |set i | 0 <= i < |chunks| && chunks[i][|chunks[i]| - 1] == '\n'|
  {
    var ended := set i | 0 <= i < |chunks| && chunks[i][|chunks[i]| - 1] == '\n';
    if |chunks| > 0 {
      var init, last := chunks[..|chunks| - 1], chunks[|chunks| - 1];
      var before := set i | 0 <= i < |init| && init[i][|init[i]| - 1] == '\n';
      RunCommits(log, init);
      assert ended == before + if last[|last| - 1] == '\n' then {|init|} else {};
    } else {
      assert ended == {};
    }
  }

  /** Two neighbouring writes may be merged into one exactly when the first does not end in a newline. */
  lemma {:induction false} RegroupIff(before: seq<Chunk>, a: Chunk, b: Chunk, after: seq<Chunk>)
    ensures RunFrom(EMPTY, before + [a, b] + after) == RunFrom(EMPTY, before + [a + b] + after)
       <==> a[|a| - 1] != '\n'
  {
    var base := RunFrom(EMPTY, before);
    RunCompose(EMPTY, before + [a, b], after);
    RunCompose(EMPTY, before, [a, b]);
    RunCompose(EMPTY, before + [a + b], after);
    RunCompose(EMPTY, before, [a + b]);
    assert [a, b][..1] == [a];
    assert RunFrom(base, [a]) == base.Append(a);
    assert RunFrom(base, [a, b]) == base.Append(a).Append(b);
    assert RunFrom(base, [a + b]) == base.Append(a + b);
    if Ends(a) {
      RunCommits(base.Append(a).Append(b), after);
      RunCommits(base.Append(a + b), after);
    } else {
      assert (base.pending + a) + b == base.pending + (a + b);
    }
  }

  /** Where in the byte stream the writes committed: the stream length at each newline-ended chunk. */
  function CommitPoints(chunks: seq<Chunk>): seq<nat> {
    if |chunks| == 0 then []
    else
      var init, last := chunks[..|chunks| - 1], chunks[|chunks| - 1];
      CommitPoints(init) + if last[|last| - 1] == '\n' then [|Concat(chunks)|] else []
  }

  /** The end position of each command. */
  function Boundaries(commands: seq<string>): seq<nat> {
    if |commands| == 0 then [] else Boundaries(commands[..|commands| - 1]) + [|Concat(commands)|]
  }

  lemma {:induction false} CommitPointsAreBoundaries(chunks: seq<Chunk>)
    ensures CommitPoints(chunks) == Boundaries(RunFrom(EMPTY, chunks).commands)
  {
    if |chunks| > 0 {
      var init, last := chunks[..|chunks| - 1], chunks[|chunks| - 1];
      CommitPointsAreBoundaries(init);
      RunBytes(EMPTY, chunks);
      var was := RunFrom(EMPTY, init);
      assert RunFrom(EMPTY, chunks) == was.Append(last);
      hide RunFrom, CommitPoints, Concat;
      AppendBoundaries(was, last);
    }
  }

  lemma {:induction false} AppendBoundaries(log: Log, chunk: Chunk)
    ensures Boundaries(log.Append(chunk).commands)
         == Boundaries(log.commands) + if Ends(chunk) then [|log.Append(chunk).Bytes()|] else []
  {
    hide Concat;
    var next := log.commands + [log.pending + chunk];
    assert next[..|next| - 1] == log.commands;
  }

  /** Bytes and boundaries determine the commands. */
  lemma {:induction false} BoundariesDetermine(a: seq<string>, b: seq<string>, bytes: string)
    requires Boundaries(a) == Boundaries(b)
    requires Concat(a) <= bytes && Concat(b) <= bytes
    ensures a == b
    decreases |a|
  {
    BoundariesLength(a);
    BoundariesLength(b);
    if |a| > 0 {
      var a', b' := a[..|a| - 1], b[..|b| - 1];
      assert Boundaries(a') == Boundaries(a)[..|a| - 1] == Boundaries(b)[..|b| - 1] == Boundaries(b');
      BoundariesDetermine(a', b', bytes);
      assert |Concat(a)| == Boundaries(a)[|a| - 1] == Boundaries(b)[|b| - 1] == |Concat(b)|;
      assert Concat(a) == bytes[..|Concat(a)|] == Concat(b);
      assert a[|a| - 1] == Concat(a)[|Concat(a')|..];
      assert a == a' + [a[|a| - 1]] && b == b' + [b[|b| - 1]];
    }
  }

  lemma {:induction false} BoundariesLength(commands: seq<string>)
    ensures |Boundaries(commands)| == |commands|
  {
    if |commands| > 0 {
      BoundariesLength(commands[..|commands| - 1]);
    }
  }

  /** Two ways of writing leave the same state exactly when they write the same bytes
      and put their newline-ended chunks at the same places. */
  lemma {:induction false} SameStateIff(ws: seq<Chunk>, ws': seq<Chunk>)
    ensures RunFrom(EMPTY, ws) == RunFrom(EMPTY, ws')
       <==> Concat(ws) == Concat(ws') && CommitPoints(ws) == CommitPoints(ws')
  {
    RunBytes(EMPTY, ws);
    RunBytes(EMPTY, ws');
    CommitPointsAreBoundaries(ws);
    CommitPointsAreBoundaries(ws');
    var s, s' := RunFrom(EMPTY, ws), RunFrom(EMPTY, ws');
    assert s.Bytes() == Concat(ws) && s'.Bytes() == Concat(ws');
    if Concat(ws) == Concat(ws') && CommitPoints(ws) == CommitPoints(ws') {
      BoundariesDetermine(s.commands, s'.commands, Concat(ws));
      assert s.pending == Concat(ws)[|Concat(s.commands)|..];
      assert s'.pending == Concat(ws')[|Concat(s'.commands)|..];
    }
  }

  /** Pending buffers never given back: each write allocates one, and only a commit frees one. */
  function Leaked(chunks: seq<Chunk>): int {
    var log := RunFrom(EMPTY, chunks);
    |chunks| - |log.commands| - if log.pending == "" then 0 else 1
  }

  /** Nothing leaks exactly when every write, except perhaps the last, ends in a newline. */
  lemma {:induction false} LeakFreeIff(chunks: seq<Chunk>)
    ensures Leaked(chunks) >= 0
    ensures Leaked(chunks) == 0 <==> forall i :: 0 <= i < |chunks| - 1 ==> chunks[i][|chunks[i]| - 1] == '\n'
    ensures |chunks| > 0 ==>
              var last := chunks[|chunks| - 1];
              RunFrom(EMPTY, chunks).pending == "" <==> last[|last| - 1] == '\n'
  {
    if |chunks| > 1 {
      var init := chunks[..|chunks| - 1];
      LeakFreeIff(init);
      assert Leaked(chunks) == Leaked(init) + if RunFrom(EMPTY, init).pending == "" then 0 else 1;
      assert init[|chunks| - 2] == chunks[|chunks| - 2];
      assert (forall i :: 0 <= i < |chunks| - 1 ==> chunks[i][|chunks[i]| - 1] == '\n')
        <==> (forall i :: 0 <= i < |init| - 1 ==> init[i][|init[i]| - 1] == '\n') && Ends(chunks[|chunks| - 2]);
    } else if |chunks| == 1 {
      assert chunks[..0] == [];
      assert RunFrom(EMPTY, chunks[..0]) == EMPTY;
      assert EMPTY.pending + chunks[0] == chunks[0];
    }
  }
}
