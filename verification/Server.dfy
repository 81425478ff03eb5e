/** The socket server on top of the device: sending, recognising seek commands, replying. */
module Server {
  import opened Parts
  import opened Machine
  import opened CommandLog
  import opened RingModel
  import opened Positions
  import opened DeviceModel
  import opened CStrings
  import opened RingBuffer
  import opened Device
  import opened SeekSyntax
  import opened Replies

  /** What one call of write does: sends at most n bytes, is interrupted, or fails. */
  datatype WriteResult = Sent(n: nat) | Interrupted | Broken

  /** Every call sends something or is interrupted. */
  predicate Obliging(script: seq<WriteResult>) {
    forall i :: 0 <= i < |script| ==> script[i] == Interrupted || (script[i].Sent? && script[i].n > 0)
  }

  /** What n bytes meet when they are sent until all are out, a call sends nothing, or one fails otherwise than by
      an interruption: how many get out, and whether it failed. */
  function Delivery(script: seq<WriteResult>, n: nat): (r: (nat, bool))
    ensures r.0 <= n && (r.1 <==> r.0 < n)
    decreases |script|
  {
    if n == 0 || |script| == 0 then (n, false)
    else
      match script[0]
      case Interrupted => Delivery(script[1..], n)
      case Broken => (0, true)
      case Sent(k) =>
        if k == 0 then (0, true)
        else
          var (more, failed) := Delivery(script[1..], n - Min(k, n));
          (Min(k, n) + more, failed)
  }

  /** All that the calls offer to send. */
  function Offered(script: seq<WriteResult>): nat {
    if |script| == 0 then 0
    else Offered(script[..|script| - 1]) + match script[|script| - 1] case Sent(k) => k case _ => 0
  }

  /** Before the first call that sends nothing or breaks, everything offered gets out; nothing does after it. */
  lemma {:induction false} DeliveryStops(pre: seq<WriteResult>, stop: WriteResult, post: seq<WriteResult>, n: nat)
    requires Obliging(pre) && (stop == Broken || stop == Sent(0))
    ensures Delivery(pre + [stop] + post, n) == (Min(Offered(pre), n), Offered(pre) < n)
    decreases |pre|
  {
    var script := pre + [stop] + post;
    if n == 0 || |pre| == 0 {
      assert script[0] == if |pre| == 0 then stop else pre[0];
    } else {
      assert script[0] == pre[0] && script[1..] == pre[1..] + [stop] + post;
      OfferedHead(pre);
      DeliveryStops(pre[1..], stop, post, if pre[0].Sent? then n - Min(pre[0].n, n) else n);
    }
  }

  lemma {:induction false} OfferedHead(script: seq<WriteResult>)
    requires |script| > 0
    ensures Offered(script) == (match script[0] case Sent(k) => k case _ => 0) + Offered(script[1..])
  {
    if |script| > 1 {
      var init := script[..|script| - 1];
      OfferedHead(init);
      assert script[1..][..|script| - 2] == init[1..];
    }
  }

  /** The client's end. The script says what the next calls of write do; after it every call sends all. */
  class Connection {
    var sent: string
    var script: seq<WriteResult>

    /** write(2): the number of bytes taken, or -1, and whether errno is EINTR. */
    method Write(data: string) returns (n: int, eintr: bool)
      requires data != ""
      modifies this
      ensures script == if old(script) == [] then [] else old(script)[1..]
      ensures var r := if old(script) == [] then Sent(|data|) else old(script)[0];
              match r
              case Interrupted => n == -1 && eintr
              case Broken => n == -1 && !eintr
              case Sent(k) => n == Min(k, |data|) && !eintr
      ensures n <= |data| && sent == if n > 0 then old(sent) + data[..n] else old(sent)
    {
      if script == [] {
        sent := sent + data;
        return |data|, false;
      }
      var r := script[0];
      script := script[1..];
      match r
      case Interrupted => return -1, true;
      case Broken => return -1, false;
      case Sent(k) =>
        n, eintr := Min(k, |data|), false;
        sent := sent + data[..n];
    }

    /** Sends the whole of p in order, or a proper prefix of it and fails, as far as the script lets it.
        Interruptions cost nothing. */
    method WriteAll(p: string) returns (r: int, ghost total: nat)
      modifies this
      ensures total <= |p| && sent == old(sent) + p[..total]
      ensures (r == 0 || r == -1) && (r == 0 <==> total == |p|)
      ensures (total, r == -1) == Delivery(old(script), |p|)
      ensures Obliging(old(script)) ==> r == 0 && Obliging(script)
    {
      var done := 0;
      while done < |p|
        invariant done <= |p| && sent == old(sent) + p[..done]
        invariant Obliging(old(script)) ==> Obliging(script)
        invariant var rest := Delivery(script, |p| - done);
                  Delivery(old(script), |p|) == (done + rest.0, rest.1)
        decreases |p| - done, |script|
      {
        var n, eintr := Write(p[done..]);
        if n > 0 {
          assert p[..done] + p[done..][..n] == p[..done + n];
          done := done + n;
          continue;
        }
        if n == -1 && eintr {
          continue;
        }
        return -1, done;
      }
      return 0, done;
    }
  }

  /** Overwrites the line ends of a C string with NULs. */
  method TrimCrlf(s: array<char>)
    requires NUL in s[..]
    modifies s
    ensures '\0' in s[..] && CStr(s[..]) == TrimTail(old(CStr(s[..])))
    ensures var was, text := old(CStr(s[..])), CStr(s[..]);
            && text <= was && (|text| > 0 ==> text[|text| - 1] != '\n' && text[|text| - 1] != '\r')
            && forall i :: |text| <= i < |was| ==> was[i] == '\n' || was[i] == '\r'
    ensures forall i :: 0 <= i < s.Length && !(|CStr(s[..])| <= i < |old(CStr(s[..]))|) ==> s[i] == old(s[i])
  {
    hide CStr, TrimTail;
    ghost var was, text := s[..], CStr(s[..]);
    var n := Strlen(s);
    ghost var len := n;
    while n > 0 && (s[n - 1] == '\n' || s[n - 1] == '\r')
      invariant 0 <= n <= len < s.Length && s[n] == NUL && s[len] == NUL
      invariant forall i :: 0 <= i < s.Length ==> s[i] == if n <= i < len then NUL else was[i]
      invariant forall i :: n <= i < len ==> IsCrLf(text[i])
    {
      n := n - 1;
      s[n] := NUL;
    }
    assert s[..n] == text[..n];
    assert s[..][n] == NUL;
    CStrIs(s[..], text[..n]);
    TrimTailIs(text, text[..n]);
  }

  /** Whether the line, without its line ends, is a seek command, and which. */
  method ParseSeekCommand(line: array<char>) returns (ok: bool, x: nat, y: nat)
    requires NUL in line[..]
    modifies line
    ensures ok ==> IsSeek(TrimTail(old(CStr(line[..]))), x, y)
    ensures !ok ==> forall a, b :: !IsSeek(TrimTail(old(CStr(line[..]))), a, b)
  {
    TrimCrlf(line);
    ghost var text := CStr(line[..]);
    var n := Strlen(line);
    var r := ScanSeek(line[..n]);
    x, y := r.x, r.y;
    ok := r.matched == 2 && line[r.consumed] == NUL;
    assert line[..n] == text;
    assert r.consumed < |text| ==> line[r.consumed] == text[r.consumed];
    forall a, b ensures IsSeek(text, a, b) <==> ok && a == x && b == y {
      ScanExact(text, a, b);
    }
  }

  /** The client broke off after a proper prefix of the data. */
  ghost predicate BrokenOff(err: int, before: string, after: string, data: string) {
    err == -1 && exists t: nat :: t < |data| && after == before + Take(data, t)
  }

  /** All of the data went out, or the client broke off. */
  ghost predicate Delivered(err: int, before: string, after: string, data: string) {
    (err == 0 && after == before + data) || BrokenOff(err, before, after, data)
  }

  /** The drain went out to its end, and the outcome tells which end, or the client broke off. */
  ghost predicate Relayed(err: int, undefined: bool, before: string, after: string, drain: Drained) {
    || (!undefined && BrokenOff(err, before, after, drain.bytes))
    || (after == before + drain.bytes && undefined == drain.end.Lost? && err == if drain.end.Refused? then 1 else 0)
  }

  /** One more piece of the data, sent in part or whole. */
  lemma {:induction false} Advance(data: string, done: nat, piece: string, rest: string, total: nat)
    requires done <= |data| && From(data, done) == piece + rest && total <= |piece|
    ensures done + total <= |data| && Take(data, done + total) == Take(data, done) + piece[..total]
    ensures total == |piece| ==> From(data, done + total) == rest
    ensures total < |piece| ==> done + total < |data|
  {
    assert data == Take(data, done) + From(data, done);
    assert data == Take(data, done) + piece[..total] + (piece[total..] + rest);
  }

  lemma {:induction false} WholeData(data: string)
    ensures Take(data, 0) == "" && From(data, 0) == data && Take(data, |data|) == data
    ensures forall n: nat :: n <= |data| && From(data, n) == "" ==> n == |data|
  {
  }

  /** One pass of the reply loop: at most 1024 bytes from the device on to the client. The result of the
      read is n; err is what WriteAll returned, after `total` of the n bytes. */
  method Relay(dev: AesdDevice, f: nat, client: Connection)
    returns (n: int, err: int, undefined: bool, ghost total: nat)
    requires dev.Valid() && f in dev.fPos
    modifies dev`fPos, client
    ensures dev.Valid() && f in dev.fPos
    ensures match ReadAt(dev.ring.log.commands, old(dev.fPos[f]), BUF_SIZE)
            case Failed => n == -1 && !undefined
            case Overrun => undefined && n == 0
            case Data(data) =>
              && n == |data| && !undefined && dev.fPos[f] == old(dev.fPos[f]) + n
              && total <= |data| && client.sent == old(client.sent) + data[..total]
              && (err == 0 <==> total == |data|) && (err == 0 || err == -1)
    ensures n <= 0 ==> err == 0 && client.sent == old(client.sent)
    ensures Obliging(old(client.script)) ==> Obliging(client.script) && err == 0
  {
    hide StartChar, Concat, ReadAt, Slots, Live;
    n, err, undefined, total := 0, 0, false, 0;
    var out := dev.Read(f, BUF_SIZE);
    match out
    case Undefined =>
      undefined := true;
    case Code(ret) =>
      n := ret;
    case Bytes(fileBuffer) =>
      n := |fileBuffer|;
      if n > 0 {
        err, total := client.WriteAll(fileBuffer);
      }
  }

  /** The reply loop: reads of 1024 bytes, each sent on, until a read gives nothing. In every state of the
      ring it sends the drain from the file's position. */
  method Reply(dev: AesdDevice, f: nat, client: Connection) returns (err: int, undefined: bool, ghost calls: nat)
    requires dev.Valid() && f in dev.fPos
    modifies dev`fPos, client
    ensures dev.Valid()
    ensures var drain := Drain(dev.ring.log.commands, old(dev.fPos[f]));
            && Relayed(err, undefined, old(client.sent), client.sent, drain)
            && calls <= drain.calls && (err != -1 ==> calls == drain.calls)
    ensures Obliging(old(client.script)) ==> err != -1
  {
    hide StartChar, Concat, Slots, Live, From, Take, ReadAt, Obliging, Drain;
    ghost var H, before, drain := dev.ring.log.commands, client.sent, Drain(dev.ring.log.commands, dev.fPos[f]);
    ghost var done: nat := 0;
    err, undefined, calls := 0, false, 0;
    WholeData(drain.bytes);
    while true
      invariant dev.Valid() && f in dev.fPos && dev.ring.log.commands == H && !undefined && err == 0
      invariant Obliging(old(client.script)) ==> Obliging(client.script)
      invariant done <= |drain.bytes| && client.sent == before + Take(drain.bytes, done)
      invariant From(drain.bytes, done) == Drain(H, dev.fPos[f]).bytes
      invariant drain.end == Drain(H, dev.fPos[f]).end && drain.calls == calls + Drain(H, dev.fPos[f]).calls
      decreases drain.calls - calls
    {
      ghost var left := Drain(H, dev.fPos[f]);
      DrainStep(H, dev.fPos[f]);
      var n;
      ghost var total;
      n, err, undefined, total := Relay(dev, f, client);
      calls := calls + 1;
      if n > 0 {
        ghost var piece := left.bytes[..n];
        Advance(drain.bytes, done, piece, Drain(H, dev.fPos[f]).bytes, total);
        assert client.sent == before + Take(drain.bytes, done + total);
        done := done + total;
      }
      if undefined {
        return;
      }
      if n <= 0 {
        if n < 0 {
          err := 1;
        }
        return;
      }
      if err != 0 {
        return;
      }
    }
  }

  lemma {:induction false} DrainStep(H: seq<string>, pos: int)
    ensures var r := Drain(H, pos);
            && r.calls > 0
            && match ReadAt(H, pos, BUF_SIZE)
               case Failed => r == Drained("", Refused, 1)
               case Overrun => r == Drained("", Lost, 1)
               case Data(data) =>
                 if data == "" then r == Drained("", Complete, 1)
                 else
                   var r' := Drain(H, pos + |data|);
                   && r.bytes == data + r'.bytes && r.bytes[..|data|] == data
                   && r.end == r'.end && r.calls == r'.calls + 1 && r'.calls > 0
  {
  }

  // ---- requests ----------------------------------------------------------------------------

  /** What the server takes for a seek command: the text up to a NUL, without its line ends. */
  ghost predicate SeekRequest(text: string, x: nat, y: nat) {
    IsSeek(TrimTail(CStr(text)), x, y)
  }

  ghost predicate Ordinary(text: string) {
    forall x: nat, y: nat :: !SeekRequest(text, x, y)
  }

  /** write_to_out_file: a seek command becomes an ioctl, anything else is written to the device. The copy that is
      parsed has no NUL of its own, so the verdict is on the request and the bytes that lie behind the copy. */
  method WriteToOutFile(dev: AesdDevice, f: nat, request: Chunk, tail: string)
    returns (ghost isSeek: bool, ghost x: nat, ghost y: nat)
    requires dev.Valid() && f in dev.fPos && Fits(dev.ring.log.Append(request)) && NUL in request + tail
    requires forall c: nat, o: nat :: SeekRequest(request + tail, c, o) ==> c <= SLOTS
    modifies dev`fPos, dev`chunks, dev.ring, dev.ring.entry, dev.heap
    ensures dev.Valid() && (isSeek <==> !Ordinary(request + tail))
    ensures isSeek ==>
              && SeekRequest(request + tail, x, y) && x <= SLOTS && y < 0x1_0000_0000
              && dev.View() == Step(old(dev.View()), DeviceModel.Ioctl(f, AESDCHAR_IOCSEEKTO, x, y)).0
    ensures !isSeek ==> dev.View() == Step(old(dev.View()), DeviceModel.Write(f, request)).0
  {
    hide StartChar, Concat, Slots, Live, TrimTail, IsSeek, CStr;
    var text := request + tail;
    var line := new char[|text|](i => if 0 <= i < |text| then text[i] else NUL);
    assert line[..] == text;
    var seek, c, o := ParseSeekCommand(line);
    isSeek, x, y := seek, c, o;
    if seek {
      assert SeekRequest(text, c, o);
      SeekBounds(TrimTail(CStr(text)), c, o);
      var out := dev.Ioctl(f, AESDCHAR_IOCSEEKTO, c, o);
    } else {
      var out := dev.Write(f, request);
    }
  }

  /** A file newly opened has position 0, so after an ordinary request the client gets the whole log while no
      command has been evicted, and nothing but an error ever after. After a seek command it gets the drain
      from the position that the ioctl sets: the log from the byte sought, at least if the search is aligned and
      the oldest live command no longer than the first, or the positions on the way are in place. */
  method HandleRequest(dev: AesdDevice, f: nat, request: Chunk, tail: string, client: Connection)
    returns (err: int, undefined: bool)
    requires dev.Valid() && f !in dev.fPos && Fits(dev.ring.log.Append(request)) && NUL in request + tail
    requires forall c: nat, o: nat :: SeekRequest(request + tail, c, o) ==> c <= SLOTS
    modifies dev`fPos, dev`chunks, dev.ring, dev.ring.entry, dev.heap, client
    ensures dev.Valid()
    ensures Ordinary(request + tail) ==>
              && dev.ring.log == old(dev.ring.log.Append(request)) && !undefined
              && Answer(dev.ring.log.commands, err, old(client.sent), client.sent, Obliging(old(client.script)))
    ensures forall c: nat, o: nat :: SeekRequest(request + tail, c, o) ==>
              && dev.ring.log == old(dev.ring.log)
              && SeekAnswer(dev.ring.log.commands, c, o, err, undefined,
                            old(client.sent), client.sent, Obliging(old(client.script)))
  {
    hide StartChar, Concat, Slots, Live, SeekRequest, Drain, SeekAnswer, Obliging, StartAbs, SeekOffset;
    dev.Open(f);
    ghost var isSeek, x, y := WriteToOutFile(dev, f, request, tail);
    ghost var log := dev.ring.log;
    if !isSeek {
      FreshDrain(log.commands);
    }
    ghost var calls;
    err, undefined, calls := Reply(dev, f, client);
    if isSeek {
      SoughtAnswer(log, x, y, err, undefined, old(client.sent), client.sent, Obliging(old(client.script)));
      forall c: nat, o: nat | SeekRequest(request + tail, c, o) ensures c == x && o == y {
        RequestUnique(request + tail, c, o, x, y);
      }
    }
  }

  /** The reply to an ordinary request: the whole log if no command was ever evicted, else an error and no byte. */
  ghost predicate Answer(H: seq<string>, err: int, before: string, after: string, obliging: bool) {
    if |H| <= SLOTS then Delivered(err, before, after, Concat(H)) && (obliging ==> err == 0)
    else err == 1 && after == before
  }

  /** The position that the seek ioctl sets, with the driver's 32-bit sums. */
  function SeekPos(H: seq<string>, c: nat, o: nat): nat {
    if c <= SLOTS then U32(U32(SeekOffset(H, c, o)) + StartChar(H)) else 0
  }

  /** The reply to a seek command: in every state the drain from the position set, and that is the log from
      the byte sought if all seeks are replied to as they should, or this one passes positions in place. */
  ghost predicate SeekAnswer(H: seq<string>, c: nat, o: nat, err: int, undefined: bool,
                             before: string, after: string, obliging: bool) {
    && Relayed(err, undefined, before, after, Drain(H, SeekPos(H, c, o))) && (obliging ==> err != -1)
    && (Sought(H, c, o) ==>
          && !undefined && Delivered(err, before, after, Rest(H, StartAbs(|H|) + c, o))
          && (obliging ==> err == 0))
  }

  lemma {:induction false} SoughtAnswer(log: Log, c: nat, o: nat, err: int, undefined: bool,
                                        before: string, after: string, obliging: bool)
    requires Fits(log) && (obliging ==> err != -1)
    requires Relayed(err, undefined, before, after, Drain(log.commands, SeekPos(log.commands, c, o)))
    ensures SeekAnswer(log.commands, c, o, err, undefined, before, after, obliging)
  {
    hide Sought, SeekPos, Drain, Rest, StartAbs;
    if Sought(log.commands, c, o) {
      SoughtPosition(log, c, o);
    }
  }

  lemma {:induction false} RequestUnique(text: string, x: nat, y: nat, x': nat, y': nat)
    requires SeekRequest(text, x, y) && SeekRequest(text, x', y')
    ensures x == x' && y == y'
  {
    SeekUnique(TrimTail(CStr(text)), x, y, x', y');
  }

  lemma {:induction false} SeekBounds(s: string, x: nat, y: nat)
    requires IsSeek(s, x, y)
    ensures x < 0x1_0000_0000 && y < 0x1_0000_0000
  {
  }

  /** Below 2^31 the ioctl's sums do not wrap, and the drain from there is the log from the byte sought. */
  lemma {:induction false} SoughtPosition(log: Log, c: nat, o: nat)
    requires Fits(log) && Sought(log.commands, c, o)
    ensures var H := log.commands;
            var r := Drain(H, SeekPos(H, c, o));
            r.bytes == Rest(H, StartAbs(|H|) + c, o) && r.end == Complete
  {
    hide StartChar, Concat, Slots, Live, Rest, SeekOffset, Drain, PlacedOnTheWay;
    SoughtBound(log.commands, c, o);
    SoughtDrain(log.commands, c, o);
  }

  lemma {:induction false} SoughtBound(H: seq<string>, c: nat, o: nat)
    requires Sought(H, c, o)
    ensures c < SLOTS && StartChar(H) + SeekOffset(H, c, o) <= |Concat(H)|
  {
    hide Drain, Slots, StartChar, Concat;
    SoughtDrain(H, c, o);
    DrainEnds(H, StartChar(H) + SeekOffset(H, c, o));
  }

  // ---- the bytes behind the copy -----------------------------------------------------------

  /** A NUL in the request or right behind it makes the tail irrelevant. */
  lemma {:induction false} TerminatedRequest(request: string, tail: string)
    requires '\0' in request || (tail != "" && tail[0] == '\0')
    ensures CStr(request + tail) == CStr(request)
  {
    CStrIs(request + tail, CStr(request));
  }

  /** A printed seek command with its newline is taken for one exactly when what lies behind it, up to a NUL,
      is nothing but line ends. */
  lemma {:induction false} TailVerdict(x: nat, y: nat, tail: string)
    requires x < 0x1_0000_0000 && y < 0x1_0000_0000 && '\0' in tail
    ensures var text := "AESDCHAR_IOCSEEKTO:" + Dec(x) + "," + Dec(y) + "\n" + tail;
            var behind := CStr(tail);
            if forall i :: 0 <= i < |behind| ==> behind[i] == '\n' || behind[i] == '\r' then SeekRequest(text, x, y)
            else Ordinary(text)
  {
    hide CStr, IsSeek, Dec, TrimTail;
    var p, u := Print(x, y), CStr(tail);
    PrintPlain(x, y);
    assert tail[..|u|] == u && tail[..|tail|] == tail;
    CStrIs(p + "\n" + tail, p + "\n" + u);
    assert p == "AESDCHAR_IOCSEEKTO:" + Dec(x) + "," + Dec(y);
    if forall i :: 0 <= i < |u| ==> u[i] == '\n' || u[i] == '\r' {
      PrintThenTrim("", "", x, "", "", y, "\n" + u);
      assert "AESDCHAR_IOCSEEKTO:" + "" + "" + Dec(x) + "," + "" + "" + Dec(y) == p;
      assert p + "\n" + u == p + ("\n" + u);
    } else {
      var v := TrimAfter(p + "\n", u);
      forall a: nat, b: nat ensures !IsSeek(p + "\n" + v, a, b) {
        PrintThenMore(x, y, "\n" + v, a, b);
        assert p + "\n" + v == p + ("\n" + v);
      }
    }
  }
}
