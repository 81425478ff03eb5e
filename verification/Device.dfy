/** The driver's system calls on the one device, each refining a step of the state machine. */
module Device {
  import opened Parts
  import opened Machine
  import opened CommandLog
  import opened RingModel
  import opened DeviceModel
  import opened Kernel
  import opened CStrings
  import opened RingBuffer

  class AesdDevice {
    const heap: Heap
    const ring: Ring
    /** The position of each open file. */
    var fPos: map<nat, int>
    /** Everything written so far, write by write. */
    ghost var chunks: seq<Chunk>

    /** The log is that of the writes so far, and between calls the buffers allocated are those of the live
        slots, that of the pending string if there is one, and the leaked ones. */
    ghost predicate Valid()
      reads this, ring, ring.entry, heap
    {
      && ring.heap == heap && ring.Valid()
      && ring.log == RunFrom(EMPTY, chunks)
      && |heap.mem| == |Live(ring.log.commands)| + (if ring.log.pending == "" then 0 else 1) + Leaked(chunks)
    }

    ghost function View(): State
      reads this, ring
    {
      State(ring.log, fPos)
    }

    constructor ()
      ensures Valid() && fresh(heap) && fresh(ring) && fresh(ring.entry)
      ensures View() == State(EMPTY, map[]) && chunks == []
    {
      var h := new Heap();
      var r := new Ring(h);
      heap, ring, fPos, chunks := h, r, map[], [];
    }

    method Open(f: nat)
      requires Valid() && Enabled(View(), DeviceModel.Open(f))
      modifies this`fPos
      ensures Valid() && View() == Step(old(View()), DeviceModel.Open(f)).0
    {
      fPos := fPos[f := 0];
    }

    /** aesd_read: into a zeroed kernel buffer, then to the user. */
    method Read(f: nat, count: nat) returns (out: Outcome)
      requires Valid() && Enabled(View(), DeviceModel.Read(f, count))
      modifies this`fPos
      ensures Valid() && (View(), out) == Step(old(View()), DeviceModel.Read(f, count))
    {
      hide Slots, StartChar, Concat, Live, ReadAt;
      var kbuf := new char[count](_ => NUL);
      var retval, newPos, overrun := ring.Read(kbuf, count, fPos[f]);
      if overrun {
        return Undefined;
      }
      assert fPos == fPos[f := fPos[f]];
      fPos := fPos[f := newPos];
      out := if retval >= 0 then Bytes(kbuf[..retval]) else Code(retval);
    }

    /** aesd_write: the user's bytes in a kernel buffer of the call's own, freed at the end. */
    method Write(f: nat, chunk: Chunk) returns (out: Outcome)
      requires Valid() && Enabled(View(), DeviceModel.Write(f, chunk))
      requires Fits(ring.log.Append(chunk))
      modifies this`chunks, ring, ring.entry, heap
      ensures Valid() && (View(), out) == Step(old(View()), DeviceModel.Write(f, chunk))
      ensures out == Code(|chunk|) && chunks == old(chunks) + [chunk]
    {
      hide Slots, StartChar, Concat, Live;
      var count := |chunk|;
      var kbuf := Stage(chunk);
      ring.AddEntry(Entry(kbuf, count));
      Unstage(kbuf);
      assert (chunks + [chunk])[..|chunks|] == chunks;
      chunks := chunks + [chunk];
      out := Code(count);
    }

    method Stage(chunk: Chunk) returns (kbuf: Ptr)
      requires ring.heap == heap && ring.Valid()
      modifies heap
      ensures ring.Valid() && ring.Foreign(kbuf)
      ensures kbuf in heap.mem && heap.mem[kbuf] == chunk && |heap.mem| == |old(heap.mem)| + 1
    {
      hide Slots, StartChar, Concat, Live;
      kbuf := heap.KmallocZeroed(|chunk|);
      FreshApart(ring.entry[..], Slots(ring.log.commands), old(heap.mem), kbuf);
      heap.CopyFromUser(kbuf, chunk);
      ring.ForeignChange(kbuf);
    }

    method Unstage(kbuf: Ptr)
      requires ring.heap == heap && ring.Valid() && ring.Foreign(kbuf) && kbuf in heap.mem
      modifies heap
      ensures ring.Valid() && |heap.mem| == |old(heap.mem)| - 1
    {
      heap.Kfree(kbuf);
      ring.ForeignChange(kbuf);
    }

    /** aesd_llseek: positions are neither checked nor clamped. */
    method Llseek(f: nat, off: int, whence: int) returns (out: Outcome)
      requires Valid() && Enabled(View(), DeviceModel.Llseek(f, off, whence))
      modifies this`fPos
      ensures Valid() && (View(), out) == Step(old(View()), DeviceModel.Llseek(f, off, whence))
    {
      hide Slots, StartChar, Concat, Live, ReadAt;
      var newpos: int;
      if whence == SEEK_SET {
        newpos := ring.startCharAbs + off;
      } else if whence == SEEK_CUR {
        newpos := fPos[f] + off;
      } else if whence == SEEK_END {
        newpos := ring.wCharAbs + off;
      } else {
        return Code(-EINVAL);
      }
      fPos := fPos[f := newpos];
      out := Code(newpos);
    }

    /** aesd_unlocked_ioctl: three checks of the command word, all passed by AESDCHAR_IOCSEEKTO alone. */
    method Ioctl(f: nat, cmd: nat, writeCmd: nat, writeCmdOffset: nat) returns (out: Outcome)
      requires Valid() && Enabled(View(), DeviceModel.Ioctl(f, cmd, writeCmd, writeCmdOffset))
      modifies this`fPos
      ensures Valid() && (View(), out) == Step(old(View()), DeviceModel.Ioctl(f, cmd, writeCmd, writeCmdOffset))
    {
      hide Slots, StartChar, Concat, Live;
      if cmd / 0x100 % 0x100 != 0x16 {
        return Code(-EINVAL);
      }
      if cmd % 0x100 > 1 {
        return Code(-EINVAL);
      }
      if cmd != AESDCHAR_IOCSEEKTO {
        return Code(-EINVAL);
      }
      var bytes := ring.GetBytesToOfs(writeCmd, writeCmdOffset);
      fPos := fPos[f := U32(bytes + ring.startCharAbs)];
      out := Code(0);
    }
  }
}
