/** The kernel's byte allocator, as far as the driver can see it: live buffers by address. */
module Kernel {

  type Ptr = nat
  const NULL: Ptr := 0

  class Heap {
    var mem: map<Ptr, string>
    var next: Ptr

    ghost predicate Valid()
      reads this
    {
      NULL < next && forall p :: p in mem ==> NULL < p < next
    }

    constructor ()
      ensures Valid() && mem == map[]
    {
      mem, next := map[], 1;
    }

    /** A buffer of n bytes, of any content, at an address not in use. */
    method Kmalloc(n: nat) returns (p: Ptr)
      requires Valid()
      modifies this
      ensures Valid()
      ensures p != NULL && p !in old(mem)
      ensures p in mem && |mem[p]| == n && mem == old(mem)[p := mem[p]]
      ensures |mem| == |old(mem)| + 1
    {
      p := next;
      mem, next := mem[p := seq(n, _ => '?')], next + 1;
      assert mem.Keys == old(mem).Keys + {p};
    }

    /** Only a live buffer can be freed. */
    method Kfree(p: Ptr)
      requires Valid() && p in mem
      modifies this`mem
      ensures Valid()
      ensures mem == old(mem) - {p}
      ensures |mem| == |old(mem)| - 1
    {
      mem := mem - {p};
      assert mem.Keys == old(mem).Keys - {p};
    }

    method Memset(p: Ptr, c: char, n: nat)
      requires Valid() && p in mem && n <= |mem[p]|
      modifies this`mem
      ensures Valid() && |mem| == |old(mem)|
      ensures mem == old(mem)[p := seq(n, _ => c) + old(mem[p])[n..]]
    {
      mem := mem[p := seq(n, _ => c) + mem[p][n..]];
      assert mem.Keys == old(mem).Keys;
    }

    /** kmalloc and memset to zero, always together in the driver. */
    method KmallocZeroed(n: nat) returns (p: Ptr)
      requires Valid()
      modifies this
      ensures Valid()
      ensures p != NULL && p !in old(mem)
      ensures mem == old(mem)[p := seq(n, _ => '\0')]
      ensures |mem| == |old(mem)| + 1
    {
      p := Kmalloc(n);
      ghost var raw := mem[p];
      Memset(p, '\0', n);
      assert raw[n..] == "";
      assert seq(n, _ => '\0') + raw[n..] == seq(n, _ => '\0');
    }

    method CopyFromUser(p: Ptr, bytes: string)
      requires Valid() && p in mem && |bytes| == |mem[p]|
      modifies this`mem
      ensures Valid() && |mem| == |old(mem)|
      ensures mem == old(mem)[p := bytes]
    {
      mem := mem[p := bytes];
      assert mem.Keys == old(mem).Keys;
    }

    /** Copying nothing reads and writes nothing, whatever the source address. */
    method Memcpy(dst: Ptr, at: nat, src: Ptr, n: nat)
      requires Valid() && dst in mem && at + n <= |mem[dst]|
      requires n > 0 ==> src in mem && n <= |mem[src]|
      modifies this`mem
      ensures Valid() && |mem| == |old(mem)|
      ensures mem == old(mem)[dst := Patch(old(mem[dst]), at, if n > 0 then old(mem[src])[..n] else "")]
    {
      mem := mem[dst := Patch(mem[dst], at, if n > 0 then mem[src][..n] else "")];
      assert mem.Keys == old(mem).Keys;
    }
  }

  /** s with its bytes from `at` on overwritten. */
  function Patch(s: string, at: nat, bytes: string): (r: string)
    requires at + |bytes| <= |s|
    ensures |r| == |s|
  {
    s[..at] + bytes + s[at + |bytes|..]
  }

  /** Two neighbouring copies that fill the buffer leave nothing of what it held. */
  lemma {:induction false} PatchJoin(s: string, a: string, b: string)
    requires |s| == |a| + |b|
    ensures Patch(Patch(s, 0, a), |a|, b) == a + b
    ensures Patch(s, 0, "") == s
    ensures b == "" ==> Patch(s, 0, a) == a
  {
  }
}
