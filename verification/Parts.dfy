/** Byte strings cut into parts, and the coordinates of a byte in them.
    A C `char` is a Dafny `char`; a command, a chunk or a buffer is a `string`. */
module Parts {

  /** All parts laid end to end. */
  function Concat(parts: seq<string>): string {
    if |parts| == 0 then "" else Concat(parts[..|parts| - 1]) + parts[|parts| - 1]
  }

  /** The first n bytes of s, or all of s when it is shorter. */
  function Take(s: string, n: nat): (r: string)
    ensures |r| == Min(n, |s|)
  {
    if |s| <= n then s else s[..n]
  }

  /** s[n..], written so that dropping nothing leaves the term s itself. */
  function From(s: string, n: nat): (r: string)
    requires n <= |s|
    ensures |r| == |s| - n
  {
    if n == 0 then s else s[n..]
  }

  /** s[lo..hi], likewise. */
  function Slice(s: string, lo: nat, hi: nat): (r: string)
    requires lo <= hi <= |s|
    ensures |r| == hi - lo
  {
    if lo == 0 then s[..hi] else s[lo..hi]
  }

  function Min(a: nat, b: nat): nat {
    if a <= b then a else b
  }

  lemma {:induction false} TakeFrom(s: string, lo: nat, n: nat)
    requires lo <= |s|
    ensures Take(From(s, lo), n) == Slice(s, lo, Min(lo + n, |s|))
  {
  }

  lemma {:induction false} SliceJoin(s: string, a: nat, b: nat, c: nat)
    requires a <= b <= c <= |s|
    ensures Slice(s, a, b) + Slice(s, b, c) == Slice(s, a, c)
  {
  }

  lemma {:induction false} SlicePrefix(s: string, t: string, lo: nat, hi: nat)
    requires s <= t && lo <= hi <= |s|
    ensures Slice(s, lo, hi) == Slice(t, lo, hi)
  {
  }

  lemma {:induction false} FromAppend(s: string, t: string, n: nat)
    requires n <= |t|
    ensures From(s + t, |s| + n) == From(t, n)
  {
  }

  lemma {:induction false} ConcatAppend(a: seq<string>, b: seq<string>)
    ensures Concat(a + b) == Concat(a) + Concat(b)
    decreases |b|
  {
    if |b| == 0 {
      assert a + b == a;
    } else {
      var init := b[..|b| - 1];
      ConcatAppend(a, init);
      assert (a + b)[..|a + b| - 1] == a + init;
      assert (a + b)[|a + b| - 1] == b[|b| - 1];
      assert Concat(a) + (Concat(init) + b[|b| - 1]) == (Concat(a) + Concat(init)) + b[|b| - 1];
    }
  }

  lemma {:induction false} ConcatStep(parts: seq<string>, i: nat)
    requires i < |parts|
    ensures Concat(parts[..i + 1]) == Concat(parts[..i]) + parts[i]
  {
    assert parts[..i + 1][..i] == parts[..i];
  }

  lemma {:induction false} ConcatSplit(parts: seq<string>, i: nat)
    requires i <= |parts|
    ensures Concat(parts) == Concat(parts[..i]) + Concat(parts[i..])
  {
    ConcatAppend(parts[..i], parts[i..]);
    assert parts[..i] + parts[i..] == parts;
  }

  lemma {:induction false} ConcatCut(parts: seq<string>, i: nat)
    requires i < |parts|
    ensures Concat(parts) == Concat(parts[..i]) + (parts[i] + Concat(parts[i + 1..]))
  {
    ConcatSplit(parts, i + 1);
    ConcatStep(parts, i);
  }

  lemma {:induction false} ConcatHead(parts: seq<string>)
    requires |parts| > 0
    ensures Concat(parts) == parts[0] + Concat(parts[1..])
  {
    ConcatCut(parts, 0);
  }

  /** Byte `off` of the concatenation is byte `b` of part `j`. */
  ghost predicate IsAt(parts: seq<string>, off: int, j: nat, b: nat) {
    j < |parts| && b < |parts[j]| && |Concat(parts[..j])| + b == off
  }

  /** What follows byte b of part j, or the end of part j when b is its length. */
  lemma {:induction false} FromPart(parts: seq<string>, j: nat, b: nat)
    requires j < |parts| && b <= |parts[j]|
    ensures |Concat(parts[..j])| + b <= |Concat(parts)|
    ensures From(Concat(parts), |Concat(parts[..j])| + b) == From(parts[j], b) + Concat(parts[j + 1..])
  {
    ConcatCut(parts, j);
    FromAppend(Concat(parts[..j]), parts[j] + Concat(parts[j + 1..]), b);
  }

  lemma {:induction false} IsAtBytes(parts: seq<string>, off: int, j: nat, b: nat)
    requires IsAt(parts, off, j, b)
    ensures 0 <= off < |Concat(parts)|
    ensures Concat(parts)[off] == parts[j][b]
    ensures From(Concat(parts), off) == From(parts[j], b) + Concat(parts[j + 1..])
  {
    ConcatCut(parts, j);
    FromPart(parts, j, b);
  }

  lemma {:induction false} PrefixMonotone(parts: seq<string>, i: nat, j: nat)
    requires i <= j <= |parts|
    ensures |Concat(parts[..i])| <= |Concat(parts[..j])| <= |Concat(parts)|
  {
    ConcatSplit(parts[..j], i);
    assert parts[..j][..i] == parts[..i];
    ConcatSplit(parts, j);
  }

  /** A byte has one pair of coordinates. */
  lemma {:induction false} IsAtUnique(parts: seq<string>, off: int, j: nat, b: nat, j': nat, b': nat)
    requires IsAt(parts, off, j, b) && IsAt(parts, off, j', b')
    ensures j == j' && b == b'
  {
    if j < j' {
      ConcatStep(parts, j);
      PrefixMonotone(parts, j + 1, j');
    } else if j' < j {
      ConcatStep(parts, j');
      PrefixMonotone(parts, j' + 1, j);
    }
  }

  lemma {:induction false} IsAtExists(parts: seq<string>, off: nat)
    requires off < |Concat(parts)|
    ensures exists j: nat, b: nat :: IsAt(parts, off, j, b)
  {
    var init := parts[..|parts| - 1];
    if off < |Concat(init)| {
      IsAtExists(init, off);
      var j: nat, b: nat :| IsAt(init, off, j, b);
      assert init[..j] == parts[..j];
      assert IsAt(parts, off, j, b);
    } else {
      assert IsAt(parts, off, |init|, off - |Concat(init)|);
    }
  }

  /** The coordinates of byte `off`; part number |parts| when there is no such byte. */
  ghost function Locate(parts: seq<string>, off: nat): (r: (nat, nat))
    ensures off < |Concat(parts)| ==> IsAt(parts, off, r.0, r.1)
    ensures off >= |Concat(parts)| ==> r.0 == |parts|
  {
    if off < |Concat(parts)| then
      IsAtExists(parts, off);
      var j: nat, b: nat :| IsAt(parts, off, j, b);
      (j, b)
    else (|parts|, 0)
  }

  lemma {:induction false} LocateIs(parts: seq<string>, off: nat, j: nat, b: nat)
    requires IsAt(parts, off, j, b)
    ensures Locate(parts, off) == (j, b)
  {
    IsAtBytes(parts, off, j, b);
    var r := Locate(parts, off);
    IsAtUnique(parts, off, j, b, r.0, r.1);
  }

  ghost predicate SameSizes(a: seq<string>, b: seq<string>) {
    |a| == |b| && forall j :: 0 <= j < |a| ==> |a[j]| == |b[j]|
  }

  /** Equal sizes part by part are equal sizes prefix by prefix, and conversely. */
  lemma {:induction false} SameSizesIff(a: seq<string>, b: seq<string>)
    requires |a| == |b|
    ensures SameSizes(a, b) <==> forall j :: 0 <= j <= |a| ==> |Concat(a[..j])| == |Concat(b[..j])|
  {
    if SameSizes(a, b) {
      forall j | 0 <= j <= |a| ensures |Concat(a[..j])| == |Concat(b[..j])| {
        SameSizesPrefix(a, b, j);
      }
    }
    if forall j :: 0 <= j <= |a| ==> |Concat(a[..j])| == |Concat(b[..j])| {
      forall j | 0 <= j < |a| ensures |a[j]| == |b[j]| {
        ConcatStep(a, j);
        ConcatStep(b, j);
        assert |Concat(a[..j + 1])| == |Concat(b[..j + 1])|;
      }
    }
  }

  lemma {:induction false} SameSizesPrefix(a: seq<string>, b: seq<string>, j: nat)
    requires SameSizes(a, b) && j <= |a|
    ensures |Concat(a[..j])| == |Concat(b[..j])|
  {
    if j > 0 {
      SameSizesPrefix(a, b, j - 1);
      ConcatStep(a, j - 1);
      ConcatStep(b, j - 1);
    }
  }

  /** Parts that are nowhere shorter and together as long are of the same sizes. */
  lemma {:induction false} NowhereShorter(a: seq<string>, b: seq<string>)
    requires |a| == |b| && forall j :: 0 <= j < |a| ==> |a[j]| >= |b[j]|
    ensures |Concat(a)| >= |Concat(b)|
    ensures |Concat(a)| == |Concat(b)| ==> SameSizes(a, b)
  {
    if |a| > 0 {
      var n := |a| - 1;
      NowhereShorter(a[..n], b[..n]);
      if |Concat(a)| == |Concat(b)| {
        forall j | 0 <= j < |a| ensures |a[j]| == |b[j]| {
          assert j < n ==> |a[..n][j]| == |b[..n][j]|;
        }
      }
    }
  }
}
