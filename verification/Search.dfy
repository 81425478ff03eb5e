/** The position search over any row of slots that stands for the last commands of a log:
    exactly when it leads to the byte that the position numbers. */
module Search {
  import opened Parts
  import opened RingModel

  /** The commands that the scanned slots stand for. */
  function Meant(H: seq<string>, scanned: seq<string>): seq<string>
    requires |scanned| <= |H|
  {
    if |scanned| == |H| then H else H[|H| - |scanned|..]
  }

  /** What every state of the ring gives: no scanned slot is empty, together they are as long as the
      commands meant, and the window starts before the end of the log. */
  ghost predicate Row(H: seq<string>, scanned: seq<string>, startChar: nat) {
    && |scanned| <= |H|
    && (forall j :: 0 <= j < |scanned| ==> |scanned[j]| > 0)
    && |Concat(scanned)| == |Concat(Meant(H, scanned))|
    && (if |scanned| == 0 then startChar == |Concat(H)| else startChar < |Concat(H)|)
  }

  /** The position leads to the very byte it numbers in the log. */
  ghost predicate FaithfulIn(H: seq<string>, scanned: seq<string>, startChar: nat, pos: int)
    requires |scanned| <= |H|
  {
    var w := ResolveIn(H, scanned, startChar, pos);
    w.At? && IsAt(H, pos, w.cmd, w.ofs)
  }

  /** Equal sizes make the two rows give the same coordinates. */
  lemma {:induction false} SameSizesLocate(a: seq<string>, b: seq<string>, off: nat)
    requires SameSizes(a, b)
    ensures |Concat(a)| == |Concat(b)|
    ensures Locate(a, off).0 == Locate(b, off).0
    ensures off < |Concat(a)| ==> Locate(a, off) == Locate(b, off)
  {
    assert a[..|a|] == a && b[..|b|] == b;
    SameSizesPrefix(a, b, |a|);
    if off < |Concat(a)| {
      var (j, i) := Locate(a, off);
      SameSizesPrefix(a, b, j);
      LocateIs(b, off, j, i);
    }
  }

  lemma {:induction false} MeantPrefix(H: seq<string>, s: nat, j: nat)
    requires s + j <= |H|
    ensures Concat(H[..s + j]) == Concat(H[..s]) + Concat(H[s..][..j])
  {
    ConcatAppend(H[..s], H[s..][..j]);
    assert H[s..][..j] == H[s..s + j];
    assert H[..s] + H[s..s + j] == H[..s + j];
  }

  /** Coordinates in the commands meant are coordinates in the whole log. */
  lemma {:induction false} MeantIsAt(H: seq<string>, s: nat, off: nat, j: nat, b: nat)
    requires s <= |H|
    ensures IsAt(H[s..], off, j, b) <==> IsAt(H, |Concat(H[..s])| + off, s + j, b)
  {
    if s + j < |H| {
      MeantPrefix(H, s, j);
    }
  }

  lemma {:induction false} SizesMakeFaithful(H: seq<string>, scanned: seq<string>, startChar: nat, pos: int)
    requires |scanned| <= |H| && SameSizes(scanned, Meant(H, scanned))
    requires startChar + |Concat(Meant(H, scanned))| == |Concat(H)|
    requires startChar <= pos < |Concat(H)|
    ensures FaithfulIn(H, scanned, startChar, pos)
  {
    var s, off := |H| - |scanned|, pos - startChar;
    ConcatSplit(H, s);
    SameSizesLocate(scanned, Meant(H, scanned), off);
    var (j, b) := Locate(scanned, off);
    MeantIsAt(H, s, off, j, b);
  }

  /** A byte of a scanned slot is found where the slot sum says. */
  lemma {:induction false} RowFinds(H: seq<string>, scanned: seq<string>, startChar: nat, j: nat, b: nat)
    requires |scanned| <= |H| && j < |scanned| && b < |scanned[j]|
    ensures ResolveIn(H, scanned, startChar, startChar + |Concat(scanned[..j])| + b)
         == if startChar + |Concat(scanned[..j])| + b <= |Concat(H)| then At(|H| - |scanned| + j, b) else OutOfRange
  {
    LocateIs(scanned, |Concat(scanned[..j])| + b, j, b);
  }

  /** In absolute positions, slot j begins where the command it stands for begins. */
  ghost predicate Starts(H: seq<string>, scanned: seq<string>, startChar: nat, j: nat)
    requires j < |scanned| <= |H|
  {
    startChar + |Concat(scanned[..j])| == |Concat(H[..|H| - |scanned| + j])|
  }

  /** It is enough that the slots begin right whose beginning is below the end of the log. */
  lemma {:induction false} StartsMakeSizes(H: seq<string>, scanned: seq<string>, startChar: nat)
    requires Row(H, scanned, startChar)
    requires forall j :: 0 <= j < |scanned| && startChar + |Concat(scanned[..j])| < |Concat(H)|
               ==> Starts(H, scanned, startChar, j)
    ensures SameSizes(scanned, Meant(H, scanned)) && startChar + |Concat(Meant(H, scanned))| == |Concat(H)|
  {
    var meant, n := Meant(H, scanned), |scanned|;
    var s := |H| - n;
    ConcatSplit(H, s);
    if n > 0 {
      assert scanned[..0] == [];
      assert Starts(H, scanned, startChar, 0);
    }
    forall j | 0 <= j <= n ensures |Concat(scanned[..j])| == |Concat(meant[..j])| {
      if j < n {
        ConcatStep(scanned, j);
        PrefixMonotone(scanned, j + 1, n);
        assert Starts(H, scanned, startChar, j);
        MeantPrefix(H, s, j);
      } else {
        assert scanned[..n] == scanned && meant[..n] == meant;
      }
    }
    SameSizesIff(scanned, meant);
  }

  lemma {:induction false} FaithfulIff(H: seq<string>, scanned: seq<string>, startChar: nat)
    requires Row(H, scanned, startChar)
    ensures SameSizes(scanned, Meant(H, scanned)) && startChar + |Concat(Meant(H, scanned))| == |Concat(H)|
       <==> forall pos :: startChar <= pos < |Concat(H)| ==> FaithfulIn(H, scanned, startChar, pos)
  {
    var meant := Meant(H, scanned);
    if SameSizes(scanned, meant) && startChar + |Concat(meant)| == |Concat(H)| {
      forall pos | startChar <= pos < |Concat(H)| ensures FaithfulIn(H, scanned, startChar, pos) {
        SizesMakeFaithful(H, scanned, startChar, pos);
      }
    }
    if forall pos :: startChar <= pos < |Concat(H)| ==> FaithfulIn(H, scanned, startChar, pos) {
      forall j | 0 <= j < |scanned| && startChar + |Concat(scanned[..j])| < |Concat(H)|
        ensures Starts(H, scanned, startChar, j)
      {
        assert FaithfulIn(H, scanned, startChar, startChar + |Concat(scanned[..j])|);
        RowFinds(H, scanned, startChar, j, 0);
      }
      StartsMakeSizes(H, scanned, startChar);
    }
  }

  // ---- what reads return -------------------------------------------------------------------

  /** What a read at pos should return: the log from there on, or a failure outside the window. */
  ghost function SliceFrom(H: seq<string>, startChar: nat, pos: int, len: nat): ReadResult {
    var all := Concat(H);
    if startChar <= pos <= |all| then Data(Slice(all, pos, Min(pos + len, |all|))) else Failed
  }

  /** A condition on sizes: the position falls into a slot that begins where its command begins, and not past
      the end of that command; past all slots only the end of the log is in place. */
  ghost predicate PlacedIn(H: seq<string>, scanned: seq<string>, startChar: nat, pos: int)
    requires |scanned| <= |H|
  {
    startChar <= pos <= |Concat(H)| ==>
      var off := pos - startChar;
      if off >= |Concat(scanned)| then pos == |Concat(H)|
      else
        var (j, b) := Locate(scanned, off);
        Starts(H, scanned, startChar, j) && b <= |H[|H| - |scanned| + j]|
  }

  lemma {:induction false} PlacedReads(H: seq<string>, scanned: seq<string>, startChar: nat, pos: int, len: nat)
    requires |scanned| <= |H| && PlacedIn(H, scanned, startChar, pos)
    ensures ReadFrom(H, ResolveIn(H, scanned, startChar, pos), len) == SliceFrom(H, startChar, pos, len)
  {
    hide Concat;
    var all := Concat(H);
    if startChar <= pos <= |all| {
      TakeFrom(all, pos, len);
      if pos - startChar < |Concat(scanned)| {
        var (j, b) := Locate(scanned, pos - startChar);
        var k := |H| - |scanned| + j;
        FromPart(H, k, b);
        assert From(all, pos) == Rest(H, k, b);
      }
    }
  }

  /** The length of a full read tells where it began. */
  lemma {:induction false} FullReadPlaced(H: seq<string>, scanned: seq<string>, startChar: nat, pos: int)
    requires |scanned| <= |H|
    requires var n := |Concat(H)|;
             ReadFrom(H, ResolveIn(H, scanned, startChar, pos), n) == SliceFrom(H, startChar, pos, n)
    ensures PlacedIn(H, scanned, startChar, pos)
  {
    hide Concat;
    var all := Concat(H);
    if startChar <= pos <= |all| && pos - startChar < |Concat(scanned)| {
      var (j, b) := Locate(scanned, pos - startChar);
      var k := |H| - |scanned| + j;
      assert b <= |H[k]|;
      FromPart(H, k, b);
      assert |Rest(H, k, b)| == |all| - |Concat(H[..k])| - b;
    }
  }

  /** Reads at a position return the log from there on, for every length, exactly when it is in place. */
  lemma {:induction false} ReadsIff(H: seq<string>, scanned: seq<string>, startChar: nat, pos: int)
    requires |scanned| <= |H|
    ensures (forall len: nat ::
               ReadFrom(H, ResolveIn(H, scanned, startChar, pos), len) == SliceFrom(H, startChar, pos, len))
       <==> PlacedIn(H, scanned, startChar, pos)
  {
    hide ReadFrom, ResolveIn, SliceFrom, PlacedIn;
    if PlacedIn(H, scanned, startChar, pos) {
      forall len: nat
        ensures ReadFrom(H, ResolveIn(H, scanned, startChar, pos), len) == SliceFrom(H, startChar, pos, len)
      {
        PlacedReads(H, scanned, startChar, pos, len);
      }
    } else {
      var n := |Concat(H)|;
      if ReadFrom(H, ResolveIn(H, scanned, startChar, pos), n) == SliceFrom(H, startChar, pos, n) {
        FullReadPlaced(H, scanned, startChar, pos);
      }
    }
  }

  lemma {:induction false} SizesMakePlaced(H: seq<string>, scanned: seq<string>, startChar: nat, pos: int)
    requires |scanned| <= |H| && SameSizes(scanned, Meant(H, scanned))
    requires startChar + |Concat(Meant(H, scanned))| == |Concat(H)|
    ensures PlacedIn(H, scanned, startChar, pos)
  {
    SameSizesLocate(scanned, Meant(H, scanned), 0);
    if startChar <= pos < |Concat(H)| {
      SizesMakeFaithful(H, scanned, startChar, pos);
    }
  }

  /** All positions are in place exactly when sizes and window start are right. */
  lemma {:induction false} PlacedIff(H: seq<string>, scanned: seq<string>, startChar: nat)
    requires Row(H, scanned, startChar)
    ensures SameSizes(scanned, Meant(H, scanned)) && startChar + |Concat(Meant(H, scanned))| == |Concat(H)|
       <==> forall pos :: PlacedIn(H, scanned, startChar, pos)
  {
    var meant := Meant(H, scanned);
    if SameSizes(scanned, meant) && startChar + |Concat(meant)| == |Concat(H)| {
      forall pos ensures PlacedIn(H, scanned, startChar, pos) {
        SizesMakePlaced(H, scanned, startChar, pos);
      }
    }
    if forall pos :: PlacedIn(H, scanned, startChar, pos) {
      forall j | 0 <= j < |scanned| && startChar + |Concat(scanned[..j])| < |Concat(H)|
        ensures Starts(H, scanned, startChar, j)
      {
        LocateIs(scanned, |Concat(scanned[..j])|, j, 0);
        assert PlacedIn(H, scanned, startChar, startChar + |Concat(scanned[..j])|);
      }
      StartsMakeSizes(H, scanned, startChar);
    }
  }

  /** A search that ends in slot j at byte b was for the sum of the first j slots plus b. */
  lemma {:induction false} RowResolvesIff(H: seq<string>, slots: seq<string>, n: nat, startChar: nat, j: nat, b: nat)
    requires j < n <= |H| && n <= |slots|
    ensures var pos := startChar + (|Concat(slots[..j])| + b);
            ResolveIn(H, slots[..n], startChar, pos) == At(|H| - n + j, b)
            <==> b < |slots[j]| && pos <= |Concat(H)|
  {
    var scanned := slots[..n];
    assert scanned[..j] == slots[..j];
    if b < |scanned[j]| {
      RowFinds(H, scanned, startChar, j, b);
    }
  }

  /** With equal sizes the slot sum is the distance of the byte from the first command meant. */
  lemma {:induction false} RowIsAt(H: seq<string>, slots: seq<string>, n: nat, startChar: nat, j: nat, b: nat)
    requires j < n <= |H| && n <= |slots| && SameSizes(slots[..n], Meant(H, slots[..n]))
    requires startChar + |Concat(Meant(H, slots[..n]))| == |Concat(H)|
    requires b < |H[|H| - n + j]|
    ensures b < |slots[j]|
    ensures IsAt(H, startChar + (|Concat(slots[..j])| + b), |H| - n + j, b)
  {
    var scanned := slots[..n];
    var meant := Meant(H, scanned);
    assert |scanned[j]| == |meant[j]|;
    assert scanned[..j] == slots[..j];
    SameSizesPrefix(scanned, meant, j);
    ConcatSplit(H, |H| - n);
    MeantIsAt(H, |H| - n, |Concat(slots[..j])| + b, j, b);
  }

  /** What a read gives from a row of the right sizes. */
  lemma {:induction false} RowReads(H: seq<string>, scanned: seq<string>, startChar: nat, off: nat, len: nat)
    requires |scanned| <= |H| && SameSizes(scanned, Meant(H, scanned))
    requires startChar + off <= |Concat(H)|
    ensures var data := Concat(Meant(H, scanned));
            ReadFrom(H, ResolveIn(H, scanned, startChar, startChar + off), len)
            == Data(if off <= |data| then Slice(data, off, Min(off + len, |data|)) else "")
  {
    hide Concat, SameSizes;
    var meant, s := Meant(H, scanned), |H| - |scanned|;
    SameSizesLocate(scanned, meant, off);
    if off < |Concat(meant)| {
      var (j, b) := Locate(scanned, off);
      assert ResolveIn(H, scanned, startChar, startChar + off) == At(s + j, b);
      RestOfMeant(H, s, off, j, b);
      TakeFrom(Concat(meant), off, len);
    } else {
      assert ResolveIn(H, scanned, startChar, startChar + off) == AtEnd;
    }
  }

  lemma {:induction false} RestOfMeant(H: seq<string>, s: nat, off: nat, j: nat, b: nat)
    requires s <= |H| && off < |Concat(H[s..])| && IsAt(H[s..], off, j, b)
    ensures From(Concat(H[s..]), off) == Rest(H, s + j, b)
  {
    IsAtBytes(H[s..], off, j, b);
    assert H[s..][j + 1..] == H[s + j + 1..];
  }
}
