/** The text of a seek command: how it is printed, which lines `sscanf` takes for one, and what they mean.
    The scanner follows section 7.21.6.2 of ISO/IEC 9899:2011 for the format
    "AESDCHAR_IOCSEEKTO:%u,%u%n" in the C locale. */
module SeekSyntax {
  import opened Machine

  function Prefix(): (p: string)
    ensures |p| == 19
  {
    "AESDCHAR_IOCSEEKTO:"
  }

  /** Blank, tab, newline, vertical tab, form feed, carriage return. */
  predicate IsSpace(c: char) {
    c == ' ' || '\t' <= c <= '\r'
  }

  predicate IsDigit(c: char) {
    '0' <= c <= '9'
  }

  predicate Spaces(s: string) {
    forall i :: 0 <= i < |s| ==> IsSpace(s[i])
  }

  predicate Digits(s: string) {
    forall i :: 0 <= i < |s| ==> IsDigit(s[i])
  }

  // ---- numbers -----------------------------------------------------------------------------

  function Value(digits: string): nat
    requires Digits(digits)
  {
    if |digits| == 0 then 0
    else 10 * Value(digits[..|digits| - 1]) + (digits[|digits| - 1] - '0') as nat
  }

  /** What printf("%u") writes. */
  function Dec(n: nat): (s: string)
    ensures |s| > 0 && Digits(s)
  {
    if n < 10 then ['0' + n as char] else Dec(n / 10) + ['0' + (n % 10) as char]
  }

  lemma {:induction false} ValueOfDec(n: nat)
    ensures Value(Dec(n)) == n
  {
    if n >= 10 {
      ValueOfDec(n / 10);
      assert Dec(n)[..|Dec(n)| - 1] == Dec(n / 10);
    }
  }

  /** Reading is positional, to base ten. */
  lemma {:induction false} ValueGrows(digits: string, c: char)
    requires Digits(digits) && '0' <= c <= '9'
    ensures Value("") == 0 && Value(digits + [c]) == 10 * Value(digits) + (c as int - 48)
  {
    assert (digits + [c])[..|digits|] == digits;
  }

  /** Printing gives the one reading of the number without leading zeros. */
  lemma {:induction false} DecIs(n: nat, digits: string)
    requires Digits(digits)
    ensures digits == Dec(n) <==> Value(digits) == n && |digits| > 0 && (|digits| == 1 || digits[0] != '0')
  {
    if |digits| > 0 {
      var init, c := digits[..|digits| - 1], digits[|digits| - 1];
      DecIs(n / 10, init);
      if |digits| > 1 {
        ValuePositive(init);
      }
      assert digits == init + [c];
    }
    ValueOfDec(n);
  }

  lemma {:induction false} ValuePositive(digits: string)
    requires Digits(digits) && |digits| > 0
    ensures digits[0] != '0' ==> Value(digits) > 0
  {
    if |digits| > 1 {
      ValuePositive(digits[..|digits| - 1]);
    }
  }

  function Pow10(k: nat): nat {
    if k == 0 then 1 else 10 * Pow10(k - 1)
  }

  /** k digits are printed exactly for the numbers between the matching powers of ten. */
  lemma {:induction false} DecLength(n: nat, k: nat)
    requires k > 0
    ensures |Dec(n)| == k <==> (if k == 1 then 0 else Pow10(k - 1)) <= n < Pow10(k)
  {
    if k > 1 {
      DecLength(n / 10, k - 1);
    }
  }

  /** What %u takes for a number: white space, at most one sign, digits. */
  datatype Number = Number(spaces: string, sign: string, digits: string) {
    predicate Ok() {
      && Spaces(spaces)
      && (sign == "" || sign == "+" || sign == "-")
      && |digits| > 0 && Digits(digits)
    }

    function Text(): string {
      spaces + sign + digits
    }

    /** The unsigned conversion; a minus sign negates modulo 2^32. */
    function Val(): nat
      requires Ok()
    {
      U32(if sign == "-" then 0 - Value(digits) else Value(digits))
    }
  }

  // ---- the scanner -------------------------------------------------------------------------

  function SkipSpaces(s: string, i: nat): (k: nat)
    requires i <= |s|
    ensures i <= k <= |s| && (k < |s| ==> !IsSpace(s[k]))
    ensures forall j :: i <= j < k ==> IsSpace(s[j])
    decreases |s| - i
  {
    if i < |s| && IsSpace(s[i]) then SkipSpaces(s, i + 1) else i
  }

  function SkipDigits(s: string, i: nat): (k: nat)
    requires i <= |s|
    ensures i <= k <= |s| && (k < |s| ==> !IsDigit(s[k]))
    ensures forall j :: i <= j < k ==> IsDigit(s[j])
    decreases |s| - i
  {
    if i < |s| && IsDigit(s[i]) then SkipDigits(s, i + 1) else i
  }

  datatype Scan = NoMatch | Match(value: nat, next: nat)

  /** One %u directive at position i. */
  function ScanUnsigned(s: string, i: nat): (r: Scan)
    requires i <= |s|
    ensures r.Match? ==> i < r.next <= |s|
  {
    var a := SkipSpaces(s, i);
    var b := if a < |s| && (s[a] == '+' || s[a] == '-') then a + 1 else a;
    var c := SkipDigits(s, b);
    if b == c then NoMatch
    else Match(Number(s[i..a], s[a..b], s[b..c]).Val(), c)
  }

  /** What sscanf returns and stores; `consumed` keeps its initial 0 unless %n is reached. */
  datatype SeekScan = SeekScan(matched: nat, x: nat, y: nat, consumed: nat)

  function ScanSeek(s: string): (r: SeekScan)
    ensures r.consumed <= |s|
  {
    if !(Prefix() <= s) then SeekScan(0, 0, 0, 0)
    else
      match ScanUnsigned(s, 19)
      case NoMatch => SeekScan(0, 0, 0, 0)
      case Match(x, i) =>
        if i == |s| || s[i] != ',' then SeekScan(1, x, 0, 0)
        else
          match ScanUnsigned(s, i + 1)
          case NoMatch => SeekScan(1, x, 0, 0)
          case Match(y, k) => SeekScan(2, x, y, k)
  }

  // ---- the language ------------------------------------------------------------------------

  ghost predicate SeekText(s: string, a: Number, b: Number) {
    a.Ok() && b.Ok() && s == Prefix() + a.Text() + "," + b.Text()
  }

  /** s is a seek command with arguments x and y. */
  ghost predicate IsSeek(s: string, x: nat, y: nat) {
    exists a: Number, b: Number :: SeekText(s, a, b) && x == a.Val() && y == b.Val()
  }

  function Print(x: nat, y: nat): string {
    Prefix() + Dec(x) + "," + Dec(y)
  }

  lemma {:induction false} SpacesEnd(s: string, i: nat, k: nat)
    requires i <= k <= |s| && (forall j :: i <= j < k ==> IsSpace(s[j])) && (k < |s| ==> !IsSpace(s[k]))
    ensures SkipSpaces(s, i) == k
    decreases k - i
  {
    if i < k {
      SpacesEnd(s, i + 1, k);
    }
  }

  lemma {:induction false} DigitsEnd(s: string, i: nat, k: nat)
    requires i <= k <= |s| && (forall j :: i <= j < k ==> IsDigit(s[j])) && (k < |s| ==> !IsDigit(s[k]))
    ensures SkipDigits(s, i) == k
    decreases k - i
  {
    if i < k {
      DigitsEnd(s, i + 1, k);
    }
  }

  lemma {:induction false} SubSlice(s: string, i: nat, k: nat, lo: nat, hi: nat)
    requires i <= k <= |s| && lo <= hi <= k - i
    ensures s[i..k][lo..hi] == s[i + lo..i + hi]
  {
    var t := s[i..k];
    assert forall j :: 0 <= j < k - i ==> t[j] == s[i + j];
    assert forall j :: 0 <= j < hi - lo ==> t[lo..hi][j] == t[lo + j];
  }

  lemma {:induction false} NumberParts(s: string, i: nat, n: Number)
    requires i + |n.Text()| <= |s| && s[i..i + |n.Text()|] == n.Text()
    ensures var a := i + |n.spaces|;
            var b := a + |n.sign|;
            s[i..a] == n.spaces && s[a..b] == n.sign && s[b..b + |n.digits|] == n.digits
  {
    var t, l, m := n.Text(), |n.spaces|, |n.sign|;
    var k := i + |t|;
    assert t[0..l] == n.spaces && t[l..l + m] == n.sign && t[l + m..|t|] == n.digits;
    SubSlice(s, i, k, 0, l);
    SubSlice(s, i, k, l, l + m);
    SubSlice(s, i, k, l + m, |t|);
  }

  lemma {:induction false} SpacesAt(s: string, i: nat, k: nat)
    requires i <= k <= |s| && Spaces(s[i..k]) && (k < |s| ==> !IsSpace(s[k]))
    ensures SkipSpaces(s, i) == k
  {
    assert forall j :: i <= j < k ==> s[j] == s[i..k][j - i];
    SpacesEnd(s, i, k);
  }

  lemma {:induction false} DigitsAt(s: string, i: nat, k: nat)
    requires i <= k <= |s| && Digits(s[i..k]) && (k < |s| ==> !IsDigit(s[k]))
    ensures SkipDigits(s, i) == k
    ensures i < k ==> IsDigit(s[i])
  {
    assert forall j :: i <= j < k ==> s[j] == s[i..k][j - i];
    DigitsEnd(s, i, k);
  }

  lemma {:induction false} SliceKinds(s: string, i: nat, k: nat)
    requires i <= k <= |s|
    ensures (forall j :: i <= j < k ==> IsDigit(s[j])) ==> Digits(s[i..k])
    ensures (forall j :: i <= j < k ==> IsSpace(s[j])) ==> Spaces(s[i..k])
  {
  }

  lemma {:induction false} SignAt(s: string, a: nat, b: nat, sign: string)
    requires a <= b < |s| && s[a..b] == sign && (sign == "" || sign == "+" || sign == "-")
    requires IsDigit(s[b])
    ensures !IsSpace(s[a])
    ensures (s[a] == '+' || s[a] == '-') <==> sign != ""
  {
    if sign != "" {
      assert s[a..b][0] == s[a];
    } else {
      assert a == b;
    }
  }

  /** A number in the text is scanned as that number, up to where its digits end. */
  lemma {:induction false} ScanTakes(s: string, i: nat, n: Number)
    requires n.Ok() && i + |n.Text()| <= |s| && s[i..i + |n.Text()|] == n.Text()
    requires i + |n.Text()| < |s| ==> !IsDigit(s[i + |n.Text()|])
    ensures ScanUnsigned(s, i) == Match(n.Val(), i + |n.Text()|)
  {
    hide Value, IsSpace, IsDigit, Spaces, Digits;
    var a := i + |n.spaces|;
    var b := a + |n.sign|;
    var c := b + |n.digits|;
    NumberParts(s, i, n);
    DigitsAt(s, b, c);
    assert b < c && IsDigit(s[b]);
    SignAt(s, a, b, n.sign);
    SpacesAt(s, i, a);
    assert Number(s[i..a], s[a..b], s[b..c]) == n;
  }

  /** What is scanned as a number is one. */
  lemma {:induction false} ScanGives(s: string, i: nat) returns (n: Number)
    requires i <= |s| && ScanUnsigned(s, i).Match?
    ensures var k := ScanUnsigned(s, i).next;
            n.Ok() && s[i..k] == n.Text() && ScanUnsigned(s, i).value == n.Val()
  {
    hide Value, IsSpace, IsDigit;
    var a := SkipSpaces(s, i);
    var b := if a < |s| && (s[a] == '+' || s[a] == '-') then a + 1 else a;
    var c := SkipDigits(s, b);
    n := Number(s[i..a], s[a..b], s[b..c]);
    SliceKinds(s, i, a);
    SliceKinds(s, b, c);
    assert if b > a then s[a..b] == [s[a]] else s[a..b] == "";
    Glue(s, i, a, b, c);
  }

  lemma {:induction false} Glue(s: string, i: nat, a: nat, b: nat, c: nat)
    requires i <= a <= b <= c <= |s|
    ensures s[i..a] + s[a..b] + s[b..c] == s[i..c]
  {
  }

  lemma {:induction false} Cut(s: string, p: string, t: string, c: char, u: string)
    requires s == p + t + [c] + u
    ensures p <= s && |s| == |p| + |t| + 1 + |u|
    ensures s[|p|..|p| + |t|] == t && s[|p| + |t|] == c && s[|p| + |t| + 1..] == u
  {
  }

  lemma {:induction false} Uncut(s: string, p: string, i: nat)
    requires p <= s && |p| <= i < |s|
    ensures s == p + s[|p|..i] + [s[i]] + s[i + 1..]
  {
  }

  lemma {:induction false} ScanFirst(s: string, a: Number, u: string)
    requires a.Ok() && s == Prefix() + a.Text() + "," + u
    ensures Prefix() <= s && |s| == 20 + |a.Text()| + |u|
    ensures ScanUnsigned(s, 19) == Match(a.Val(), 19 + |a.Text()|)
    ensures s[19 + |a.Text()|] == ',' && s[20 + |a.Text()|..] == u
  {
    hide Prefix, Value, ScanUnsigned, Digits;
    Cut(s, Prefix(), a.Text(), ',', u);
    ScanTakes(s, 19, a);
  }

  lemma {:induction false} ScanSecond(s: string, i: nat, b: Number, rest: string)
    requires b.Ok() && i <= |s| && s[i..] == b.Text() + rest && (rest == "" || !IsDigit(rest[0]))
    ensures ScanUnsigned(s, i) == Match(b.Val(), |s| - |rest|)
  {
    hide Value, ScanUnsigned, Digits;
    var k := i + |b.Text()|;
    assert |s| == k + |rest|;
    assert s[i..k] == b.Text() by {
      assert s[i..k] == s[i..][..|b.Text()|];
    }
    assert k < |s| ==> s[k] == s[i..][|b.Text()|] == rest[0];
    ScanTakes(s, i, b);
  }

  /** A seek command followed by what cannot belong to its last number is scanned up to its end. */
  lemma {:induction false} ScanAccepts(s: string, a: Number, b: Number, rest: string)
    requires a.Ok() && b.Ok() && s == Prefix() + a.Text() + "," + (b.Text() + rest)
    requires rest == "" || !IsDigit(rest[0])
    ensures ScanSeek(s) == SeekScan(2, a.Val(), b.Val(), |s| - |rest|)
  {
    hide Prefix, Value, ScanUnsigned, Digits;
    ScanFirst(s, a, b.Text() + rest);
    ScanSecond(s, 20 + |a.Text()|, b, rest);
  }

  /** The scanner accepts the whole line, with these values, exactly when the line is that seek command. */
  lemma {:induction false} ScanExact(s: string, x: nat, y: nat)
    ensures ScanSeek(s) == SeekScan(2, x, y, |s|) <==> IsSeek(s, x, y)
  {
    hide Prefix, Value, ScanUnsigned;
    if ScanSeek(s) == SeekScan(2, x, y, |s|) {
      var i := ScanUnsigned(s, 19).next;
      var a := ScanGives(s, 19);
      var b := ScanGives(s, i + 1);
      Uncut(s, Prefix(), i);
      assert s[i + 1..] == s[i + 1..|s|];
      assert SeekText(s, a, b);
    }
    if IsSeek(s, x, y) {
      var a: Number, b: Number :| SeekText(s, a, b) && x == a.Val() && y == b.Val();
      assert b.Text() + "" == b.Text();
      ScanAccepts(s, a, b, "");
    }
  }

  /** The characters that a number consists of, and what it is worth. */
  lemma {:induction false} NumberIs(n: Number)
    ensures n.Ok() <==>
      && (forall i :: 0 <= i < |n.spaces| ==> n.spaces[i] == ' ' || '\t' <= n.spaces[i] <= '\r')
      && n.sign in ["", "+", "-"]
      && |n.digits| > 0 && forall i :: 0 <= i < |n.digits| ==> '0' <= n.digits[i] <= '9'
    ensures n.Ok() ==> n.Val() == (if n.sign == "-" then 0 - Value(n.digits) else Value(n.digits)) % 0x1_0000_0000
  {
  }

  lemma {:induction false} SeekTextIs(s: string, a: Number, b: Number)
    ensures SeekText(s, a, b) == (
      && a.Ok() && b.Ok()
      && s == "AESDCHAR_IOCSEEKTO:" + a.spaces + a.sign + a.digits + "," + b.spaces + b.sign + b.digits)
  {
    assert "AESDCHAR_IOCSEEKTO:" + a.spaces + a.sign + a.digits + "," + b.spaces + b.sign + b.digits
        == Prefix() + a.Text() + "," + b.Text();
  }

  /** The seek commands, character by character. */
  lemma {:induction false} SeekGrammar(s: string, x: nat, y: nat)
    ensures IsSeek(s, x, y) <==>
      exists a: Number, b: Number ::
        && a.Ok() && b.Ok() && x == a.Val() && y == b.Val()
        && s == "AESDCHAR_IOCSEEKTO:" + a.spaces + a.sign + a.digits + "," + b.spaces + b.sign + b.digits
  {
    hide SeekText;
    forall a: Number, b: Number
      ensures SeekText(s, a, b) == (
        && a.Ok() && b.Ok()
        && s == "AESDCHAR_IOCSEEKTO:" + a.spaces + a.sign + a.digits + "," + b.spaces + b.sign + b.digits)
    {
      SeekTextIs(s, a, b);
    }
  }

  lemma {:induction false} NumberStarts(n: Number)
    requires n.Ok()
    ensures |n.Text()| > 0 && ',' !in n.Text()
    ensures var c := n.Text()[0];
            c == ' ' || '\t' <= c <= '\r' || c == '+' || c == '-' || '0' <= c <= '9'
  {
    hide Value;
  }

  /** A text is cut at its first comma in one way. */
  lemma {:induction false} FirstComma(t: string, u: string, t': string, u': string)
    requires ',' !in t && ',' !in t' && t + "," + u == t' + "," + u'
    ensures t == t' && u == u'
  {
    var m := if |t| <= |t'| then |t| else |t'|;
    CommaAt(t, u, m);
    CommaAt(t', u', m);
    SamePrefix(t + ",", u, u');
    assert t == (t + "," + u)[..m] && t' == (t' + "," + u')[..m];
  }

  lemma {:induction false} CommaAt(t: string, u: string, i: nat)
    requires ',' !in t && i <= |t|
    ensures (t + "," + u)[i] == ',' <==> i == |t|
  {
  }

  /** No seek command lacks the prefix or the comma, or goes on after either with a character that begins no number. */
  lemma {:induction false} NoSeek(s: string, t: string, u: string, x: nat, y: nat)
    requires u == "" || !(u[0] == ' ' || '\t' <= u[0] <= '\r' || u[0] == '+' || u[0] == '-' || '0' <= u[0] <= '9')
    requires || !("AESDCHAR_IOCSEEKTO:" <= s) || ',' !in s
             || s == "AESDCHAR_IOCSEEKTO:" + u
             || (',' !in t && s == "AESDCHAR_IOCSEEKTO:" + t + "," + u)
    ensures !IsSeek(s, x, y)
  {
    if IsSeek(s, x, y) {
      var a, b := SeekNumbers(s, x, y);
      SeekParts(s, a, b);
      NextPart("AESDCHAR_IOCSEEKTO:", s, t, u, a.Text(), b.Text());
    }
  }

  lemma {:induction false} SeekNumbers(s: string, x: nat, y: nat) returns (a: Number, b: Number)
    requires IsSeek(s, x, y)
    ensures SeekText(s, a, b)
  {
    a, b :| SeekText(s, a, b) && x == a.Val() && y == b.Val();
  }

  /** What follows the prefix or the first comma begins as the first or the second part. */
  lemma {:induction false} NextPart(p: string, s: string, t: string, u: string, t': string, u': string)
    requires s == p + (t' + "," + u') && ',' !in t' && |t'| > 0 && |u'| > 0
    requires s == p + u || (',' !in t && s == p + t + "," + u)
    ensures |u| > 0 && (u[0] == t'[0] || u[0] == u'[0])
  {
    if s == p + u {
      SamePrefix(p, u, t' + "," + u');
      assert u[0] == t'[0];
    } else {
      assert p + t + "," + u == p + (t + "," + u);
      SamePrefix(p, t + "," + u, t' + "," + u');
      FirstComma(t, u, t', u');
    }
  }

  lemma {:induction false} SamePrefix(p: string, u: string, v: string)
    requires p + u == p + v
    ensures u == v
  {
    assert u == (p + u)[|p|..];
    assert v == (p + v)[|p|..];
  }

  lemma {:induction false} SeekParts(s: string, a: Number, b: Number)
    requires SeekText(s, a, b)
    ensures var p, t, u := Prefix(), a.Text(), b.Text();
            && p == "AESDCHAR_IOCSEEKTO:" && s == p + (t + "," + u) && p <= s && ',' in s && ',' !in t
            && |t| > 0 && |u| > 0
            && (t[0] == ' ' || '\t' <= t[0] <= '\r' || t[0] == '+' || t[0] == '-' || '0' <= t[0] <= '9')
            && (u[0] == ' ' || '\t' <= u[0] <= '\r' || u[0] == '+' || u[0] == '-' || '0' <= u[0] <= '9')
  {
    NumberStarts(a);
    NumberStarts(b);
    assert s[19 + |a.Text()|] == ',';
  }

  lemma {:induction false} PrintPlain(x: nat, y: nat)
    ensures '\0' !in Print(x, y)
  {
    var p, a, b := Prefix(), Dec(x), Dec(y);
    assert forall i :: 0 <= i < |p| ==> p[i] != '\0';
    assert forall i :: 0 <= i < |a| ==> IsDigit(a[i]);
    assert forall i :: 0 <= i < |b| ==> IsDigit(b[i]);
  }

  // ---- line ends ---------------------------------------------------------------------------

  predicate IsCrLf(c: char) {
    c == '\n' || c == '\r'
  }

  function TrimTail(s: string): string {
    if |s| > 0 && IsCrLf(s[|s| - 1]) then TrimTail(s[..|s| - 1]) else s
  }

  /** Trimming takes off the line ends, all of them and nothing else. */
  lemma {:induction false} TrimTailIs(s: string, t: string)
    ensures TrimTail(s) == t <==>
      && t <= s && (|t| > 0 ==> t[|t| - 1] != '\n' && t[|t| - 1] != '\r')
      && forall i :: |t| <= i < |s| ==> s[i] == '\n' || s[i] == '\r'
  {
    if |s| > 0 && IsCrLf(s[|s| - 1]) {
      TrimTailIs(s[..|s| - 1], t);
    }
  }

  /** A printed command, spaces and signs included, is read back with any line ends behind it. */
  lemma {:induction false} PrintThenTrim(sp: string, sg: string, m: nat, sp': string, sg': string, n: nat, tail: string)
    requires m < 0x1_0000_0000 && n < 0x1_0000_0000
    requires forall i :: 0 <= i < |sp| ==> sp[i] == ' ' || '\t' <= sp[i] <= '\r'
    requires forall i :: 0 <= i < |sp'| ==> sp'[i] == ' ' || '\t' <= sp'[i] <= '\r'
    requires sg in ["", "+", "-"] && sg' in ["", "+", "-"]
    requires forall i :: 0 <= i < |tail| ==> tail[i] == '\n' || tail[i] == '\r'
    ensures var line := "AESDCHAR_IOCSEEKTO:" + sp + sg + Dec(m) + "," + sp' + sg' + Dec(n);
            && TrimTail(line + tail) == line
            && IsSeek(line, if sg == "-" then (0x1_0000_0000 - m) % 0x1_0000_0000 else m,
                            if sg' == "-" then (0x1_0000_0000 - n) % 0x1_0000_0000 else n)
  {
    hide Value, Dec, TrimTail, IsSeek;
    var line := "AESDCHAR_IOCSEEKTO:" + sp + sg + Dec(m) + "," + sp' + sg' + Dec(n);
    TrimBehind("AESDCHAR_IOCSEEKTO:" + sp + sg + Dec(m) + "," + sp' + sg', Dec(n), tail);
    PrintedIsSeek(Number(sp, sg, Dec(m)), Number(sp', sg', Dec(n)), m, n);
  }

  lemma {:induction false} TrimBehind(front: string, digits: string, tail: string)
    requires |digits| > 0 && Digits(digits)
    requires forall i :: 0 <= i < |tail| ==> tail[i] == '\n' || tail[i] == '\r'
    ensures TrimTail(front + digits + tail) == front + digits
  {
    var line := front + digits;
    assert line[|line| - 1] == digits[|digits| - 1];
    TrimTailIs(line + tail, line);
  }

  lemma {:induction false} PrintedIsSeek(a: Number, b: Number, m: nat, n: nat)
    requires m < 0x1_0000_0000 && n < 0x1_0000_0000 && a.digits == Dec(m) && b.digits == Dec(n) && a.Ok() && b.Ok()
    ensures IsSeek("AESDCHAR_IOCSEEKTO:" + a.spaces + a.sign + a.digits + "," + b.spaces + b.sign + b.digits,
                   if a.sign == "-" then (0x1_0000_0000 - m) % 0x1_0000_0000 else m,
                   if b.sign == "-" then (0x1_0000_0000 - n) % 0x1_0000_0000 else n)
  {
    hide Dec, Value, IsSpace, IsDigit, Spaces, Digits;
    ValueOfDec(m);
    ValueOfDec(n);
    var line := "AESDCHAR_IOCSEEKTO:" + a.spaces + a.sign + a.digits + "," + b.spaces + b.sign + b.digits;
    SeekTextIs(line, a, b);
    assert SeekText(line, a, b);
  }

  lemma {:induction false} SeekLine()
    ensures IsSeek("AESDCHAR_IOCSEEKTO:" + "12" + "," + "305", 12, 305)
  {
    hide IsSeek;
    assert Dec(12) == "12" && Dec(305) == Dec(30) + "5" == "305";
    PrintedLine(12, 305);
  }

  lemma {:induction false} PrintedLine(x: nat, y: nat)
    requires x < 0x1_0000_0000 && y < 0x1_0000_0000
    ensures IsSeek("AESDCHAR_IOCSEEKTO:" + Dec(x) + "," + Dec(y), x, y)
  {
    hide IsSeek, Dec;
    var p := "AESDCHAR_IOCSEEKTO:";
    PrintThenTrim("", "", x, "", "", y, "");
    assert p + "" + "" + Dec(x) + "," + "" + "" + Dec(y) == p + Dec(x) + "," + Dec(y);
  }

  /** A printed command followed by a line end and more is none. */
  lemma {:induction false} PrintThenMore(x: nat, y: nat, more: string, a: nat, b: nat)
    requires x < 0x1_0000_0000 && y < 0x1_0000_0000 && more != "" && (more[0] == '\n' || more[0] == '\r')
    ensures !IsSeek(Print(x, y) + more, a, b)
  {
    hide Prefix, Value, Dec, ScanSeek, IsSeek;
    var m, n := Number("", "", Dec(x)), Number("", "", Dec(y));
    var s := Print(x, y) + more;
    assert m.Text() == Dec(x) && n.Text() == Dec(y);
    assert s == Prefix() + m.Text() + "," + (n.Text() + more);
    ScanAccepts(s, m, n, more);
    ScanExact(s, a, b);
  }

  /** Trimming a text whose end is not all line ends keeps what is in front of that end. */
  lemma {:induction false} TrimAfter(front: string, end: string) returns (kept: string)
    requires exists i :: 0 <= i < |end| && !IsCrLf(end[i])
    ensures TrimTail(front + end) == front + kept
  {
    kept := TrimTail(end);
    TrimTailIs(end, kept);
    TrimTailIs(front + end, front + kept);
  }

  /** A line means one pair of numbers at most. */
  lemma {:induction false} SeekUnique(s: string, x: nat, y: nat, x': nat, y': nat)
    requires IsSeek(s, x, y) && IsSeek(s, x', y')
    ensures x == x' && y == y'
  {
    ScanExact(s, x, y);
    ScanExact(s, x', y');
  }
}
