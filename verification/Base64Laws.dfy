/** What the codec promises: the exact language and capacity of the decoder, both round trips,
    and that characters outside the alphabet never matter.
  */
module Base64Laws {
  import opened Bytes
  import opened Base64

  // ----- the accepted language ------------------------------------------------------------

  /** Complete groups, with '=' only as a suffix of at most three. */
  predicate WellFormed(f: seq<Symbol>) {
    |f| % 4 == 0 && Orderly(f)
  }

  /** The capacity the decoder asks for. It is the decoded length unless three '=' end the
      input; then one byte more is written than was asked for. */
  function Need(f: seq<Symbol>): int {
    3 * (|f| / 4) - Pads(f)
  }

  lemma LeadIs(f: seq<Symbol>, n: nat)
    requires n <= |f| && (n < |f| ==> f[n] == PADDING)
    requires forall i :: 0 <= i < n ==> f[i] != PADDING
    ensures Lead(f) == n
  {
  }

  /** Well-formedness, group by group. */
  lemma {:induction false} WellFormedByGroups(f: seq<Symbol>)
    requires |f| >= 4
    ensures Pads(f) == if Pads(f[..4]) == 0 then Pads(f[4..]) else Pads(f[..4]) + |f| - 4
    ensures WellFormed(f) <==>
      Orderly(f[..4]) && (if Pads(f[..4]) == 0 then WellFormed(f[4..]) else |f| == 4)
  {
    var q, rest := f[..4], f[4..];
    if Lead(q) == 4 {
      assert forall i :: 4 <= i < |f| ==> f[i] == rest[i - 4];
      LeadIs(f, 4 + Lead(rest));
      assert forall i :: 0 <= i < |rest| ==> rest[i] == f[i + 4];
    } else {
      LeadIs(f, Lead(q));
    }
  }

  /** Exactly the well-formed inputs whose need fits are decoded, and to this many bytes. */
  lemma {:induction false} DecodeAccepts(f: seq<Symbol>, capacity: nat)
    ensures Decode(f, capacity).Done? <==> WellFormed(f) && Need(f) <= capacity
    ensures Decode(f, capacity).Done? ==>
      |Decode(f, capacity).written| == 3 * (|f| / 4) - (if Pads(f) == 3 then 2 else Pads(f))
    decreases |f|
  {
    if |f| >= 4 {
      WellFormedByGroups(f);
      if Orderly(f[..4]) && 3 - Pads(f[..4]) <= capacity && Pads(f[..4]) == 0 {
        DecodeAccepts(f[4..], capacity - 3);
      }
      NeedIsPositive(f[4..]);
    }
  }

  lemma NeedIsPositive(f: seq<Symbol>)
    ensures WellFormed(f) ==> Need(f) >= 0
  {
  }

  /** The first `n` groups are accepted so far but do not fit. */
  ghost predicate TooBig(f: seq<Symbol>, n: nat, capacity: nat) {
    4 * n <= |f| && WellFormed(f[..4 * n]) && Need(f[..4 * n]) > capacity
  }

  lemma GroupsOfPrefix(f: seq<Symbol>, n: nat)
    requires n > 0 && 4 * n <= |f|
    ensures f[..4 * n][..4] == f[..4] && f[..4 * n][4..] == f[4..][..4 * (n - 1)]
    ensures Pads(f[..4 * n])
         == if Pads(f[..4]) == 0 then Pads(f[4..][..4 * (n - 1)]) else Pads(f[..4]) + 4 * n - 4
    ensures WellFormed(f[..4 * n]) <==>
      Orderly(f[..4]) && (if Pads(f[..4]) == 0 then WellFormed(f[4..][..4 * (n - 1)]) else n == 1)
  {
    assert f[..4 * n][..4] == f[..4] && f[..4 * n][4..] == f[4..][..4 * (n - 1)];
    WellFormedByGroups(f[..4 * n]);
  }

  lemma {:induction false} OverflowIsTooBig(f: seq<Symbol>, capacity: nat) returns (n: nat)
    requires Decode(f, capacity).Overflow?
    ensures TooBig(f, n, capacity)
    decreases |f|
  {
    if 3 - Pads(f[..4]) > capacity {
      n := 1;
    } else {
      n := OverflowIsTooBig(f[4..], capacity - 3);
      n := n + 1;
      GroupsOfPrefix(f, n);
    }
  }

  lemma {:induction false} TooBigOverflows(f: seq<Symbol>, n: nat, capacity: nat)
    requires TooBig(f, n, capacity)
    ensures Decode(f, capacity).Overflow?
    decreases |f|
  {
    assert n > 0;
    GroupsOfPrefix(f, n);
    if Pads(f[..4]) == 0 && capacity >= 3 {
      TooBigOverflows(f[4..], n - 1, capacity - 3);
    }
  }

  /** Overflow is reported exactly when some leading groups are well formed and need more than
      the capacity, whatever follows them. */
  lemma DecodeOverflows(f: seq<Symbol>, capacity: nat)
    ensures Decode(f, capacity).Overflow? <==> exists n: nat :: TooBig(f, n, capacity)
  {
    if Decode(f, capacity).Overflow? {
      var n := OverflowIsTooBig(f, capacity);
    }
    forall n: nat | TooBig(f, n, capacity)
      ensures Decode(f, capacity).Overflow?
    {
      TooBigOverflows(f, n, capacity);
    }
  }

  /** Every other failure is an invalid packet: a malformed input that fits so far. */
  lemma {:induction false} DecodeRejects(f: seq<Symbol>, capacity: nat)
    ensures WellFormed(f) ==> (Decode(f, capacity).Overflow? <==> Need(f) > capacity)
    ensures !WellFormed(f) && 3 * (|f| / 4) <= capacity ==> Decode(f, capacity).Invalid?
    ensures Decode(f, capacity).Invalid? ==> !WellFormed(f)
  {
    DecodeAccepts(f, capacity);
    DecodeOverflows(f, capacity);
    if WellFormed(f) && Need(f) > capacity {
      assert f[..4 * (|f| / 4)] == f;
      assert TooBig(f, |f| / 4, capacity);
    }
    forall n: nat | TooBig(f, n, capacity)
      ensures Need(f[..4 * n]) <= 3 * (|f| / 4)
    {
    }
  }

  // ----- how far the decoder writes -----------------------------------------------------------

  /** Group `n` is one sextet and three '=', behind groups of sextets that fill the capacity. */
  ghost predicate TriplePadAt(f: seq<Symbol>, n: nat, capacity: nat) {
    4 * n + 4 <= |f| && Lead(f) == 4 * n + 1 && Pads(f[4 * n..4 * n + 4]) == 3
    && Orderly(f[4 * n..4 * n + 4]) && capacity == 3 * n
  }

  lemma TriplePadHere(f: seq<Symbol>, n: nat, capacity: nat)
    requires |f| >= 4 && Lead(f[..4]) < 4
    ensures TriplePadAt(f, n, capacity) <==> n == 0 && capacity == 0 && Orderly(f[..4]) && Pads(f[..4]) == 3
  {
    LeadIs(f, Lead(f[..4]));
    assert f[0..4] == f[..4];
  }

  lemma TriplePadLater(f: seq<Symbol>, n: nat, capacity: nat)
    requires |f| >= 4 && Lead(f[..4]) == 4
    ensures TriplePadAt(f, n, capacity) <==> n > 0 && capacity >= 3 && TriplePadAt(f[4..], n - 1, capacity - 3)
  {
    LeadIs(f, 4 + Lead(f[4..]));
    if n > 0 && 4 * n + 4 <= |f| {
      assert f[4 * n..4 * n + 4] == f[4..][4 * (n - 1)..4 * (n - 1) + 4];
    }
  }

  lemma {:induction false} OneByteTooMany(f: seq<Symbol>, capacity: nat)
    ensures |Decode(f, capacity).written| <= capacity + 1
    decreases |f|
  {
    if |f| >= 4 && Lead(f[..4]) == 4 && capacity >= 3 {
      OneByteTooMany(f[4..], capacity - 3);
    }
  }

  lemma {:induction false} TooManyAt(f: seq<Symbol>, capacity: nat) returns (n: nat)
    requires |Decode(f, capacity).written| > capacity
    ensures TriplePadAt(f, n, capacity)
    decreases |f|
  {
    n := 0;
    if Lead(f[..4]) < 4 {
      TriplePadHere(f, 0, capacity);
    } else {
      n := TooManyAt(f[4..], capacity - 3);
      n := n + 1;
      TriplePadLater(f, n, capacity);
    }
  }

  lemma {:induction false} TriplePadIsTooMany(f: seq<Symbol>, n: nat, capacity: nat)
    requires TriplePadAt(f, n, capacity)
    ensures |Decode(f, capacity).written| > capacity
    decreases |f|
  {
    if Lead(f[..4]) < 4 {
      TriplePadHere(f, n, capacity);
    } else {
      TriplePadLater(f, n, capacity);
      TriplePadIsTooMany(f[4..], n - 1, capacity - 3);
    }
  }

  /** Every input is written within the capacity, with one exception: a group with three '='
      writes one byte where the capacity is used up. */
  lemma WritesWithinCapacity(f: seq<Symbol>, capacity: nat)
    ensures |Decode(f, capacity).written| <= capacity + 1
    ensures |Decode(f, capacity).written| > capacity <==> exists n: nat :: TriplePadAt(f, n, capacity)
  {
    OneByteTooMany(f, capacity);
    if |Decode(f, capacity).written| > capacity {
      var n := TooManyAt(f, capacity);
    }
    forall n: nat | TriplePadAt(f, n, capacity)
      ensures |Decode(f, capacity).written| > capacity
    {
      TriplePadIsTooMany(f, n, capacity);
    }
  }

  // ----- what the decoder writes ----------------------------------------------------------------

  function Value4(a: nat, b: nat, c: nat, d: nat): nat {
    a * 262144 + b * 4096 + c * 64 + d
  }

  lemma ValueOfFour(q: seq<Symbol>)
    requires |q| == 4
    ensures Value(q) == Value4(Bits(q[0]), Bits(q[1]), Bits(q[2]), Bits(q[3]))
  {
    var q3, q2, q1 := q[..3], q[..2], q[..1];
    assert q3[..2] == q2 && q2[..1] == q1 && q1[..0] == [];
    assert Value([]) == 0;
    assert Value(q1) == Bits(q[0]);
    assert Value(q2) == Value(q1) * 64 + Bits(q[1]);
    assert Value(q3) == Value(q2) * 64 + Bits(q[2]);
    assert Value(q) == Value(q3) * 64 + Bits(q[3]);
  }

  /** The 24 bits of group `n`, its first symbol in front. */
  function GroupValue(f: seq<Symbol>, n: nat): nat
    requires 4 * n + 4 <= |f|
  {
    Bits(f[4 * n]) * 262144 + Bits(f[4 * n + 1]) * 4096 + Bits(f[4 * n + 2]) * 64 + Bits(f[4 * n + 3])
  }

  /** The eight bits of a group that byte `k` takes. */
  function ByteOf(group: nat, k: nat): nat {
    if k == 0 then group / 65536 % 256 else if k == 1 then group / 256 % 256 else group % 256
  }

  lemma FirstByte(f: seq<Symbol>, k: nat)
    requires |f| >= 4 && Pads(f[..4]) <= 3 && k < |Trimmed(f[..4])|
    ensures Trimmed(f[..4])[k] == ByteOf(GroupValue(f, 0), k)
  {
    FirstGroup(f);
    BytesOfGroup(GroupValue(f, 0), 3 - Pads(f[..4]), k);
  }

  lemma BytesOfGroup(t: nat, g: nat, k: nat)
    requires k < |GroupBytes(t, g)|
    ensures GroupBytes(t, g)[k] == ByteOf(t, k)
  {
  }

  lemma FirstGroup(f: seq<Symbol>)
    requires |f| >= 4
    ensures Value(f[..4]) == GroupValue(f, 0)
  {
    ValueOfFour(f[..4]);
  }

  lemma LaterGroup(f: seq<Symbol>, n: nat)
    requires 4 * n + 8 <= |f|
    ensures GroupValue(f[4..], n) == GroupValue(f, n + 1)
  {
  }

  /** The byte at place `p` is its eight bits of its group. */
  ghost predicate HoldsByte(f: seq<Symbol>, b: Byte, p: nat) {
    4 * (p / 3) + 4 <= |f| && b == ByteOf(GroupValue(f, p / 3), p % 3)
  }

  ghost predicate HoldsGroups(f: seq<Symbol>, written: seq<Byte>) {
    forall p :: 0 <= p < |written| ==> HoldsByte(f, written[p], p)
  }

  lemma HoldsFirst(f: seq<Symbol>)
    requires |f| >= 4 && Pads(f[..4]) <= 3
    ensures HoldsGroups(f, Trimmed(f[..4]))
  {
    forall p | 0 <= p < |Trimmed(f[..4])|
      ensures HoldsByte(f, Trimmed(f[..4])[p], p)
    {
      FirstByte(f, p);
    }
  }

  lemma LaterByte(f: seq<Symbol>, b: Byte, p: nat)
    requires |f| >= 4 && HoldsByte(f[4..], b, p)
    ensures HoldsByte(f, b, p + 3)
  {
    assert (p + 3) / 3 == p / 3 + 1 && (p + 3) % 3 == p % 3;
    LaterGroup(f, p / 3);
  }

  lemma HoldsMore(f: seq<Symbol>, first: seq<Byte>, later: seq<Byte>)
    requires |f| >= 4 && |first| == 3 && HoldsGroups(f, first) && HoldsGroups(f[4..], later)
    ensures HoldsGroups(f, first + later)
  {
    forall p | 0 <= p < |first + later|
      ensures HoldsByte(f, (first + later)[p], p)
    {
      if p < 3 {
        assert (first + later)[p] == first[p];
      } else {
        LaterByte(f, later[p - 3], p - 3);
      }
    }
  }

  lemma WrittenInFront(f: seq<Symbol>, capacity: nat)
    requires Decode(f, capacity).written != []
    ensures |f| >= 4 && Pads(f[..4]) <= 3
    ensures Pads(f[..4]) > 0 ==> Decode(f, capacity).written == Trimmed(f[..4])
    ensures Pads(f[..4]) == 0 ==>
      capacity >= 3 && Decode(f, capacity).written == Trimmed(f[..4]) + Decode(f[4..], capacity - 3).written
  {
  }

  /** Whatever the outcome, the bytes that are written are those of the groups. */
  lemma {:induction false} WrittenBytes(f: seq<Symbol>, capacity: nat)
    ensures HoldsGroups(f, Decode(f, capacity).written)
    decreases |f|
  {
    if Decode(f, capacity).written != [] {
      WrittenInFront(f, capacity);
      HoldsFirst(f);
      if Pads(f[..4]) == 0 {
        WrittenBytes(f[4..], capacity - 3);
        HoldsMore(f, Trimmed(f[..4]), Decode(f[4..], capacity - 3).written);
      }
    }
  }

  /** How a call ends behind `front` bytes, with `g` to come and room for `room` bytes: the input
      is at its end, or the next group does not fit, or is cut short, or has misplaced '=', or is
      padded; behind a padded group the input must end. */
  ghost predicate EndsWith(d: Outcome, front: nat, g: seq<Symbol>, room: int) {
    if g == [] then d.Done? && |d.written| == front
    else if |g| < 4 || !Orderly(g[..4]) then d.Invalid? && |d.written| == front
    else if 3 - Pads(g[..4]) > room then d.Overflow? && |d.written| == front
    else
      && 0 < Pads(g[..4]) <= 3
      && |d.written| == front + (if Pads(g[..4]) == 3 then 1 else 3 - Pads(g[..4]))
      && (if |g| == 4 then d.Done? else d.Invalid?)
  }

  /** Every call decodes some groups of sextets that fit, and then ends in one of these ways. */
  lemma {:induction false} HowItEnds(f: seq<Symbol>, capacity: nat) returns (n: nat)
    ensures 4 * n <= |f| && 3 * n <= capacity && (forall i :: 0 <= i < 4 * n ==> f[i] != 254)
    ensures EndsWith(Decode(f, capacity), 3 * n, f[4 * n..], capacity - 3 * n)
    decreases |f|
  {
    n := 0;
    if |f| >= 4 && Lead(f[..4]) == 4 && capacity >= 3 {
      var m := HowItEnds(f[4..], capacity - 3);
      n := m + 1;
      assert f[4..][4 * m..] == f[4 * n..];
      assert forall i :: 0 <= i < 4 ==> f[..4][i] == f[i];
      assert forall i :: 4 <= i < 4 * n ==> f[i] == f[4..][i - 4];
      OneGroupMore(Decode(f[4..], capacity - 3), Trimmed(f[..4]), 3 * m, f[4 * n..], capacity - 3 * n);
    } else {
      assert f[0..] == f;
    }
  }

  lemma OneGroupMore(d: Outcome, group: seq<Byte>, front: nat, g: seq<Symbol>, room: int)
    requires |group| == 3 && EndsWith(d, front, g, room)
    ensures EndsWith(d.Behind(group), front + 3, g, room)
  {
  }

  // ----- characters outside the alphabet ------------------------------------------------------

  /** What a call decodes to: only the symbols of the input matter. */
  function Decoded(input: seq<Byte>, capacity: nat): Outcome {
    Decode(Symbols(input), capacity)
  }

  lemma {:induction false} SymbolsOfConcat(a: seq<Byte>, b: seq<Byte>)
    ensures Symbols(a + b) == Symbols(a) + Symbols(b)
  {
    if a == [] {
      assert a + b == b;
    } else {
      assert (a + b)[1..] == a[1..] + b;
      SymbolsOfConcat(a[1..], b);
    }
  }

  lemma {:induction false} NoiseHasNoSymbols(noise: seq<Byte>)
    requires forall i :: 0 <= i < |noise| ==> Mymap(noise[i]) == SKIP
    ensures Symbols(noise) == []
  {
    if noise != [] {
      NoiseHasNoSymbols(noise[1..]);
    }
  }

  /** Inserting or deleting skipped characters anywhere changes neither code nor output. */
  lemma NoiseIsIgnored(a: seq<Byte>, noise: seq<Byte>, b: seq<Byte>, capacity: nat)
    requires forall i :: 0 <= i < |noise| ==> Mymap(noise[i]) == SKIP
    ensures Decoded(a + noise + b, capacity) == Decoded(a + b, capacity)
  {
    SymbolsOfConcat(a + noise, b);
    SymbolsOfConcat(a, noise);
    SymbolsOfConcat(a, b);
    NoiseHasNoSymbols(noise);
    assert Symbols(a) + [] == Symbols(a);
  }

  // ----- decoding what was encoded -------------------------------------------------------------

  lemma SymbolsFrom(x: seq<Byte>, i: nat)
    requires i < |x| && Mymap(x[i]) != SKIP
    ensures Symbols(x[i..]) == [Mymap(x[i])] + Symbols(x[i + 1..])
  {
    assert x[i..][1..] == x[i + 1..];
  }

  /** A group of four mapped characters. */
  lemma SymbolsOfFour(x: seq<Byte>)
    requires |x| == 4 && forall i :: 0 <= i < 4 ==> Mymap(x[i]) != SKIP
    ensures Symbols(x) == [Mymap(x[0]), Mymap(x[1]), Mymap(x[2]), Mymap(x[3])]
  {
    SymbolsFrom(x, 0);
    SymbolsFrom(x, 1);
    SymbolsFrom(x, 2);
    SymbolsFrom(x, 3);
    assert x[0..] == x && x[4..] == [];
  }

  lemma BytesOf(t: nat, a: Byte, b: Byte, c: Byte)
    requires t == a * 65536 + b * 256 + c
    ensures t / 65536 % 256 == a && t / 256 % 256 == b && t % 256 == c
  {
    assert t / 65536 == a;
    assert t / 256 == a * 256 + b;
    assert (a * 256 + b) % 256 == b;
  }

  /** Four sextets hold the three bytes they were cut from. */
  lemma SextetsHoldBytes(a: Byte, b: Byte, c: Byte)
    ensures Value4(a / 4, a % 4 * 16 + b / 16, b % 16 * 4 + c / 64, c % 64) == a * 65536 + b * 256 + c
  {
    var a1, a0, b1, b0, c1, c0 := a / 4, a % 4, b / 16, b % 16, c / 64, c % 64;
    assert a == 4 * a1 + a0 && b == 16 * b1 + b0 && c == 64 * c1 + c0;
    assert Value4(a1, a0 * 16 + b1, b0 * 4 + c1, c0) == (4 * a1 + a0) * 65536 + (16 * b1 + b0) * 256 + 64 * c1 + c0;
  }

  /** Three bytes hold the four sextets they were made of. */
  lemma BytesHoldSextets(i: nat, j: nat, k: nat, l: nat)
    requires i < 64 && j < 64 && k < 64 && l < 64
    ensures var t := Value4(i, j, k, l);
            var a, b, c := t / 65536 % 256, t / 256 % 256, t % 256;
            a / 4 == i && a % 4 * 16 + b / 16 == j && b % 16 * 4 + c / 64 == k && c % 64 == l
  {
    var j1, j0, k1, k0 := j / 16, j % 16, k / 4, k % 4;
    var a, b, c := i * 4 + j1, j0 * 16 + k1, k0 * 64 + l;
    assert j == 16 * j1 + j0 && k == 4 * k1 + k0;
    BytesOf(Value4(i, j, k, l), a, b, c);
    assert a / 4 == i && a % 4 == j1;
    assert b / 16 == j0 && b % 16 == k1;
    assert c / 64 == k0 && c % 64 == l;
  }

  /** The symbols of a group that holds three bytes. */
  lemma TrimmedBytes(q: seq<Symbol>, a: Byte, b: Byte, c: Byte)
    requires |q| == 4 && Pads(q) <= 3
    requires Bits(q[0]) == a / 4 && Bits(q[1]) == a % 4 * 16 + b / 16
    requires Bits(q[2]) == b % 16 * 4 + c / 64 && Bits(q[3]) == c % 64
    ensures Trimmed(q) == [a] + (if Pads(q) < 2 then [b] else []) + (if Pads(q) < 1 then [c] else [])
  {
    ValueOfFour(q);
    SextetsHoldBytes(a, b, c);
    BytesOf(Value(q), a, b, c);
  }

  /** A full group carries its three bytes. */
  lemma QuadCarries(a: Byte, b: Byte, c: Byte)
    ensures var q := Symbols(Quad(a, b, c));
            |q| == 4 && Orderly(q) && Pads(q) == 0 && Trimmed(q) == [a, b, c]
  {
    var i, j, k, l := a / 4, a % 4 * 16 + b / 16, b % 16 * 4 + c / 64, c % 64;
    var x := Quad(a, b, c);
    TablesInvert(i, 0);
    TablesInvert(j, 0);
    TablesInvert(k, 0);
    TablesInvert(l, 0);
    SymbolsOfFour(x);
    LeadIs(Symbols(x), 4);
    TrimmedBytes(Symbols(x), a, b, c);
  }

  /** The last group carries the one or two bytes that remain. */
  lemma TailCarries(s: seq<Byte>)
    requires 1 <= |s| <= 2
    ensures var q := Symbols(Encode(s));
            |q| == 4 && Orderly(q) && Pads(q) == 3 - |s| && Trimmed(q) == s
  {
    var a, b: Byte := s[0], if |s| == 1 then 0 else s[1];
    var x := Encode(s);
    TablesInvert(a / 4, 0);
    TablesInvert(a % 4 * 16 + b / 16, 0);
    TablesInvert(b % 16 * 4, 0);
    SymbolsOfFour(x);
    LeadIs(Symbols(x), 1 + |s|);
    TrimmedBytes(Symbols(x), a, b, 0);
  }

  lemma DecodeOneGroup(q: seq<Symbol>, capacity: nat)
    requires |q| == 4 && Orderly(q)
    ensures Decode(q, capacity) == if 3 - Pads(q) > capacity then Overflow([]) else Done(Trimmed(q))
  {
    assert q[..4] == q && q[4..] == [];
    assert Done([]).Behind(Trimmed(q)) == Done(Trimmed(q));
  }

  /** The byte behind the capacity is written: "Q===" decodes to one byte with room for none. */
  lemma OneByteIsTooMany()
    ensures Decoded([81, 61, 61, 61], 0) == Done([64])
    ensures TriplePadAt(Symbols([81, 61, 61, 61]), 0, 0)
  {
    var x: seq<Byte> := [81, 61, 61, 61];
    SymbolsOfFour(x);
    var q := Symbols(x);
    LeadIs(q, 1);
    ValueOfFour(q);
    DecodeOneGroup(q, 0);
    assert q[0..4] == q;
  }

  lemma DecodeFirstGroup(q: seq<Symbol>, rest: seq<Symbol>, capacity: nat)
    requires |q| == 4 && Pads(q) == 0
    ensures Decode(q + rest, capacity)
         == if capacity < 3 then Overflow([]) else Decode(rest, capacity - 3).Behind(Trimmed(q))
  {
    assert (q + rest)[..4] == q && (q + rest)[4..] == rest;
  }

  lemma QuadIsSextets(a: Byte, b: Byte, c: Byte)
    ensures forall i :: 0 <= i < 4 ==> Mymap(Quad(a, b, c)[i]) < 64
  {
    TablesInvert(a / 4, 0);
    TablesInvert(a % 4 * 16 + b / 16, 0);
    TablesInvert(b % 16 * 4 + c / 64, 0);
    TablesInvert(c % 64, 0);
  }

  function PadsFor(n: nat): nat {
    if n % 3 == 0 then 0 else 3 - n % 3
  }

  /** The length of an encoding, and that it ends in none, one or two '=' for 3m, 3m + 2 and
      3m + 1 bytes; everything in front of them is of the alphabet. */
  lemma {:induction false} EncodingEnds(s: seq<Byte>)
    ensures |Encode(s)| == 4 * ((|s| + 2) / 3)
    ensures forall i :: 0 <= i < |Encode(s)| - PadsFor(|s|) ==> Mymap(Encode(s)[i]) < 64
    ensures forall i {:trigger Encode(s)[i]} :: |Encode(s)| - PadsFor(|s|) <= i < |Encode(s)| ==> Encode(s)[i] as char == '='
  {
    EncodeLength(s);
    if |s| > 2 {
      var quad, rest := Quad(s[0], s[1], s[2]), Encode(s[3..]);
      assert PadsFor(|s[3..]|) == PadsFor(|s|);
      EncodingEnds(s[3..]);
      QuadIsSextets(s[0], s[1], s[2]);
      FrontExtended(quad, rest, PadsFor(|s|));
    } else if |s| > 0 {
      TailIsSextets(s);
    }
  }

  lemma FrontExtended(quad: seq<Byte>, rest: seq<Byte>, pads: nat)
    requires |quad| == 4 && (forall i :: 0 <= i < 4 ==> Mymap(quad[i]) < 64) && pads <= |rest|
    requires forall i :: 0 <= i < |rest| - pads ==> Mymap(rest[i]) < 64
    requires forall i {:trigger rest[i]} :: |rest| - pads <= i < |rest| ==> rest[i] as char == '='
    ensures var x := quad + rest;
            && (forall i :: 0 <= i < |x| - pads ==> Mymap(x[i]) < 64)
            && (forall i {:trigger x[i]} :: |x| - pads <= i < |x| ==> x[i] as char == '=')
  {
  }

  lemma TailIsSextets(s: seq<Byte>)
    requires 1 <= |s| <= 2
    ensures forall i :: 0 <= i <= |s| ==> Mymap(Encode(s)[i]) < 64
  {
    var a, b: Byte := s[0], if |s| == 1 then 0 else s[1];
    TablesInvert(a / 4, 0);
    TablesInvert(a % 4 * 16 + b / 16, 0);
    TablesInvert(b % 16 * 4, 0);
  }

  function ByteOrZero(s: seq<Byte>, i: nat): Byte {
    if i < |s| then s[i] else 0
  }

  /** The 24 bits of three bytes, the first in front and zero for a missing one. */
  function BytesValue(s: seq<Byte>, n: nat): nat {
    ByteOrZero(s, 3 * n) * 65536 + ByteOrZero(s, 3 * n + 1) * 256 + ByteOrZero(s, 3 * n + 2)
  }

  lemma LaterBytes(s: seq<Byte>, n: nat)
    requires |s| >= 3
    ensures BytesValue(s[3..], n) == BytesValue(s, n + 1)
  {
  }

  lemma SymbolsOfEncoding(s: seq<Byte>)
    ensures |Symbols(Encode(s))| == |Encode(s)|
    ensures forall i :: 0 <= i < |Encode(s)| ==> Symbols(Encode(s))[i] == Mymap(Encode(s)[i])
  {
    EncodingEnds(s);
    NoneIsSkipped(Encode(s));
  }

  lemma {:induction false} NoneIsSkipped(x: seq<Byte>)
    requires forall i :: 0 <= i < |x| ==> Mymap(x[i]) != SKIP
    ensures |Symbols(x)| == |x| && forall i :: 0 <= i < |x| ==> Symbols(x)[i] == Mymap(x[i])
  {
    if x != [] {
      NoneIsSkipped(x[1..]);
    }
  }

  lemma GroupHoldsBytes(a: Byte, b: Byte, c: Byte)
    ensures a / 4 * 262144 + (a % 4 * 16 + b / 16) * 4096 + (b % 16 * 4 + c / 64) * 64 + c % 64
         == a * 65536 + b * 256 + c
  {
  }

  lemma QuadIsBigEndian(a: Byte, b: Byte, c: Byte)
    ensures var f := Symbols(Quad(a, b, c));
            |f| == 4 && Pads(f) == 0 && GroupValue(f, 0) == a * 65536 + b * 256 + c
  {
    QuadCarries(a, b, c);
    SymbolsOfFour(Quad(a, b, c));
    TablesInvert(a / 4, 0);
    TablesInvert(a % 4 * 16 + b / 16, 0);
    TablesInvert(b % 16 * 4 + c / 64, 0);
    TablesInvert(c % 64, 0);
    GroupHoldsBytes(a, b, c);
  }

  lemma TailIsBigEndian(s: seq<Byte>)
    requires 1 <= |s| <= 2
    ensures var f := Symbols(Encode(s));
            |f| == 4 && GroupValue(f, 0) == BytesValue(s, 0)
  {
    var a, b: Byte := s[0], if |s| == 1 then 0 else s[1];
    TablesInvert(a / 4, 0);
    TablesInvert(a % 4 * 16 + b / 16, 0);
    TablesInvert(b % 16 * 4, 0);
    SymbolsOfFour(Encode(s));
    GroupHoldsBytes(a, b, 0);
  }

  lemma FrontGroup(q: seq<Symbol>, rest: seq<Symbol>)
    requires |q| == 4
    ensures GroupValue(q + rest, 0) == GroupValue(q, 0)
  {
  }

  ghost predicate HoldsBytesAt(f: seq<Symbol>, s: seq<Byte>, n: nat) {
    4 * n + 4 <= |f| && GroupValue(f, n) == BytesValue(s, n)
  }

  ghost predicate HoldsBytes(f: seq<Symbol>, s: seq<Byte>) {
    forall n: nat :: 3 * n < |s| ==> HoldsBytesAt(f, s, n)
  }

  lemma HoldsMoreBytes(q: seq<Symbol>, rest: seq<Symbol>, s: seq<Byte>)
    requires |q| == 4 && |s| >= 3 && GroupValue(q, 0) == BytesValue(s, 0) && HoldsBytes(rest, s[3..])
    ensures HoldsBytes(q + rest, s)
  {
    assert (q + rest)[4..] == rest;
    forall n: nat | 3 * n < |s|
      ensures HoldsBytesAt(q + rest, s, n)
    {
      if n == 0 {
        FrontGroup(q, rest);
      } else {
        assert HoldsBytesAt(rest, s[3..], n - 1);
        LaterBytes(s, n - 1);
        LaterGroup(q + rest, n - 1);
      }
    }
  }

  /** Every group of four characters is the 24 bits of its three bytes, six at a time and the
      first byte in front; missing bytes are zero bits, and so is '='. */
  lemma {:induction false} EncodingIsBigEndian(s: seq<Byte>)
    ensures HoldsBytes(Symbols(Encode(s)), s)
  {
    if 1 <= |s| <= 2 {
      TailIsBigEndian(s);
    } else if s != [] {
      var quad, rest := Quad(s[0], s[1], s[2]), Encode(s[3..]);
      QuadIsBigEndian(s[0], s[1], s[2]);
      SymbolsOfConcat(quad, rest);
      EncodingIsBigEndian(s[3..]);
      HoldsMoreBytes(Symbols(quad), Symbols(rest), s);
    }
  }

  /** Decoding an encoding gives the bytes back if they fit, and else overflows. */
  lemma {:induction false} RoundTrip(s: seq<Byte>, capacity: nat)
    ensures |s| <= capacity ==> Decoded(Encode(s), capacity) == Done(s)
    ensures |s| > capacity ==> Decoded(Encode(s), capacity).Overflow?
  {
    if s == [] {
    } else if |s| <= 2 {
      TailCarries(s);
      DecodeOneGroup(Symbols(Encode(s)), capacity);
    } else {
      var quad, rest := Quad(s[0], s[1], s[2]), Encode(s[3..]);
      assert Encode(s) == quad + rest;
      QuadCarries(s[0], s[1], s[2]);
      SymbolsOfConcat(quad, rest);
      DecodeFirstGroup(Symbols(quad), Symbols(rest), capacity);
      if capacity >= 3 {
        RoundTrip(s[3..], capacity - 3);
        assert s == [s[0], s[1], s[2]] + s[3..];
      }
    }
  }

  // ----- encoding what was decoded --------------------------------------------------------------

  /** Section 3.5 of RFC 4648: alphabet characters only, complete groups, at most two '=' at the
      end, and zeros in the bits the last group does not use. */
  predicate Canonical(x: seq<Byte>) {
    && |x| % 4 == 0
    && (forall i :: 0 <= i < |x| - 2 ==> Mymap(x[i]) < 64)
    && (x != [] ==>
          var y, z := x[|x| - 2], x[|x| - 1];
          && (Mymap(y) < 64 || y as char == '=') && (Mymap(z) < 64 || z as char == '=')
          && (y as char == '=' ==> z as char == '=' && Mymap(x[|x| - 3]) % 16 == 0)
          && (y as char != '=' && z as char == '=' ==> Mymap(y) % 4 == 0))
  }

  lemma CodesOfQuad(x: seq<Byte>)
    requires |x| == 4 && forall i :: 0 <= i < 4 ==> Mymap(x[i]) < 64
    ensures |Symbols(x)| == 4 && Orderly(Symbols(x)) && Pads(Symbols(x)) == 0
    ensures var b := Trimmed(Symbols(x)); Quad(b[0], b[1], b[2]) == x
  {
    SymbolsOfFour(x);
    LeadIs(Symbols(x), 4);
    ValueOfFour(Symbols(x));
    var i, j, k, l := Mymap(x[0]), Mymap(x[1]), Mymap(x[2]), Mymap(x[3]);
    BytesHoldSextets(i, j, k, l);
    TablesInvert(0, x[0]);
    TablesInvert(0, x[1]);
    TablesInvert(0, x[2]);
    TablesInvert(0, x[3]);
    var b := Trimmed(Symbols(x));
    assert Quad(b[0], b[1], b[2]) == [Code(i), Code(j), Code(k), Code(l)];
  }

  /** A canonical last group: '=' only in the last two places and no unused bits. */
  predicate CanonicalLast(x: seq<Byte>)
    requires |x| == 4
  {
    var i, j, k, l := Mymap(x[0]), Mymap(x[1]), Mymap(x[2]), Mymap(x[3]);
    && i < 64 && j < 64
    && (|| (k < 64 && l < 64)
        || (k < 64 && k % 4 == 0 && l == PADDING)
        || (k == PADDING && j % 16 == 0 && l == PADDING))
  }

  lemma CanonicalByGroups(x: seq<Byte>)
    requires |x| >= 4
    ensures Canonical(x) <==>
      if |x| == 4 then CanonicalLast(x)
      else (forall i :: 0 <= i < 4 ==> Mymap(x[i]) < 64) && Canonical(x[4..])
  {
    if |x| > 4 {
      var rest := x[4..];
      assert forall i :: 4 <= i < |x| ==> x[i] == rest[i - 4];
      assert forall i :: 0 <= i < |rest| ==> rest[i] == x[i + 4];
    } else {
      assert x[0] in x && x[1] in x && x[2] in x && x[3] in x;
    }
  }

  /** The two bytes in three sextets without unused bits. */
  lemma TwoBytesHold(i: nat, j: nat, k: nat)
    requires i < 64 && j < 64 && k < 64 && k % 4 == 0
    ensures var a, b := i * 4 + j / 16, j % 16 * 16 + k / 4;
            && a < 256 && b < 256
            && a / 4 == i && a % 4 * 16 + b / 16 == j && b % 16 * 4 == k
  {
    var a, b := i * 4 + j / 16, j % 16 * 16 + k / 4;
    assert a % 4 == j / 16 && b / 16 == j % 16 && b % 16 == k / 4;
  }

  /** The last group with one '=': its two bytes are encoded as the group. */
  lemma CodesOfOnePad(x: seq<Byte>)
    requires |x| == 4 && CanonicalLast(x) && Mymap(x[2]) < 64 && Mymap(x[3]) == PADDING
    ensures |Symbols(x)| == 4 && Orderly(Symbols(x)) && Pads(Symbols(x)) == 1
    ensures Encode(Trimmed(Symbols(x))) == x
  {
    var i, j, k := Mymap(x[0]), Mymap(x[1]), Mymap(x[2]);
    SymbolsOfFour(x);
    LeadIs(Symbols(x), 3);
    TwoBytesHold(i, j, k);
    TrimmedBytes(Symbols(x), i * 4 + j / 16, j % 16 * 16 + k / 4, 0);
    TablesInvert(0, x[0]);
    TablesInvert(0, x[1]);
    TablesInvert(0, x[2]);
  }

  /** The last group with two '='. */
  lemma CodesOfTwoPads(x: seq<Byte>)
    requires |x| == 4 && CanonicalLast(x) && Mymap(x[2]) == PADDING && Mymap(x[3]) == PADDING
    ensures |Symbols(x)| == 4 && Orderly(Symbols(x)) && Pads(Symbols(x)) == 2
    ensures Encode(Trimmed(Symbols(x))) == x
  {
    var i, j := Mymap(x[0]), Mymap(x[1]);
    SymbolsOfFour(x);
    LeadIs(Symbols(x), 2);
    TwoBytesHold(i, j, 0);
    TrimmedBytes(Symbols(x), i * 4 + j / 16, 0, 0);
    TablesInvert(0, x[0]);
    TablesInvert(0, x[1]);
  }

  /** Encoding what a canonical string decodes to gives the string back. */
  lemma {:induction false} ReverseRoundTrip(x: seq<Byte>, capacity: nat)
    requires Canonical(x) && 3 * (|x| / 4) <= capacity
    ensures Decoded(x, capacity).Done? && Encode(Decoded(x, capacity).written) == x
  {
    if x != [] {
      CanonicalByGroups(x);
      if |x| == 4 && Mymap(x[3]) == PADDING {
        if Mymap(x[2]) == PADDING {
          CodesOfTwoPads(x);
        } else {
          CodesOfOnePad(x);
        }
        DecodeOneGroup(Symbols(x), capacity);
      } else {
        CanonicalRest(x);
        ReverseRoundTrip(x[4..], capacity - 3);
        ReverseStep(x, capacity);
      }
    }
  }

  lemma CanonicalRest(x: seq<Byte>)
    requires Canonical(x) && |x| >= 4 && Mymap(x[3]) != PADDING
    ensures Canonical(x[4..]) && forall i :: 0 <= i < 4 ==> Mymap(x[i]) < 64
  {
    CanonicalByGroups(x);
  }

  lemma ReverseStep(x: seq<Byte>, capacity: nat)
    requires |x| >= 4 && capacity >= 3 && forall i :: 0 <= i < 4 ==> Mymap(x[i]) < 64
    requires Decoded(x[4..], capacity - 3).Done? && Encode(Decoded(x[4..], capacity - 3).written) == x[4..]
    ensures Decoded(x, capacity).Done? && Encode(Decoded(x, capacity).written) == x
  {
    FirstGroupReversed(x, capacity);
    Reassembled(x, Trimmed(Symbols(x[..4])), Decoded(x[4..], capacity - 3));
  }

  lemma FirstGroupReversed(x: seq<Byte>, capacity: nat)
    requires |x| >= 4 && capacity >= 3 && forall i :: 0 <= i < 4 ==> Mymap(x[i]) < 64
    ensures var q := Symbols(x[..4]);
            && |q| == 4 && Pads(q) == 0
            && Decoded(x, capacity) == Decoded(x[4..], capacity - 3).Behind(Trimmed(q))
            && Quad(Trimmed(q)[0], Trimmed(q)[1], Trimmed(q)[2]) == x[..4]
  {
    CodesOfQuad(x[..4]);
    assert x == x[..4] + x[4..];
    SymbolsOfConcat(x[..4], x[4..]);
    DecodeFirstGroup(Symbols(x[..4]), Symbols(x[4..]), capacity);
  }

  lemma Reassembled(x: seq<Byte>, b: seq<Byte>, later: Outcome)
    requires |x| >= 4 && |b| == 3 && Quad(b[0], b[1], b[2]) == x[..4]
    requires later.Done? && Encode(later.written) == x[4..]
    ensures later.Behind(b).Done? && Encode(later.Behind(b).written) == x
  {
    assert (b + later.written)[3..] == later.written;
    assert x == x[..4] + x[4..];
  }

  lemma {:induction false} EncodingsAreCanonical(s: seq<Byte>)
    ensures Canonical(Encode(s))
  {
    if s != [] {
      var x := Encode(s);
      EncodeLength(s);
      CanonicalByGroups(x);
      if |s| > 2 {
        EncodingsAreCanonical(s[3..]);
        assert x[4..] == Encode(s[3..]);
        QuadIsSextets(s[0], s[1], s[2]);
      } else {
        TailIsCanonical(s);
      }
    }
  }

  lemma TailIsCanonical(s: seq<Byte>)
    requires 1 <= |s| <= 2
    ensures CanonicalLast(Encode(s))
  {
    var x, a := Encode(s), s[0];
    TablesInvert(a / 4, 0);
    if |s| == 1 {
      MultipleOf(a % 4, 16);
      TablesInvert(a % 4 * 16, 0);
      assert Mymap(x[1]) == a % 4 * 16;
    } else {
      MultipleOf(s[1] % 16, 4);
      TablesInvert(a % 4 * 16 + s[1] / 16, 0);
      TablesInvert(s[1] % 16 * 4, 0);
      assert Mymap(x[2]) == s[1] % 16 * 4;
    }
  }

  lemma MultipleOf(n: nat, m: nat)
    requires m == 4 || m == 16
    ensures n * m % m == 0
  {
  }

  /** The encodings are exactly the canonical strings. */
  lemma ImageOfEncode(x: seq<Byte>)
    ensures Canonical(x) <==> exists s :: Encode(s) == x
  {
    if Canonical(x) {
      ReverseRoundTrip(x, 3 * (|x| / 4));
    }
    forall s | Encode(s) == x
      ensures Canonical(x)
    {
      EncodingsAreCanonical(s);
    }
  }

  lemma EncodeIsInjective(s: seq<Byte>, s': seq<Byte>)
    requires Encode(s) == Encode(s')
    ensures s == s'
  {
    RoundTrip(s, |s| + |s'|);
    RoundTrip(s', |s| + |s'|);
  }
}
