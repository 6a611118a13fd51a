/** The two loops of src/core/base64.cpp, writing through a pointer into the caller's buffer. */
module Base64Codec {
  import opened Bytes
  import opened Base64
  import opened Base64Laws

  const OK: int := 0
  const BASE64_BUFFER_OVERFLOW: int := -324000
  const BASE64_INVALID_PACKET: int := -325000

  /** `outlen` goes in as the capacity and comes back as the length, unless the call fails. */
  method Base64Encode(input: seq<Byte>, out: array<Byte>, capacity: nat) returns (rc: int, outlen: nat)
    requires capacity <= out.Length
    modifies out
    ensures rc == if 4 * ((|input| + 2) / 3) + 1 <= capacity then 0 else -324000
    ensures rc != 0 ==> outlen == capacity && out[..] == old(out[..])
    ensures rc == 0 ==>
      && outlen == 4 * ((|input| + 2) / 3)
      && out[..outlen] == Encode(input) && out[outlen] == 0
      && forall k :: outlen < k < out.Length ==> out[k] == old(out[k])
  {
    EncodeLength(input);
    var len2 := 4 * ((|input| + 2) / 3);
    if capacity < len2 + 1 {
      return BASE64_BUFFER_OVERFLOW, capacity;
    }
    var p := 0;
    var leven := 3 * (|input| / 3);
    var i := 0;
    ghost var groups := 0;
    assert input[0..] == input;
    while i < leven
      invariant i == 3 * groups && groups <= |input| / 3
      invariant p + |Encode(input[i..])| == len2
      invariant out[..p] + Encode(input[i..]) == Encode(input)
      invariant forall k :: p <= k < out.Length ==> out[k] == old(out[k])
    {
      p := PutThreeBytes(input, i, out, p);
      i, groups := i + 3, groups + 1;
    }
    if i < |input| {
      p := PutLastBytes(input, i, out, p);
    } else {
      assert input[i..] == [];
    }
    assert out[..p] == Encode(input);
    out[p] := 0;
    return OK, p;
  }

  /** The body of the loop: three bytes become four characters. */
  method PutThreeBytes(input: seq<Byte>, i: nat, out: array<Byte>, p: nat) returns (next: nat)
    requires i + 3 <= |input| && p + 4 <= out.Length
    modifies out
    ensures next == p + 4 && |Encode(input[i..])| == 4 + |Encode(input[i + 3..])|
    ensures out[..next] + Encode(input[i + 3..]) == old(out[..p]) + Encode(input[i..])
    ensures forall k :: next <= k < out.Length ==> out[k] == old(out[k])
  {
    EncodeGroup(input, i, out[..p]);
    next := PutFour(out, p, Code(input[i] / 4),
                            Code(input[i] % 4 * 16 + input[i + 1] / 16),
                            Code(input[i + 1] % 16 * 4 + input[i + 2] / 64),
                            Code(input[i + 2] % 64));
  }

  /** The one or two bytes that remain become four characters with two or one '='. */
  method PutLastBytes(input: seq<Byte>, i: nat, out: array<Byte>, p: nat) returns (next: nat)
    requires 1 <= |input| - i <= 2 && p + 4 <= out.Length
    modifies out
    ensures next == p + 4 && |Encode(input[i..])| == 4
    ensures out[..next] == old(out[..p]) + Encode(input[i..])
    ensures forall k :: next <= k < out.Length ==> out[k] == old(out[k])
  {
    var a := input[i];
    var b: Byte := if i + 1 < |input| then input[i + 1] else 0;
    EncodeLast(input, i);
    next := PutFour(out, p, Code(a / 4),
                            Code(a % 4 * 16 + b / 16),
                            if i + 1 < |input| then Code(b % 16 * 4) else PAD,
                            PAD);
  }

  /** *p++ = ..., four times. */
  method PutFour(out: array<Byte>, p: nat, c0: Byte, c1: Byte, c2: Byte, c3: Byte) returns (next: nat)
    requires p + 4 <= out.Length
    modifies out
    ensures next == p + 4 && out[..next] == old(out[..p]) + [c0, c1, c2, c3]
    ensures forall k :: next <= k < out.Length ==> out[k] == old(out[k])
  {
    out[p], out[p + 1], out[p + 2], out[p + 3] := c0, c1, c2, c3;
    next := p + 4;
  }

  lemma EncodeGroup(input: seq<Byte>, i: nat, written: seq<Byte>)
    requires i + 3 <= |input|
    ensures |Encode(input[i..])| == 4 + |Encode(input[i + 3..])|
    ensures written + Encode(input[i..])
         == (written + Quad(input[i], input[i + 1], input[i + 2])) + Encode(input[i + 3..])
  {
    assert input[i..][3..] == input[i + 3..];
  }

  lemma EncodeLast(input: seq<Byte>, i: nat)
    requires 1 <= |input| - i <= 2
    ensures var a, b: Byte := input[i], if i + 1 < |input| then input[i + 1] else 0;
            Encode(input[i..]) == [Code(a / 4), Code(a % 4 * 16 + b / 16),
                                   if i + 1 < |input| then Code(b % 16 * 4) else PAD, PAD]
  {
    assert |input[i..]| == |input| - i;
  }

  // ----- decoding -------------------------------------------------------------------------

  /** How decoding goes on at the start of a group. Once a group was padded (`g` below 3),
      nothing but the end of the input is accepted. */
  function DecodeFrom(f: seq<Symbol>, room: int, g: int): Outcome
    requires g == 3 ==> room >= 0
  {
    if g == 3 then Decode(f, room) else if f == [] then Done([]) else Invalid([])
  }

  /** Where the loop stands. The bytes `written` are final, the symbols `q` of the current group
      are read, `rest` is to come; `g` was `g0` when the group began and `t` is the group so far. */
  ghost predicate Reading(whole: Outcome, written: seq<Byte>, q: seq<Symbol>, rest: seq<Symbol>,
                          capacity: nat, g0: int, g: int, t: nat)
  {
    && 0 <= g <= g0 <= 3 && |q| < 4 && t == Value(q)
    && g == g0 - Pads(q) && Orderly(q)
    && (g0 < 3 ==> Pads(q) == |q|)
    && (g0 == 3 ==> |written| <= capacity)
    && whole == DecodeFrom(q + rest, capacity - |written|, g0).Behind(written)
  }

  /** The state in front of the input, and that all of the output has its place. */
  lemma Begun(input: seq<Byte>, capacity: nat, length: nat)
    requires capacity <= length
    requires capacity == length ==> forall n: nat :: !TriplePadAt(Symbols(input), n, capacity)
    ensures Reading(Decoded(input, capacity), [], [], Symbols(input[0..]), capacity, 3, 3, 0)
    ensures |Decoded(input, capacity).written| <= length
  {
    WritesWithinCapacity(Symbols(input), capacity);
    assert input[0..] == input;
    BeginsReading(Symbols(input), capacity);
  }

  lemma BeginsReading(f: seq<Symbol>, capacity: nat)
    ensures Reading(Decode(f, capacity), [], [], f, capacity, 3, 3, 0)
  {
    assert [] + f == f;
    BehindNothing(Decode(f, capacity));
  }

  lemma BehindNothing(o: Outcome)
    ensures o.Behind([]) == o
  {
    assert [] + o.written == o.written;
  }

  /** The two checks in front of the shift: no fourth '=', and no sextet behind '='. */
  predicate Refused(c: Symbol, g: int) {
    if c == PADDING then g <= 0 else g != 3
  }

  /** A fourth '=', or a sextet behind '=', ends in an invalid packet. */
  lemma Rejected(whole: Outcome, written: seq<Byte>, q: seq<Symbol>, c: Symbol, rest: seq<Symbol>,
                 capacity: nat, g0: int, g: int, t: nat)
    requires Reading(whole, written, q, [c] + rest, capacity, g0, g, t)
    requires Refused(c, g)
    ensures whole == Invalid(written)
  {
    var f, n := q + ([c] + rest), |q|;
    if g0 == 3 && |f| >= 4 {
      assert f[n] == c && f[..4][n] == c;
      assert forall i :: 0 <= i < n ==> f[..4][i] == q[i];
      LeadIs(f[..4], Lead(q));
    }
    assert DecodeFrom(f, capacity - |written|, g0) == Invalid([]);
    assert written + [] == written;
  }

  lemma ReadOne(q: seq<Symbol>, c: Symbol)
    ensures Pads(q + [c]) == if Pads(q) == 0 && c != PADDING then 0 else Pads(q) + 1
    ensures Value(q + [c]) == Value(q) * 64 + Bits(c)
  {
    LeadIs(q + [c], if Pads(q) == 0 && c != PADDING then |q| + 1 else Lead(q));
    assert (q + [c])[..|q|] == q;
  }

  /** Any other symbol joins its group. */
  lemma Joined(whole: Outcome, written: seq<Byte>, q: seq<Symbol>, c: Symbol, rest: seq<Symbol>,
               capacity: nat, g0: int, g: int, t: nat)
    requires Reading(whole, written, q, [c] + rest, capacity, g0, g, t)
    requires !Refused(c, g)
    ensures |q| < 3 ==>
      Reading(whole, written, q + [c], rest, capacity, g0, if c == PADDING then g - 1 else g, t * 64 + Bits(c))
    ensures |q| == 3 ==>
      && g0 == 3 && Orderly(q + [c]) && Value(q + [c]) == t * 64 + Bits(c)
      && 3 - Pads(q + [c]) == (if c == PADDING then g - 1 else g)
      && whole == Decode((q + [c]) + rest, capacity - |written|).Behind(written)
  {
    ReadOne(q, c);
    assert q + ([c] + rest) == (q + [c]) + rest;
  }

  /** A complete group overflows, or its bytes are written and the next group begins. */
  lemma Completed(whole: Outcome, written: seq<Byte>, q: seq<Symbol>, rest: seq<Symbol>, capacity: nat, g: nat, t: nat)
    requires |q| == 4 && Orderly(q) && g == 3 - Pads(q) && t == Value(q) && |written| <= capacity
    requires whole == Decode(q + rest, capacity - |written|).Behind(written)
    ensures |written| + g > capacity ==> whole == Overflow(written)
    ensures |written| + g <= capacity ==>
      Reading(whole, written + GroupBytes(t, g), [], rest, capacity, g, g, 0)
  {
    assert (q + rest)[..4] == q && (q + rest)[4..] == rest && [] + rest == rest;
    var group := GroupBytes(t, g);
    assert group + [] == group && written + [] == written;
    if |written| + g <= capacity {
      var after := DecodeFrom(rest, capacity - |written| - |group|, g);
      assert Decode(q + rest, capacity - |written|) == after.Behind(group);
      Regrouped(after, written, group);
    }
  }

  lemma Regrouped(o: Outcome, front: seq<Byte>, group: seq<Byte>)
    ensures o.Behind(group).Behind(front) == o.Behind(front + group)
  {
    assert front + (group + o.written) == (front + group) + o.written;
  }

  lemma Ended(whole: Outcome, written: seq<Byte>, q: seq<Symbol>, capacity: nat, g0: int, g: int, t: nat)
    requires Reading(whole, written, q, [], capacity, g0, g, t)
    ensures whole == if q == [] then Done(written) else Invalid(written)
  {
    assert q + [] == q && written + [] == written;
  }

  /** What one mapped symbol does, in every case. */
  lemma OneSymbol(whole: Outcome, written: seq<Byte>, q: seq<Symbol>, c: Symbol, rest: seq<Symbol>,
                  capacity: nat, g0: int, g: int, t: nat, g': int, t': nat)
    requires Reading(whole, written, q, [c] + rest, capacity, g0, g, t)
    requires g' == (if c == PADDING then g - 1 else g) && t' == t * 64 + Bits(c)
    ensures Refused(c, g) ==> whole == Invalid(written)
    ensures !Refused(c, g) && |q| < 3 ==> Reading(whole, written, q + [c], rest, capacity, g0, g', t')
    ensures !Refused(c, g) && |q| == 3 && |written| + g' > capacity ==> whole == Overflow(written)
    ensures !Refused(c, g) && |q| == 3 && |written| + g' <= capacity ==>
      && Reading(whole, written + GroupBytes(t', g'), [], rest, capacity, g', g', 0)
      && |written| + |GroupBytes(t', g')| <= |whole.written|
  {
    if Refused(c, g) {
      Rejected(whole, written, q, c, rest, capacity, g0, g, t);
    } else {
      Joined(whole, written, q, c, rest, capacity, g0, g, t);
      if |q| == 3 {
        Completed(whole, written, q + [c], rest, capacity, g', t');
      }
    }
  }

  method Base64Decode(input: seq<Byte>, out: array<Byte>, capacity: nat) returns (rc: int, outlen: nat)
    requires capacity <= out.Length
    requires capacity == out.Length ==> forall n: nat :: !TriplePadAt(Symbols(input), n, capacity)
    modifies out
    ensures rc == match Decoded(input, capacity)
                  case Done(_) => 0
                  case Overflow(_) => -324000
                  case Invalid(_) => -325000
    ensures outlen == if rc == 0 then |Decoded(input, capacity).written| else capacity
    ensures |Decoded(input, capacity).written| <= out.Length
    ensures out[..|Decoded(input, capacity).written|] == Decoded(input, capacity).written
    ensures forall k :: |Decoded(input, capacity).written| <= k < out.Length ==> out[k] == old(out[k])
  {
    ghost var whole := Decoded(input, capacity);
    Begun(input, capacity, out.Length);
    var t: nat, x, y, z, g := 0, 0, 0, 0, 3;
    ghost var q: seq<Symbol>, g0, written: seq<Byte> := [], 3, [];
    while x < |input|
      invariant 0 <= x <= |input| && 0 <= z <= out.Length && y == |q|
      invariant z == |written| && out[..z] == written
      invariant Reading(whole, written, q, Symbols(input[x..]), capacity, g0, g, t)
      invariant forall k :: z <= k < out.Length ==> out[k] == old(out[k])
    {
      var c := Mymap(input[x]);
      NextSymbol(input, x);
      x := x + 1;
      if c == SKIP {
        continue;
      }
      ghost var rest, g', t' := Symbols(input[x..]), if c == PADDING then g - 1 else g, t * 64 + Bits(c);
      OneSymbol(whole, written, q, c, rest, capacity, g0, g, t, g', t');
      q := q + [c];
      if c == PADDING {
        c := 0;
        g := g - 1;
        if g < 0 {
          return BASE64_INVALID_PACKET, capacity;
        }
      } else if g != 3 {
        return BASE64_INVALID_PACKET, capacity;
      }
      t := t * 64 + c;
      y := y + 1;
      assert g == g' && t == t';
      if y == 4 {
        if z + g > capacity {
          return BASE64_BUFFER_OVERFLOW, capacity;
        }
        z := PutGroup(out, z, t, g);
        q, g0, written := [], g, written + GroupBytes(t, g);
        y, t := 0, 0;
        assert Reading(whole, written, q, rest, capacity, g0, g, t);
      } else {
        assert Reading(whole, written, q, rest, capacity, g0, g, t);
      }
    }
    assert input[x..] == [];
    Ended(whole, written, q, capacity, g0, g, t);
    if y != 0 {
      return BASE64_INVALID_PACKET, capacity;
    }
    return OK, z;
  }

  lemma NextSymbol(input: seq<Byte>, x: nat)
    requires x < |input|
    ensures Symbols(input[x..])
         == if Mymap(input[x]) == SKIP then Symbols(input[x + 1..]) else [Mymap(input[x])] + Symbols(input[x + 1..])
  {
    assert input[x..][1..] == input[x + 1..];
  }

  /** The three guarded writes at the end of a group. */
  method PutGroup(out: array<Byte>, z: nat, t: nat, g: nat) returns (next: nat)
    requires z + |GroupBytes(t, g)| <= out.Length
    modifies out
    ensures next == z + |GroupBytes(t, g)| && out[..next] == old(out[..z]) + GroupBytes(t, g)
    ensures forall k :: next <= k < out.Length ==> out[k] == old(out[k])
  {
    next := z;
    out[next] := t / 65536 % 256;
    next := next + 1;
    if g > 1 {
      out[next] := t / 256 % 256;
      next := next + 1;
    }
    if g > 2 {
      out[next] := t % 256;
      next := next + 1;
    }
  }

  /** Both loops together, with buffers of exactly the sizes they need. */
  method EncodeAndDecode(s: seq<Byte>) returns (back: array<Byte>)
    ensures fresh(back) && back[..] == s
  {
    var encoded := new Byte[EncodedLength(|s|) + 1];
    var rc, n := Base64Encode(s, encoded, encoded.Length);
    back := new Byte[|s|];
    RoundTrip(s, |s|);
    WritesWithinCapacity(Symbols(Encode(s)), |s|);
    rc, n := Base64Decode(encoded[..n], back, |s|);
  }
}
