/** What src/core/base64.cpp computes: the encoding of section 4 of RFC 4648, and a decoder that
    skips every character outside the alphabet.

    Shifts and masks on unsigned values are written as arithmetic; BitOperations proves the two
    spellings equal for every expression of the codec.
  */
module Base64 {
  import opened Bytes

  const PAD: Byte := 61
  const SKIP: nat := 255
  const PADDING: nat := 254

  /** The table `codes`. */
  function Code(i: nat): Byte
    requires i < 64
  {
    if i < 26 then 65 + i
    else if i < 52 then 97 + (i - 26)
    else if i < 62 then 48 + (i - 52)
    else if i == 62 then 43 else 47
  }

  /** The table `mymap`: a sextet, 254 for '=' and 255 for a character to skip. */
  function Mymap(c: Byte): (m: nat)
    ensures m < 64 || m == PADDING || m == SKIP
  {
    if 65 <= c <= 90 then c - 65
    else if 97 <= c <= 122 then c - 97 + 26
    else if 48 <= c <= 57 then c - 48 + 52
    else if c == 43 then 62
    else if c == 47 then 63
    else if c == PAD then PADDING
    else SKIP
  }

  /** What a table lookup leaves of a character that is not skipped. */
  type Symbol = m: nat | m < 64 || m == PADDING

  lemma TablesInvert(i: nat, c: Byte)
    ensures i < 64 ==> Mymap(Code(i)) == i
    ensures Mymap(c) < 64 ==> Code(Mymap(c)) == c
  {
  }

  /** The alphabet of section 4 of RFC 4648, in both tables. */
  lemma TablesAreTheAlphabet(i: nat, c: Byte)
    ensures var alphabet := "ABCDEFGHIJKLMNOPQRSTUVWXYZ" + "abcdefghijklmnopqrstuvwxyz" + "0123456789+/";
            && |alphabet| == 64
            && (i < 64 ==> Code(i) as char == alphabet[i] && (Mymap(c) == i <==> c as char == alphabet[i]))
            && (Mymap(c) == 254 <==> c as char == '=')
            && (Mymap(c) == 255 <==> c as char != '=' && c as char !in alphabet)
  {
    var alphabet := "ABCDEFGHIJKLMNOPQRSTUVWXYZ" + "abcdefghijklmnopqrstuvwxyz" + "0123456789+/";
    if i < 64 {
      AlphabetAt(i);
      TablesInvert(i, c);
    }
    if Mymap(c) < 64 {
      TablesInvert(0, c);
      AlphabetAt(Mymap(c));
    }
    forall j | 0 <= j < 64
      ensures Mymap(alphabet[j] as int) == j
    {
      AlphabetAt(j);
      TablesInvert(j, 0);
    }
  }

  lemma AlphabetAt(i: nat)
    requires i < 64
    ensures Code(i) as char == ("ABCDEFGHIJKLMNOPQRSTUVWXYZ" + "abcdefghijklmnopqrstuvwxyz" + "0123456789+/")[i]
  {
    if i < 26 {
      assert "ABCDEFGHIJKLMNOPQRSTUVWXYZ"[i] as int == 65 + i;
    } else if i < 52 {
      assert "abcdefghijklmnopqrstuvwxyz"[i - 26] as int == 97 + (i - 26);
    } else {
      assert "0123456789+/"[i - 52] as int == Code(i);
    }
  }

  // ----- encoding --------------------------------------------------------------------

  function Quad(a: Byte, b: Byte, c: Byte): (q: seq<Byte>)
    ensures |q| == 4
  {
    [Code(a / 4), Code(a % 4 * 16 + b / 16), Code(b % 16 * 4 + c / 64), Code(c % 64)]
  }

  function Encode(s: seq<Byte>): seq<Byte> {
    if s == [] then []
    else if |s| == 1 then [Code(s[0] / 4), Code(s[0] % 4 * 16), PAD, PAD]
    else if |s| == 2 then [Code(s[0] / 4), Code(s[0] % 4 * 16 + s[1] / 16), Code(s[1] % 16 * 4), PAD]
    else Quad(s[0], s[1], s[2]) + Encode(s[3..])
  }

  function EncodedLength(n: nat): nat {
    4 * ((n + 2) / 3)
  }

  lemma {:induction false} EncodeLength(s: seq<Byte>)
    ensures |Encode(s)| == EncodedLength(|s|)
  {
    if |s| > 2 {
      EncodeLength(s[3..]);
      assert (|s| + 2) / 3 == (|s[3..]| + 2) / 3 + 1;
    }
  }

  // ----- decoding ---------------------------------------------------------------------

  /** The table values of the characters that are not skipped, in order. */
  function Symbols(input: seq<Byte>): seq<Symbol> {
    if input == [] then []
    else (if Mymap(input[0]) == SKIP then [] else [Mymap(input[0])]) + Symbols(input[1..])
  }

  /** '=' counts as zero bits. */
  function Bits(s: Symbol): nat {
    if s == PADDING then 0 else s
  }

  /** The value `t` collects from the symbols of a group. */
  function Value(q: seq<Symbol>): nat {
    if q == [] then 0 else Value(q[..|q| - 1]) * 64 + Bits(q[|q| - 1])
  }

  /** How many sextets there are in front of the first '='. */
  function Lead(q: seq<Symbol>): (n: nat)
    ensures n <= |q|
    ensures forall i :: 0 <= i < n ==> q[i] != PADDING
    ensures n < |q| ==> q[n] == PADDING
  {
    if q == [] || q[0] == PADDING then 0 else 1 + Lead(q[1..])
  }

  /** The length of what follows the sextets. */
  function Pads(q: seq<Symbol>): (k: nat)
    ensures k <= |q|
  {
    |q| - Lead(q)
  }

  /** Sextets first, then at most three '=' and nothing else. */
  predicate Orderly(q: seq<Symbol>) {
    Pads(q) <= 3 && forall i :: Lead(q) <= i < |q| ==> q[i] == PADDING
  }

  /** The bytes written for a group with value `t` and 3 - g '=': g bytes, but never none. */
  function GroupBytes(t: nat, g: nat): (b: seq<Byte>)
    ensures |b| == if g > 2 then 3 else if g > 1 then 2 else 1
  {
    [t / 65536 % 256] + (if g > 1 then [t / 256 % 256] else []) + (if g > 2 then [t % 256] else [])
  }

  function Trimmed(q: seq<Symbol>): (b: seq<Byte>)
    requires |q| == 4 && Pads(q) <= 3
    ensures |b| == if Pads(q) == 3 then 1 else 3 - Pads(q)
  {
    GroupBytes(Value(q), 3 - Pads(q))
  }

  /** What a call leaves in the output buffer, and how it ends. */
  datatype Outcome =
    | Done(written: seq<Byte>)
    | Overflow(written: seq<Byte>)
    | Invalid(written: seq<Byte>)
  {
    function Behind(front: seq<Byte>): Outcome {
      match this
      case Done(w) => Done(front + w)
      case Overflow(w) => Overflow(front + w)
      case Invalid(w) => Invalid(front + w)
    }
  }

  /** Decoding group by group. Only the last group may be padded, and the capacity check asks
      for three bytes less one for each '='. */
  function Decode(f: seq<Symbol>, capacity: nat): Outcome {
    if f == [] then Done([])
    else if |f| < 4 || !Orderly(f[..4]) then Invalid([])
    else
      var q := f[..4];
      if 3 - Pads(q) > capacity then Overflow([])
      else if Pads(q) > 0 then (if |f| == 4 then Done(Trimmed(q)) else Invalid(Trimmed(q)))
      else Decode(f[4..], capacity - 3).Behind(Trimmed(q))
  }

  // ----- shifts and masks ---------------------------------------------------------------

  /** The expressions of both loops, as the program spells them and as arithmetic. */
  lemma BitOperations(a: bv32, b: bv32, c: bv32, t: bv32, s: bv32, u: bv32)
    requires a < 256 && b < 256 && c < 256 && t < 0x40000 && s < 64 && u < 0x1000000
    ensures (a >> 2) & 0x3F == a / 4
    ensures (((a & 3) << 4) + (b >> 4)) & 0x3F == a % 4 * 16 + b / 16
    ensures (((b & 0xf) << 2) + (c >> 6)) & 0x3F == b % 16 * 4 + c / 64
    ensures ((b & 0xf) << 2) & 0x3F == b % 16 * 4
    ensures c & 0x3F == c % 64
    ensures (t << 6) | s == t * 64 + s
    ensures ((u >> 16) & 255 == u / 65536 % 256) && ((u >> 8) & 255 == u / 256 % 256) && (u & 255 == u % 256)
  {
  }
}
