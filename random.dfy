/**
 * The rejection-sampling helpers of kyber's `random.ts`. The random source is the callback
 * `(length) => Uint8Array`; it is modelled as a stream of bytes from which each call takes the
 * next `length` bytes. The source loops until a draw is accepted; in the model a loop that would
 * need more bytes than the stream holds ends with `None`.
 */
module Random {
  import opened Bytes
  import opened Wrappers

  /** `(bitlen + 7) >> 3`: how many bytes `bits` asks the callback for. */
  function ByteLen(bitlen: nat): nat
  {
    (bitlen + 7) / 8
  }

  /**
   * The two's-complement pattern of `~(0xff << h)` as an unsigned 32-bit value.
   * For `h < 8` the shift does not overflow 32 bits.
   */
  function NotShifted(h: nat): nat
    requires h < 8
  {
    Pow2Mono(h, 7);
    assert Pow2(7) == 128 by { Pow2Eight(); }
    0xFFFF_FFFF - 255 * Pow2(h)
  }

  /** Byte 0 of the result of `bits`, computed from byte 0 of the draw by the masking and setting of the code. */
  function LeadByte(bitlen: nat, exact: bool, b0: byte): byte
  {
    var h := bitlen % 8;
    var masked := if h != 0 then AndAssign(b0, NotShifted(h)) else b0;
    if !exact then masked
    else if h != 0 then OrAssign(masked, Pow2(h - 1))
    else OrAssign(masked, 0x80)
  }

  /** The number of significant bits of the leading byte: `bitlen & 7`, or 8 when that is 0. */
  function LeadBits(bitlen: nat): (r: nat)
    ensures 1 <= r <= 8
  {
    if bitlen % 8 == 0 then 8 else bitlen % 8
  }

  /**
   * The value byte 0 of `bits` should have: the `LeadBits` low bits of the drawn byte, and with
   * `exact` the top one of them set.
   */
  function Lead(bitlen: nat, exact: bool, b0: byte): (r: byte)
  {
    var k := LeadBits(bitlen);
    assert Pow2(k) <= 256 by { Pow2Eight(); Pow2Mono(k, 8); }
    if !exact then b0 % Pow2(k)
    else
      assert Pow2(k) == 2 * Pow2(k - 1);
      Pow2(k - 1) + b0 % Pow2(k - 1)
  }

  /** What `bits` returns for a draw of `ByteLen(bitlen)` bytes: only byte 0 is rewritten (a write to index 0 of an empty array is lost). */
  function Masked(bitlen: nat, exact: bool, draw: seq<byte>): (r: seq<byte>)
    requires |draw| == ByteLen(bitlen)
    ensures |r| == ByteLen(bitlen)
  {
    if draw == [] then [] else draw[0 := Lead(bitlen, exact, draw[0])]
  }

  /** The masking of the code gives `Lead`: without `exact` it keeps the `LeadBits` low bits; with it, the top one of them is also set. */
  lemma LeadByteValue(bitlen: nat, exact: bool, b0: byte)
    ensures LeadByte(bitlen, exact, b0) == Lead(bitlen, exact, b0)
    ensures !exact ==> LeadByte(bitlen, exact, b0) == b0 % Pow2(LeadBits(bitlen))
    ensures exact ==> LeadByte(bitlen, exact, b0) == Pow2(LeadBits(bitlen) - 1) + b0 % Pow2(LeadBits(bitlen) - 1)
  {
    var h := bitlen % 8;
    var k := LeadBits(bitlen);
    var masked := if h != 0 then AndAssign(b0, NotShifted(h)) else b0;
    assert masked == b0 % Pow2(k) by {
      if h != 0 {
        ClearHighBits(b0, h);
      } else {
        Pow2Eight();
        DivModUnique(b0, 256, 0, b0);
      }
    }
    if exact {
      SetTopBit(b0, masked, k);
      assert k == 8 ==> Pow2(k - 1) == 0x80 by { Pow2Eight(); }
    }
  }

  /** `b &= ~(0xff << h)` keeps the `h` low bits of `b`. */
  lemma ClearHighBits(b: byte, h: nat)
    requires 0 < h < 8
    ensures AndAssign(b, NotShifted(h)) == b % Pow2(h)
  {
    var mask := NotShifted(h);
    Pow2Eight();
    Pow2Mono(h, 7);
    assert Pow2(7) == 128;
    DivModUnique(mask, 256, 0x100_0000 - Pow2(h), Pow2(h) - 1);
    AndBelow(b, mask, 8);
    AndLowMask(b, h);
    DivModUnique(b % Pow2(h), 256, 0, b % Pow2(h));
  }

  /** `x |= 2^(k-1)` on `x == b mod 2^k` sets bit `k-1` and keeps the bits below it. */
  lemma SetTopBit(b: byte, x: byte, k: nat)
    requires 1 <= k <= 8 && x == b % Pow2(k)
    ensures OrAssign(x, Pow2(k - 1)) == Pow2(k - 1) + b % Pow2(k - 1)
  {
    OrTopBit(x, k);
    ModMod(b, k, k - 1);
    var v := Pow2(k - 1) + b % Pow2(k - 1);
    Pow2Eight();
    Pow2Mono(k - 1, 7);
    assert Pow2(7) == 128;
    assert v < 256;
    DivModUnique(v, 256, 0, v);
  }

  /** A non-empty draw splits into its leading byte, weighted by `2^(8(n-1))`, and the rest. */
  lemma MaskedSplit(bitlen: nat, exact: bool, draw: seq<byte>)
    requires |draw| == ByteLen(bitlen) && draw != []
    ensures bitlen == 8 * (|draw| - 1) + LeadBits(bitlen)
    ensures BE(draw) == draw[0] * Pow2(8 * (|draw| - 1)) + BE(draw[1..])
    ensures BE(Masked(bitlen, exact, draw)) == Lead(bitlen, exact, draw[0]) * Pow2(8 * (|draw| - 1)) + BE(draw[1..])
    ensures BE(draw[1..]) < Pow2(8 * (|draw| - 1))
  {
    var r := Masked(bitlen, exact, draw);
    BELeading(draw);
    BELeading(r);
    assert r[1..] == draw[1..];
    BEBound(draw[1..]);
  }

  /** The value `bits` returns: the draw reduced below `2^bitlen`, and with `exact` also at least `2^(bitlen-1)`. */
  lemma MaskedValue(bitlen: nat, exact: bool, draw: seq<byte>)
    requires |draw| == ByteLen(bitlen)
    ensures !exact ==> BE(Masked(bitlen, exact, draw)) == BE(draw) % Pow2(bitlen)
    ensures exact && bitlen > 0 ==> BE(Masked(bitlen, exact, draw)) == Pow2(bitlen - 1) + BE(draw) % Pow2(bitlen - 1)
    ensures exact && bitlen == 0 ==> Masked(bitlen, exact, draw) == []
  {
    if draw == [] {
      assert bitlen == 0;
      assert Pow2(0) == 1;
    } else if exact {
      MaskedValueExact(bitlen, draw);
    } else {
      MaskedValueLoose(bitlen, draw);
    }
  }

  lemma MaskedValueLoose(bitlen: nat, draw: seq<byte>)
    requires |draw| == ByteLen(bitlen) && draw != []
    ensures BE(Masked(bitlen, false, draw)) == BE(draw) % Pow2(bitlen)
  {
    MaskedSplit(bitlen, false, draw);
    var k := LeadBits(bitlen);
    var e := 8 * (|draw| - 1);
    var b0, c, p, m := draw[0], BE(draw[1..]), Pow2(k), Pow2(e);
    assert Lead(bitlen, false, b0) == b0 % p;
    assert BE(Masked(bitlen, false, draw)) == (b0 % p) * m + c;
    assert BE(draw) == b0 * m + c;
    Pow2Add(k, e);
    assert Pow2(bitlen) == p * m;
    ModScaled(b0, c, p, m);
  }

  lemma MaskedValueExact(bitlen: nat, draw: seq<byte>)
    requires |draw| == ByteLen(bitlen) && draw != []
    ensures bitlen > 0
    ensures BE(Masked(bitlen, true, draw)) == Pow2(bitlen - 1) + BE(draw) % Pow2(bitlen - 1)
  {
    MaskedSplit(bitlen, true, draw);
    var k := LeadBits(bitlen);
    var e := 8 * (|draw| - 1);
    var b0, c, p, m := draw[0], BE(draw[1..]), Pow2(k - 1), Pow2(e);
    var lead, v, big := Lead(bitlen, true, b0), BE(draw), Pow2(bitlen - 1);
    assert lead == p + b0 % p;
    assert big == p * m by { Pow2Add(k - 1, e); }
    assert BE(Masked(bitlen, true, draw)) == lead * m + c;
    assert v == b0 * m + c;
    ExactSplit(b0, c, p, m, lead, v, big);
  }

  lemma ExactSplit(b0: nat, c: nat, p: nat, m: nat, lead: int, v: int, big: int)
    requires p > 0 && c < m
    requires lead == p + b0 % p && v == b0 * m + c && big == p * m
    ensures lead * m + c == big + v % big
  {
    ModScaled(b0, c, p, m);
    Distrib(p, b0 % p, m);
  }

  lemma Distrib(p: int, x: int, m: int)
    ensures (p + x) * m == p * m + x * m
  {
  }

  /** The candidate properties of `bits`: length, upper bound, lower bound with `exact`, identity when nothing is masked. */
  lemma MaskedProperties(bitlen: nat, exact: bool, draw: seq<byte>)
    requires |draw| == ByteLen(bitlen)
    ensures |Masked(bitlen, exact, draw)| == (bitlen + 7) / 8
    ensures BE(Masked(bitlen, exact, draw)) < Pow2(bitlen)
    ensures exact && bitlen > 0 ==> Pow2(bitlen - 1) <= BE(Masked(bitlen, exact, draw))
    ensures !exact && bitlen % 8 == 0 ==> Masked(bitlen, exact, draw) == draw
  {
    MaskedValue(bitlen, exact, draw);
    var v := BE(draw);
    if exact && bitlen > 0 {
      Pow2Add(1, bitlen - 1);
      assert Pow2(1) == 2;
    }
    if !exact && bitlen % 8 == 0 {
      BEBound(draw);
      assert 8 * |draw| == bitlen;
      DivModUnique(v, Pow2(bitlen), 0, v);
      assert BE(Masked(bitlen, exact, draw)) == v;
      ToBEOfBE(draw);
      ToBEOfBE(Masked(bitlen, exact, draw));
    }
  }

  /**
   * `bits(bitlen, exact, callback)`: draws `ByteLen(bitlen)` bytes and rewrites byte 0 in place.
   * Returns `None` when the stream holds fewer bytes than the draw needs.
   */
  method Bits(bitlen: nat, exact: bool, stream: seq<byte>) returns (r: Option<seq<byte>>)
    ensures |stream| < ByteLen(bitlen) ==> r == None
    ensures |stream| >= ByteLen(bitlen) ==> r == Some(Masked(bitlen, exact, stream[..ByteLen(bitlen)]))
  {
    var n := ByteLen(bitlen);
    if |stream| < n {
      return None;
    }
    var b := new byte[n](i requires 0 <= i < n => stream[i]);
    var highbits := bitlen % 8;
    if highbits != 0 && n > 0 {
      b[0] := AndAssign(b[0], NotShifted(highbits));
    }
    if exact && n > 0 {
      if highbits != 0 {
        b[0] := OrAssign(b[0], Pow2(highbits - 1));
      } else {
        b[0] := OrAssign(b[0], 0x80);
      }
    }
    assert forall j :: 1 <= j < n ==> b[j] == stream[j];
    if n > 0 {
      assert b[0] == Lead(bitlen, exact, stream[0]) by {
        assert b[0] == LeadByte(bitlen, exact, stream[0]);
        LeadByteValue(bitlen, exact, stream[0]);
      }
    }
    assert b[..] == Masked(bitlen, exact, stream[..n]);
    return Some(b[..]);
  }

  /** `int` accepts a candidate `i` when `0 < i < mod`. */
  predicate Accepts(mod: nat, candidate: seq<byte>)
  {
    0 < BE(candidate) < mod
  }

  /**
   * The rounds of the `int` loop with draws of `bits(bitlen, false)`: the accepted bytes and how
   * many stream bytes were drawn, or `None` when the stream runs out first.
   */
  function Rounds(mod: nat, bitlen: nat, stream: seq<byte>): Option<(seq<byte>, nat)>
    decreases |stream|
  {
    var n := ByteLen(bitlen);
    if n == 0 || |stream| < n then None
    else
      var candidate := Masked(bitlen, false, stream[..n]);
      if Accepts(mod, candidate) then Some((candidate, n))
      else Shifted(Rounds(mod, bitlen, stream[n..]), n)
  }

  /**
   * The outcome of `int(mod, callback)`, whose draws have `bitLength(mod)` bits. For `mod <= 1`
   * no draw is ever accepted.
   */
  function IntFrom(mod: nat, stream: seq<byte>): Option<(seq<byte>, nat)>
  {
    Rounds(mod, BitLength(mod), stream)
  }

  /** The outcome of a loop that starts after `k` bytes have been drawn. */
  function Shifted(o: Option<(seq<byte>, nat)>, k: nat): Option<(seq<byte>, nat)>
  {
    match o
    case None => None
    case Some((c, used)) => Some((c, k + used))
  }

  lemma ShiftedTwice(o: Option<(seq<byte>, nat)>, a: nat, b: nat)
    ensures Shifted(Shifted(o, a), b) == Shifted(o, b + a)
  {
  }

  /** One round on a stream that holds a whole draw. */
  lemma RoundsCons(mod: nat, bitlen: nat, s: seq<byte>)
    requires 0 < ByteLen(bitlen) <= |s|
    ensures var n := ByteLen(bitlen);
      var c := Masked(bitlen, false, s[..n]);
      Rounds(mod, bitlen, s) == if Accepts(mod, c) then Some((c, n)) else Shifted(Rounds(mod, bitlen, s[n..]), n)
  {
  }

  lemma RoundAccepted(mod: nat, bitlen: nat, s: seq<byte>, used: nat)
    requires 0 < ByteLen(bitlen) <= |s|
    requires Accepts(mod, Masked(bitlen, false, s[..ByteLen(bitlen)]))
    ensures Shifted(Rounds(mod, bitlen, s), used) == Some((Masked(bitlen, false, s[..ByteLen(bitlen)]), used + ByteLen(bitlen)))
  {
    RoundsCons(mod, bitlen, s);
  }

  lemma RoundRejected(mod: nat, bitlen: nat, s: seq<byte>, used: nat)
    requires 0 < ByteLen(bitlen) <= |s|
    requires !Accepts(mod, Masked(bitlen, false, s[..ByteLen(bitlen)]))
    ensures Shifted(Rounds(mod, bitlen, s), used) == Shifted(Rounds(mod, bitlen, s[ByteLen(bitlen)..]), used + ByteLen(bitlen))
  {
    RoundsCons(mod, bitlen, s);
    ShiftedTwice(Rounds(mod, bitlen, s[ByteLen(bitlen)..]), ByteLen(bitlen), used);
  }

  /** Every block of `ByteLen(bitlen)` bytes of `s` gives a rejected candidate. */
  predicate Rejected(mod: nat, bitlen: nat, s: seq<byte>)
    decreases |s|
  {
    var n := ByteLen(bitlen);
    n > 0 &&
    (|s| == 0 || (|s| >= n && !Accepts(mod, Masked(bitlen, false, s[..n])) && Rejected(mod, bitlen, s[n..])))
  }

  /** Every block of `s` gives a rejected candidate of `int(mod, ...)`. */
  predicate AllRejected(mod: nat, s: seq<byte>)
  {
    Rejected(mod, BitLength(mod), s)
  }

  /** `c` is the first acceptable candidate of `stream` with draws of `bitlen` bits, and its block ends at `used`. */
  predicate FirstIn(mod: nat, bitlen: nat, stream: seq<byte>, c: seq<byte>, used: nat)
  {
    var n := ByteLen(bitlen);
    n <= used <= |stream| &&
    c == Masked(bitlen, false, stream[used - n..used]) &&
    Accepts(mod, c) &&
    Rejected(mod, bitlen, stream[..used - n])
  }

  /**
   * `c` is the first acceptable candidate of `int(mod, ...)` in `stream` and its block ends at
   * `used`: the candidate lies in `(0, mod)`, has `ByteLen(BitLength(mod))` bytes, and every
   * earlier block was rejected.
   */
  predicate FirstAccepted(mod: nat, stream: seq<byte>, c: seq<byte>, used: nat)
  {
    FirstIn(mod, BitLength(mod), stream, c, used)
  }

  /** `int` returns the first acceptable draw. */
  lemma IntFromFirstAccepted(mod: nat, stream: seq<byte>, c: seq<byte>, used: nat)
    requires IntFrom(mod, stream) == Some((c, used))
    ensures FirstAccepted(mod, stream, c, used)
    ensures 0 < BE(c) < mod
    ensures |c| == ByteLen(BitLength(mod))
  {
    RoundsFirst(mod, BitLength(mod), stream, c, used);
  }

  lemma {:induction false} RoundsFirst(mod: nat, bitlen: nat, stream: seq<byte>, c: seq<byte>, used: nat)
    requires Rounds(mod, bitlen, stream) == Some((c, used))
    ensures FirstIn(mod, bitlen, stream, c, used)
    decreases |stream|
  {
    var n := ByteLen(bitlen);
    assert 0 < n <= |stream|;
    var candidate := Masked(bitlen, false, stream[..n]);
    var rest := stream[n..];
    assert Rounds(mod, bitlen, stream) == if Accepts(mod, candidate) then Some((candidate, n)) else Shifted(Rounds(mod, bitlen, rest), n) by {
      RoundsCons(mod, bitlen, stream);
    }
    if Accepts(mod, candidate) {
      assert c == candidate && used == n;
      assert stream[..0] == [] && Rejected(mod, bitlen, []);
      assert stream[0..n] == stream[..n];
      FirstInOf(mod, bitlen, stream, c, n, stream[..0], stream[0..n]);
    } else {
      assert Rounds(mod, bitlen, rest) == Some((c, used - n));
      RoundsFirst(mod, bitlen, rest, c, used - n);
      FirstInStep(mod, bitlen, stream, c, used);
    }
  }

  lemma FirstInStep(mod: nat, bitlen: nat, stream: seq<byte>, c: seq<byte>, used: nat)
    requires ByteLen(bitlen) <= used && ByteLen(bitlen) <= |stream|
    requires !Accepts(mod, Masked(bitlen, false, stream[..ByteLen(bitlen)]))
    requires FirstIn(mod, bitlen, stream[ByteLen(bitlen)..], c, used - ByteLen(bitlen))
    ensures FirstIn(mod, bitlen, stream, c, used)
  {
    var n := ByteLen(bitlen);
    var rest, k := stream[n..], used - n;
    var block, pre := rest[k - n..k], rest[..k - n];
    assert c == Masked(bitlen, false, block) && Rejected(mod, bitlen, pre);
    assert stream[k..n + k] == block by {
      SliceOfDrop(stream, n, k - n, k);
    }
    assert stream[..k] == stream[..n] + pre by {
      TakeOfDrop(stream, n, k - n);
    }
    RejectedCons(mod, bitlen, stream[..n], pre);
    FirstInOf(mod, bitlen, stream, c, used, stream[..k], stream[k..used]);
  }

  lemma SliceOfDrop(s: seq<byte>, n: nat, i: nat, j: nat)
    requires n + j <= |s| && i <= j
    ensures s[n + i..n + j] == s[n..][i..j]
  {
  }

  lemma TakeOfDrop(s: seq<byte>, n: nat, k: nat)
    requires n + k <= |s|
    ensures s[..n + k] == s[..n] + s[n..][..k]
  {
  }

  lemma FirstInOf(mod: nat, bitlen: nat, stream: seq<byte>, c: seq<byte>, used: nat, pre: seq<byte>, block: seq<byte>)
    requires ByteLen(bitlen) <= used <= |stream|
    requires pre == stream[..used - ByteLen(bitlen)] && block == stream[used - ByteLen(bitlen)..used]
    requires c == Masked(bitlen, false, block) && Accepts(mod, c) && Rejected(mod, bitlen, pre)
    ensures FirstIn(mod, bitlen, stream, c, used)
  {
  }

  /** A rejected block in front of rejected blocks. */
  lemma RejectedCons(mod: nat, bitlen: nat, block: seq<byte>, s: seq<byte>)
    requires 0 < |block| == ByteLen(bitlen)
    requires !Accepts(mod, Masked(bitlen, false, block))
    requires Rejected(mod, bitlen, s)
    ensures Rejected(mod, bitlen, block + s)
  {
    var t := block + s;
    assert t[..|block|] == block;
    assert t[|block|..] == s;
  }

  /** The bytes of `len` that whole blocks of `n` bytes cover. */
  function WholeBlocks(n: nat, len: nat): (r: nat)
    requires n > 0
    ensures r <= len
  {
    if len < n then 0 else n + WholeBlocks(n, len - n)
  }

  /** When `int` does not return within the stream, every whole block of the stream was rejected. */
  lemma IntFromNone(mod: nat, stream: seq<byte>)
    requires IntFrom(mod, stream).None?
    requires ByteLen(BitLength(mod)) > 0
    ensures AllRejected(mod, stream[..WholeBlocks(ByteLen(BitLength(mod)), |stream|)])
  {
    RoundsNone(mod, BitLength(mod), stream);
  }

  lemma {:induction false} RoundsNone(mod: nat, bitlen: nat, stream: seq<byte>)
    requires Rounds(mod, bitlen, stream).None?
    requires ByteLen(bitlen) > 0
    ensures Rejected(mod, bitlen, stream[..WholeBlocks(ByteLen(bitlen), |stream|)])
    decreases |stream|
  {
    var n := ByteLen(bitlen);
    if |stream| < n {
      assert stream[..0] == [];
    } else {
      var rest := stream[n..];
      RoundsCons(mod, bitlen, stream);
      RoundsNone(mod, bitlen, rest);
      var w := WholeBlocks(n, |rest|);
      var prefix := stream[..n + w];
      assert prefix[..n] == stream[..n];
      assert prefix[n..] == rest[..w];
    }
  }

  /**
   * `int(mod, callback)`: draws `bits(bitLength(mod), false)` until the big-endian value lies in
   * `(0, mod)`. Returns the accepted bytes and how many stream bytes were drawn.
   */
  method Int(mod: nat, stream: seq<byte>) returns (r: Option<seq<byte>>, used: nat)
    ensures IntFrom(mod, stream).None? <==> r == None
    ensures r.Some? ==> IntFrom(mod, stream) == Some((r.value, used))
    ensures r.Some? ==> FirstAccepted(mod, stream, r.value, used) && 0 < BE(r.value) < mod
  {
    var bitlength := BitLength(mod);
    r, used := DrawUntilAccepted(mod, bitlength, stream);
    if r.Some? {
      IntFromFirstAccepted(mod, stream, r.value, used);
    }
  }

  /** The `while` loop of `int`, drawing `bits(bitlength, false)` each round. */
  method DrawUntilAccepted(mod: nat, bitlength: nat, stream: seq<byte>) returns (r: Option<seq<byte>>, used: nat)
    ensures Rounds(mod, bitlength, stream).None? <==> r == None
    ensures r.Some? ==> Rounds(mod, bitlength, stream) == Some((r.value, used))
  {
    var n := ByteLen(bitlength);
    var rest := stream;
    ghost var outcome := Rounds(mod, bitlength, stream);
    used := 0;
    while n > 0 && n <= |rest|
      invariant used + |rest| == |stream|
      invariant outcome == Shifted(Rounds(mod, bitlength, rest), used)
      decreases |rest|
    {
      var bytes := Bits(bitlength, false, rest);
      var i := BE(bytes.value);
      if 0 < i && i < mod {
        RoundAccepted(mod, bitlength, rest, used);
        r, used := bytes, used + n;
        return;
      }
      RoundRejected(mod, bitlength, rest, used);
      rest := rest[n..];
      used := used + n;
    }
    return None, used;
  }
}
