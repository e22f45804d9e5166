/** The unsigned LEB128 code of `writeUint32/64` and `readUint32/64`. */
module Varint {
  import opened Bytes

  function Pow2(n: nat): (r: nat)
    ensures r >= 1
  {
    if n == 0 then 1 else 2 * Pow2(n - 1)
  }

  lemma {:induction false} Pow2Monotone(m: nat, n: nat)
    requires m < n
    ensures 2 * Pow2(m) <= Pow2(n)
    decreases n
  {
    if m < n - 1 {
      Pow2Monotone(m, n - 1);
    }
  }

  lemma Pow2Seven(n: nat)
    ensures Pow2(n + 7) == 128 * Pow2(n)
  {
    assert Pow2(n + 7) == 2 * Pow2(n + 6);
    assert Pow2(n + 5) == 2 * Pow2(n + 4);
    assert Pow2(n + 3) == 2 * Pow2(n + 2);
    assert Pow2(n + 1) == 2 * Pow2(n);
  }

  lemma {:induction false} Pow2Range(w: nat)
    ensures Pow2(8 * w) == Range(w)
  {
    if w > 0 {
      Pow2Range(w - 1);
      Pow2Seven(8 * w - 8);
    }
  }

  /** The reference encoding: groups of seven bits, least significant first, the
      high bit of every byte but the last one set. */
  function Leb(v: nat): (s: seq<byte>)
    ensures |s| >= 1
  {
    if v < 128 then [v] else [v % 128 + 128] + Leb(v / 128)
  }

  /** What `value` groups of seven bits can hold is exactly what has a code of that length. */
  lemma {:induction false} LebLength(v: nat, k: nat)
    requires k >= 1
    ensures |Leb(v)| <= k <==> v < Pow2(7 * k)
    decreases k
  {
    assert Pow2(7) == 128 by { Pow2Seven(0); }
    if v < 128 {
      if k > 1 {
        Pow2Monotone(7, 7 * k);
      }
    } else if k > 1 {
      LebLength(v / 128, k - 1);
      Pow2Seven(7 * k - 7);
    }
  }

  /** The bytes before the last carry the continuation bit and the last does not, so no
      code is a proper prefix of another, and no two values share a code. */
  lemma {:induction false} PrefixFree(u: nat, v: nat)
    requires Leb(u) <= Leb(v)
    ensures u == v
  {
    assert Leb(u)[0] == Leb(v)[0];
    if u >= 128 {
      assert Leb(u)[1..] == Leb(u / 128) && Leb(v)[1..] == Leb(v / 128);
      PrefixFree(u / 128, v / 128);
    }
  }

  /** Byte `k` of the code carries bits `7 * k` to `7 * k + 6` of the value, and the continuation bit exactly
      if it is not the last. */
  lemma {:induction false} LebBytes(v: nat, k: nat)
    requires k < |Leb(v)|
    ensures Leb(v)[k] == v / Pow2(7 * k) % 128 + if k + 1 < |Leb(v)| then 128 else 0
    decreases k
  {
    if k > 0 {
      LebBytes(v / 128, k - 1);
      Pow2Seven(7 * k - 7);
      DivTwice(v, 128, Pow2(7 * k - 7));
    }
  }

  lemma {:induction false} LebHead(v: nat)
    ensures Leb(v) == if v < 128 then [v] else [v % 128 + 128] + Leb(v / 128)
  {
  }

  /** The encoder's loop, with its on-stack buffer of five or ten bytes. */
  method Encode(value: nat, limit: nat) returns (out: seq<byte>)
    requires (limit == 5 && value < Range(4)) || (limit == 10 && value < Range(8))
    ensures out == Leb(value)
    ensures |out| <= limit
  {
    LebFits(value, limit);
    var tmp := new byte[limit];
    var i := 0;
    var rest := value;
    ghost var done: seq<byte> := [];
    hide Leb, Pow2, Emitted;
    NothingEmitted(value);
    while rest >= 0x80
      invariant i == |done| && Emitted(done, rest, value)
      invariant i < limit && forall k | 0 <= k < i :: tmp[k] == done[k]
    {
      EmitMore(done, rest, value);
      done := done + [rest % 0x80 + 0x80];
      tmp[i] := rest % 0x80 + 0x80;
      i := i + 1;
      rest := rest / 0x80;
    }
    EmitLast(done, rest, value);
    tmp[i] := rest;
    i := i + 1;
    out := tmp[..i];
    assert out == done + [rest];
  }

  /** The bytes so far and the code of the rest make up the code of the value. */
  ghost predicate Emitted(done: seq<byte>, rest: nat, value: nat) {
    done + Leb(rest) == Leb(value)
  }

  lemma NothingEmitted(value: nat)
    ensures Emitted([], value, value)
  {
    assert [] + Leb(value) == Leb(value);
  }

  lemma {:induction false} EmitMore(done: seq<byte>, rest: nat, value: nat)
    requires Emitted(done, rest, value) && rest >= 128
    ensures Emitted(done + [rest % 128 + 128], rest / 128, value) && |done| + 1 < |Leb(value)|
  {
    assert done + [rest % 128 + 128] + Leb(rest / 128) == done + Leb(rest);
  }

  lemma {:induction false} EmitLast(done: seq<byte>, rest: nat, value: nat)
    requires Emitted(done, rest, value) && rest < 128
    ensures done + [rest] == Leb(value)
  {
  }

  lemma {:induction false} LebFits(value: nat, limit: nat)
    requires (limit == 5 && value < Range(4)) || (limit == 10 && value < Range(8))
    ensures |Leb(value)| <= limit
  {
    LebLength(value, limit);
    var w := if limit == 5 then 4 else 8;
    Pow2Range(w);
    Pow2Monotone(8 * w, 7 * limit);
  }

  /** Bitwise or of the low `n` bits. */
  function Or(n: nat, a: nat, b: nat): (r: nat)
    ensures r < Pow2(n)
  {
    if n == 0 then 0 else (if a % 2 + b % 2 > 0 then 1 else 0) + 2 * Or(n - 1, a / 2, b / 2)
  }

  /** `acc |= group << shift` in a `bits`-bit word */
  function OrIn(bits: nat, shift: nat, acc: nat, group: nat): (r: nat)
    ensures r < Pow2(bits)
  {
    Or(bits, acc, group * Pow2(shift))
  }

  lemma QuotientIs(x: nat, d: nat, q: nat, r: nat)
    requires r < d && x == d * q + r
    ensures x % d == r
  {
    var (q', r') := (x / d, x % d);
    assert d * q' + r' == d * q + r;
    if q' < q {
      ProductMonotone(q' + 1, q, d);
    } else if q < q' {
      ProductMonotone(q + 1, q', d);
    }
  }

  lemma HalfMod(x: nat, m: nat)
    requires m > 0
    ensures x % (2 * m) == x % 2 + 2 * ((x / 2) % m)
  {
    var (q, r) := ((x / 2) / m, (x / 2) % m);
    TwiceProduct(m, q);
    QuotientIs(x, 2 * m, q, 2 * r + x % 2);
  }

  lemma TwiceProduct(m: nat, q: nat)
    ensures (2 * m) * q == 2 * (m * q)
  {
  }

  /** The low `n` bits of a number. */
  function Low(n: nat, x: nat): nat {
    if n == 0 then 0 else x % 2 + 2 * Low(n - 1, x / 2)
  }

  lemma {:induction false} LowIsMod(n: nat, x: nat)
    ensures Low(n, x) == x % Pow2(n)
  {
    if n > 0 {
      LowIsMod(n - 1, x / 2);
      HalfMod(x, Pow2(n - 1));
    }
  }

  function Shifted(x: nat, shift: nat): nat {
    if shift == 0 then x else 2 * Shifted(x, shift - 1)
  }

  lemma {:induction false} ShiftedIsProduct(x: nat, shift: nat)
    ensures Shifted(x, shift) == x * Pow2(shift)
  {
    if shift > 0 {
      ShiftedIsProduct(x, shift - 1);
      TwiceProduct(Pow2(shift - 1), x);
    }
  }

  lemma {:induction false} OrWithNone(n: nat, x: nat)
    ensures Or(n, 0, x) == Low(n, x)
  {
    if n > 0 {
      OrWithNone(n - 1, x / 2);
    }
  }

  lemma {:induction false} OrAdds(n: nat, shift: nat, a: nat, x: nat)
    requires a < Pow2(shift)
    ensures Or(n, a, Shifted(x, shift)) == Low(n, a + Shifted(x, shift))
    decreases n
  {
    if shift == 0 {
      OrWithNone(n, x);
    } else if n > 0 {
      var (half, high) := (a / 2, Shifted(x, shift - 1));
      assert half < Pow2(shift - 1) && Shifted(x, shift) == 2 * high;
      hide Pow2, Shifted;
      OrAdds(n - 1, shift - 1, half, x);
      assert (2 * high) % 2 == 0 && (2 * high) / 2 == high;
      assert (a + 2 * high) % 2 == a % 2 && (a + 2 * high) / 2 == half + high;
    }
  }

  /** Where all bits from `shift` up are clear, or-ing in is adding in the word. */
  lemma {:induction false} OrIsSum(bits: nat, shift: nat, acc: nat, group: nat)
    requires acc < Pow2(shift)
    ensures OrIn(bits, shift, acc, group) == (acc + group * Pow2(shift)) % Pow2(bits)
  {
    hide Or, Pow2, Low, Shifted;
    ShiftedIsProduct(group, shift);
    OrAdds(bits, shift, acc, group);
    LowIsMod(bits, acc + Shifted(group, shift));
  }

  /** The reader: the number and how many bytes it took. It stops at the first byte without
      the continuation bit, or when the shift leaves the word. */
  function Decode(bits: nat, shift: nat, acc: nat, s: seq<byte>): (r: Result<(nat, nat)>)
    requires acc < Pow2(bits)
    ensures r.Ok? ==> r.value.0 < Pow2(bits) && r.value.1 <= |s|
    ensures !r.NullDereference?
    decreases bits - shift
  {
    if shift >= bits then Ok((acc, 0))
    else if s == [] then OutOfRange
    else
      var acc' := OrIn(bits, shift, acc, s[0] % 128);
      if s[0] < 128 then Ok((acc', 1))
      else
        var (v, n) :- Decode(bits, shift + 7, acc', s[1..]);
        Ok((v, n + 1))
  }

  /** The number in the low seven bits of each byte, least significant group first. */
  function Groups(s: seq<byte>): nat {
    if s == [] then 0 else s[0] % 128 + 128 * Groups(s[1..])
  }

  /** The reader on any bytes at all. It stops behind the first byte without the continuation bit, or where
      the shift leaves the word; it fails exactly when the bytes end before that. What it returns is the
      number in the bytes it took, modulo the word. */
  lemma {:induction false} DecodeMeaning(bits: nat, shift: nat, acc: nat, s: seq<byte>)
    requires acc < Pow2(bits) && acc < Pow2(shift) && shift < bits
    ensures var r := Decode(bits, shift, acc, s);
            if r.Ok? then
              var n := r.value.1;
              && 0 < n <= |s| && shift + 7 * (n - 1) < bits && (s[n - 1] < 128 || shift + 7 * n >= bits)
              && (forall k | 0 <= k < n - 1 :: s[k] >= 128)
              && r.value.0 == (acc + Groups(s[..n]) * Pow2(shift)) % Pow2(bits)
            else
              r == OutOfRange && shift + 7 * |s| < bits && forall k | 0 <= k < |s| :: s[k] >= 128
    decreases bits - shift
  {
    hide Pow2, OrIn, Groups;
    if s != [] {
      var (d, acc') := (s[0] % 128, OrIn(bits, shift, acc, s[0] % 128));
      if s[0] < 128 || shift + 7 >= bits {
        LastTaken(bits, shift, acc, s);
        assert s[0] >= 128 ==> Decode(bits, shift + 7, acc', s[1..]) == Ok((acc', 0));
      } else {
        OrInBound(bits, shift, acc, d);
        DecodeMeaning(bits, shift + 7, acc', s[1..]);
        var r := Decode(bits, shift + 7, acc', s[1..]);
        assert forall k | 0 < k < |s| :: s[k] == s[1..][k - 1];
        if r.Ok? {
          GroupsTaken(bits, shift, acc, s, r.value.1);
        }
      }
    }
  }

  lemma {:induction false} LastTaken(bits: nat, shift: nat, acc: nat, s: seq<byte>)
    requires acc < Pow2(shift) && s != []
    ensures OrIn(bits, shift, acc, s[0] % 128) == (acc + Groups(s[..1]) * Pow2(shift)) % Pow2(bits)
  {
    hide Pow2, OrIn;
    assert Groups(s[..1][1..]) == 0 && Groups(s[..1]) == s[0] % 128;
    OrIsSum(bits, shift, acc, s[0] % 128);
  }

  /** One byte taken in, and the `n` bytes after it. */
  lemma {:induction false} GroupsTaken(bits: nat, shift: nat, acc: nat, s: seq<byte>, n: nat)
    requires acc < Pow2(shift) && n < |s|
    ensures (OrIn(bits, shift, acc, s[0] % 128) + Groups(s[1..][..n]) * Pow2(shift + 7)) % Pow2(bits)
            == (acc + Groups(s[..n + 1]) * Pow2(shift)) % Pow2(bits)
  {
    hide Pow2, OrIn;
    var (d, rest, p) := (s[0] % 128, Groups(s[1..][..n]), Pow2(shift));
    assert s[..n + 1][1..] == s[1..][..n];
    OrIsSum(bits, shift, acc, d);
    Pow2Seven(shift);
    Distribute(d, rest, p);
    ModOfSum(acc + d * p, rest * (128 * p), Pow2(bits));
  }

  lemma ModOfSum(x: nat, y: nat, m: nat)
    requires m > 0
    ensures (x % m + y) % m == (x + y) % m
  {
    var (q, r) := ((x % m + y) / m, (x % m + y) % m);
    assert m * (q + x / m) == m * q + m * (x / m);
    QuotientIs(x + y, m, q + x / m, r);
  }

  lemma Distribute(d: nat, q: nat, p: nat)
    ensures (d + 128 * q) * p == d * p + q * (128 * p)
  {
    assert (128 * q) * p == q * (128 * p);
  }

  lemma ProductMonotone(a: nat, b: nat, p: nat)
    requires a <= b
    ensures a * p <= b * p
  {
  }

  /** The lowest group of `v`, shifted into place, and the groups above it. */
  lemma SplitGroup(v: nat, p: nat)
    ensures v * p == (v % 128) * p + (v / 128) * (128 * p)
    ensures 0 <= (v % 128) * p <= 127 * p
    ensures 0 <= (v / 128) * (128 * p)
  {
    Distribute(v % 128, v / 128, p);
    ProductMonotone(v % 128, 127, p);
    ProductMonotone(0, v % 128, p);
    ProductMonotone(0, v / 128, 128 * p);
  }

  lemma {:induction false} ShiftInWord(bits: nat, shift: nat, v: nat)
    requires v > 0 && v * Pow2(shift) < Pow2(bits)
    ensures shift < bits
  {
    ProductMonotone(1, v, Pow2(shift));
    if shift > bits {
      Pow2Monotone(bits, shift);
    }
  }

  /** What is left of the code of `total` when the lower groups are in the accumulator. */
  predicate Remains(bits: nat, shift: nat, acc: nat, v: nat, total: nat) {
    && shift < bits && acc < Pow2(shift) && (v > 0 || shift == 0)
    && total == acc + v * Pow2(shift) < Pow2(bits)
  }

  lemma LastGroup(bits: nat, shift: nat, acc: nat, v: nat, total: nat)
    requires Remains(bits, shift, acc, v, total) && v < 128
    ensures OrIn(bits, shift, acc, v) == total
  {
    hide Pow2, OrIn;
    OrIsSum(bits, shift, acc, v);
    SmallMod(total, Pow2(bits));
  }

  /** Taking in the lowest group: the total stays, the rest moves up. */
  lemma GroupStep(bits: nat, shift: nat, acc: nat, v: nat, total: nat)
    requires Remains(bits, shift, acc, v, total) && v >= 128
    ensures Remains(bits, shift + 7, OrIn(bits, shift, acc, v % 128), v / 128, total)
  {
    hide Pow2, OrIn;
    var p := Pow2(shift);
    OrIsSum(bits, shift, acc, v % 128);
    SplitGroup(v, p);
    Pow2Seven(shift);
    assert (v / 128) * (128 * p) == (v / 128) * Pow2(shift + 7);
    SmallMod(acc + (v % 128) * p, Pow2(bits));
    ShiftInWord(bits, shift + 7, v / 128);
  }

  /** One byte of the reader's loop: seven bits `d`, with the continuation bit or without. */
  lemma {:induction false} DecodeByte(bits: nat, shift: nat, acc: nat, d: nat, rest: seq<byte>)
    requires acc < Pow2(bits) && shift < bits && d < 128
    ensures Decode(bits, shift, acc, [d] + rest) == Ok((OrIn(bits, shift, acc, d), 1))
    ensures var r := Decode(bits, shift + 7, OrIn(bits, shift, acc, d), rest);
            r.Ok? ==> Decode(bits, shift, acc, [d + 128] + rest) == Ok((r.value.0, r.value.1 + 1))
  {
    hide Pow2, OrIn;
    assert ([d + 128] + rest)[1..] == rest;
    assert (d + 128) % 128 == d;
  }

  lemma ConsAppend(b: byte, s: seq<byte>, t: seq<byte>)
    ensures ([b] + s) + t == [b] + (s + t) && |[b] + s| == |s| + 1
  {
  }

  lemma {:induction false} DecodeRemains(bits: nat, shift: nat, acc: nat, v: nat, total: nat, tail: seq<byte>)
    requires acc < Pow2(bits) && Remains(bits, shift, acc, v, total)
    ensures Decode(bits, shift, acc, Leb(v) + tail) == Ok((total, |Leb(v)|))
    decreases v
  {
    LebHead(v);
    assert shift < bits;
    hide Pow2, OrIn, Leb, Decode, Remains;
    if v < 128 {
      LastGroup(bits, shift, acc, v, total);
      DecodeByte(bits, shift, acc, v, tail);
    } else {
      var (d, q) := (v % 128, v / 128);
      GroupStep(bits, shift, acc, v, total);
      DecodeRemains(bits, shift + 7, OrIn(bits, shift, acc, d), q, total, tail);
      ConsAppend(d + 128, Leb(q), tail);
      DecodeByte(bits, shift, acc, d, Leb(q) + tail);
    }
  }

  /** The decoder takes the code of `v` off the front of any byte sequence. */
  lemma {:induction false} DecodeEncode(bits: nat, shift: nat, acc: nat, v: nat, tail: seq<byte>)
    requires acc < Pow2(shift) && (v > 0 || shift == 0) && bits > 0
    requires acc + v * Pow2(shift) < Pow2(bits)
    ensures Decode(bits, shift, acc, Leb(v) + tail) == Ok((acc + v * Pow2(shift), |Leb(v)|))
  {
    hide Pow2, Leb, Decode;
    if v > 0 {
      ShiftInWord(bits, shift, v);
    }
    DecodeRemains(bits, shift, acc, v, acc + v * Pow2(shift), tail);
  }

  lemma {:induction false} DecodeWord(w: nat, v: nat, tail: seq<byte>)
    requires w > 0 && v < Range(w)
    ensures Decode(8 * w, 0, 0, Leb(v) + tail) == Ok((v, |Leb(v)|))
  {
    Pow2Range(w);
    assert v * Pow2(0) == v;
    DecodeEncode(8 * w, 0, 0, v, tail);
  }

  lemma OrInBound(bits: nat, shift: nat, acc: nat, group: nat)
    requires acc < Pow2(shift) && group < 128
    ensures OrIn(bits, shift, acc, group) < Pow2(shift + 7)
  {
    hide Pow2, OrIn;
    var p := Pow2(shift);
    OrIsSum(bits, shift, acc, group);
    Pow2Seven(shift);
    ModAtMost(acc + group * p, Pow2(bits));
    ProductMonotone(group, 127, p);
  }

  /** A number decoded from `n` bytes has at most `7 * n` bits beyond the shift. */
  lemma {:induction false} DecodeBound(bits: nat, shift: nat, acc: nat, s: seq<byte>)
    requires acc < Pow2(shift) && acc < Pow2(bits)
    ensures var r := Decode(bits, shift, acc, s);
            r.Ok? ==> r.value.0 < Pow2(shift + 7 * r.value.1)
    decreases bits - shift
  {
    if shift < bits && s != [] {
      var d := s[0] % 128;
      OrInBound(bits, shift, acc, d);
      if s[0] >= 128 {
        DecodeBound(bits, shift + 7, OrIn(bits, shift, acc, d), s[1..]);
        var r := Decode(bits, shift + 7, OrIn(bits, shift, acc, d), s[1..]);
        if r.Ok? {
          assert shift + 7 + 7 * r.value.1 == shift + 7 * (r.value.1 + 1);
        }
      }
    }
  }

  lemma ModAtMost(x: nat, m: nat)
    requires m > 0
    ensures x % m <= x
  {
    if x < m {
      SmallMod(x, m);
    }
  }

  /** Whatever bytes decode to `v`, the encoder's code for `v` is no longer than those. */
  lemma {:induction false} EncodeIsShortest(bits: nat, s: seq<byte>)
    requires bits > 0
    ensures var r := Decode(bits, 0, 0, s); r.Ok? ==> |Leb(r.value.0)| <= r.value.1
  {
    var r := Decode(bits, 0, 0, s);
    if r.Ok? {
      DecodeBound(bits, 0, 0, s);
      assert r.value.1 >= 1;
      LebLength(r.value.0, r.value.1);
    }
  }
}
