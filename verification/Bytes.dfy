/** Machine words and their images in memory: two's complement, host and file
    byte order, and the byte swap of the fixed-width codecs. */
module Bytes {

  type byte = x: int | 0 <= x < 256

  datatype Endian = Little | Big

  /** What a call on a byte array can come to. `OutOfRange` is the exception the source
      throws; `NullDereference` is the use of a null block pointer, after which the
      source has no defined behaviour. */
  datatype Result<+T> = Ok(value: T) | OutOfRange | NullDereference {
    predicate IsFailure() {
      !Ok?
    }

    function PropagateFailure<U>(): Result<U>
      requires IsFailure()
    {
      if OutOfRange? then OutOfRange else NullDereference
    }

    function Extract(): T
      requires Ok?
    {
      value
    }
  }

  /** 256 to the power `w`: how many values a word of `w` bytes has. */
  function Range(w: nat): (r: nat)
    ensures r >= 1
  {
    if w == 0 then 1 else 256 * Range(w - 1)
  }

  // ---- Two's complement ----

  /** The word that represents the signed or unsigned number `v`. */
  function ToWord(w: nat, v: int): (u: nat)
    ensures u < Range(w)
  {
    v % Range(w)
  }

  /** The number a word stands for. */
  function FromWord(w: nat, signed: bool, u: nat): int {
    if signed && 2 * u >= Range(w) then u - Range(w) else u
  }

  predicate InRange(w: nat, signed: bool, v: int) {
    if signed then 0 <= 2 * v + Range(w) < 2 * Range(w) else 0 <= v < Range(w)
  }

  lemma WordRoundTrip(w: nat, signed: bool, v: int)
    requires InRange(w, signed, v)
    ensures FromWord(w, signed, ToWord(w, v)) == v
  {
    var m := Range(w);
    if v >= 0 {
      assert v % m == v by { SmallMod(v, m); }
    } else {
      assert v % m == v + m by { ShiftedMod(v, m); }
    }
  }

  lemma SmallMod(v: nat, m: nat)
    requires v < m
    ensures v % m == v
  {
  }

  lemma ShiftedMod(v: int, m: nat)
    requires v < 0 <= v + m
    ensures v % m == v + m
  {
    assert v == m * -1 + (v + m);
  }

  // ---- Byte sequences ----

  function Reverse(s: seq<byte>): (r: seq<byte>)
    ensures |r| == |s|
  {
    if s == [] then [] else Reverse(s[1..]) + [s[0]]
  }

  lemma {:induction false} ReverseAppend(s: seq<byte>, t: seq<byte>)
    ensures Reverse(s + t) == Reverse(t) + Reverse(s)
  {
    if s == [] {
      assert s + t == t;
    } else {
      assert (s + t)[1..] == s[1..] + t;
      ReverseAppend(s[1..], t);
    }
  }

  lemma {:induction false} ReverseReverse(s: seq<byte>)
    ensures Reverse(Reverse(s)) == s
  {
    if s != [] {
      ReverseAppend(Reverse(s[1..]), [s[0]]);
      ReverseReverse(s[1..]);
    }
  }

  /** The `w` bytes of `u`, least significant first. */
  function ToLittle(w: nat, u: nat): (s: seq<byte>)
    ensures |s| == w
  {
    if w == 0 then [] else [u % 256] + ToLittle(w - 1, u / 256)
  }

  function FromLittle(s: seq<byte>): (u: nat) {
    if s == [] then 0 else s[0] + 256 * FromLittle(s[1..])
  }

  lemma {:induction false} LittleRoundTrip(w: nat, u: nat)
    requires u < Range(w)
    ensures FromLittle(ToLittle(w, u)) == u
  {
    if w > 0 {
      LittleRoundTrip(w - 1, u / 256);
    }
  }

  lemma {:induction false} LittleOnto(s: seq<byte>)
    ensures FromLittle(s) < Range(|s|)
    ensures ToLittle(|s|, FromLittle(s)) == s
  {
    if s != [] {
      LittleOnto(s[1..]);
      LowByte(s[0], FromLittle(s[1..]));
    }
  }

  lemma LowByte(b: byte, x: nat)
    ensures (b + 256 * x) % 256 == b && (b + 256 * x) / 256 == x
  {
  }

  /** How a word lies in memory in the given byte order. */
  function Image(order: Endian, w: nat, u: nat): (s: seq<byte>)
    ensures |s| == w
  {
    if order == Little then ToLittle(w, u) else Reverse(ToLittle(w, u))
  }

  lemma {:induction false} ReverseAt(s: seq<byte>, k: nat)
    requires k < |s|
    ensures Reverse(s)[|s| - 1 - k] == s[k]
  {
    if k > 0 {
      ReverseAt(s[1..], k - 1);
    }
  }

  lemma DivTwice(u: nat, a: nat, b: nat)
    requires a > 0 && b > 0
    ensures a * b > 0 && (u / a) / b == u / (a * b)
  {
    var (x, p) := (u / a, u % a);
    var (q, r) := (x / b, x % b);
    assert x == b * q + r && u == a * x + p;
    assert a * x == a * (b * q) + a * r;
    assert a * (b * q) == (a * b) * q;
    Product(a, r, b);
    DivIs(u, a * b, q, a * r + p);
  }

  lemma Product(a: nat, r: nat, b: nat)
    requires a > 0 && r < b
    ensures a * r + a <= a * b
  {
    assert a * (r + 1) <= a * b;
  }

  lemma DivIs(u: nat, m: nat, q: nat, r: nat)
    requires m > 0 && r < m && u == m * q + r
    ensures u / m == q
  {
    var (q', r') := (u / m, u % m);
    assert u == m * q' + r';
    if q' < q {
      Product(m, q', q);
    } else if q < q' {
      Product(m, q, q');
    }
  }

  lemma {:induction false} LittlePlaces(w: nat, u: nat, k: nat)
    requires k < w
    ensures ToLittle(w, u)[k] == u / Range(k) % 256
  {
    if k > 0 {
      LittlePlaces(w - 1, u / 256, k - 1);
      DivTwice(u, 256, Range(k - 1));
    }
  }

  /** Byte `k` of a word, counted from the least significant one, lies at index `k` in little-endian order
      and as many places before the end in big-endian order. */
  lemma {:induction false} BytePlaces(w: nat, u: nat, k: nat)
    requires k < w
    ensures Image(Little, w, u)[k] == u / Range(k) % 256
    ensures Image(Big, w, u)[w - 1 - k] == u / Range(k) % 256
  {
    LittlePlaces(w, u, k);
    ReverseAt(ToLittle(w, u), k);
  }

  function FromImage(order: Endian, s: seq<byte>): nat {
    if order == Little then FromLittle(s) else FromLittle(Reverse(s))
  }

  lemma {:induction false} ImageRoundTrip(order: Endian, w: nat, u: nat)
    requires u < Range(w)
    ensures FromImage(order, Image(order, w, u)) == u
  {
    LittleRoundTrip(w, u);
    ReverseReverse(ToLittle(w, u));
  }

  function Swap(w: nat, u: nat): nat {
    FromLittle(Reverse(ToLittle(w, u)))
  }

  lemma {:induction false} SwapInvolution(w: nat, u: nat)
    requires u < Range(w)
    ensures Swap(w, u) < Range(w)
    ensures Swap(w, Swap(w, u)) == u
  {
    LittleOnto(Reverse(ToLittle(w, u)));
    ReverseReverse(ToLittle(w, u));
    LittleRoundTrip(w, u);
  }

  /** The writers swap when the file order differs from the host's and then copy the host
      image. What lands in the file is the image in the file's order on either host. */
  lemma {:induction false} SwappedImage(host: Endian, order: Endian, w: nat, u: nat)
    requires u < Range(w)
    ensures Image(host, w, if order != host then Swap(w, u) else u) == Image(order, w, u)
  {
    LittleOnto(Reverse(ToLittle(w, u)));
    ReverseReverse(ToLittle(w, u));
  }

  /** The readers copy the host image and swap when the orders differ. */
  lemma SwappedRead(host: Endian, order: Endian, s: seq<byte>)
    ensures var u := FromImage(host, s);
            (if order != host then Swap(|s|, u) else u) == FromImage(order, s)
  {
    LittleOnto(s);
    LittleOnto(Reverse(s));
    ReverseReverse(s);
  }
}
