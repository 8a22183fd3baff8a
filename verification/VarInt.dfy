/**
 * Variable-length integers (src/serialize.h): base-128 digits, most significant
 * first, with every digit but the last marked and stored one too low.
 */
module VarInt {
  import opened Arithmetic
  import opened Common

  /** A value read off the front of a stream, or the end of the stream was met. */
  datatype Read<+T> = Got(value: T, rest: seq<Byte>) | End

  // ------------------------------------------------------------------ writing

  /** The digits of a number; all but the last one of an encoding are marked. */
  function Digits(n: nat, marked: bool): seq<Byte> {
    var digit := n % 128 + if marked then 128 else 0;
    if n <= 127 then [digit] else Digits(n / 128 - 1, true) + [digit]
  }

  function Encode(n: nat): seq<Byte> {
    Digits(n, false)
  }

  /** A number of the given width never needs more digits than the buffer holds. */
  lemma {:induction false} RoomLeft(x: nat, k: nat)
    requires x < Pow2(7 * k) && x > 127
    ensures k > 1 && x / 128 - 1 < Pow2(7 * (k - 1))
  {
    if k <= 1 {
      Pow2Mono(7 * k, 7);
      Pow2Seven(0);
    } else {
      Pow2Seven(7 * (k - 1));
    }
  }

  /** Writes the digits backwards into a buffer and then turns them around. */
  method Write(n: nat, bits: nat) returns (out: seq<Byte>)
    requires n < Pow2(bits) && bits > 0
    ensures out == Encode(n)
  {
    var tmp, len := Fill(n, bits);
    out := TurnAround(tmp, len);
  }

  method Fill(n: nat, bits: nat) returns (tmp: array<Byte>, len: nat)
    requires n < Pow2(bits) && bits > 0
    ensures len < tmp.Length && Reversed(tmp[..len + 1]) == Encode(n)
  {
    hide Pow2, Digits;
    var capacity := (bits + 6) / 7;
    tmp := new Byte[capacity];
    var x: nat := n;
    len := 0;
    Pow2Mono(bits, 7 * capacity);
    while true
      invariant 0 <= len < tmp.Length == capacity
      invariant x < Pow2(7 * (capacity - len))
      invariant Digits(x, len > 0) + Reversed(tmp[..len]) == Encode(n)
      decreases x
    {
      DigitStep(x, len > 0, tmp[..len]);
      tmp[len] := x % 128 + if len > 0 then 128 else 0;
      assert tmp[..len + 1] == tmp[..len] + [tmp[len]];
      if x <= 127 {
        break;
      }
      RoomLeft(x, capacity - len);
      x := x / 128 - 1;
      len := len + 1;
    }
  }

  /** One more digit goes into the buffer. */
  lemma DigitStep(x: nat, marked: bool, done: seq<Byte>)
    ensures var digit: Byte := x % 128 + if marked then 128 else 0;
            Digits(x, marked) + Reversed(done)
              == (if x <= 127 then [] else Digits(x / 128 - 1, true)) + Reversed(done + [digit])
  {
    var digit: Byte := x % 128 + if marked then 128 else 0;
    assert (done + [digit])[..|done|] == done;
    assert Reversed(done + [digit]) == [digit] + Reversed(done);
  }

  method TurnAround(tmp: array<Byte>, len: nat) returns (out: seq<Byte>)
    requires len < tmp.Length
    ensures out == Reversed(tmp[..len + 1])
  {
    out := [];
    for k := len + 1 downto 0
      invariant out + Reversed(tmp[..k]) == Reversed(tmp[..len + 1])
    {
      assert tmp[..k + 1][..k] == tmp[..k];
      out := out + [tmp[k]];
    }
  }

  // ------------------------------------------------------------------ reading

  /** Goes on reading with the number so far, in unsigned arithmetic modulo m. */
  function ReadOn(n: nat, s: seq<Byte>, m: nat): Read<nat>
    requires m > 0
    decreases |s|
  {
    if s == [] then End
    else
      var x := Rem(128 * n + s[0] % 128, m);
      if s[0] >= 128 then ReadOn(Rem(x + 1, m), s[1..], m) else Got(x, s[1..])
  }

  function Decode(s: seq<Byte>, m: nat): Read<nat>
    requires m > 0
  {
    ReadOn(0, s, m)
  }

  method ReadLoop(s: seq<Byte>, m: nat) returns (r: Read<nat>)
    requires m > 0
    ensures r == Decode(s, m)
  {
    var n: nat, rest: seq<Byte> := 0, s;
    while rest != []
      invariant ReadOn(n, rest, m) == Decode(s, m)
      decreases |rest|
    {
      n := Rem(128 * n + rest[0] % 128, m);
      if rest[0] >= 128 {
        n := Rem(n + 1, m);
        rest := rest[1..];
      } else {
        return Got(n, rest[1..]);
      }
    }
    r := End;
  }

  lemma {:induction false} ReadMarked(n: nat, t: seq<Byte>, m: nat)
    requires n + 1 < m
    ensures ReadOn(0, Digits(n, true) + t, m) == ReadOn(n + 1, t, m)
    decreases n
  {
    hide Rem;
    if n <= 127 {
      assert (Digits(n, true) + t)[1..] == t;
      RemSmall(n, m);
      RemSmall(n + 1, m);
    } else {
      var last: seq<Byte> := [n % 128 + 128];
      assert Digits(n, true) + t == Digits(n / 128 - 1, true) + (last + t);
      ReadMarked(n / 128 - 1, last + t, m);
      assert (last + t)[1..] == t;
      RemSmall(n, m);
      RemSmall(n + 1, m);
    }
  }

  /** Reading what was written gives the number back and stops at its end, without wrapping. */
  lemma {:induction false} DecodeEncode(n: nat, t: seq<Byte>, m: nat)
    requires n < m
    ensures Decode(Encode(n) + t, m) == Got(n, t)
  {
    hide Rem;
    if n <= 127 {
      assert (Encode(n) + t)[1..] == t;
    } else {
      var last: seq<Byte> := [n % 128];
      assert Encode(n) + t == Digits(n / 128 - 1, true) + (last + t);
      ReadMarked(n / 128 - 1, last + t, m);
      assert (last + t)[1..] == t;
    }
    RemSmall(n, m);
  }

  // -------------------------------------------------------- one encoding each

  /** Reading without a limit: the number that a stream starts with, as documented. */
  function MeantOn(n: nat, s: seq<Byte>): Read<nat>
    decreases |s|
  {
    if s == [] then End
    else
      var x := 128 * n + s[0] % 128;
      if s[0] >= 128 then MeantOn(x + 1, s[1..]) else Got(x, s[1..])
  }

  function Meant(s: seq<Byte>): Read<nat> {
    MeantOn(0, s)
  }

  /** The documented table. */
  lemma DocumentedTable()
    ensures Encode(0) == [0x00] && Encode(1) == [0x01] && Encode(127) == [0x7f]
    ensures Encode(128) == [0x80, 0x00] && Encode(255) == [0x80, 0x7f] && Encode(256) == [0x81, 0x00]
    ensures Encode(16383) == [0xfe, 0x7f] && Encode(16384) == [0xff, 0x00] && Encode(16511) == [0xff, 0x7f]
    ensures Encode(65535) == [0x82, 0xfe, 0x7f]
    ensures Encode(TWO_32) == [0x8e, 0xfe, 0xfe, 0xff, 0x00]
  {
    assert Digits(0, true) == [0x80] && Digits(1, true) == [0x81];
    assert Digits(126, true) == [0xfe] && Digits(127, true) == [0xff];
    assert Digits(2, true) == [0x82] && Digits(510, true) == [0x82, 0xfe];
    assert Digits(14, true) == [0x8e] && Digits(2046, true) == [0x8e, 0xfe];
    assert Digits(262142, true) == [0x8e, 0xfe, 0xfe] && Digits(33554431, true) == [0x8e, 0xfe, 0xfe, 0xff];
  }

  /** The marked digits that leave the reader with the number n. */
  function Before(n: nat): seq<Byte> {
    if n == 0 then [] else Digits(n - 1, true)
  }

  lemma {:induction false} MeantDigits(n: nat, s: seq<Byte>)
    requires MeantOn(n, s).Got?
    ensures Before(n) + s == Encode(MeantOn(n, s).value) + MeantOn(n, s).rest
    decreases |s|
  {
    var x, tail := 128 * n + s[0] % 128, s[1..];
    assert s == [s[0]] + tail;
    assert x / 128 == n && x % 128 == s[0] % 128;
    if s[0] >= 128 {
      assert Digits(x, true) == Before(n) + [s[0]];
      MeantDigits(x + 1, tail);
      hide Digits, Encode;
      assert Before(n) + s == (Before(n) + [s[0]]) + tail;
    } else {
      assert Encode(x) == Before(n) + [s[0]];
      assert Before(n) + s == (Before(n) + [s[0]]) + tail;
    }
  }

  /** No redundancy: every stream with an unmarked byte starts with the encoding of what it means. */
  lemma {:induction false} EveryStreamMeans(n: nat, s: seq<Byte>)
    ensures MeantOn(n, s).End? <==> forall i | 0 <= i < |s| :: s[i] >= 128
    decreases |s|
  {
    if s != [] {
      EveryStreamMeans(128 * n + s[0] % 128 + 1, s[1..]);
      assert forall i | 0 < i < |s| :: s[i] == s[1..][i - 1];
      assert forall i | 0 <= i < |s| - 1 :: s[1..][i] == s[i + 1];
    }
  }

  lemma {:induction false} MeantMarked(n: nat, t: seq<Byte>)
    ensures MeantOn(0, Digits(n, true) + t) == MeantOn(n + 1, t)
    decreases n
  {
    if n <= 127 {
      assert (Digits(n, true) + t)[1..] == t;
    } else {
      var last: seq<Byte> := [n % 128 + 128];
      assert Digits(n, true) + t == Digits(n / 128 - 1, true) + (last + t);
      MeantMarked(n / 128 - 1, last + t);
      assert (last + t)[1..] == t;
    }
  }

  /** Every integer has exactly one encoding: a stream means n and goes on with t if and only if it is that. */
  lemma OneEncoding(s: seq<Byte>, n: nat, t: seq<Byte>)
    ensures Meant(s) == Got(n, t) <==> s == Encode(n) + t
  {
    if s == Encode(n) + t {
      MeantEncoded(n, t);
    }
    hide Encode, MeantOn;
    if Meant(s).Got? {
      MeantDigits(0, s);
      assert [] + s == s;
    }
  }

  lemma MeantEncoded(n: nat, t: seq<Byte>)
    ensures Meant(Encode(n) + t) == Got(n, t)
  {
    if n <= 127 {
      assert (Encode(n) + t)[1..] == t;
    } else {
      var last: seq<Byte> := [n % 128];
      assert Encode(n) + t == Digits(n / 128 - 1, true) + (last + t);
      MeantMarked(n / 128 - 1, last + t);
      assert (last + t)[1..] == t;
    }
  }

  lemma RemDigit(n: nat, d: nat, m: nat)
    requires m > 0
    ensures Rem(128 * Rem(n, m) + d, m) == Rem(128 * n + d, m)
    ensures Rem(Rem(n, m) + d, m) == Rem(n + d, m)
  {
    DivMod(n, m);
    var q := Quo(n, m);
    ModAdd(128 * Rem(n, m) + d, 128 * q, m);
    ModAdd(Rem(n, m) + d, q, m);
    assert Mul(128 * q, m) == 128 * Mul(q, m);
    hide Mul, Quo, Rem;
  }

  lemma {:induction false} ReadsMeant(n: nat, s: seq<Byte>, m: nat)
    requires m > 0
    ensures ReadOn(Rem(n, m), s, m) ==
            match MeantOn(n, s) case End => End case Got(v, rest) => Got(Rem(v, m), rest)
    decreases |s|
  {
    hide Rem;
    if s != [] {
      var x := 128 * n + s[0] % 128;
      RemDigit(n, s[0] % 128, m);
      RemDigit(x, 1, m);
      if s[0] >= 128 {
        ReadsMeant(x + 1, s[1..], m);
      }
    }
  }

  /**
   * The reader in unsigned arithmetic modulo m gives what the stream means
   * modulo m, so what it accepted is the encoding of what it returned if and
   * only if the number meant is below m.
   */
  lemma DecodeExactly(s: seq<Byte>, m: nat)
    requires m > 0
    ensures Decode(s, m) == match Meant(s) case End => End case Got(v, rest) => Got(Rem(v, m), rest)
    ensures Decode(s, m).Got? ==>
              (s == Encode(Decode(s, m).value) + Decode(s, m).rest <==> Meant(s).value < m)
  {
    RemSmall(0, m);
    ReadsMeant(0, s, m);
    if Meant(s).Got? {
      var v, rest := Meant(s).value, Meant(s).rest;
      if v < m {
        RemSmall(v, m);
      }
      OneEncoding(s, v, rest);
      OneEncoding(s, Rem(v, m), rest);
    }
  }

  // ------------------------------------------------------------ signed numbers

  /** A signed number below 128 is one digit: its low seven bits. */
  function EncodeSigned(n: int): seq<Byte> {
    if n <= 127 then [n % 128] else Encode(n)
  }

  /** The 32-bit signed number with the same bits. */
  function Signed(n: nat): int {
    if n < TWO_32 / 2 then n else n - TWO_32
  }

  function DecodeSigned(s: seq<Byte>): Read<int> {
    var r := Decode(s, TWO_32);
    if r.End? then End else Got(Signed(r.value), r.rest)
  }

  /** What is left of a signed number: negative ones lose all but seven bits. */
  function Echo(n: int): int {
    if n < 0 then n % 128 else n
  }

  lemma DecodeEncodeSigned(n: int, t: seq<Byte>)
    requires -0x8000_0000 <= n < 0x8000_0000
    ensures DecodeSigned(EncodeSigned(n) + t) == Got(Echo(n), t)
    ensures Echo(n) == n <==> n >= 0
  {
    hide Encode, Decode;
    assert EncodeSigned(n) == Encode(Echo(n)) by { SmallIsOneDigit(n); }
    DecodeEncode(Echo(n), t, TWO_32);
  }

  lemma SmallIsOneDigit(n: int)
    ensures EncodeSigned(n) == Encode(Echo(n))
  {
  }
}
