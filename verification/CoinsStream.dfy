/**
 * The loops that write and read coins (CCoins::Serialize, Unserialize and
 * CalcMaskSize), against the stored form they are to produce and accept.
 */
module CoinsStream {
  import opened Arithmetic
  import opened Common
  import opened CoinsData
  import opened VarInt
  import opened Compressor
  import opened CoinsSerialize

  method CalcMaskSize(vout: seq<TxOut>) returns (nBytes: nat, nNonzeroBytes: nat)
    ensures nBytes == |Mask(vout)| && nNonzeroBytes == NonZero(AllMaskBytes(vout))
  {
    hide MaskByte;
    ghost var all := AllMaskBytes(vout);
    var b := 0;
    nBytes, nNonzeroBytes := 0, 0;
    while 2 + 8 * b < |vout|
      invariant 0 <= b <= |all|
      invariant nBytes == |TrimZeros(all[..b])| && nNonzeroBytes == NonZero(all[..b])
    {
      assert all[..b + 1] == all[..b] + [all[b]];
      NonZeroSnoc(all[..b], all[b]);
      var zero := IsZeroByte(vout, b);
      if !zero {
        nBytes := b + 1;
        nNonzeroBytes := nNonzeroBytes + 1;
      }
      b := b + 1;
    }
    assert all[..b] == all;
  }

  method IsZeroByte(vout: seq<TxOut>, b: nat) returns (zero: bool)
    ensures zero <==> MaskByte(vout, b) == 0
  {
    FromBitsBelow(Octet(vout, b));
    zero := true;
    var i := 0;
    while i < 8 && 2 + b * 8 + i < |vout|
      invariant 0 <= i <= 8
      invariant zero <==> forall j | 0 <= j < i :: !Octet(vout, b)[j]
    {
      assert Octet(vout, b)[i] == Has(vout, 2 + 8 * b + i);
      if !IsNullOut(vout[2 + b * 8 + i]) {
        zero := false;
      }
      i := i + 1;
    }
    assert forall j | i <= j < 8 :: !Octet(vout, b)[j];
  }

  lemma {:induction false} FromBitsPadded(bits: seq<bool>, k: nat)
    requires k <= |bits| && forall p | k <= p < |bits| :: !bits[p]
    ensures FromBits(bits[..k]) == FromBits(bits)
    decreases |bits|
  {
    if k < |bits| {
      var n := |bits| - 1;
      assert bits == bits[..n] + [bits[n]];
      FromBitsSnoc(bits[..n], bits[n]);
      FromBitsPadded(bits[..n], k);
      assert bits[..n][..k] == bits[..k];
    } else {
      assert bits[..k] == bits;
    }
  }

  /** Setting a bit that is still clear adds its weight. */
  method WriteMaskByte(vout: seq<TxOut>, b: nat) returns (chAvail: Byte)
    ensures chAvail == MaskByte(vout, b)
  {
    hide FromBits, Pow2;
    ghost var octet := Octet(vout, b);
    chAvail := 0;
    assert FromBits(octet[..0]) == 0 by { FromBitsBelow(octet[..0]); }
    var i := 0;
    while i < 8 && 2 + b * 8 + i < |vout|
      invariant 0 <= i <= 8
      invariant chAvail == FromBits(octet[..i])
    {
      assert octet[..i + 1] == octet[..i] + [octet[i]];
      assert octet[i] == Has(vout, 2 + 8 * b + i);
      FromBitsSnoc(octet[..i], octet[i]);
      ByteRoom(octet[..i + 1]);
      if !IsNullOut(vout[2 + b * 8 + i]) {
        chAvail := chAvail + Pow2(i);
      }
      i := i + 1;
    }
    FromBitsPadded(octet, i);
  }

  lemma ByteRoom(bits: seq<bool>)
    requires |bits| <= 8
    ensures FromBits(bits) < 256
  {
    FromBitsBelow(bits);
    Pow2Mono(|bits|, 8);
    assert Pow2(8) == 256;
  }

  method WriteSigned(n: int) returns (s: Bytes)
    requires Int32(n)
    ensures s == EncodeSigned(n)
  {
    if n <= 127 {
      s := [n % 128];
    } else {
      assert n < Pow2(32) by { Pow2Widths(); }
      s := Write(n, 32);
    }
  }

  method WriteOut(k: Curve, o: TxOut) returns (s: Bytes)
    ensures s == OutBytes(k, o)
  {
    hide Compressed, Encode, ScriptBytes;
    var x := CompressAmount(o.nValue % TWO_64);
    assert x < Pow2(64) by { Pow2Widths(); }
    var amount := Write(x, 64);
    s := amount + ScriptBytes(k, o.scriptPubKey);
  }

  lemma OutsFrom(k: Curve, vout: seq<TxOut>, i: nat)
    requires i < |vout|
    ensures OutsBytes(k, vout[i..])
         == (if IsNullOut(vout[i]) then [] else OutBytes(k, vout[i])) + OutsBytes(k, vout[i + 1..])
  {
    hide OutBytes;
    assert vout[i..][1..] == vout[i + 1..];
  }

  lemma Regroup(a: Bytes, b: Bytes, c: Bytes)
    ensures a + b + c == a + (b + c)
  {
  }

  method WriteOuts(k: Curve, vout: seq<TxOut>) returns (s: Bytes)
    ensures s == OutsBytes(k, vout)
  {
    assert OutsBytes(k, vout[|vout|..]) == [];
    hide OutBytes, OutsBytes;
    s := [];
    assert vout[0..] == vout;
    for i := 0 to |vout|
      invariant s + OutsBytes(k, vout[i..]) == OutsBytes(k, vout)
    {
      OutsFrom(k, vout, i);
      var out := [];
      if !IsNullOut(vout[i]) {
        out := WriteOut(k, vout[i]);
      }
      Regroup(s, out, OutsBytes(k, vout[i + 1..]));
      s := s + out;
    }
  }

  method WriteMask(vout: seq<TxOut>, nMaskSize: nat) returns (s: Bytes)
    requires nMaskSize == |Mask(vout)|
    ensures s == Mask(vout)
  {
    hide MaskByte;
    s := [];
    for b := 0 to nMaskSize
      invariant s == Mask(vout)[..b]
    {
      var chAvail := WriteMaskByte(vout, b);
      s := s + [chAvail];
    }
  }

  method Serialize(k: Curve, c: Coins) returns (s: Bytes)
    requires !IsPruned(c) && Int32(c.nVersion) && Int32(c.nHeight)
    ensures s == Serialized(k, c)
  {
    hide IsPruned, Mask, NonZero, AllMaskBytes, Has, OutsBytes, EncodeSigned, Encode, Int32;
    var nMaskSize, nMaskCode := CalcMaskSize(c.vout);
    var first, second := Has(c.vout, 0), Has(c.vout, 1);
    PrunedMask(c);
    assert first || second || nMaskCode > 0;
    var nCode := (8 * (nMaskCode - (if first || second then 0 else 1)) + (if c.fCoinBase then 1 else 0)
                  + (if first then 2 else 0) + if second then 4 else 0) % TWO_32;
    assert nCode == Code(c) % TWO_32;
    Pow2Widths();
    var version := WriteSigned(c.nVersion);
    var code := Write(nCode, 32);
    var mask := WriteMask(c.vout, nMaskSize);
    var outs := WriteOuts(k, c.vout);
    var height := WriteSigned(c.nHeight);
    s := version + (code + (mask + (outs + height)));
  }

  // ------------------------------------------------------------------ reading

  method ReadSigned(s: Bytes) returns (r: Read<int>)
    ensures r == DecodeSigned(s)
  {
    hide Decode;
    var n := ReadLoop(s, TWO_32);
    r := if n.End? then End else Got(Signed(n.value), n.rest);
  }

  lemma UnrolledSnoc(mask: Bytes, b: Byte)
    ensures Unrolled(mask + [b]) == Unrolled(mask) + Unrolled([b])
  {
    hide BitOf;
    var r, m := Unrolled(mask + [b]), |mask|;
    forall n: nat | n < 8 * m + 8 ensures r[n] == (Unrolled(mask) + Unrolled([b]))[n] {
      if n >= 8 * m {
        assert n / 8 == m && n % 8 == n - 8 * m;
      } else {
        assert n / 8 < m;
      }
    }
  }

  method PushBits(avail: seq<bool>, chAvail: Byte) returns (r: seq<bool>)
    ensures r == avail + Unrolled([chAvail])
  {
    r := avail;
    for p := 0 to 8
      invariant r == avail + Unrolled([chAvail])[..p]
    {
      assert Unrolled([chAvail])[p] == BitOf(chAvail, p);
      r := r + [BitOf(chAvail, p)];
    }
  }

  function Prepend<T>(done: seq<T>, r: Read<seq<T>>): Read<seq<T>> {
    if r.End? then End else Got(done + r.value, r.rest)
  }

  lemma PrependFacts<T>(done: seq<T>, x: T, r: Read<seq<T>>, rest: Bytes)
    ensures Prepend([], r) == r
    ensures Prepend(done, Got([], rest)) == Got(done, rest)
    ensures Prepend(done, Prepend([x], r)) == Prepend(done + [x], r)
  {
    if r.Got? {
      assert [] + r.value == r.value;
      assert done + ([x] + r.value) == done + [x] + r.value;
    }
    assert done + [] == done;
  }

  method ReadFlags(s: Bytes, left: nat, first: bool, second: bool) returns (r: Read<seq<bool>>)
    ensures var mask := ReadMask(s, left);
            r == if mask.End? then End else Got([first, second] + Unrolled(mask.value), mask.rest)
  {
    hide Unrolled;
    var avail, rest: Bytes, nMaskCode := [first, second], s, left;
    ghost var done: Bytes := [];
    assert Unrolled(done) == [] by { UnrolledNil(); }
    PrependFacts(done, 0, ReadMask(s, left), s);
    while nMaskCode > 0
      invariant 0 <= nMaskCode
      invariant ReadMask(s, left) == Prepend(done, ReadMask(rest, nMaskCode))
      invariant avail == [first, second] + Unrolled(done)
      decreases |rest|
    {
      if rest == [] {
        return End;
      }
      UnrolledSnoc(done, rest[0]);
      avail := PushBits(avail, rest[0]);
      if rest[0] != 0 {
        nMaskCode := nMaskCode - 1;
      }
      PrependFacts(done, rest[0], ReadMask(rest[1..], nMaskCode), rest);
      done, rest := done + [rest[0]], rest[1..];
    }
    PrependFacts(done, 0, End, rest);
    r := Got(avail, rest);
  }

  lemma UnrolledNil()
    ensures Unrolled([]) == []
  {
  }

  method ReadOneOut(k: Curve, s: Bytes) returns (r: Read<TxOut>)
    ensures r == ReadOut(k, s)
  {
    hide Decode, ReadScript;
    var amount := ReadLoop(s, TWO_64);
    if amount.End? {
      return End;
    }
    var script := ReadScript(k, amount.rest);
    if script.End? {
      return End;
    }
    DecodeBelow(s, TWO_64);
    var n := DecompressAmount(amount.value);
    r := Got(TxOut(Signed64(n), script.value), script.rest);
  }

  lemma DecodeBelow(s: Bytes, m: nat)
    requires m > 0
    ensures Decode(s, m).Got? ==> Decode(s, m).value < m
  {
    ReadOnBelow(0, s, m);
  }

  lemma {:induction false} ReadOnBelow(n: nat, s: Bytes, m: nat)
    requires m > 0
    ensures ReadOn(n, s, m).Got? ==> ReadOn(n, s, m).value < m
    decreases |s|
  {
    hide Rem;
    if s != [] && s[0] >= 128 {
      ReadOnBelow(Rem(Rem(128 * n + s[0] % 128, m) + 1, m), s[1..], m);
    }
  }

  method ReadAllOuts(k: Curve, s: Bytes, avail: seq<bool>) returns (r: Read<seq<TxOut>>)
    ensures r == ReadOuts(k, s, avail)
  {
    hide ReadOut;
    var vout, rest := [], s;
    assert avail[0..] == avail;
    PrependFacts(vout, NULL_OUT, ReadOuts(k, s, avail), s);
    for i := 0 to |avail|
      invariant ReadOuts(k, s, avail) == Prepend(vout, ReadOuts(k, rest, avail[i..]))
    {
      assert avail[i..][1..] == avail[i + 1..];
      var out := NULL_OUT;
      if avail[i] {
        var o := ReadOneOut(k, rest);
        if o.End? {
          return End;
        }
        out, rest := o.value, o.rest;
      }
      PrependFacts(vout, out, ReadOuts(k, rest, avail[i + 1..]), rest);
      vout := vout + [out];
    }
    PrependFacts(vout, NULL_OUT, End, rest);
    r := Got(vout, rest);
  }

  method Unserialize(k: Curve, s: Bytes) returns (r: Read<Coins>)
    ensures r == Unserialized(k, s)
  {
    hide DecodeSigned, Decode, ReadMask, ReadOuts, Unrolled, Trim;
    var version := ReadSigned(s);
    if version.End? {
      return End;
    }
    var code := ReadLoop(version.rest, TWO_32);
    if code.End? {
      return End;
    }
    var first, second := code.value / 2 % 2 == 1, code.value / 4 % 2 == 1;
    var nMaskCode := code.value / 8 + if first || second then 0 else 1;
    var avail := ReadFlags(code.rest, nMaskCode, first, second);
    if avail.End? {
      return End;
    }
    var outs := ReadAllOuts(k, avail.rest, avail.value);
    if outs.End? {
      return End;
    }
    var height := ReadSigned(outs.rest);
    if height.End? {
      return End;
    }
    var c := CleanupLoop(Coins(code.value % 2 == 1, outs.value, height.value, version.value));
    r := Got(c, height.rest);
  }
}
