/**
 * The stored form of a transaction's unspent outputs (CCoins::Serialize and
 * Unserialize in src/coins.h, CalcMaskSize in src/coins.cpp).
 */
module CoinsSerialize {
  import opened Arithmetic
  import opened Common
  import opened CoinsData
  import opened VarInt
  import opened Compressor

  // ------------------------------------------------------------ single outputs

  function OutBytes(c: Curve, o: TxOut): Bytes {
    Encode(Compressed(o.nValue % TWO_64) % TWO_64) + ScriptBytes(c, o.scriptPubKey)
  }

  /** The 64-bit signed number with the same bits. */
  function Signed64(n: nat): int {
    if n < TWO_64 / 2 then n else n - TWO_64
  }

  function ReadOut(c: Curve, s: Bytes): Read<TxOut> {
    var amount := Decode(s, TWO_64);
    if amount.End? then End
    else
      var script := ReadScript(c, amount.rest);
      if script.End? then End
      else Got(TxOut(Signed64(Decompressed(amount.value) % TWO_64), script.value), script.rest)
  }

  predicate Storable(o: TxOut) {
    MoneyRange(o.nValue) && |o.scriptPubKey| <= MAX_SCRIPT_SIZE
  }

  lemma ReadOutBytes(c: Curve, o: TxOut, t: Bytes)
    requires Inverts(c) && Storable(o)
    ensures ReadOut(c, OutBytes(c, o) + t) == Got(o, t)
  {
    hide Digits, ReadOn, Inverts, Compressed, Decompressed, ReadScript, ScriptBytes;
    var x := Compressed(o.nValue);
    CompressedFits(o.nValue);
    DecompressCompressed(o.nValue);
    var script := ScriptBytes(c, o.scriptPubKey);
    assert OutBytes(c, o) + t == Encode(x) + (script + t);
    DecodeEncode(x, script + t, TWO_64);
    ReadScriptBytes(c, o.scriptPubKey, t);
  }

  // ------------------------------------------------------------- mask bytes

  /** The number with the given bits, least significant first. */
  function FromBits(bits: seq<bool>): nat {
    if bits == [] then 0 else One(bits[0]) + 2 * FromBits(bits[1..])
  }

  lemma {:induction false} BitOfFromBits(bits: seq<bool>, p: nat)
    requires p < |bits|
    ensures BitOf(FromBits(bits), p) == bits[p]
  {
    var rest := FromBits(bits[1..]);
    assert FromBits(bits) == One(bits[0]) + 2 * rest;
    if p > 0 {
      BitOfFromBits(bits[1..], p - 1);
      hide FromBits;
      assert FromBits(bits) / 2 == rest;
    }
  }

  lemma {:induction false} FromBitsSnoc(bits: seq<bool>, b: bool)
    ensures FromBits(bits + [b]) == FromBits(bits) + if b then Pow2(|bits|) else 0
  {
    if bits == [] {
      assert (bits + [b])[1..] == [];
    } else {
      FromBitsSnoc(bits[1..], b);
      assert (bits + [b])[1..] == bits[1..] + [b];
    }
  }

  lemma {:induction false} FromBitsBelow(bits: seq<bool>)
    ensures FromBits(bits) < Pow2(|bits|)
    ensures FromBits(bits) == 0 <==> forall p | 0 <= p < |bits| :: !bits[p]
  {
    if bits != [] {
      FromBitsBelow(bits[1..]);
      assert forall p | 0 < p < |bits| :: bits[p] == bits[1..][p - 1];
      assert forall p | 0 <= p < |bits| - 1 :: bits[1..][p] == bits[p + 1];
    }
  }

  /** The availability of the eight outputs of mask byte b. */
  function Octet(vout: seq<TxOut>, b: nat): (r: seq<bool>)
    ensures |r| == 8 && forall i | 0 <= i < 8 :: r[i] == Has(vout, 2 + 8 * b + i)
  {
    seq(8, i requires 0 <= i < 8 => Has(vout, 2 + 8 * b + i))
  }

  function MaskByte(vout: seq<TxOut>, b: nat): Byte {
    FromBitsBelow(Octet(vout, b));
    FromBits(Octet(vout, b))
  }

  /** The mask bytes that cover all outputs after the second. */
  function AllMaskBytes(vout: seq<TxOut>): (r: Bytes)
    ensures |r| == if |vout| <= 2 then 0 else (|vout| + 5) / 8
    ensures forall b | 0 <= b < |r| :: r[b] == MaskByte(vout, b)
  {
    seq(if |vout| <= 2 then 0 else (|vout| + 5) / 8, b requires b >= 0 => MaskByte(vout, b))
  }

  function TrimZeros(s: Bytes): (r: Bytes)
    ensures r <= s && (r != [] ==> r[|r| - 1] != 0) && forall i | |r| <= i < |s| :: s[i] == 0
  {
    if s != [] && s[|s| - 1] == 0 then TrimZeros(s[..|s| - 1]) else s
  }

  function NonZero(s: Bytes): nat {
    if s == [] then 0 else One(s[0] != 0) + NonZero(s[1..])
  }

  lemma {:induction false} NonZeroSnoc(s: Bytes, b: Byte)
    ensures NonZero(s + [b]) == NonZero(s) + One(b != 0)
  {
    if s == [] {
      assert (s + [b])[1..] == [];
    } else {
      assert (s + [b])[1..] == s[1..] + [b];
      NonZeroSnoc(s[1..], b);
    }
  }

  lemma {:induction false} NonZeroTrimmed(s: Bytes)
    ensures NonZero(TrimZeros(s)) == NonZero(s) <= |s|
  {
    if s != [] {
      var n := |s| - 1;
      assert s == s[..n] + [s[n]];
      NonZeroSnoc(s[..n], s[n]);
      NonZeroTrimmed(s[..n]);
    }
  }

  /** The bits of the mask bytes, as the reader unrolls them. */
  function Unrolled(mask: Bytes): (r: seq<bool>)
    ensures |r| == 8 * |mask|
    ensures forall n: nat | n < |r| :: r[n] == BitOf(mask[n / 8], n % 8)
  {
    seq(8 * |mask|, n requires 0 <= n < 8 * |mask| => BitOf(mask[n / 8], n % 8))
  }

  /** Reads mask bytes until the given number of non-zero ones have come. */
  function ReadMask(s: Bytes, left: nat): Read<Bytes>
    decreases |s|
  {
    if left == 0 then Got([], s)
    else if s == [] then End
    else
      var r := ReadMask(s[1..], if s[0] != 0 then left - 1 else left);
      if r.End? then End else Got([s[0]] + r.value, r.rest)
  }

  lemma {:induction false} ReadMaskExact(mask: Bytes, t: Bytes)
    requires mask != [] ==> mask[|mask| - 1] != 0
    ensures ReadMask(mask + t, NonZero(mask)) == Got(mask, t)
    ensures mask != [] ==> NonZero(mask) > 0
  {
    if mask == [] {
      assert mask + t == t;
    } else {
      assert (mask + t)[1..] == mask[1..] + t;
      ReadMaskExact(mask[1..], t);
      assert [mask[0]] + mask[1..] == mask;
    }
  }

  predicate Set(flags: seq<bool>, n: nat) {
    n < |flags| && flags[n]
  }

  /** The flags say of every output, and of none past the end, whether it is unspent. */
  ghost predicate Matches(avail: seq<bool>, vout: seq<TxOut>) {
    forall n: nat :: Set(avail, n) <==> Has(vout, n)
  }

  function Mask(vout: seq<TxOut>): Bytes {
    TrimZeros(AllMaskBytes(vout))
  }

  function Flags(vout: seq<TxOut>): seq<bool> {
    [Has(vout, 0), Has(vout, 1)] + Unrolled(Mask(vout))
  }

  lemma FlagsMatchAt(vout: seq<TxOut>, n: nat)
    requires n >= 2
    ensures Set(Flags(vout), n) <==> Has(vout, n)
  {
    hide BitOf, FromBits;
    var b, i := (n - 2) / 8, (n - 2) % 8;
    var all, octet := AllMaskBytes(vout), Octet(vout, b);
    BitOfFromBits(octet, i);
    FromBitsBelow(octet);
    assert octet[i] == Has(vout, n);
    var mask := Mask(vout);
    if b < |mask| {
      assert Flags(vout)[n] == Unrolled(mask)[n - 2] == BitOf(mask[b], i);
      assert mask[b] == all[b] == MaskByte(vout, b);
    } else if b < |all| {
      assert all[b] == MaskByte(vout, b) == 0;
    }
  }

  /** The mask tells every output apart, with no byte after the last one that matters. */
  lemma FlagsMatch(vout: seq<TxOut>)
    ensures Matches(Flags(vout), vout)
  {
    hide Unrolled, Mask;
    forall n: nat ensures Set(Flags(vout), n) <==> Has(vout, n) {
      if n >= 2 {
        FlagsMatchAt(vout, n);
      }
    }
  }

  // ------------------------------------------------------------ all the outputs

  function OutsBytes(c: Curve, vout: seq<TxOut>): Bytes {
    if vout == [] then []
    else (if IsNullOut(vout[0]) then [] else OutBytes(c, vout[0])) + OutsBytes(c, vout[1..])
  }

  function ReadOuts(c: Curve, s: Bytes, avail: seq<bool>): Read<seq<TxOut>>
    decreases |avail|
  {
    if avail == [] then Got([], s)
    else
      var first := if avail[0] then ReadOut(c, s) else Got(NULL_OUT, s);
      if first.End? then End
      else
        var rest := ReadOuts(c, first.rest, avail[1..]);
        if rest.End? then End else Got([first.value] + rest.value, rest.rest)
  }

  /** One entry a flag: the output itself, or a null one. */
  function Filled(vout: seq<TxOut>, avail: seq<bool>): (r: seq<TxOut>)
    requires forall n | 0 <= n < |avail| && avail[n] :: n < |vout|
    ensures |r| == |avail| && forall n | 0 <= n < |r| :: r[n] == if avail[n] then vout[n] else NULL_OUT
  {
    seq(|avail|, n requires 0 <= n < |avail| => if avail[n] then vout[n] else NULL_OUT)
  }

  ghost predicate AllStorable(vout: seq<TxOut>) {
    forall n: nat | Has(vout, n) :: Storable(vout[n])
  }

  lemma MatchesTail(avail: seq<bool>, vout: seq<TxOut>)
    requires Matches(avail, vout)
    ensures Matches(avail[One(avail != [])..], vout[One(vout != [])..])
  {
    var flags, tail := avail[One(avail != [])..], vout[One(vout != [])..];
    forall n: nat ensures Set(flags, n) <==> Has(tail, n) {
      assert Set(avail, n + 1) <==> Has(vout, n + 1);
    }
  }

  lemma {:induction false} NoneToWrite(c: Curve, vout: seq<TxOut>)
    requires Matches([], vout)
    ensures OutsBytes(c, vout) == []
  {
    if vout != [] {
      assert !Has(vout, 0);
      MatchesTail([], vout);
      NoneToWrite(c, vout[1..]);
    }
  }

  lemma {:induction false} ReadOutsBytes(c: Curve, vout: seq<TxOut>, avail: seq<bool>, t: Bytes)
    requires Inverts(c) && AllStorable(vout) && Matches(avail, vout)
    ensures forall n | 0 <= n < |avail| && avail[n] :: n < |vout|
    ensures ReadOuts(c, OutsBytes(c, vout) + t, avail) == Got(Filled(vout, avail), t)
    decreases |avail|
  {
    hide Inverts, OutBytes, ReadOut;
    forall n | 0 <= n < |avail| && avail[n] ensures n < |vout| {
      assert Set(avail, n);
    }
    if avail == [] {
      NoneToWrite(c, vout);
      assert [] + t == t;
    } else {
      MatchesTail(avail, vout);
      var tail := vout[One(vout != [])..];
      assert AllStorable(tail) by {
        forall n: nat | Has(tail, n) ensures Storable(tail[n]) {
          assert Has(vout, n + 1);
        }
      }
      ReadOutsBytes(c, tail, avail[1..], t);
      assert Set(avail, 0) == Has(vout, 0);
      FirstOut(c, vout, t);
      FilledCons(vout, avail);
    }
  }

  lemma FilledCons(vout: seq<TxOut>, avail: seq<bool>)
    requires avail != [] && forall n | 0 <= n < |avail| && avail[n] :: n < |vout|
    ensures var tail := vout[One(vout != [])..];
            && (forall n | 0 <= n < |avail[1..]| && avail[1..][n] :: n < |tail|)
            && Filled(vout, avail) == [if avail[0] then vout[0] else NULL_OUT] + Filled(tail, avail[1..])
  {
  }

  /** The first output is read back, or skipped when it is null. */
  lemma FirstOut(c: Curve, vout: seq<TxOut>, t: Bytes)
    requires Inverts(c) && AllStorable(vout)
    ensures var rest := OutsBytes(c, vout[One(vout != [])..]) + t;
            if Has(vout, 0) then ReadOut(c, OutsBytes(c, vout) + t) == Got(vout[0], rest)
            else OutsBytes(c, vout) + t == rest
  {
    hide Inverts, OutBytes, ReadOut;
    if vout != [] {
      var rest := OutsBytes(c, vout[1..]) + t;
      if Has(vout, 0) {
        ReadOutBytes(c, vout[0], rest);
        assert OutsBytes(c, vout) + t == OutBytes(c, vout[0]) + rest;
      } else {
        assert OutsBytes(c, vout) == OutsBytes(c, vout[1..]);
      }
    }
  }

  // ------------------------------------------------------------------ coins

  /** There is something to say about the outputs exactly when one is unspent. */
  lemma PrunedMask(c: Coins)
    ensures IsPruned(c) <==> !Has(c.vout, 0) && !Has(c.vout, 1) && NonZero(AllMaskBytes(c.vout)) == 0
  {
    hide Unrolled, AllMaskBytes;
    var mask := Mask(c.vout);
    NonZeroTrimmed(AllMaskBytes(c.vout));
    ReadMaskExact(mask, []);
    FlagsMatch(c.vout);
    if IsPruned(c) {
      NothingUnspent(c.vout);
    } else {
      var n :| 0 <= n < |c.vout| && !IsNullOut(c.vout[n]);
      assert Has(c.vout, n);
      assert Set(Flags(c.vout), n);
    }
  }

  lemma NothingUnspent(vout: seq<TxOut>)
    requires forall n: nat :: !Has(vout, n)
    ensures Mask(vout) == []
  {
    var mask := Mask(vout);
    if mask != [] {
      var b := |mask| - 1;
      FromBitsBelow(Octet(vout, b));
    }
  }

  /** The header code: coinbase, first and second output, and how many mask bytes are not zero. */
  function Code(c: Coins): nat
    requires !IsPruned(c)
  {
    PrunedMask(c);
    var first, second := Has(c.vout, 0), Has(c.vout, 1);
    8 * (NonZero(AllMaskBytes(c.vout)) - One(!first && !second)) + One(c.fCoinBase) + 2 * One(first) + 4 * One(second)
  }

  function Serialized(k: Curve, c: Coins): Bytes
    requires !IsPruned(c)
  {
    EncodeSigned(c.nVersion)
    + (Encode(Code(c) % TWO_32) + (Mask(c.vout) + (OutsBytes(k, c.vout) + EncodeSigned(c.nHeight))))
  }

  /** Reads the parts after the header code. */
  function ReadBody(k: Curve, s: Bytes, nVersion: int, nCode: nat): Read<Coins> {
    var first, second := nCode / 2 % 2 == 1, nCode / 4 % 2 == 1;
    var mask := ReadMask(s, nCode / 8 + One(!first && !second));
    if mask.End? then End
    else
      var outs := ReadOuts(k, mask.rest, [first, second] + Unrolled(mask.value));
      if outs.End? then End
      else
        var height := DecodeSigned(outs.rest);
        if height.End? then End
        else Got(Cleanup(Coins(nCode % 2 == 1, outs.value, height.value, nVersion)), height.rest)
  }

  function Unserialized(k: Curve, s: Bytes): Read<Coins> {
    var version := DecodeSigned(s);
    if version.End? then End
    else
      var code := Decode(version.rest, TWO_32);
      if code.End? then End else ReadBody(k, code.rest, version.value, code.value)
  }

  /** Spent outputs lose whatever script they still had. */
  function Nulled(vout: seq<TxOut>): (r: seq<TxOut>)
    ensures |r| == |vout| && forall n | 0 <= n < |r| :: r[n] == if IsNullOut(vout[n]) then NULL_OUT else vout[n]
  {
    seq(|vout|, n requires 0 <= n < |vout| => if IsNullOut(vout[n]) then NULL_OUT else vout[n])
  }

  function OutAt(vout: seq<TxOut>, n: nat): TxOut {
    if n < |vout| then vout[n] else NULL_OUT
  }

  /** Sequences that differ only in null outputs at the end are trimmed to the same one. */
  lemma TrimSame(a: seq<TxOut>, b: seq<TxOut>)
    requires forall n: nat :: OutAt(a, n) == OutAt(b, n)
    ensures |Trim(a)| >= |Trim(b)| && forall n | 0 <= n < |Trim(b)| :: Trim(a)[n] == Trim(b)[n]
  {
    var ra, rb := Trim(a), Trim(b);
    if rb != [] {
      var n := |rb| - 1;
      assert OutAt(a, n) == OutAt(b, n) == rb[n];
    }
    forall n | 0 <= n < |rb| ensures ra[n] == rb[n] {
      assert OutAt(a, n) == OutAt(b, n);
    }
  }

  lemma FilledTrims(vout: seq<TxOut>, avail: seq<bool>)
    requires Matches(avail, vout) && forall n | 0 <= n < |avail| && avail[n] :: n < |vout|
    ensures Trim(Filled(vout, avail)) == Trim(Nulled(vout))
  {
    hide Trim;
    forall n: nat ensures OutAt(Filled(vout, avail), n) == OutAt(Nulled(vout), n) {
      assert Set(avail, n) <==> Has(vout, n);
    }
    TrimSame(Filled(vout, avail), Nulled(vout));
    TrimSame(Nulled(vout), Filled(vout, avail));
  }

  predicate Int32(n: int) {
    -0x8000_0000 <= n < 0x8000_0000
  }

  /** What the code and the assertion in Serialize need of an entry: 32-bit fields, and few enough outputs. */
  ghost predicate Serializable(c: Coins) {
    && !IsPruned(c) && Int32(c.nVersion) && Int32(c.nHeight)
    && |c.vout| < TWO_32 - 16 && AllStorable(c.vout)
  }

  lemma CodeParts(q: nat, cb: bool, first: bool, second: bool)
    ensures var x := 8 * q + One(cb) + 2 * One(first) + 4 * One(second);
            (x % 2 == 1) == cb && (x / 2 % 2 == 1) == first && (x / 4 % 2 == 1) == second && x / 8 == q
  {
    var x := 8 * q + One(cb) + 2 * One(first) + 4 * One(second);
    assert x / 2 == 4 * q + One(first) + 2 * One(second);
    assert x / 4 == 2 * q + One(second);
  }

  lemma CodeFits(c: Coins)
    requires !IsPruned(c) && |c.vout| < TWO_32 - 16
    ensures Code(c) < TWO_32
    ensures var first, second := Has(c.vout, 0), Has(c.vout, 1);
            && (Code(c) / 2 % 2 == 1) == first && (Code(c) / 4 % 2 == 1) == second
            && (Code(c) % 2 == 1) == c.fCoinBase
            && Code(c) / 8 + One(!first && !second) == NonZero(AllMaskBytes(c.vout))
  {
    hide IsPruned, Has, NonZero, MaskByte;
    PrunedMask(c);
    var n := NonZero(AllMaskBytes(c.vout));
    NonZeroTrimmed(AllMaskBytes(c.vout));
    assert 8 * n <= |c.vout| + 5;
    var first, second := Has(c.vout, 0), Has(c.vout, 1);
    CodeParts(n - One(!first && !second), c.fCoinBase, first, second);
  }

  lemma ReadBodyExact(k: Curve, c: Coins, t: Bytes, nVersion: int)
    requires Inverts(k) && Serializable(c)
    ensures ReadBody(k, Mask(c.vout) + (OutsBytes(k, c.vout) + EncodeSigned(c.nHeight)) + t, nVersion, Code(c))
         == Got(Cleanup(Coins(c.fCoinBase, Nulled(c.vout), Echo(c.nHeight), nVersion)), t)
  {
    hide Inverts, Code, Mask, OutsBytes, ReadOuts, ReadMask, EncodeSigned, DecodeSigned, Trim, Unrolled, Nulled, Echo;
    var mask, outs, height := Mask(c.vout), OutsBytes(k, c.vout), EncodeSigned(c.nHeight);
    var flags := Flags(c.vout);
    CodeFits(c);
    MaskReads(c.vout, outs + height + t);
    assert mask + (outs + height) + t == mask + (outs + height + t);
    FlagsMatch(c.vout);
    ReadOutsBytes(k, c.vout, flags, height + t);
    assert outs + height + t == outs + (height + t);
    DecodeEncodeSigned(c.nHeight, t);
    FilledTrims(c.vout, flags);
  }

  /** The mask loop reads exactly the bytes that were written. */
  lemma MaskReads(vout: seq<TxOut>, t: Bytes)
    ensures ReadMask(Mask(vout) + t, NonZero(AllMaskBytes(vout))) == Got(Mask(vout), t)
  {
    NonZeroTrimmed(AllMaskBytes(vout));
    ReadMaskExact(Mask(vout), t);
  }

  /** Reading back gives the cleaned-up coins and the rest of the stream. */
  lemma UnserializeSerialized(k: Curve, c: Coins, t: Bytes)
    requires Inverts(k) && Serializable(c)
    ensures Unserialized(k, Serialized(k, c) + t)
         == Got(Cleanup(Coins(c.fCoinBase, Nulled(c.vout), Echo(c.nHeight), Echo(c.nVersion))), t)
  {
    hide Inverts, Code, Mask, OutsBytes, EncodeSigned, DecodeSigned, Encode, Decode, ReadBody, Cleanup, Nulled, Echo;
    var body := Mask(c.vout) + (OutsBytes(k, c.vout) + EncodeSigned(c.nHeight));
    CodeFits(c);
    assert Serialized(k, c) + t == EncodeSigned(c.nVersion) + (Encode(Code(c)) + (body + t));
    DecodeEncodeSigned(c.nVersion, Encode(Code(c)) + (body + t));
    DecodeEncode(Code(c), body + t, TWO_32);
    ReadBodyExact(k, c, t, Echo(c.nVersion));
  }

  /**
   * So the stored form keeps exactly the entries whose version and height are not
   * negative: a negative one is written as a single digit and loses its sign.
   */
  lemma RoundTripExactly(k: Curve, c: Coins, t: Bytes)
    requires Inverts(k) && Serializable(c)
    ensures Unserialized(k, Serialized(k, c) + t) == Got(Cleanup(c.(vout := Nulled(c.vout))), t)
       <==> c.nVersion >= 0 && c.nHeight >= 0
  {
    hide Inverts, Serialized, Unserialized, Trim, Nulled;
    UnserializeSerialized(k, c, t);
  }

  /** A transaction with version -1 comes back with version 127. */
  lemma NegativeVersionIsLost(k: Curve)
    requires Inverts(k)
    ensures var c := Coins(false, [TxOut(1, [])], 5, -1);
            !IsPruned(c) && Unserialized(k, Serialized(k, c)) == Got(c.(nVersion := 127), [])
  {
    hide Inverts, Serialized, Unserialized;
    var c := Coins(false, [TxOut(1, [])], 5, -1);
    assert !IsNullOut(c.vout[0]);
    UnserializeSerialized(k, c, []);
    assert Serialized(k, c) + [] == Serialized(k, c);
    assert Nulled(c.vout) == c.vout;
  }

  // ------------------------------------------------------- the documented format

  /** Pay to a public key hash. */
  function ToKeyId(hash: Bytes): Bytes {
    [OP_DUP, OP_HASH160, 20] + hash + [OP_EQUALVERIFY, OP_CHECKSIG]
  }

  lemma ThreeDigits()
    ensures EncodeSigned(203998) == [0x8b, 0xb8, 0x5e]
    ensures Encode(600) == [0x83, 0x58] && Encode(4) == [4] && EncodeSigned(1) == [1]
  {
    assert Digits(11, true) == [0x8b];
    assert Digits(1592, true) == [0x8b, 0xb8];
    assert Digits(3, true) == [0x83];
  }

  lemma SixHundredCoins()
    ensures Compressed(60_000_000_000) == 600
  {
    assert Strip(60, 9) == (60, 9);
    assert Strip(6_000, 7) == Strip(600, 8);
    assert Strip(600_000, 5) == Strip(60_000, 6);
    assert Strip(60_000_000, 3) == Strip(6_000_000, 4);
    assert Strip(6_000_000_000, 1) == Strip(600_000_000, 2);
  }

  /**
   * The first documented example: version 1, only output 1 unspent, 600 coins to
   * a public key hash, height 203998.
   */
  lemma DocumentedExample(k: Curve, hash: Bytes)
    requires |hash| == 20
    ensures var c := Coins(false, [NULL_OUT, TxOut(60_000_000_000, ToKeyId(hash))], 203998, 1);
            !IsPruned(c) && Serialized(k, c) == [0x01, 0x04, 0x83, 0x58, 0x00] + hash + [0x8b, 0xb8, 0x5e]
  {
    var o := TxOut(60_000_000_000, ToKeyId(hash));
    var c := Coins(false, [NULL_OUT, o], 203998, 1);
    assert !IsNullOut(c.vout[1]);
    ThreeDigits();
    SixHundredCoins();
    assert o.scriptPubKey[3..23] == hash;
    assert ScriptBytes(k, o.scriptPubKey) == [0] + hash;
    hide Encode, EncodeSigned, Compressed, ScriptBytes;
    assert OutBytes(k, o) == [0x83, 0x58] + ([0] + hash);
    assert OutsBytes(k, [o]) == OutBytes(k, o) + [];
    assert c.vout[1..] == [o];
    assert OutsBytes(k, c.vout) == [] + OutsBytes(k, [o]);
    assert Mask(c.vout) == [] && Code(c) == 4;
  }

  /** n spent outputs. */
  function SpentOuts(n: nat): (r: seq<TxOut>)
    ensures |r| == n && forall i | 0 <= i < n :: r[i] == NULL_OUT
  {
    if n == 0 then [] else [NULL_OUT] + SpentOuts(n - 1)
  }

  lemma {:induction false} SpentWriteNothing(k: Curve, n: nat, v: seq<TxOut>)
    ensures OutsBytes(k, SpentOuts(n) + v) == OutsBytes(k, v)
  {
    if n == 0 {
      assert SpentOuts(0) + v == v;
    } else {
      var all := SpentOuts(n) + v;
      assert all[0] == NULL_OUT && all[1..] == SpentOuts(n - 1) + v;
      SpentWriteNothing(k, n - 1, v);
    }
  }

  lemma FiveDigits()
    ensures Encode(2114333561) == [0x86, 0xef, 0x97, 0xd5, 0x79] && Encode(993571) == [0xbb, 0xd1, 0x23]
    ensures Encode(9) == [9] && EncodeSigned(1) == [1] && EncodeSigned(120891) == [0x86, 0xaf, 0x3b]
  {
    assert Digits(6, true) == [0x86] && Digits(1007, true) == [0x86, 0xef];
    assert Digits(129047, true) == [0x86, 0xef, 0x97] && Digits(16518229, true) == [0x86, 0xef, 0x97, 0xd5];
    assert Digits(59, true) == [0xbb] && Digits(7761, true) == [0xbb, 0xd1];
    assert Digits(943, true) == [0x86, 0xaf];
  }

  lemma TwoAmounts()
    ensures Compressed(234925952) == 2114333561 && Compressed(110397) == 993571
  {
    DocumentedAmounts(23492595, 2, 0);
    DocumentedAmounts(11039, 7, 0);
  }

  /** What is stored for an output to a public key hash. */
  lemma KeyHashOut(k: Curve, nValue: nat, hash: Bytes)
    requires |hash| == 20 && nValue < TWO_64 && Compressed(nValue) < TWO_64
    ensures OutBytes(k, TxOut(nValue, ToKeyId(hash))) == Encode(Compressed(nValue)) + ([0] + hash)
  {
    hide Compressed, Encode;
    var s := ToKeyId(hash);
    assert s[3..23] == hash;
    assert ScriptBytes(k, s) == [0] + hash;
  }

  function OnlyBit(n: nat, p: nat): (r: seq<bool>)
    ensures |r| == n && forall i | 0 <= i < n :: r[i] == (i == p)
  {
    seq(n, i => i == p)
  }

  lemma {:induction false} OneBit(n: nat, p: nat)
    requires p < n
    ensures FromBits(OnlyBit(n, p)) == Pow2(p)
  {
    var bits := OnlyBit(n, p);
    if p == 0 {
      FromBitsBelow(bits[1..]);
    } else {
      assert bits[1..] == OnlyBit(n - 1, p - 1);
      OneBit(n - 1, p - 1);
    }
  }

  lemma BitsOfExample()
    ensures FromBits([false, false, true, false, false, false, false, false]) == 0x04
    ensures FromBits([false, false, false, false, false, false, true, false]) == 0x40
  {
    assert Pow2(2) == 4 && Pow2(4) == 16 && Pow2(6) == 64;
    OneBit(8, 2);
    OneBit(8, 6);
    assert OnlyBit(8, 2) == [false, false, true, false, false, false, false, false];
    assert OnlyBit(8, 6) == [false, false, false, false, false, false, true, false];
  }

  lemma OctetsOfExample(vout: seq<TxOut>)
    requires forall n: nat :: Has(vout, n) <==> n == 4 || n == 16
    ensures Octet(vout, 0) == [false, false, true, false, false, false, false, false]
    ensures Octet(vout, 1) == [false, false, false, false, false, false, true, false]
  {
    hide Octet, Has;
  }

  /** Only outputs 4 and 16 unspent: two mask bytes with one bit each. */
  lemma MaskOfExample(c: Coins)
    requires c.fCoinBase && |c.vout| == 17 && forall n: nat :: Has(c.vout, n) <==> n == 4 || n == 16
    ensures !IsPruned(c) && Mask(c.vout) == [0x04, 0x40] && Code(c) == 9
  {
    assert Has(c.vout, 4);
    BitsOfExample();
    OctetsOfExample(c.vout);
    hide FromBits, Octet;
    assert AllMaskBytes(c.vout) == [0x04, 0x40];
    assert NonZero([0x40]) == 1 && [0x04, 0x40][1..] == [0x40];
    assert NonZero([0x04, 0x40]) == 2;
  }

  function OutsOfExample(a: TxOut, b: TxOut): seq<TxOut> {
    SpentOuts(4) + ([a] + (SpentOuts(11) + [b]))
  }

  lemma UnspentOfExample(a: TxOut, b: TxOut)
    requires !IsNullOut(a) && !IsNullOut(b)
    ensures |OutsOfExample(a, b)| == 17
    ensures forall n: nat :: Has(OutsOfExample(a, b), n) <==> n == 4 || n == 16
  {
    hide SpentOuts;
  }

  lemma BytesOfExample(k: Curve, a: TxOut, b: TxOut)
    requires !IsNullOut(a) && !IsNullOut(b)
    ensures OutsBytes(k, OutsOfExample(a, b)) == OutBytes(k, a) + OutBytes(k, b)
  {
    hide OutBytes, SpentOuts, IsNullOut;
    var tail := SpentOuts(11) + [b];
    SpentWriteNothing(k, 4, [a] + tail);
    SpentWriteNothing(k, 11, [b]);
    assert ([a] + tail)[1..] == tail && [b][1..] == [];
    assert OutsBytes(k, [b]) == OutBytes(k, b) + [];
  }

  /**
   * The second documented example: a coinbase of version 1 with only outputs 4 and 16 unspent, of 234925952
   * and 110397 units to public key hashes, height 120891.
   */
  lemma SecondExample(k: Curve, hash4: Bytes, hash16: Bytes)
    requires |hash4| == 20 && |hash16| == 20
    ensures var vout := OutsOfExample(TxOut(234925952, ToKeyId(hash4)), TxOut(110397, ToKeyId(hash16)));
      var c := Coins(true, vout, 120891, 1);
      && !IsPruned(c)
      && Serialized(k, c) ==
         [0x01] + ([0x09] + ([0x04, 0x40]
         + (([0x86, 0xef, 0x97, 0xd5, 0x79] + ([0x00] + hash4) + ([0xbb, 0xd1, 0x23] + ([0x00] + hash16)))
         + [0x86, 0xaf, 0x3b])))
  {
    var a, b := TxOut(234925952, ToKeyId(hash4)), TxOut(110397, ToKeyId(hash16));
    var c := Coins(true, OutsOfExample(a, b), 120891, 1);
    UnspentOfExample(a, b);
    hide OutsOfExample, Compressed, Encode, EncodeSigned, OutBytes, OutsBytes, Mask, Code, Has, IsPruned, ToKeyId;
    MaskOfExample(c);
    FiveDigits();
    TwoAmounts();
    BytesOfExample(k, a, b);
    KeyHashOut(k, 234925952, hash4);
    KeyHashOut(k, 110397, hash16);
  }
}
