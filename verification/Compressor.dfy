/**
 * Compact forms of amounts and of scripts (src/compressor.cpp, src/compressor.h).
 */
module Compressor {
  import opened Arithmetic
  import opened Common
  import opened VarInt

  // ------------------------------------------------------------------ amounts

  const MAX_MONEY: nat := 10_000_000_000 * 100_000_000

  predicate MoneyRange(n: int) {
    0 <= n <= MAX_MONEY
  }

  /** Takes factors of ten off n, counting from e, up to nine in all. */
  function Strip(n: nat, e: nat): (r: (nat, nat))
    requires n > 0
    ensures r.0 > 0
    decreases n
  {
    if n % 10 == 0 && e < 9 then Strip(n / 10, e + 1) else (n, e)
  }

  /** n followed by e zeros. */
  function Scale(n: nat, e: nat): nat
    decreases e
  {
    if e == 0 then n else Scale(n * 10, e - 1)
  }

  function Compressed(n: nat): nat {
    if n == 0 then 0
    else
      var (m, e) := Strip(n, 0);
      Packed(m, e)
  }

  function Packed(m: nat, e: nat): int {
    if e < 9 then 1 + (m / 10 * 9 + m % 10 - 1) * 10 + e else 1 + (m - 1) * 10 + 9
  }

  /** The digits and the number of zeros that a compressed amount holds. */
  function Unpacked(x: nat): (nat, nat)
    requires x > 0
  {
    var e, y := (x - 1) % 10, (x - 1) / 10;
    if e < 9 then (y / 9 * 10 + y % 9 + 1, e) else (y + 1, e)
  }

  function Decompressed(x: nat): nat {
    if x == 0 then 0 else Scale(Unpacked(x).0, Unpacked(x).1)
  }

  lemma {:induction false} ScaleTen(n: nat, e: nat)
    ensures Scale(n * 10, e) == 10 * Scale(n, e)
    ensures Scale(n, e) >= n
    decreases e
  {
    if e > 0 {
      ScaleTen(n * 10, e - 1);
    }
  }

  lemma {:induction false} StripFacts(n: nat, e: nat)
    requires n > 0 && e <= 9
    ensures var (m, f) := Strip(n, e);
            0 < m <= n && e <= f <= 9 && (f == 9 || m % 10 != 0) && Scale(m, f - e) == n
    decreases n
  {
    if n % 10 == 0 && e < 9 {
      StripFacts(n / 10, e + 1);
      var (m, f) := Strip(n / 10, e + 1);
      ScaleTen(m, f - e - 1);
    }
  }

  lemma {:induction false} StripScaled(m: nat, k: nat, e: nat)
    requires m > 0 && e + k <= 9 && (e + k == 9 || m % 10 != 0)
    ensures Scale(m, k) > 0 && Strip(Scale(m, k), e) == (m, e + k)
    decreases k
  {
    ScaleTen(m, k);
    if k > 0 {
      ScaleTen(m, k - 1);
      StripScaled(m, k - 1, e + 1);
    }
  }

  lemma PackedUnpacks(m: nat, e: nat)
    requires m > 0 && e <= 9 && (e == 9 || m % 10 != 0)
    ensures Packed(m, e) > 0 && Unpacked(Packed(m, e)) == (m, e)
  {
  }

  lemma UnpackedPacks(x: nat)
    requires x > 0
    ensures var (m, e) := Unpacked(x);
            m > 0 && e <= 9 && (e == 9 || m % 10 != 0) && Packed(m, e) == x
  {
  }

  /** Compressing amounts is a bijection on the natural numbers: this way round, */
  lemma DecompressCompressed(n: nat)
    ensures Decompressed(Compressed(n)) == n
  {
    hide Strip, Scale, Packed, Unpacked;
    if n > 0 {
      StripFacts(n, 0);
      var (m, e) := Strip(n, 0);
      PackedUnpacks(m, e);
    }
  }

  /** and that way round. */
  lemma CompressDecompressed(x: nat)
    ensures Compressed(Decompressed(x)) == x
  {
    hide Strip, Scale, Packed, Unpacked;
    if x > 0 {
      UnpackedPacks(x);
      var (m, e) := Unpacked(x);
      StripScaled(m, e, 0);
    }
  }

  /** 10^e */
  function TenTo(e: nat): nat {
    if e == 0 then 1 else 10 * TenTo(e - 1)
  }

  lemma {:induction false} ScaleIs(n: nat, e: nat)
    ensures Scale(n, e) == n * TenTo(e)
    decreases e
  {
    if e > 0 {
      ScaleIs(n * 10, e - 1);
      assert n * 10 * TenTo(e - 1) == n * (10 * TenTo(e - 1));
    }
  }

  /** The documented format: digits n and d before e zeros, or n before nine zeros. */
  lemma DocumentedAmounts(n: nat, d: nat, e: nat)
    requires 1 <= d <= 9 && e < 9
    ensures Compressed(0) == 0
    ensures Compressed((10 * n + d) * TenTo(e)) == 1 + 10 * (9 * n + d - 1) + e
    ensures n > 0 ==> Compressed(n * TenTo(9)) == 1 + 10 * (n - 1) + 9
  {
    hide Strip, Scale, TenTo;
    StripScaled(10 * n + d, e, 0);
    ScaleIs(10 * n + d, e);
    if n > 0 {
      StripScaled(n, 9, 0);
      ScaleIs(n, 9);
    }
  }

  /** No valid amount leaves the 64-bit range on the way. */
  lemma CompressedFits(n: nat)
    ensures Compressed(n) <= 9 * n
    ensures MoneyRange(n) ==> Compressed(n) < TWO_64
  {
    if n > 0 {
      StripFacts(n, 0);
      var (m, e) := Strip(n, 0);
      if e > 0 {
        ScaleTen(m, e - 1);
        assert n >= 10 * m;
      }
    }
  }

  /** 64-bit arithmetic; wrapping once at the end gives the same as wrapping at every step. */
  method CompressAmount(n: nat) returns (x: nat)
    requires n < TWO_64
    ensures x == Compressed(n) % TWO_64
  {
    if n == 0 {
      return 0;
    }
    StripFacts(n, 0);
    var m, e := n, 0;
    while m % 10 == 0 && e < 9
      invariant m > 0 && e <= 9 && Strip(m, e) == Strip(n, 0)
    {
      m, e := m / 10, e + 1;
    }
    if e < 9 {
      x := (1 + (m / 10 * 9 + m % 10 - 1) * 10 + e) % TWO_64;
    } else {
      x := (1 + (m - 1) * 10 + 9) % TWO_64;
    }
  }

  /** Wrapping before appending zeros does not change the wrapped result. */
  lemma {:induction false} ScaleWraps(n: nat, e: nat)
    ensures Scale(n % TWO_64, e) % TWO_64 == Scale(n, e) % TWO_64
    decreases e
  {
    if e > 0 {
      ScaleWraps(n % TWO_64 * 10, e - 1);
      ScaleWraps(n * 10, e - 1);
      TenWraps(n);
    }
  }

  lemma TenWraps(n: nat)
    ensures n % TWO_64 * 10 % TWO_64 == n * 10 % TWO_64
  {
    DivMod(n, TWO_64);
    var q, r := Quo(n, TWO_64), Rem(n, TWO_64);
    ModAdd(10 * r, 10 * q, TWO_64);
  }

  method DecompressAmount(x: nat) returns (n: nat)
    requires x < TWO_64
    ensures n == Decompressed(x) % TWO_64
  {
    if x == 0 {
      return 0;
    }
    var e := (x - 1) % 10;
    var y := (x - 1) / 10;
    if e < 9 {
      n := y / 9 * 10 + (y % 9 + 1);
    } else {
      n := y + 1;
    }
    while e > 0
      invariant n < TWO_64 && 0 <= e
      invariant Scale(n, e) % TWO_64 == Decompressed(x) % TWO_64
    {
      ScaleWraps(n * 10, e - 1);
      n := n * 10 % TWO_64;
      e := e - 1;
    }
  }

  // ------------------------------------------------------------------ scripts

  const OP_RETURN: Byte := 0x6a
  const OP_DUP: Byte := 0x76
  const OP_EQUAL: Byte := 0x87
  const OP_EQUALVERIFY: Byte := 0x88
  const OP_HASH160: Byte := 0xa9
  const OP_CHECKSIG: Byte := 0xac
  const MAX_SCRIPT_SIZE := 10000
  const SPECIAL_SCRIPTS := 6

  /** The two operations on public keys that the compressor uses. */
  datatype Curve = Curve(isFullyValid: Bytes -> bool, decompress: Bytes -> Option<Bytes>)

  function Squeeze(key: Bytes): Bytes
    requires |key| == 65
  {
    [2 + key[64] % 2] + key[1..33]
  }

  /** Decompressing a key undoes compressing a valid one, and yields only valid ones. */
  ghost predicate Inverts(c: Curve) {
    && (forall k: Bytes | |k| == 65 && k[0] == 4 && c.isFullyValid(k) :: c.decompress(Squeeze(k)) == Some(k))
    && (forall k: Bytes | |k| == 33 && c.decompress(k).Some? ::
          var key := c.decompress(k).value;
          |key| == 65 && key[0] == 4 && c.isFullyValid(key) && Squeeze(key) == k)
  }

  predicate IsToKeyID(s: Bytes) {
    && |s| == 25 && s[0] == OP_DUP && s[1] == OP_HASH160 && s[2] == 20
    && s[23] == OP_EQUALVERIFY && s[24] == OP_CHECKSIG
  }

  predicate IsToScriptID(s: Bytes) {
    |s| == 23 && s[0] == OP_HASH160 && s[1] == 20 && s[22] == OP_EQUAL
  }

  predicate IsToShortKey(s: Bytes) {
    |s| == 35 && s[0] == 33 && s[34] == OP_CHECKSIG && (s[1] == 2 || s[1] == 3)
  }

  predicate IsToLongKey(c: Curve, s: Bytes) {
    |s| == 67 && s[0] == 65 && s[66] == OP_CHECKSIG && s[1] == 4 && c.isFullyValid(s[1..66])
  }

  function Compress(c: Curve, s: Bytes): Option<Bytes> {
    if IsToKeyID(s) then Some([0] + s[3..23])
    else if IsToScriptID(s) then Some([1] + s[2..22])
    else if IsToShortKey(s) then Some([s[1]] + s[2..34])
    else if IsToLongKey(c, s) then Some([4 + s[65] % 2] + s[2..34])
    else None
  }

  function GetSpecialSize(nSize: nat): nat {
    if nSize <= 1 then 20 else if nSize <= 5 then 32 else 0
  }

  function Decompress(c: Curve, nSize: nat, data: Bytes): Option<Bytes>
    requires nSize < SPECIAL_SCRIPTS && |data| == GetSpecialSize(nSize)
  {
    if nSize == 0 then Some([OP_DUP, OP_HASH160, 20] + data + [OP_EQUALVERIFY, OP_CHECKSIG])
    else if nSize == 1 then Some([OP_HASH160, 20] + data + [OP_EQUAL])
    else if nSize <= 3 then Some([33, nSize] + data + [OP_CHECKSIG])
    else
      var key := c.decompress([nSize - 2] + data);
      if key.None? then None else Some([65] + key.value + [OP_CHECKSIG])
  }

  /** A compressed script names its own kind and length and decompresses to the script. */
  lemma DecompressCompress(c: Curve, s: Bytes)
    requires Inverts(c) && Compress(c, s).Some?
    ensures var out := Compress(c, s).value;
            && out[0] < SPECIAL_SCRIPTS && |out| == 1 + GetSpecialSize(out[0])
            && Decompress(c, out[0], out[1..]) == Some(s)
  {
    var data := Compress(c, s).value[1..];
    if IsToKeyID(s) {
      assert s == [OP_DUP, OP_HASH160, 20] + data + [OP_EQUALVERIFY, OP_CHECKSIG];
    } else if IsToScriptID(s) {
      assert s == [OP_HASH160, 20] + data + [OP_EQUAL];
    } else if IsToShortKey(s) {
      assert s == [33, s[1]] + data + [OP_CHECKSIG];
    } else {
      var key := s[1..66];
      assert Squeeze(key) == [2 + s[65] % 2] + data;
      assert s == [65] + key + [OP_CHECKSIG];
    }
  }

  lemma Expanded(c: Curve, k: Bytes) returns (key: Bytes)
    requires Inverts(c) && |k| == 33 && c.decompress(k).Some?
    ensures c.decompress(k) == Some(key) && |key| == 65 && key[0] == 4 && c.isFullyValid(key) && Squeeze(key) == k
  {
    key := c.decompress(k).value;
  }

  /** Only compressing gives what decompresses to a script, so no script has two short forms. */
  lemma CompressDecompress(c: Curve, nSize: nat, data: Bytes)
    requires Inverts(c) && nSize < SPECIAL_SCRIPTS && |data| == GetSpecialSize(nSize)
    requires Decompress(c, nSize, data).Some?
    ensures Compress(c, Decompress(c, nSize, data).value) == Some([nSize] + data)
  {
    hide Inverts;
    var s := Decompress(c, nSize, data).value;
    if nSize == 0 {
      assert s[3..23] == data;
    } else if nSize == 1 {
      assert s[2..22] == data;
    } else if nSize <= 3 {
      assert s[2..34] == data;
    } else {
      var key := Expanded(c, [nSize - 2] + data);
      assert s[1..66] == key;
      assert s[2..34] == key[1..33] == Squeeze(key)[1..] == data;
    }
  }

  /** The documented short forms: a key hash, a script hash, a short key and a long key with its parity. */
  lemma ShortForms(c: Curve, hash: Bytes, x: Bytes, key: Bytes)
    requires |hash| == 20 && |x| == 32 && |key| == 65 && key[0] == 4 && c.isFullyValid(key)
    ensures Compress(c, [0x76, 0xa9, 20] + hash + [0x88, 0xac]) == Some([0] + hash)
    ensures Compress(c, [0xa9, 20] + hash + [0x87]) == Some([1] + hash)
    ensures Compress(c, [33, 2] + x + [0xac]) == Some([2] + x)
    ensures Compress(c, [33, 3] + x + [0xac]) == Some([3] + x)
    ensures Compress(c, [65] + key + [0xac]) == Some([if key[64] % 2 == 0 then 4 else 5] + key[1..33])
  {
    var toKey, toScript := [0x76, 0xa9, 20] + hash + [0x88, 0xac], [0xa9, 20] + hash + [0x87];
    assert toKey[3..23] == hash && toScript[2..22] == hash;
    var even, odd := [33, 2] + x + [0xac], [33, 3] + x + [0xac];
    assert even[2..34] == x && odd[2..34] == x;
    var long := [65] + key + [0xac];
    assert long[1..66] == key && long[2..34] == key[1..33];
  }

  // ---------------------------------------------------------------- streams

  function ScriptBytes(c: Curve, s: Bytes): Bytes {
    var out := Compress(c, s);
    if out.Some? then out.value else Encode((|s| + SPECIAL_SCRIPTS) % TWO_32) + s
  }

  /** The next n bytes. */
  function Take(s: Bytes, n: nat): Read<Bytes> {
    if |s| < n then End else Got(s[..n], s[n..])
  }

  /** Reads a script into an empty one; overly long scripts are skipped and become a lone OP_RETURN. */
  function ReadScript(c: Curve, s: Bytes): Read<Bytes> {
    var head := Decode(s, TWO_32);
    if head.End? then End
    else if head.value < SPECIAL_SCRIPTS then
      var data := Take(head.rest, GetSpecialSize(head.value));
      if data.End? then End
      else
        var script := Decompress(c, head.value, data.value);
        Got(if script.Some? then script.value else [], data.rest)
    else
      var n := head.value - SPECIAL_SCRIPTS;
      if n <= MAX_SCRIPT_SIZE then Take(head.rest, n)
      else if n >= TWO_32 / 2 || |head.rest| < n then End
      else Got([OP_RETURN], head.rest[n..])
  }

  lemma TakeFront(s: Bytes, t: Bytes)
    ensures Take(s + t, |s|) == Got(s, t)
  {
    assert (s + t)[..|s|] == s && (s + t)[|s|..] == t;
  }

  /** Exactly the scripts that are not overly long come back; the rest are replaced, and their bytes skipped. */
  lemma ReadScriptBytes(c: Curve, s: Bytes, t: Bytes)
    requires Inverts(c) && |s| < TWO_32 / 2
    ensures ReadScript(c, ScriptBytes(c, s) + t) == Got(if |s| <= MAX_SCRIPT_SIZE then s else [OP_RETURN], t)
  {
    hide Digits, ReadOn, Compress, Decompress, Inverts;
    var out := Compress(c, s);
    if out.Some? {
      ShortScript(c, s, t);
    } else {
      var n := |s| + SPECIAL_SCRIPTS;
      assert ScriptBytes(c, s) + t == Encode(n) + (s + t);
      DecodeEncode(n, s + t, TWO_32);
      TakeFront(s, t);
    }
  }

  lemma ShortScript(c: Curve, s: Bytes, t: Bytes)
    requires Inverts(c) && Compress(c, s).Some?
    ensures ReadScript(c, ScriptBytes(c, s) + t) == Got(s, t) && |s| <= MAX_SCRIPT_SIZE
  {
    hide Digits, ReadOn, Decompress, Inverts;
    var out := Compress(c, s).value;
    DecompressCompress(c, s);
    OneDigit(out[0]);
    assert out + t == Encode(out[0]) + (out[1..] + t);
    DecodeEncode(out[0], out[1..] + t, TWO_32);
    TakeFront(out[1..], t);
  }

  lemma OneDigit(b: Byte)
    requires b <= 127
    ensures Encode(b) == [b]
  {
  }
}
