/**
 * One transaction's unspent outputs (src/coins.h, class CCoins).
 */
module CoinsData {
  import opened Common

  datatype TxOut = TxOut(nValue: int, scriptPubKey: seq<Byte>)

  /** The value that CTxOut::SetNull gives an output. */
  const NULL_OUT := TxOut(-1, [])

  predicate IsNullOut(o: TxOut) {
    o.nValue == -1
  }

  datatype Coins = Coins(fCoinBase: bool, vout: seq<TxOut>, nHeight: int, nVersion: int)

  const EMPTY := Coins(false, [], 0, 0)

  predicate IsPruned(c: Coins) {
    forall i | 0 <= i < |c.vout| :: IsNullOut(c.vout[i])
  }

  /** Whether output n is there and unspent. */
  predicate Has(vout: seq<TxOut>, n: nat) {
    n < |vout| && !IsNullOut(vout[n])
  }

  predicate IsAvailable(c: Coins, n: nat) {
    Has(c.vout, n)
  }

  /** vout without the null outputs at its end */
  function Trim(vout: seq<TxOut>): (r: seq<TxOut>)
    ensures r <= vout
    ensures r != [] ==> !IsNullOut(r[|r| - 1])
    ensures forall i | |r| <= i < |vout| :: IsNullOut(vout[i])
  {
    if vout != [] && IsNullOut(vout[|vout| - 1]) then Trim(vout[..|vout| - 1]) else vout
  }

  function Cleanup(c: Coins): Coins {
    c.(vout := Trim(c.vout))
  }

  predicate IsClean(c: Coins) {
    c.vout == [] || !IsNullOut(c.vout[|c.vout| - 1])
  }

  /** What a reader may rely on: pruned coins are the same as no coins. */
  function Normal(c: Coins): Option<Coins> {
    if IsPruned(c) then None else Some(c)
  }

  lemma CleanupFacts(c: Coins)
    ensures IsClean(Cleanup(c))
    ensures IsPruned(Cleanup(c)) <==> IsPruned(c)
    ensures IsPruned(c) <==> Cleanup(c).vout == []
    ensures forall n: nat :: IsAvailable(Cleanup(c), n) <==> IsAvailable(c, n)
    ensures IsClean(c) ==> Cleanup(c) == c
  {
    var r := Trim(c.vout);
    if r != [] {
      assert r[|r| - 1] == c.vout[|r| - 1];
    }
  }

  /** The loop of CCoins::Cleanup. */
  method CleanupLoop(c: Coins) returns (r: Coins)
    ensures r == Cleanup(c)
  {
    var vout := c.vout;
    while |vout| > 0 && IsNullOut(vout[|vout| - 1])
      invariant vout <= c.vout
      invariant Trim(vout) == Trim(c.vout)
    {
      vout := vout[..|vout| - 1];
    }
    r := c.(vout := vout);
  }

  /** CCoins::Spend: null one output, then drop the null tail. */
  method Spend(c: Coins, nPos: nat) returns (r: Coins, ok: bool)
    ensures ok <==> IsAvailable(c, nPos)
    ensures !ok ==> r == c
    ensures forall n: nat :: IsAvailable(r, n) <==> IsAvailable(c, n) && !(ok && n == nPos)
    ensures forall n: nat | IsAvailable(r, n) :: IsAvailable(c, n) && r.vout[n] == c.vout[n]
    ensures ok ==> IsClean(r)
    ensures r == c.(vout := r.vout)
  {
    if nPos >= |c.vout| || IsNullOut(c.vout[nPos]) {
      return c, false;
    }
    var spent := c.(vout := c.vout[nPos := NULL_OUT]);
    r := CleanupLoop(spent);
    ok := true;
    CleanupFacts(spent);
  }
}
