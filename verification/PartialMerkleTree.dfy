/**
 * The class CPartialMerkleTree of src/merkleblock.h: recursive methods that
 * append to or walk through the bit and hash vectors, proved against the
 * tree-shaped specification of module MerkleTree.
 */
module PartialMerkleTree {
  import opened Arithmetic
  import opened Common
  import opened MerkleTree
  import MerkleRoot

  /** CPartialMerkleTree::CalcHash, by height and position. */
  function CalcHashAt(H: PairHash, txids: seq<Digest>, h: nat, p: nat): (r: Digest)
    requires p < Width(|txids|, h)
    ensures r == CalcHash(H, txids, Shape(|txids|, h, p))
    decreases h
  {
    if h == 0 then txids[p]
    else
      var left := CalcHashAt(H, txids, h - 1, 2 * p);
      WidthClosedForm(|txids|, h - 1);
      var right := if 2 * p + 1 < CalcTreeWidth(|txids|, h - 1) then CalcHashAt(H, txids, h - 1, 2 * p + 1) else left;
      H(left, right)
  }

  // ---------------------------------------------------------- bits and bytes

  /** The bytes hold the first k bits, and zeros after them. */
  ghost predicate Packed(bytes: Bytes, bits: seq<bool>, k: nat) {
    forall p: nat | p < 8 * |bytes| :: BitOf(bytes[p / 8], p % 8) <==> p < k && p < |bits| && bits[p]
  }

  method PackBits(bits: seq<bool>) returns (bytes: Bytes)
    ensures |bytes| == (|bits| + 7) / 8
    ensures Packed(bytes, bits, |bits|)
  {
    bytes := seq((|bits| + 7) / 8, _ => 0);
    forall p: nat | p < 8 * |bytes| ensures !BitOf(bytes[p / 8], p % 8) {
      BitOfZero(p % 8);
    }
    for p := 0 to |bits|
      invariant |bytes| == (|bits| + 7) / 8
      invariant Packed(bytes, bits, p)
    {
      if bits[p] {
        ghost var was := bytes;
        assert !BitOf(was[p / 8], p % 8);
        AddBitBelow(was[p / 8], p % 8, 8);
        assert Pow2(8) == 256;
        bytes := bytes[p / 8 := bytes[p / 8] + Pow2(p % 8)];  // |=, of a bit that is clear
        forall q: nat | q < 8 * |bytes|
          ensures BitOf(bytes[q / 8], q % 8) <==> q < p + 1 && bits[q]
        {
          AddBit(was[p / 8], p % 8, q % 8);
          assert BitOf(was[q / 8], q % 8) <==> q < p && bits[q];
        }
      }
    }
  }

  method UnpackBits(bytes: Bytes) returns (bits: seq<bool>)
    ensures |bits| == 8 * |bytes|
    ensures forall p: nat | p < |bits| :: bits[p] <==> BitOf(bytes[p / 8], p % 8)
  {
    bits := [];
    for p := 0 to 8 * |bytes|
      invariant |bits| == p
      invariant forall q: nat | q < p :: bits[q] <==> BitOf(bytes[q / 8], q % 8)
    {
      bits := bits + [BitOf(bytes[p / 8], p % 8)];
    }
  }

  /** Packing and unpacking gives the bits back, padded to whole bytes. */
  lemma PackThenUnpack(bits: seq<bool>, bytes: Bytes, read: seq<bool>)
    requires |bytes| == (|bits| + 7) / 8 && Packed(bytes, bits, |bits|)
    requires |read| == 8 * |bytes|
    requires forall p: nat | p < |read| :: read[p] <==> BitOf(bytes[p / 8], p % 8)
    ensures Padded(bits, read)
  {
    forall p: nat | p < |bits| ensures read[p] == bits[p] {
      assert BitOf(bytes[p / 8], p % 8) <==> bits[p];
    }
  }

  // -------------------------------------------------------------- the class

  function Txids(ms: seq<Match>): seq<Digest> {
    seq(|ms|, i requires 0 <= i < |ms| => ms[i].txid)
  }

  function Indices(ms: seq<Match>): seq<nat> {
    seq(|ms|, i requires 0 <= i < |ms| => ms[i].index)
  }

  lemma Listed(ms: seq<Match>, m: Match)
    ensures Txids(ms + [m]) == Txids(ms) + [m.txid] && Indices(ms + [m]) == Indices(ms) + [m.index]
  {
  }

  /** One step of what a node stores. */
  lemma BuildOnce(H: PairHash, txids: seq<Digest>, mask: seq<bool>, t: Tree)
    requires |txids| == |mask| && Fits(t, |mask|)
    ensures Stops(mask, t) ==>
              BuildBits(mask, t) == [Flag(mask, t)] && BuildHashes(H, txids, mask, t) == [CalcHash(H, txids, t)]
    ensures !Stops(mask, t) ==>
              && BuildBits(mask, t) == [Flag(mask, t)] + (BuildBits(mask, LeftOf(t)) + RightBits(mask, t))
              && BuildHashes(H, txids, mask, t) ==
                 BuildHashes(H, txids, mask, LeftOf(t)) + RightHashes(H, txids, mask, t)
  {
    hide Flag, CalcHash;
  }

  /** At a leaf or at a node without matches below the extraction takes the next hash, if there is one. */
  lemma {:induction false} ExtractHalts(H: PairHash, f: Proof, n: nat, height: nat, pos: nat, c: Cursor)
    requires pos < Width(n, height) && (c.nBits >= |f.bits| || height == 0 || !f.bits[c.nBits])
    ensures Extract(H, f, Shape(n, height, pos), c) ==
      if c.nBits >= |f.bits| then (NULL, c.(bad := true))
      else if c.nHash >= |f.hashes| then (NULL, c.(nBits := c.nBits + 1, bad := true))
      else
        var hash := f.hashes[c.nHash];
        (hash, Cursor(c.nBits + 1, c.nHash + 1,
                      if f.bits[c.nBits] then c.matches + [Match(hash, pos)] else c.matches, c.bad))
  {
    hide Width;
  }

  /** Below a node that is the parent of a match the extraction goes left, and right if there is a right child. */
  lemma {:induction false} ExtractDown(H: PairHash, f: Proof, n: nat, height: nat, pos: nat, c: Cursor)
    requires 0 < height && pos < Width(n, height) && c.nBits < |f.bits| && f.bits[c.nBits]
    ensures pos * 2 < Width(n, height - 1)
    ensures var (left, c2) := Extract(H, f, Shape(n, height - 1, pos * 2), c.(nBits := c.nBits + 1));
      Extract(H, f, Shape(n, height, pos), c) ==
      if pos * 2 + 1 < Width(n, height - 1) then
        var (right, c3) := Extract(H, f, Shape(n, height - 1, pos * 2 + 1), c2);
        (H(left, right), if right == left then c3.(bad := true) else c3)
      else (H(left, left), c2)
  {
  }

  class CPartialMerkleTree {
    const H: PairHash
    var nTransactions: nat
    var vBits: seq<bool>
    var vHash: seq<Digest>
    var fBad: bool

    ghost function Content(): Proof
      reads this
    {
      Proof(nTransactions, vBits, vHash)
    }

    method Height() returns (h: nat)
      requires nTransactions > 0
      ensures IsHeight(nTransactions, h)
    {
      h := 0;
      WidthClosedForm(nTransactions, 0);
      while CalcTreeWidth(nTransactions, h) > 1
        invariant CalcTreeWidth(nTransactions, h) == Width(nTransactions, h) > 0
        invariant forall k: nat | k < h :: Width(nTransactions, k) > 1
        decreases Width(nTransactions, h)
      {
        h := h + 1;
        WidthClosedForm(nTransactions, h);
      }
    }

    method TraverseAndBuild(height: nat, pos: nat, vTxid: seq<Digest>, vMatch: seq<bool>)
      requires |vTxid| == |vMatch| == nTransactions && pos < Width(nTransactions, height)
      modifies `vBits, `vHash
      ensures vBits == old(vBits) + BuildBits(vMatch, Shape(nTransactions, height, pos))
      ensures vHash == old(vHash) + BuildHashes(H, vTxid, vMatch, Shape(nTransactions, height, pos))
      decreases height
    {
      hide CalcTreeWidth, Flag, CalcHash, CalcHashAt, Fits, BuildBits, BuildHashes;
      ghost var t := Shape(nTransactions, height, pos);
      BuildOnce(H, vTxid, vMatch, t);
      var fParentOfMatch := ParentOfMatch(height, pos, vMatch);
      vBits := vBits + [fParentOfMatch];
      if height == 0 || !fParentOfMatch {
        vHash := vHash + [CalcHashAt(H, vTxid, height, pos)];
      } else {
        WidthClosedForm(nTransactions, height - 1);
        TraverseAndBuild(height - 1, pos * 2, vTxid, vMatch);
        if pos * 2 + 1 < CalcTreeWidth(nTransactions, height - 1) {
          TraverseAndBuild(height - 1, pos * 2 + 1, vTxid, vMatch);
        }
      }
    }

    /** The loop over the leaves below a node. */
    method ParentOfMatch(height: nat, pos: nat, vMatch: seq<bool>) returns (any: bool)
      requires |vMatch| == nTransactions && pos < Width(nTransactions, height)
      ensures any == Flag(vMatch, Shape(nTransactions, height, pos))
    {
      hide Width, Pow2, Shape, Flag, Ordered;
      var from, to := pos * Pow2(height), (pos + 1) * Pow2(height);
      ShapeOrdered(nTransactions, height, pos);
      FlagIsAnyMatch(vMatch, Shape(nTransactions, height, pos), height);
      any := false;
      var p := from;
      while p < to && p < nTransactions
        invariant from <= p <= Min(to, nTransactions)
        invariant any <==> AnyMatch(vMatch, from, p)
      {
        any := any || vMatch[p];
        p := p + 1;
      }
    }

    constructor Build(H: PairHash, vTxid: seq<Digest>, vMatch: seq<bool>)
      requires 0 < |vTxid| == |vMatch|
      ensures this.H == H && nTransactions == |vTxid| && !fBad
      ensures exists h: nat :: IsHeight(|vTxid|, h) && vBits == BuildBits(vMatch, Root(|vTxid|, h)) &&
                               vHash == BuildHashes(H, vTxid, vMatch, Root(|vTxid|, h))
    {
      this.H, nTransactions, vBits, vHash, fBad := H, |vTxid|, [], [], false;
      new;
      var nHeight := Height();
      TraverseAndBuild(nHeight, 0, vTxid, vMatch);
    }

    /** Reading from a stream: the flag for bad data is cleared. */
    constructor Read(H: PairHash, nTransactions: nat, vHash: seq<Digest>, vBytes: Bytes)
      ensures this.H == H && this.nTransactions == nTransactions && this.vHash == vHash && !fBad
      ensures |vBits| == 8 * |vBytes|
      ensures forall p: nat | p < |vBits| :: vBits[p] <==> BitOf(vBytes[p / 8], p % 8)
    {
      var bits := UnpackBits(vBytes);
      this.H, this.nTransactions, this.vHash, this.vBits, fBad := H, nTransactions, vHash, bits, false;
    }

    method TraverseAndExtract(height: nat, pos: nat, bitsUsed: nat, hashUsed: nat,
                              matchIn: seq<Digest>, indexIn: seq<nat>, ghost ms: seq<Match>)
      returns (hash: Digest, nBitsUsed: nat, nHashUsed: nat, vMatch: seq<Digest>, vnIndex: seq<nat>,
               ghost out: seq<Match>)
      requires pos < Width(nTransactions, height)
      requires matchIn == Txids(ms) && indexIn == Indices(ms)
      modifies `fBad
      ensures vMatch == Txids(out) && vnIndex == Indices(out)
      ensures Extract(H, Content(), Shape(nTransactions, height, pos), Cursor(bitsUsed, hashUsed, ms, old(fBad))) ==
              (hash, Cursor(nBitsUsed, nHashUsed, out, fBad))
      decreases height, 1
    {
      if bitsUsed < |vBits| && 0 < height && vBits[bitsUsed] {
        hash, nBitsUsed, nHashUsed, vMatch, vnIndex, out :=
          ExtractChildren(height, pos, bitsUsed + 1, hashUsed, matchIn, indexIn, ms);
        return;
      }
      ExtractHalts(H, Content(), nTransactions, height, pos, Cursor(bitsUsed, hashUsed, ms, fBad));
      hide Fits, Txids, Indices, Extract, Shape, Width;
      nBitsUsed, nHashUsed, vMatch, vnIndex, out := bitsUsed, hashUsed, matchIn, indexIn, ms;
      if nBitsUsed >= |vBits| {
        fBad := true;
        hash := NULL;
        return;
      }
      var fParentOfMatch := vBits[nBitsUsed];
      nBitsUsed := nBitsUsed + 1;
      if nHashUsed >= |vHash| {
        fBad := true;
        hash := NULL;
        return;
      }
      hash := vHash[nHashUsed];
      nHashUsed := nHashUsed + 1;
      if height == 0 && fParentOfMatch {
        Listed(out, Match(hash, pos));
        vMatch, vnIndex, out := vMatch + [hash], vnIndex + [pos], out + [Match(hash, pos)];
      }
    }

    /** The branch of TraverseAndExtract for a parent of a match, whose bit has been read. */
    method ExtractChildren(height: nat, pos: nat, bitsUsed: nat, hashUsed: nat,
                           matchIn: seq<Digest>, indexIn: seq<nat>, ghost ms: seq<Match>)
      returns (hash: Digest, nBitsUsed: nat, nHashUsed: nat, vMatch: seq<Digest>, vnIndex: seq<nat>,
               ghost out: seq<Match>)
      requires 0 < height && pos < Width(nTransactions, height)
      requires 0 < bitsUsed <= |vBits| && vBits[bitsUsed - 1]
      requires matchIn == Txids(ms) && indexIn == Indices(ms)
      modifies `fBad
      ensures vMatch == Txids(out) && vnIndex == Indices(out)
      ensures Extract(H, Content(), Shape(nTransactions, height, pos),
                      Cursor(bitsUsed - 1, hashUsed, ms, old(fBad))) == (hash, Cursor(nBitsUsed, nHashUsed, out, fBad))
      decreases height, 0
    {
      ExtractDown(H, Content(), nTransactions, height, pos, Cursor(bitsUsed - 1, hashUsed, ms, fBad));
      WidthClosedForm(nTransactions, height - 1);
      hide CalcTreeWidth, Fits, Txids, Indices, Extract, Shape, Width;
      var left, right;
      left, nBitsUsed, nHashUsed, vMatch, vnIndex, out :=
        TraverseAndExtract(height - 1, pos * 2, bitsUsed, hashUsed, matchIn, indexIn, ms);
      if pos * 2 + 1 < CalcTreeWidth(nTransactions, height - 1) {
        right, nBitsUsed, nHashUsed, vMatch, vnIndex, out :=
          TraverseAndExtract(height - 1, pos * 2 + 1, nBitsUsed, nHashUsed, vMatch, vnIndex, out);
        if right == left {
          fBad := true;
        }
      } else {
        right := left;
      }
      hash := H(left, right);
    }

    /** The index list is expected to be empty on entry, as every caller passes it. */
    method ExtractMatches() returns (root: Digest, vMatch: seq<Digest>, vnIndex: seq<nat>, ghost h: nat)
      modifies `fBad
      ensures Plausible(Content()) ==> IsHeight(nTransactions, h)
      ensures var (r, ms) := MerkleTree.ExtractMatches(H, Content(), old(fBad), h);
        root == r && vMatch == Txids(ms) && vnIndex == Indices(ms)
    {
      root, vMatch, vnIndex, h := NULL, [], [], 0;
      if nTransactions == 0 {
        return;
      }
      if nTransactions > MAX_TRANSACTIONS || |vHash| > nTransactions || |vBits| < |vHash| {
        return;
      }
      var nHeight := Height();
      h := nHeight;
      var hash, nBitsUsed, nHashUsed;
      ghost var ms;
      hash, nBitsUsed, nHashUsed, vMatch, vnIndex, ms := TraverseAndExtract(nHeight, 0, 0, 0, [], [], []);
      if fBad || (nBitsUsed + 7) / 8 != (|vBits| + 7) / 8 || nHashUsed != |vHash| {
        return;
      }
      root := hash;
    }
  }

  // ------------------------------------------------------ the whole exchange

  lemma BuiltIsPlausible(H: PairHash, txids: seq<Digest>, mask: seq<bool>, h: nat, read: seq<bool>)
    requires |txids| == |mask| <= MAX_TRANSACTIONS && IsHeight(|txids|, h)
    requires Padded(BuildBits(mask, Root(|txids|, h)), read)
    ensures Plausible(Proof(|txids|, read, BuildHashes(H, txids, mask, Root(|txids|, h))))
  {
    hide IsHeight, Root, BuildBits, BuildHashes, Below, Singles;
    RootOrdered(|txids|, h);
    HashCount(H, txids, mask, Root(|txids|, h), h);
    BitCount(H, txids, mask, Root(|txids|, h));
  }

  /**
   * One side builds a tree and sends its bits as bytes, the other side reads
   * and extracts: it gets the root of the whole block, and the marked
   * transactions at their positions and no others.
   */
  method Exchange(H: PairHash, vTxid: seq<Digest>, vMarked: seq<bool>)
    returns (root: Digest, vMatch: seq<Digest>, vnIndex: seq<nat>, ghost h: nat, ghost ms: seq<Match>)
    requires CollisionFree(H, vTxid) && Distinct(vTxid) && 0 < |vTxid| == |vMarked| <= MAX_TRANSACTIONS
    ensures IsHeight(|vTxid|, h) && root == CalcHash(H, vTxid, Root(|vTxid|, h))
    ensures vMatch == Txids(ms) && vnIndex == Indices(ms) && Exactly(ms, vTxid, vMarked, 0, |vTxid|)
  {
    hide CollisionFree, Distinct, Exactly, CalcHash, BuildBits, BuildHashes, Below, Root, IsHeight, BitOf;
    var sender := new CPartialMerkleTree.Build(H, vTxid, vMarked);
    ghost var g: nat :| IsHeight(|vTxid|, g) && sender.vBits == BuildBits(vMarked, Root(|vTxid|, g)) &&
                        sender.vHash == BuildHashes(H, vTxid, vMarked, Root(|vTxid|, g));
    var vBytes := PackBits(sender.vBits);
    var receiver := new CPartialMerkleTree.Read(H, sender.nTransactions, sender.vHash, vBytes);
    PackThenUnpack(sender.vBits, vBytes, receiver.vBits);
    BuildThenExtract(H, vTxid, vMarked, g, receiver.vBits);
    BuiltIsPlausible(H, vTxid, vMarked, g, receiver.vBits);
    ms := Below(vTxid, vMarked, Root(|vTxid|, g));
    root, vMatch, vnIndex, h := receiver.ExtractMatches();
    OneHeight(|vTxid|, g, h);
  }

  /** The root that the other side extracts is the one in the block's header. */
  method RootsAgree(H: PairHash, vTxid: seq<Digest>, vMarked: seq<bool>)
    returns (merkleRoot1: Digest, merkleRoot2: Digest, vMatch: seq<Digest>, ghost ms: seq<Match>)
    requires CollisionFree(H, vTxid) && Distinct(vTxid) && 0 < |vTxid| == |vMarked| <= MAX_TRANSACTIONS
    ensures merkleRoot1 == merkleRoot2
    ensures vMatch == Txids(ms) && Exactly(ms, vTxid, vMarked, 0, |vTxid|)
  {
    hide CollisionFree, Distinct, Exactly, CalcHash, Root, IsHeight;
    var mutated, vnIndex;
    ghost var g, h;
    merkleRoot1, mutated, g := MerkleRoot.ComputeMerkleRoot(H, vTxid);
    merkleRoot2, vMatch, vnIndex, h, ms := Exchange(H, vTxid, vMarked);
    OneHeight(|vTxid|, g, h);
  }
}
