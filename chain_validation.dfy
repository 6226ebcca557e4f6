/**
 * Chain validation: every block after the first must name the digest of its
 * predecessor and pass the difficulty predicate. The first block's proof is
 * never inspected.
 */
module ChainValidation {
  import opened Ledger
  import opened ProofOfWork

  /** Block `i` is linked to block `i - 1` and passes the difficulty predicate. */
  predicate LinkOk(hash: Hasher, difficulty: int, c: seq<Block>, i: int)
    requires 1 <= i < |c|
  {
    c[i].previousHash == hash(c[i - 1]) && MeetsDifficulty(hash, difficulty, c[i])
  }

  /** The intended meaning of validate_chain, stated over all positions at once. */
  predicate ValidChain(hash: Hasher, difficulty: int, c: seq<Block>)
  {
    forall i :: 1 <= i < |c| ==> LinkOk(hash, difficulty, c, i)
  }

  /**
   * The position at which a forward scan starting at `from` stops: the first
   * failing position, or None when every position from there on passes.
   */
  function FirstViolationFrom(hash: Hasher, difficulty: int, c: seq<Block>, from: nat): (r: Option<nat>)
    requires from >= 1
    ensures r.Some? ==> from <= r.value < |c| && !LinkOk(hash, difficulty, c, r.value)
    ensures r.Some? ==> forall j :: from <= j < r.value ==> LinkOk(hash, difficulty, c, j)
    ensures r.None? ==> forall j :: from <= j < |c| ==> LinkOk(hash, difficulty, c, j)
    decreases |c| - from
  {
    if from >= |c| then None
    else if !LinkOk(hash, difficulty, c, from) then Some(from)
    else FirstViolationFrom(hash, difficulty, c, from + 1)
  }

  /** Where validate_chain returns false, if it does. */
  function FirstViolation(hash: Hasher, difficulty: int, c: seq<Block>): (r: Option<nat>)
    ensures r.None? <==> ValidChain(hash, difficulty, c)
    ensures r.Some? ==> 1 <= r.value < |c| && !LinkOk(hash, difficulty, c, r.value) &&
                        forall j :: 1 <= j < r.value ==> LinkOk(hash, difficulty, c, j)
  {
    FirstViolationFrom(hash, difficulty, c, 1)
  }

  /**
   * validate_chain, as its comments describe it: a single forward pass over
   * the chain it is given, returning false at the first failing position.
   */
  method ValidateChain(hash: Hasher, difficulty: int, c: seq<Block>) returns (valid: bool)
    ensures valid == ValidChain(hash, difficulty, c)
  {
    var i := 1;
    var chainLen := |c|;
    if chainLen == 1 {
      return true;
    }
    while i < chainLen
      invariant 1 <= i && (chainLen >= 1 ==> i <= chainLen)
      invariant forall j :: 1 <= j < i && j < |c| ==> LinkOk(hash, difficulty, c, j)
    {
      var blockHash := hash(c[i - 1]);
      if c[i].previousHash != blockHash {
        assert ValidChain(hash, difficulty, c) ==> LinkOk(hash, difficulty, c, i);
        return false;
      }
      var ok := CheckProof(hash, difficulty, c[i]);
      if !ok {
        assert ValidChain(hash, difficulty, c) ==> LinkOk(hash, difficulty, c, i);
        return false;
      }
      i := i + 1;
    }
    return true;
  }

  /**
   * Changing a block of a valid chain so that its digest changes (keeping its
   * own link) is detected no earlier than that block and no later than its
   * successor: at the block itself when its proof no longer passes (the first
   * block's proof is never checked), otherwise at the successor, whose link breaks.
   */
  lemma {:induction false} TamperDetected(hash: Hasher, difficulty: int, c: seq<Block>, k: nat, t: Block)
    requires ValidChain(hash, difficulty, c)
    requires k + 1 < |c|
    requires t.previousHash == c[k].previousHash
    requires hash(t) != hash(c[k])
    ensures FirstViolation(hash, difficulty, c[k := t]) ==
      if k >= 1 && !MeetsDifficulty(hash, difficulty, t) then Some(k) else Some(k + 1)
  {
    var c' := c[k := t];
    assert forall j :: 1 <= j < k ==> LinkOk(hash, difficulty, c', j) by {
      forall j | 1 <= j < k ensures LinkOk(hash, difficulty, c', j) {
        assert LinkOk(hash, difficulty, c, j);
      }
    }
    if k >= 1 {
      assert LinkOk(hash, difficulty, c, k);
    }
    if k >= 1 && !MeetsDifficulty(hash, difficulty, t) {
      assert !LinkOk(hash, difficulty, c', k);
    } else {
      assert k >= 1 ==> LinkOk(hash, difficulty, c', k);
      assert LinkOk(hash, difficulty, c, k + 1);
      assert c'[k + 1] == c[k + 1] && c'[k] == t;
      assert !LinkOk(hash, difficulty, c', k + 1);
    }
  }

  /**
   * The tip has no successor to carry its digest, so a changed tip (keeping its
   * own link) is protected only by its own proof: it is caught at its position
   * when that proof fails, and not at all when it still passes.
   */
  lemma TamperedTipDetectedOnlyByProof(hash: Hasher, difficulty: int, c: seq<Block>, t: Block)
    requires ValidChain(hash, difficulty, c)
    requires |c| >= 2
    requires t.previousHash == c[|c| - 1].previousHash
    ensures FirstViolation(hash, difficulty, c[|c| - 1 := t]) ==
      if MeetsDifficulty(hash, difficulty, t) then None else Some(|c| - 1)
  {
    var k := |c| - 1;
    var c' := c[k := t];
    forall j | 1 <= j < k ensures LinkOk(hash, difficulty, c', j) {
      assert LinkOk(hash, difficulty, c, j);
    }
    assert LinkOk(hash, difficulty, c, k);
    assert c'[k - 1] == c[k - 1] && c'[k] == t;
    if MeetsDifficulty(hash, difficulty, t) {
      assert LinkOk(hash, difficulty, c', k);
      assert ValidChain(hash, difficulty, c');
    } else {
      assert !LinkOk(hash, difficulty, c', k);
    }
  }

  /**
   * validate_chain as written: it reads the node's own chain instead of its
   * argument, and its loop never advances `i`. A chain of at most one block
   * gives true; otherwise the checks of position 1 are repeated forever, so a
   * failure there gives false and success never returns (None).
   */
  function ValidateChainAsWritten(hash: Hasher, difficulty: int, local: seq<Block>, candidate: seq<Block>): (r: Option<bool>)
    ensures r == Some(true) <==> |local| <= 1
    ensures r == Some(false) <==> |local| >= 2 && !LinkOk(hash, difficulty, local, 1)
    ensures r == None <==> |local| >= 2 && LinkOk(hash, difficulty, local, 1)
  {
    if |local| <= 1 then Some(true)
    else if local[1].previousHash != hash(local[0]) then Some(false)
    else if !MeetsDifficulty(hash, difficulty, local[1]) then Some(false)
    else None
  }

  /** The answer as written never depends on the candidate chain. */
  lemma AsWrittenIgnoresCandidate(hash: Hasher, difficulty: int, local: seq<Block>, c1: seq<Block>, c2: seq<Block>)
    ensures ValidateChainAsWritten(hash, difficulty, local, c1) == ValidateChainAsWritten(hash, difficulty, local, c2)
  {
  }

  /**
   * A node holding only its genesis block accepts, as written, any longer
   * candidate, including one whose second block is not linked to its first.
   */
  lemma AsWrittenAcceptsUnlinkedCandidate(hash: Hasher, difficulty: int, genesis: Block, candidate: seq<Block>)
    requires |candidate| >= 2 && candidate[1].previousHash != hash(candidate[0])
    ensures ValidateChainAsWritten(hash, difficulty, [genesis], candidate) == Some(true)
    ensures |candidate| > |[genesis]| && !ValidChain(hash, difficulty, candidate)
  {
    assert !LinkOk(hash, difficulty, candidate, 1);
  }
}
