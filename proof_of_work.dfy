/**
 * The difficulty predicate and the nonce search.
 *
 * A block passes when every character of the trailing window of its digest
 * is '0'. The window is the digest sliced from `-difficulty` with Python's
 * slicing rules, so a difficulty of 0, or one at least the digest's length,
 * selects the whole digest.
 */
module ProofOfWork {
  import opened Ledger

  /**
   * `s[start:]` with Python's rules: a negative start counts from the end,
   * and a start beyond either end is clamped to that end.
   */
  function SliceFrom(s: string, start: int): string
  {
    var k := if start < 0 then (if start + |s| < 0 then 0 else start + |s|)
             else (if start > |s| then |s| else start);
    s[k..]
  }

  /** The slice is always a suffix, of the length Python's clamping gives. */
  lemma SliceFromSuffix(s: string, start: int)
    ensures var r := SliceFrom(s, start);
            && |r| <= |s| && r == s[|s| - |r|..]
            && (start >= 0 ==> |r| == if start >= |s| then 0 else |s| - start)
            && (start < 0 ==> |r| == if -start >= |s| then |s| else -start)
  {
  }

  /** The characters that must all be '0': `digest[-difficulty:]`. */
  function ZeroWindow(digest: string, difficulty: int): string
  {
    SliceFrom(digest, -difficulty)
  }

  /**
   * The window is the whole digest when the difficulty is 0 (as `-0` is 0) or
   * at least the digest's length, and its last `difficulty` characters otherwise.
   */
  lemma ZeroWindowCases(digest: string, difficulty: int)
    ensures difficulty == 0 || difficulty >= |digest| ==> ZeroWindow(digest, difficulty) == digest
    ensures 0 < difficulty < |digest| ==> ZeroWindow(digest, difficulty) == digest[|digest| - difficulty..]
    ensures difficulty < 0 ==>
      ZeroWindow(digest, difficulty) == digest[if -difficulty > |digest| then |digest| else -difficulty..]
  {
  }

  /** Every character is '0'. */
  predicate AllZeros(s: string)
  {
    s == [] || (s[0] == '0' && AllZeros(s[1..]))
  }

  lemma {:induction false} AllZerosIff(s: string)
    ensures AllZeros(s) <==> forall j :: 0 <= j < |s| ==> s[j] == '0'
  {
    if s != [] {
      AllZerosIff(s[1..]);
      assert forall j :: 1 <= j < |s| ==> s[j] == s[1..][j - 1];
    }
  }

  /** The difficulty predicate, as a specification. */
  predicate MeetsDifficulty(hash: Hasher, difficulty: int, b: Block)
  {
    AllZeros(ZeroWindow(hash(b), difficulty))
  }

  /**
   * For a non-negative difficulty: the digest ends in `difficulty` zeros when
   * it is longer than that, and is all zeros otherwise (difficulty 0 included).
   */
  lemma MeetsDifficultyTrailingZeros(hash: Hasher, difficulty: int, b: Block)
    requires difficulty >= 0
    ensures 0 < difficulty < |hash(b)| ==>
      (MeetsDifficulty(hash, difficulty, b) <==>
       forall i :: |hash(b)| - difficulty <= i < |hash(b)| ==> hash(b)[i] == '0')
    ensures difficulty == 0 || difficulty >= |hash(b)| ==>
      (MeetsDifficulty(hash, difficulty, b) <==> forall i :: 0 <= i < |hash(b)| ==> hash(b)[i] == '0')
  {
    var h := hash(b);
    var w := ZeroWindow(h, difficulty);
    ZeroWindowCases(h, difficulty);
    AllZerosIff(w);
    if 0 < difficulty < |h| {
      assert forall j :: 0 <= j < |w| ==> w[j] == h[|h| - difficulty + j];
      if AllZeros(w) {
        forall i | |h| - difficulty <= i < |h| ensures h[i] == '0' {
          assert w[i - (|h| - difficulty)] == h[i];
        }
      }
    }
  }

  /** check_proof: scans the window and stops at the first character that is not '0'. */
  method CheckProof(hash: Hasher, difficulty: int, b: Block) returns (ok: bool)
    ensures ok == MeetsDifficulty(hash, difficulty, b)
  {
    var hashed := hash(b);
    var checkZeros := ZeroWindow(hashed, difficulty);
    var i := 0;
    while i < |checkZeros|
      invariant 0 <= i <= |checkZeros|
      invariant forall j :: 0 <= j < i ==> checkZeros[j] == '0'
    {
      if checkZeros[i] != '0' {
        AllZerosIff(checkZeros);
        return false;
      }
      i := i + 1;
    }
    AllZerosIff(checkZeros);
    return true;
  }

  /** The candidate block with proof `p` passes. */
  predicate Passes(hash: Hasher, difficulty: int, index: int, txs: seq<Transaction>, prevHash: string, p: nat)
  {
    MeetsDifficulty(hash, difficulty, Block(index, txs, p, prevHash))
  }

  /** `p` passes and every smaller non-negative guess fails. */
  predicate IsLeastProof(hash: Hasher, difficulty: int, index: int, txs: seq<Transaction>, prevHash: string, p: nat)
  {
    Passes(hash, difficulty, index, txs, prevHash, p) &&
    forall q: nat :: q < p ==> !Passes(hash, difficulty, index, txs, prevHash, q)
  }

  /**
   * The nonce search: try 0, 1, 2, ... until the candidate block passes.
   * The search is unbounded; the model requires that some proof passes.
   */
  method FindProof(hash: Hasher, difficulty: int, index: int, txs: seq<Transaction>, prevHash: string)
    returns (proof: nat)
    requires exists p: nat :: Passes(hash, difficulty, index, txs, prevHash, p)
    ensures IsLeastProof(hash, difficulty, index, txs, prevHash, proof)
  {
    ghost var w: nat :| Passes(hash, difficulty, index, txs, prevHash, w);
    proof := 0;
    while true
      invariant proof <= w
      invariant forall q: nat :: q < proof ==> !Passes(hash, difficulty, index, txs, prevHash, q)
      decreases w - proof
    {
      var testBlock := Block(index, txs, proof, prevHash);
      var ok := CheckProof(hash, difficulty, testBlock);
      if ok {
        return;
      }
      proof := proof + 1;
    }
  }

  /** The least passing proof is unique: two searches over the same candidate agree. */
  lemma LeastProofUnique(hash: Hasher, difficulty: int, index: int, txs: seq<Transaction>, prevHash: string, p: nat, q: nat)
    requires IsLeastProof(hash, difficulty, index, txs, prevHash, p)
    requires IsLeastProof(hash, difficulty, index, txs, prevHash, q)
    ensures p == q
  {
  }
}
