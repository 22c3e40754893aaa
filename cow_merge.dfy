/**
  Merge pruning (the tail of CowReader::ParseOps): the header's
  num_merge_ops counts the real operations, from the start of the list,
  that are already merged into the base device. The reader drops the
  shortest prefix of the operation list that holds that many real records,
  together with the label and footer records interleaved with them.
*/
module CowMerge {
  import opened Wrappers
  import opened CowFormat

  /** Number of real (neither label nor footer) records in ops. */
  function CountReal(ops: seq<CowOperation>): (n: nat)
    ensures n <= |ops|
  {
    if ops == [] then 0 else (if IsMetadata(ops[0]) then 0 else 1) + CountReal(ops[1..])
  }

  lemma {:induction false} CountRealAppend(a: seq<CowOperation>, b: seq<CowOperation>)
    ensures CountReal(a + b) == CountReal(a) + CountReal(b)
  {
    if a != [] {
      assert (a + b)[1..] == a[1..] + b;
      CountRealAppend(a[1..], b);
    } else {
      assert a + b == b;
    }
  }

  /** A longer prefix holds at least as many real records. */
  lemma CountRealPrefixMonotone(ops: seq<CowOperation>, i: nat, j: nat)
    requires i <= j <= |ops|
    ensures CountReal(ops[..i]) <= CountReal(ops[..j])
  {
    assert ops[..j] == ops[..i] + ops[i..j];
    CountRealAppend(ops[..i], ops[i..j]);
  }

  /**
    Length of the shortest prefix of ops that holds exactly k real records:
    the number of entries the prune loop walks over before merge_ops reaches 0.
  */
  function MergedPrefixLen(ops: seq<CowOperation>, k: nat): (len: nat)
    requires CountReal(ops) >= k
    ensures len <= |ops|
    ensures CountReal(ops[..len]) == k
    ensures k > 0 ==> len > 0 && !IsMetadata(ops[len - 1])
    decreases |ops|
  {
    if k == 0 then 0
    else
      var rest := MergedPrefixLen(ops[1..], if IsMetadata(ops[0]) then k else k - 1);
      assert ops[..1 + rest][1..] == ops[1..][..rest];
      1 + rest
  }

  /** One entry of the prune loop: the shortest prefix from i starts with entry i. */
  lemma MergedPrefixLenStep(ops: seq<CowOperation>, i: nat, m: nat)
    requires i < |ops| && m > 0 && CountReal(ops[i..]) >= m
    ensures var m' := if IsMetadata(ops[i]) then m else m - 1;
      && CountReal(ops[i + 1..]) >= m'
      && MergedPrefixLen(ops[i..], m) == 1 + MergedPrefixLen(ops[i + 1..], m')
  {
    assert ops[i..][1..] == ops[i + 1..];
  }

  /** The corrected guard of the prune loop: enough real records to skip. */
  predicate EnoughRealOps(ops: seq<CowOperation>, k: nat) {
    CountReal(ops) >= k
  }

  /** The stored operation list once the merged prefix is gone. */
  function Prune(ops: seq<CowOperation>, k: nat): seq<CowOperation>
    requires EnoughRealOps(ops, k)
  {
    ops[MergedPrefixLen(ops, k)..]
  }

  /**
    Pruning removes exactly the shortest prefix holding k real records: the
    removed part has k real records, no shorter prefix has as many, and the
    kept part is the rest of the list in its original order (so a label that
    follows the k-th real record is kept).
  */
  lemma PruneRemovesShortestPrefix(ops: seq<CowOperation>, k: nat)
    requires EnoughRealOps(ops, k)
    ensures var cut := |ops| - |Prune(ops, k)|;
      && ops == ops[..cut] + Prune(ops, k)
      && CountReal(ops[..cut]) == k
      && forall j :: 0 <= j < cut ==> CountReal(ops[..j]) < k
  {
    var cut := MergedPrefixLen(ops, k);
    assert ops == ops[..cut] + ops[cut..];
    forall j | 0 <= j < cut
      ensures CountReal(ops[..j]) < k
    {
      CountRealPrefixMonotone(ops, j, cut - 1);
      assert ops[..cut] == ops[..cut - 1] + [ops[cut - 1]];
      CountRealAppend(ops[..cut - 1], [ops[cut - 1]]);
      assert [ops[cut - 1]][1..] == [];
    }
  }

  /** Nothing is pruned when no operation is merged yet. */
  lemma PruneNothingMerged(ops: seq<CowOperation>)
    ensures EnoughRealOps(ops, 0) && Prune(ops, 0) == ops
  {
  }

  // ---------------------------------------------------------------------
  // The prune loop as the source writes it.

  /** The guard the source CHECKs before the loop: the list is at least k long. */
  predicate MergeCheckAsWritten(ops: seq<CowOperation>, k: nat) {
    |ops| >= k
  }

  datatype MergeScan = Stopped(consumed: nat, metadata: nat) | OutOfBounds(index: nat)

  /**
    The prune loop from index i with merge_ops = m and metadata_ops = md:
    either merge_ops reaches 0 after `consumed` entries, or the loop would
    read ops_buffer at `index`, past its end.
  */
  function MergeScanAsWritten(ops: seq<CowOperation>, i: nat, m: nat, md: nat): MergeScan
    decreases |ops| - i
  {
    if m == 0 then Stopped(i, md)
    else if i >= |ops| then OutOfBounds(i)
    else if IsMetadata(ops[i]) then MergeScanAsWritten(ops, i + 1, m, md + 1)
    else MergeScanAsWritten(ops, i + 1, m - 1, md)
  }

  /**
    The loop stays inside the list exactly when the rest of the list holds
    enough real records, and it then stops after the shortest prefix that
    holds them, having counted the metadata records among them.
  */
  lemma {:induction false} MergeScanStaysInBounds(ops: seq<CowOperation>, i: nat, m: nat, md: nat)
    requires i <= |ops|
    ensures MergeScanAsWritten(ops, i, m, md).Stopped? <==> EnoughRealOps(ops[i..], m)
    ensures EnoughRealOps(ops[i..], m) ==>
      var len := MergedPrefixLen(ops[i..], m);
      MergeScanAsWritten(ops, i, m, md) == Stopped(i + len, md + len - m)
    decreases |ops| - i
  {
    if m == 0 {
    } else if i == |ops| {
      assert ops[i..] == [];
    } else {
      assert ops[i..][1..] == ops[i + 1..];
      if IsMetadata(ops[i]) {
        MergeScanStaysInBounds(ops, i + 1, m, md + 1);
      } else {
        MergeScanStaysInBounds(ops, i + 1, m - 1, md);
      }
    }
  }

  /** A tag that is neither the label nor the footer tag. */
  const RealTag: u64 :=
    if CowLabelOp != 0 && CowFooterOp != 0 then 0
    else if CowLabelOp != 1 && CowFooterOp != 1 then 1 else 2

  /**
    The CHECK lets through a list that is long enough but holds too few real
    records: a label followed by one real record with num_merge_ops = 2
    passes it, and the loop then reads entry 2 of a two-entry list.
  */
  lemma MergeCheckAdmitsOverrun()
    ensures var ops := [CowOperation(CowLabelOp, 0, 0, 0, 0), CowOperation(RealTag, 0, 0, 0, 0)];
      && MergeCheckAsWritten(ops, 2)
      && !EnoughRealOps(ops, 2)
      && MergeScanAsWritten(ops, 0, 2, 0) == OutOfBounds(2)
  {
    var ops := [CowOperation(CowLabelOp, 0, 0, 0, 0), CowOperation(RealTag, 0, 0, 0, 0)];
    assert IsMetadata(ops[0]) && !IsMetadata(ops[1]);
    assert ops[1..][1..] == [];
    assert MergeScanAsWritten(ops, 2, 1, 1) == OutOfBounds(2);
    assert MergeScanAsWritten(ops, 1, 2, 1) == OutOfBounds(2);
  }

  /** The corrected guard is stronger than the CHECK, so it rejects nothing the loop could handle. */
  lemma EnoughRealOpsImpliesCheck(ops: seq<CowOperation>, k: nat)
    requires EnoughRealOps(ops, k)
    ensures MergeCheckAsWritten(ops, k)
  {
  }

  /**
    The prune step of ParseOps, with its guard corrected (see EnoughRealOps):
    None stands for the aborting CHECK.
  */
  method PruneMerged(ops: seq<CowOperation>, numMergeOps: u64) returns (pruned: Option<seq<CowOperation>>)
    ensures pruned.None? <==> !EnoughRealOps(ops, numMergeOps)
    ensures pruned.Some? ==> pruned.value == Prune(ops, numMergeOps)
  {
    if numMergeOps == 0 {
      return Some(ops);
    }
    if CountReal(ops) < numMergeOps {
      return None;
    }
    var mergeOps: nat := numMergeOps;
    var metadataOps: nat := 0;
    var currentOpNum: nat := 0;
    while mergeOps > 0
      invariant currentOpNum <= |ops| && mergeOps <= numMergeOps
      invariant metadataOps + numMergeOps - mergeOps == currentOpNum
      invariant CountReal(ops[currentOpNum..]) >= mergeOps
      invariant MergedPrefixLen(ops, numMergeOps) == currentOpNum + MergedPrefixLen(ops[currentOpNum..], mergeOps)
      decreases mergeOps, |ops| - currentOpNum
    {
      MergedPrefixLenStep(ops, currentOpNum, mergeOps);
      if IsMetadata(ops[currentOpNum]) {
        metadataOps := metadataOps + 1;
      } else {
        mergeOps := mergeOps - 1;
      }
      currentOpNum := currentOpNum + 1;
    }
    pruned := Some(ops[numMergeOps + metadataOps..]);
  }
}
