/**
 * The control loop of `train_model`: one shuffled pass of mini-batches per
 * epoch, one validation loss per epoch, the best loss so far, the patience
 * counter and the `state_dict` snapshot.
 *
 * The network, its optimizer and its loss are not modelled: one optimizer
 * step is the parameter `step`, the validation loss of a parameter vector is
 * the parameter `valLoss` (`None` stands for a NaN loss), and the shuffle of
 * epoch `e` is `perms[e]`, an arbitrary permutation of the training indices.
 */
module Training {
  import opened Numeric

  const Epochs: nat := 100
  const Patience: nat := 10
  const BatchSize: nat := 32

  // ------------------------------------------------------------- batches

  /** `(n + BATCH_SIZE - 1) // BATCH_SIZE`: the least batch count whose batches hold `n` rows. */
  function BatchCount(n: nat): (r: nat)
    ensures r * 32 >= n
    ensures r > 0 ==> (r - 1) * 32 < n
  {
    (n + BatchSize - 1) / BatchSize
  }

  function MinNat(a: nat, b: nat): nat
  {
    if a < b then a else b
  }

  /** The Python slice `xs[a:b]` for `0 <= a <= b`: both ends are clamped to the length. */
  function Slice(xs: seq<nat>, a: nat, b: nat): seq<nat>
    requires a <= b
  {
    xs[MinNat(a, |xs|)..MinNat(b, |xs|)]
  }

  /** `indices[i*BATCH_SIZE : (i+1)*BATCH_SIZE]`. */
  function Batch(perm: seq<nat>, i: nat): seq<nat>
  {
    Slice(perm, i * BatchSize, (i + 1) * BatchSize)
  }

  /** The batches of one epoch, for `n` training rows. */
  function Batches(perm: seq<nat>, n: nat): (bs: seq<seq<nat>>)
    ensures |bs| == BatchCount(n)
  {
    seq(BatchCount(n), i requires 0 <= i < BatchCount(n) => Batch(perm, i))
  }

  function Flatten(bs: seq<seq<nat>>): seq<nat>
  {
    if |bs| == 0 then [] else Flatten(bs[..|bs| - 1]) + bs[|bs| - 1]
  }

  lemma {:induction false} BatchesPrefix(perm: seq<nat>, i: nat)
    requires i <= BatchCount(|perm|)
    ensures Flatten(Batches(perm, |perm|)[..i]) == perm[..MinNat(i * 32, |perm|)]
  {
    if i > 0 {
      var bs := Batches(perm, |perm|);
      assert bs[..i][..i - 1] == bs[..i - 1];
      BatchesPrefix(perm, i - 1);
      assert (i - 1) * 32 < |perm|;
      assert bs[i - 1] == perm[(i - 1) * 32..MinNat(i * 32, |perm|)];
      assert perm[..(i - 1) * 32] + perm[(i - 1) * 32..MinNat(i * 32, |perm|)] == perm[..MinNat(i * 32, |perm|)];
    }
  }

  /**
   * The batches of an epoch cut the permutation into consecutive pieces of 32
   * rows, the last one possibly shorter but never empty, and together they are
   * the permutation itself: every shuffled index is used exactly once.
   */
  lemma BatchesCoverPermutation(perm: seq<nat>)
    ensures Flatten(Batches(perm, |perm|)) == perm
    ensures var bs := Batches(perm, |perm|);
      forall i :: 0 <= i < |bs| - 1 ==> |bs[i]| == BatchSize
    ensures var bs := Batches(perm, |perm|);
      |bs| > 0 ==> 0 < |bs[|bs| - 1]| <= BatchSize
  {
    var bs := Batches(perm, |perm|);
    BatchesPrefix(perm, |bs|);
    assert bs[..|bs|] == bs;
    forall i | 0 <= i < |bs| - 1 ensures |bs[i]| == BatchSize {
      assert (i + 1) * 32 <= (|bs| - 1) * 32 < |perm|;
    }
  }

  /** `torch.randperm(n)`: the indices `0 .. n - 1`, each once, in some order. */
  predicate IsPermutation(perm: seq<nat>, n: nat)
  {
    |perm| == n && (forall i :: 0 <= i < n ==> perm[i] < n) &&
    forall i, j :: 0 <= i < j < n ==> perm[i] != perm[j]
  }

  // ----------------------------------------------------- epochs, abstractly

  /** One optimizer step per batch, in batch order. */
  function StepAll(w: seq<real>, bs: seq<seq<nat>>, step: (seq<real>, seq<nat>) -> seq<real>): seq<real>
  {
    if |bs| == 0 then w else step(StepAll(w, bs[..|bs| - 1], step), bs[|bs| - 1])
  }

  /** The parameters after one epoch over the shuffle `perm` of `n` rows. */
  function EpochWeights(w: seq<real>, perm: seq<nat>, n: nat, step: (seq<real>, seq<nat>) -> seq<real>): seq<real>
  {
    StepAll(w, Batches(perm, n), step)
  }

  /** The parameters after `e` epochs. */
  function WeightsAfter(w0: seq<real>, perms: seq<seq<nat>>, n: nat,
                        step: (seq<real>, seq<nat>) -> seq<real>, e: nat): seq<real>
    requires e <= |perms|
  {
    if e == 0 then w0 else EpochWeights(WeightsAfter(w0, perms, n, step, e - 1), perms[e - 1], n, step)
  }

  /** The validation loss measured at the end of each of the `EPOCHS` epochs, had none stopped early. */
  function Losses(w0: seq<real>, perms: seq<seq<nat>>, n: nat,
                  step: (seq<real>, seq<nat>) -> seq<real>, valLoss: seq<real> -> Option<real>): (ls: seq<Option<real>>)
    requires |perms| >= Epochs
    ensures |ls| == Epochs
  {
    seq(Epochs, e requires 0 <= e < Epochs => valLoss(WeightsAfter(w0, perms, n, step, e + 1)))
  }

  lemma LossAt(w0: seq<real>, perms: seq<seq<nat>>, n: nat,
               step: (seq<real>, seq<nat>) -> seq<real>, valLoss: seq<real> -> Option<real>, e: nat)
    requires |perms| >= Epochs && e < Epochs
    ensures Losses(w0, perms, n, step, valLoss)[e] == valLoss(WeightsAfter(w0, perms, n, step, e + 1))
  {
  }

  // ------------------------------------------------------- the controller

  /** `best_val_loss`, the epoch it was measured in, and `patience_counter`. */
  datatype Tracker = Tracker(best: Option<real>, bestEpoch: Option<nat>, patience: nat)

  /** `val_loss < best_val_loss`, where the initial best is infinite and a NaN loss never compares less. */
  predicate Improves(loss: Option<real>, best: Option<real>)
  {
    loss.Some? && (best.None? || loss.value < best.value)
  }

  /** The tracker after the first `k` epochs, leaving the early stop aside. */
  function Track(losses: seq<Option<real>>, k: nat): Tracker
    requires k <= |losses|
  {
    if k == 0 then Tracker(None, None, 0)
    else
      var t := Track(losses, k - 1);
      if Improves(losses[k - 1], t.best) then Tracker(losses[k - 1], Some(k - 1), 0)
      else Tracker(t.best, t.bestEpoch, t.patience + 1)
  }

  /** The number of epochs the loop runs, given that `k` have completed without stopping. */
  function EpochsRunFrom(losses: seq<Option<real>>, k: nat): (r: nat)
    requires |losses| >= Epochs && k <= Epochs
    ensures k <= r <= Epochs
    decreases Epochs - k
  {
    if k == Epochs then k
    else if Track(losses, k + 1).patience >= Patience then k + 1
    else EpochsRunFrom(losses, k + 1)
  }

  function EpochsRun(losses: seq<Option<real>>): (r: nat)
    requires |losses| >= Epochs
    ensures r <= Epochs
  {
    EpochsRunFrom(losses, 0)
  }

  /**
   * `best_val_loss` is the running minimum of the defined losses so far, met
   * first at `bestEpoch` (changes happen only on strict improvement), and
   * infinite exactly while every loss so far has been NaN.
   */
  lemma {:induction false} TrackIsRunningMinimum(losses: seq<Option<real>>, k: nat)
    requires k <= |losses|
    ensures var t := Track(losses, k);
      (t.best.None? <==> t.bestEpoch.None?) &&
      (t.best.None? <==> forall i :: 0 <= i < k ==> losses[i].None?)
    ensures var t := Track(losses, k);
      t.bestEpoch.Some? ==>
        var b := t.bestEpoch.value;
        b < k && losses[b] == t.best &&
        (forall i :: 0 <= i < k && losses[i].Some? ==> t.best.value <= losses[i].value) &&
        (forall i :: 0 <= i < b && losses[i].Some? ==> t.best.value < losses[i].value)
  {
    if k > 0 {
      TrackIsRunningMinimum(losses, k - 1);
    }
  }

  /** `patience_counter` counts the epochs since the best one (since the start while there is none). */
  lemma {:induction false} TrackPatience(losses: seq<Option<real>>, k: nat)
    requires k <= |losses|
    ensures var t := Track(losses, k);
      t.patience == if t.bestEpoch.Some? then k - 1 - t.bestEpoch.value else k
    ensures var t := Track(losses, k); t.bestEpoch.Some? ==> t.bestEpoch.value < k
  {
    if k > 0 {
      TrackPatience(losses, k - 1);
    }
  }

  /** The counter reaches `p` exactly when the last `p` epochs each failed to improve. */
  /** Epoch `i` fails to improve on the best loss of the epochs before it. */
  predicate NoImprovement(losses: seq<Option<real>>, i: nat)
    requires i < |losses|
  {
    !Improves(losses[i], Track(losses, i).best)
  }

  /** The counter reaches `p` exactly when the last `p` epochs each failed to improve. */
  lemma {:induction false} PatienceCountsNonImproving(losses: seq<Option<real>>, k: nat, p: nat)
    requires k <= |losses|
    ensures Track(losses, k).patience >= p <==>
      p <= k && forall i: nat :: k - p <= i < k ==> NoImprovement(losses, i)
  {
    if p > 0 && k > 0 {
      PatienceCountsNonImproving(losses, k - 1, p - 1);
      if NoImprovement(losses, k - 1) {
        assert Track(losses, k).patience == Track(losses, k - 1).patience + 1;
        if p <= k && forall i: nat :: k - p <= i < k - 1 ==> NoImprovement(losses, i) {
          assert forall i: nat :: k - p <= i < k ==> NoImprovement(losses, i);
        }
      } else {
        assert Track(losses, k).patience == 0;
        assert !(forall i: nat :: k - p <= i < k ==> NoImprovement(losses, i));
      }
    }
  }

  lemma {:induction false} EpochsRunFromBounds(losses: seq<Option<real>>, k: nat)
    requires |losses| >= Epochs && k <= Epochs
    ensures k <= EpochsRunFrom(losses, k) <= Epochs
    ensures k < Epochs ==> k < EpochsRunFrom(losses, k)
    ensures forall j :: k < j < EpochsRunFrom(losses, k) ==> Track(losses, j).patience < Patience
    ensures EpochsRunFrom(losses, k) < Epochs ==> Track(losses, EpochsRunFrom(losses, k)).patience >= Patience
    decreases Epochs - k
  {
    if k < Epochs && Track(losses, k + 1).patience < Patience {
      EpochsRunFromBounds(losses, k + 1);
    }
  }

  /**
   * The loop runs between 1 and `EPOCHS` epochs; it stops before `EPOCHS`
   * exactly when, at some epoch, ten epochs in a row have failed to improve,
   * and then it stops at the first such epoch.
   */
  lemma StopsAtFirstExhaustedPatience(losses: seq<Option<real>>)
    requires |losses| >= Epochs
    ensures 1 <= EpochsRun(losses) <= Epochs
    ensures forall j :: 1 <= j < EpochsRun(losses) ==> Track(losses, j).patience < Patience
    ensures EpochsRun(losses) < Epochs <==> exists j :: 1 <= j < Epochs && Track(losses, j).patience >= Patience
    ensures EpochsRun(losses) < Epochs ==> Track(losses, EpochsRun(losses)).patience >= Patience
  {
    EpochsRunFromBounds(losses, 0);
    var r := EpochsRun(losses);
    if r < Epochs {
      assert 1 <= r < Epochs && Track(losses, r).patience >= Patience;
    }
  }

  /** An early stop comes exactly `PATIENCE` epochs after the best epoch (after the start if none improved). */
  lemma EarlyStopEpoch(losses: seq<Option<real>>)
    requires |losses| >= Epochs
    ensures var r := EpochsRun(losses);
      var t := Track(losses, r);
      r < Epochs ==>
        t.patience == Patience && r == (if t.bestEpoch.Some? then t.bestEpoch.value + 1 else 0) + Patience
  {
    var r := EpochsRun(losses);
    StopsAtFirstExhaustedPatience(losses);
    TrackPatience(losses, r);
    if r < Epochs {
      assert r >= 1;
      if r > 1 {
        assert Track(losses, r - 1).patience < Patience;
      }
    }
  }

  // -------------------------------------------------- parameter storage

  /** A parameter tensor; the optimizer overwrites its values in place. */
  class Tensor {
    var data: seq<real>

    constructor(d: seq<real>)
      ensures data == d
    {
      data := d;
    }
  }

  /** The network, reduced to its parameter tensor (a fixed object). */
  class Mlp {
    const param: Tensor

    constructor(w0: seq<real>)
      ensures fresh(param) && param.data == w0
    {
      param := new Tensor(w0);
    }

    /** `state_dict()`: a view of the live parameter tensor, not a copy of it. */
    method StateDict() returns (s: Tensor)
      ensures s == param
    {
      s := param;
    }

    /** `load_state_dict(s)`: copies the values held by `s` into the parameter tensor. */
    method LoadStateDict(s: Tensor)
      modifies param
      ensures param.data == old(s.data)
    {
      param.data := s.data;
    }
  }

  /** One epoch of training: one optimizer step per batch of the shuffle, in order. */
  method RunEpoch(m: Mlp, perm: seq<nat>, n: nat, step: (seq<real>, seq<nat>) -> seq<real>)
    requires IsPermutation(perm, n)
    modifies m.param
    ensures m.param.data == EpochWeights(old(m.param.data), perm, n, step)
  {
    ghost var bs := Batches(perm, n);
    ghost var used: seq<nat> := [];
    var nBatches := BatchCount(n);
    for i := 0 to nBatches
      invariant m.param.data == StepAll(old(m.param.data), bs[..i], step)
      invariant used == Flatten(bs[..i])
    {
      var batch := Batch(perm, i);
      assert bs[..i + 1][..i] == bs[..i];
      m.param.data := step(m.param.data, batch);
      used := used + batch;
    }
    assert bs[..nBatches] == bs;
    BatchesCoverPermutation(perm);
    assert used == perm;
  }

  /** The parameters the loop ends with: those after the last epoch it ran. */
  function FinalWeightsAsWritten(w0: seq<real>, perms: seq<seq<nat>>, n: nat,
                                 step: (seq<real>, seq<nat>) -> seq<real>,
                                 valLoss: seq<real> -> Option<real>): seq<real>
    requires |perms| >= Epochs
  {
    var r := EpochsRun(Losses(w0, perms, n, step, valLoss));
    StopsAtFirstExhaustedPatience(Losses(w0, perms, n, step, valLoss));
    WeightsAfter(w0, perms, n, step, r)
  }

  /** The parameters of the best epoch, or of the last epoch when no loss was ever defined. */
  function FinalWeightsRestored(w0: seq<real>, perms: seq<seq<nat>>, n: nat,
                                step: (seq<real>, seq<nat>) -> seq<real>,
                                valLoss: seq<real> -> Option<real>): seq<real>
    requires |perms| >= Epochs
  {
    var losses := Losses(w0, perms, n, step, valLoss);
    var r := EpochsRun(losses);
    StopsAtFirstExhaustedPatience(losses);
    TrackPatience(losses, r);
    var t := Track(losses, r);
    if t.bestEpoch.Some? then WeightsAfter(w0, perms, n, step, t.bestEpoch.value + 1)
    else WeightsAfter(w0, perms, n, step, r)
  }

  lemma RestoredWeightsValue(w0: seq<real>, perms: seq<seq<nat>>, n: nat,
                             step: (seq<real>, seq<nat>) -> seq<real>, valLoss: seq<real> -> Option<real>)
    requires |perms| >= Epochs
    ensures var losses := Losses(w0, perms, n, step, valLoss);
      var r := EpochsRun(losses);
      var t := Track(losses, r);
      (t.bestEpoch.Some? ==>
         t.bestEpoch.value < r &&
         FinalWeightsRestored(w0, perms, n, step, valLoss) == WeightsAfter(w0, perms, n, step, t.bestEpoch.value + 1)) &&
      (t.bestEpoch.None? ==> FinalWeightsRestored(w0, perms, n, step, valLoss) == WeightsAfter(w0, perms, n, step, r))
  {
    TrackPatience(Losses(w0, perms, n, step, valLoss), EpochsRun(Losses(w0, perms, n, step, valLoss)));
  }

  /**
   * `train_model` as written: the snapshot taken on improvement is the live
   * tensor, so later epochs overwrite it and the final `load_state_dict`
   * restores nothing; the returned parameters are the last epoch's.
   */
  method TrainModel(m: Mlp, n: nat, perms: seq<seq<nat>>,
                    step: (seq<real>, seq<nat>) -> seq<real>, valLoss: seq<real> -> Option<real>)
    returns (epochsRun: nat, bestLoss: Option<real>, bestEpoch: Option<nat>)
    requires |perms| >= Epochs && forall e :: 0 <= e < |perms| ==> IsPermutation(perms[e], n)
    modifies m.param
    ensures var losses := Losses(old(m.param.data), perms, n, step, valLoss);
      epochsRun == EpochsRun(losses) &&
      Tracker(bestLoss, bestEpoch, Track(losses, epochsRun).patience) == Track(losses, epochsRun)
    ensures m.param.data == FinalWeightsAsWritten(old(m.param.data), perms, n, step, valLoss)
  {
    ghost var w0 := m.param.data;
    ghost var losses := Losses(w0, perms, n, step, valLoss);
    StopsAtFirstExhaustedPatience(losses);
    bestLoss, bestEpoch := None, None;
    var patience := 0;
    var bestState: Tensor? := null;
    epochsRun := 0;
    var epoch := 0;
    while epoch < Epochs
      invariant epoch <= Epochs && epochsRun == epoch
      invariant Track(losses, epoch) == Tracker(bestLoss, bestEpoch, patience)
      invariant EpochsRunFrom(losses, epoch) == EpochsRun(losses)
      invariant m.param.data == WeightsAfter(w0, perms, n, step, epoch)
      invariant bestState != null ==> bestState == m.param
      decreases Epochs - epoch
    {
      RunEpoch(m, perms[epoch], n, step);
      epochsRun := epoch + 1;
      var loss := valLoss(m.param.data);
      LossAt(w0, perms, n, step, valLoss, epoch);
      if Improves(loss, bestLoss) {
        bestLoss, patience, bestEpoch := loss, 0, Some(epoch);
        bestState := m.StateDict();
      } else {
        patience := patience + 1;
        if patience >= Patience {
          break;
        }
      }
      epoch := epoch + 1;
    }
    assert Track(losses, epochsRun) == Tracker(bestLoss, bestEpoch, patience);
    assert epochsRun == EpochsRun(losses);
    if bestState != null {
      m.LoadStateDict(bestState);
    }
  }

  /**
   * `train_model` with the snapshot copied (`copy.deepcopy(model.state_dict())`):
   * the returned parameters are those of the best epoch.
   */
  method TrainModelCopyingSnapshot(m: Mlp, n: nat, perms: seq<seq<nat>>,
                                   step: (seq<real>, seq<nat>) -> seq<real>, valLoss: seq<real> -> Option<real>)
    returns (epochsRun: nat, bestLoss: Option<real>, bestEpoch: Option<nat>)
    requires |perms| >= Epochs && forall e :: 0 <= e < |perms| ==> IsPermutation(perms[e], n)
    modifies m.param
    ensures var losses := Losses(old(m.param.data), perms, n, step, valLoss);
      epochsRun == EpochsRun(losses) &&
      Tracker(bestLoss, bestEpoch, Track(losses, epochsRun).patience) == Track(losses, epochsRun)
    ensures m.param.data == FinalWeightsRestored(old(m.param.data), perms, n, step, valLoss)
  {
    ghost var w0 := m.param.data;
    ghost var losses := Losses(w0, perms, n, step, valLoss);
    StopsAtFirstExhaustedPatience(losses);
    bestLoss, bestEpoch := None, None;
    var patience := 0;
    var bestState: Tensor? := null;
    epochsRun := 0;
    var epoch := 0;
    while epoch < Epochs
      invariant epoch <= Epochs && epochsRun == epoch
      invariant Track(losses, epoch) == Tracker(bestLoss, bestEpoch, patience)
      invariant EpochsRunFrom(losses, epoch) == EpochsRun(losses)
      invariant m.param.data == WeightsAfter(w0, perms, n, step, epoch)
      invariant bestState == null <==> bestEpoch.None?
      invariant bestState != null ==>
        bestState != m.param && bestEpoch.value < epoch &&
        bestState.data == WeightsAfter(w0, perms, n, step, bestEpoch.value + 1)
      decreases Epochs - epoch
    {
      RunEpoch(m, perms[epoch], n, step);
      epochsRun := epoch + 1;
      var loss := valLoss(m.param.data);
      LossAt(w0, perms, n, step, valLoss, epoch);
      if Improves(loss, bestLoss) {
        bestLoss, patience, bestEpoch := loss, 0, Some(epoch);
        bestState := new Tensor(m.param.data);
      } else {
        patience := patience + 1;
        if patience >= Patience {
          break;
        }
      }
      epoch := epoch + 1;
    }
    assert Track(losses, epochsRun) == Tracker(bestLoss, bestEpoch, patience);
    assert epochsRun == EpochsRun(losses);
    RestoredWeightsValue(w0, perms, n, step, valLoss);
    if bestState != null {
      m.LoadStateDict(bestState);
    }
  }

  // ------------------------------------------- the snapshot counterexample

  /** A one-parameter model whose optimizer step adds 1. */
  function CountingStep(w: seq<real>, batch: seq<nat>): seq<real>
  {
    if |w| > 0 then [w[0] + 1.0] else [1.0]
  }

  /** A validation loss equal to the parameter: every epoch is worse than the one before. */
  function RisingLoss(w: seq<real>): Option<real>
  {
    if |w| > 0 then Some(w[0]) else None
  }

  function OneRowShuffles(): seq<seq<nat>>
  {
    seq(Epochs, e => [0])
  }

  lemma {:induction false} CountingWeights(e: nat)
    requires e <= Epochs
    ensures WeightsAfter([0.0], OneRowShuffles(), 1, CountingStep, e) == [e as real]
  {
    if e > 0 {
      CountingWeights(e - 1);
      var prev := ((e - 1) as real);
      assert OneRowShuffles()[e - 1] == [0];
      var bs := Batches([0], 1);
      assert BatchCount(1) == 1;
      assert Batch([0], 0) == [0];
      assert bs == [[0]];
      assert bs[..0] == [];
      assert StepAll([prev], bs, CountingStep) == CountingStep([prev], [0]);
    }
  }

  lemma {:induction false} RisingTrack(losses: seq<Option<real>>, k: nat)
    requires |losses| >= Epochs && k <= Epochs
    requires forall e :: 0 <= e < Epochs ==> losses[e] == Some((e + 1) as real)
    ensures k > 0 ==> Track(losses, k) == Tracker(Some(1.0), Some(0), k - 1)
  {
    if k > 1 {
      RisingTrack(losses, k - 1);
    }
  }

  lemma {:induction false} RisingStopsAtEleven(losses: seq<Option<real>>, k: nat)
    requires |losses| >= Epochs && k <= Patience
    requires forall e :: 0 <= e < Epochs ==> losses[e] == Some((e + 1) as real)
    ensures EpochsRunFrom(losses, k) == Patience + 1
    decreases Patience - k
  {
    RisingTrack(losses, k + 1);
    if k < Patience {
      RisingStopsAtEleven(losses, k + 1);
    }
  }

  /**
   * With a loss that rises every epoch, the best epoch is the first (weights
   * `[1.0]`), the loop stops after eleven epochs, and as written the model
   * comes back with the eleventh epoch's weights `[11.0]`.
   */
  lemma SnapshotAliasingCounterexample()
    ensures FinalWeightsAsWritten([0.0], OneRowShuffles(), 1, CountingStep, RisingLoss) == [11.0]
    ensures FinalWeightsRestored([0.0], OneRowShuffles(), 1, CountingStep, RisingLoss) == [1.0]
  {
    var losses := Losses([0.0], OneRowShuffles(), 1, CountingStep, RisingLoss);
    forall e | 0 <= e < Epochs ensures losses[e] == Some((e + 1) as real) {
      LossAt([0.0], OneRowShuffles(), 1, CountingStep, RisingLoss, e);
      CountingWeights(e + 1);
    }
    RisingStopsAtEleven(losses, 0);
    RisingTrack(losses, 11);
    CountingWeights(11);
    CountingWeights(1);
  }
}
