/** `clean_speaker_database`: drop each speaker's outlier embeddings, those
    whose mean similarity to the speaker's other embeddings is not above 0.9. */
module Pruner {
  import opened Optional
  import opened SpeakerStore

  /** An embedding is kept when its mean similarity is strictly above this. */
  const Retention: real := 0.9

  /** `avg_similarity` before the division: the sum, over `j < k` with
      `j != i`, of `sim(es[i], es[j])`, accumulated in index order. */
  function SumOthers(es: seq<Emb>, i: nat, k: nat, sim: Similarity): real
    requires i < |es| && k <= |es|
    decreases k
  {
    if k == 0 then 0.0
    else SumOthers(es, i, k - 1, sim) + (if k - 1 != i then sim(es[i], es[k - 1]) else 0.0)
  }

  /** Mean pairwise similarity of `es[i]` to the others (`count` is `|es| - 1`). */
  function MeanSim(es: seq<Emb>, i: nat, sim: Similarity): real
    requires 1 < |es| && i < |es|
  {
    SumOthers(es, i, |es|, sim) / ((|es| - 1) as real)
  }

  predicate Keeps(es: seq<Emb>, i: nat, sim: Similarity)
    requires 1 < |es| && i < |es|
  {
    MeanSim(es, i, sim) > Retention
  }

  /** The keep/drop verdict of every embedding, computed before any is dropped. */
  function Verdicts(es: seq<Emb>, sim: Similarity): (keep: seq<bool>)
    requires 1 < |es|
    ensures |keep| == |es|
    ensures forall i | 0 <= i < |es| :: keep[i] == Keeps(es, i, sim)
  {
    seq(|es|, i requires 0 <= i < |es| => Keeps(es, i, sim))
  }

  /** The positions, below `k`, whose verdict is "keep", ascending: the
      reference description of what survives. */
  function KeptPositions(keep: seq<bool>, k: nat): (ix: seq<nat>)
    requires k <= |keep|
    ensures |ix| <= k
    ensures forall t | 0 <= t < |ix| :: ix[t] < k && keep[ix[t]]
    ensures forall t, u | 0 <= t < u < |ix| :: ix[t] < ix[u]
    ensures forall i | 0 <= i < k && keep[i] :: i in ix
    decreases k
  {
    if k == 0 then []
    else KeptPositions(keep, k - 1) + (if keep[k - 1] then [k - 1] else [])
  }

  /** `to_keep` after scanning the first `k` embeddings: each is appended
      when its verdict is "keep". It is exactly the embeddings at the kept
      positions, in their original order. */
  function Survivors(es: seq<Emb>, keep: seq<bool>, k: nat): (kept: seq<Emb>)
    requires |keep| == |es| && k <= |es|
    ensures |kept| == |KeptPositions(keep, k)|
    ensures forall t | 0 <= t < |kept| :: kept[t] == es[KeptPositions(keep, k)[t]]
    decreases k
  {
    if k == 0 then []
    else
      var prev := Survivors(es, keep, k - 1);
      AppendAligned(es, prev, KeptPositions(keep, k - 1), keep[k - 1], k - 1);
      prev + (if keep[k - 1] then [es[k - 1]] else [])
  }

  /** Appending `es[j]` and `j` together keeps a list aligned with its positions. */
  lemma AppendAligned(es: seq<Emb>, prev: seq<Emb>, pix: seq<nat>, b: bool, j: nat)
    requires j < |es| && |prev| == |pix|
    requires forall t | 0 <= t < |prev| :: pix[t] < |es| && prev[t] == es[pix[t]]
    ensures var kept, ix := prev + (if b then [es[j]] else []), pix + (if b then [j] else []);
      |kept| == |ix| && forall t | 0 <= t < |kept| :: ix[t] < |es| && kept[t] == es[ix[t]]
  {
  }

  /** What remains of `es` under the verdicts `keep`: the survivors, or the
      first embedding alone when none survives. */
  function Filtered(es: seq<Emb>, keep: seq<bool>): (r: seq<Emb>)
    requires |keep| == |es| && |es| > 0
    ensures var ix := KeptPositions(keep, |es|);
      && (|ix| > 0 ==> |r| == |ix| && forall t | 0 <= t < |r| :: r[t] == es[ix[t]])
      && (|ix| == 0 ==> r == [es[0]])
  {
    var kept := Survivors(es, keep, |es|);
    if |kept| == 0 then [es[0]] else kept
  }

  /** The list that replaces one speaker's embeddings: left alone when it has
      at most one entry, else filtered by the verdicts. */
  function PruneEmbeddings(es: seq<Emb>, sim: Similarity): (r: seq<Emb>)
    ensures |es| <= 1 ==> r == es
    ensures |es| >= 1 ==> |r| >= 1
  {
    if |es| <= 1 then es else Filtered(es, Verdicts(es, sim))
  }

  /** For more than one embedding, the pruned list is the embeddings whose
      mean similarity is above the retention threshold, in their original
      order; when there is none, it is the first embedding alone. */
  lemma PruneEmbeddingsKeeps(es: seq<Emb>, sim: Similarity)
    requires |es| > 1
    ensures var r := PruneEmbeddings(es, sim); var ix := KeptPositions(Verdicts(es, sim), |es|);
      && (|ix| > 0 ==> |r| == |ix| && forall t | 0 <= t < |r| :: r[t] == es[ix[t]])
      && (|ix| == 0 ==> r == [es[0]])
      && (forall t | 0 <= t < |ix| :: Keeps(es, ix[t], sim))
      && (forall i | 0 <= i < |es| && Keeps(es, i, sim) :: i in ix)
  {
    var keep := Verdicts(es, sim);
    var ix := KeptPositions(keep, |es|);
    forall t | 0 <= t < |ix| ensures Keeps(es, ix[t], sim) {
      assert keep[ix[t]];
    }
    forall i | 0 <= i < |es| && Keeps(es, i, sim) ensures i in ix {
      assert keep[i];
    }
  }

  /** The in-memory store after the pass, and whether it ran to the end (and
      saved). Line 114 reads `data["embeddings"]` and raises `KeyError` on a
      record without that key: the pass stops there, the speakers before it
      already pruned in memory, and nothing is saved. */
  datatype Pruned = Pruned(db: Store, completed: bool)

  /** How one speaker's list of embeddings is replaced; the pass below is
      stated for any such function and used with `PruneEmbeddings`. */
  type ListPruner = seq<Emb> -> seq<Emb>

  /** The speaker at position `i` has had its embeddings replaced by the pruned list. */
  predicate PrunedAt(db: Store, after: Store, prune: ListPruner, i: int)
    requires 0 <= i < |db.order| && db.order[i] in db.speakers && db.order[i] in after.speakers
  {
    var s := db.speakers[db.order[i]];
    s.embeddings.Some? && after.speakers[db.order[i]] == s.(embeddings := Some(prune(s.embeddings.value)))
  }

  /** The speaker at position `i` is as it was. */
  predicate SameAt(db: Store, after: Store, i: int)
    requires 0 <= i < |db.order| && db.order[i] in db.speakers && db.order[i] in after.speakers
  {
    after.speakers[db.order[i]] == db.speakers[db.order[i]]
  }

  /** Position of the first record without an `embeddings` key, at or after
      `from`, or the store's size when there is none. */
  function FirstMissing(db: Store, from: nat): (stop: nat)
    requires Valid(db) && from <= |db.order|
    ensures from <= stop <= |db.order|
    ensures forall i | from <= i < stop :: db.speakers[db.order[i]].embeddings.Some?
    ensures stop < |db.order| ==> db.speakers[db.order[stop]].embeddings.None?
    decreases |db.order| - from
  {
    if from == |db.order| then from
    else if db.speakers[db.order[from]].embeddings.None? then from
    else FirstMissing(db, from + 1)
  }

  /** The pass over the first `k` speakers in iteration order. Every speaker
      before the first record without embeddings (and before `k`) is pruned,
      every other one is untouched, and the pass is still running exactly
      when it met no such record. */
  function PrunePrefix(db: Store, prune: ListPruner, k: nat): (p: Pruned)
    requires Valid(db) && k <= |db.order|
    ensures p.db.order == db.order && p.db.speakers.Keys == db.speakers.Keys
    ensures p.completed <==> k <= FirstMissing(db, 0)
    ensures PrefixDone(db, p.db, prune, k, FirstMissing(db, 0))
    decreases k
  {
    if k == 0 then Pruned(db, true)
    else
      var p := PrunePrefix(db, prune, k - 1);
      var stop := FirstMissing(db, 0);
      var id := db.order[k - 1];
      var s := p.db.speakers[id];
      ReadUnpruned(db, prune, k, stop, p.db);
      if !p.completed || s.embeddings.None? then
        EffectAfterStop(db, prune, k, stop, p.db);
        if !p.completed then p else Pruned(p.db, false)
      else
        PrunedStep(db, prune, k, stop, p.db);
        Pruned(PruneSpeaker(p.db, id, prune), true)
  }

  /** The store with speaker `id`'s embeddings replaced by the pruned list. */
  function PruneSpeaker(st: Store, id: Id, prune: ListPruner): (r: Store)
    requires id in st.speakers && st.speakers[id].embeddings.Some?
    ensures r.order == st.order && r.speakers.Keys == st.speakers.Keys
  {
    var s := st.speakers[id];
    Update(st, id, s.(embeddings := Some(prune(s.embeddings.value))))
  }

  /** Pruning the `k`-th speaker, given what the pass over the first `k - 1`
      speakers did. */
  lemma PrunedStep(db: Store, prune: ListPruner, k: nat, stop: nat, before: Store)
    requires Valid(db) && 0 < k <= |db.order| && stop == FirstMissing(db, 0) && k - 1 <= stop
    requires before.order == db.order && before.speakers.Keys == db.speakers.Keys
    requires PrefixDone(db, before, prune, k - 1, stop)
    requires db.order[k - 1] in before.speakers && before.speakers[db.order[k - 1]].embeddings.Some?
    ensures var after := PruneSpeaker(before, db.order[k - 1], prune);
      k <= stop && PrefixDone(db, after, prune, k, stop)
  {
    var id := db.order[k - 1];
    var s := before.speakers[id];
    var after := PruneSpeaker(before, id, prune);
    ReadUnpruned(db, prune, k, stop, before);
    UpdateOthers(db, before, after, k - 1, s.(embeddings := Some(prune(s.embeddings.value))));
    assert PrunedAt(db, after, prune, k - 1);
    assert stop != k - 1;
    StepPruned(db, prune, k, stop, before, after);
    StepSame(db, k, stop, before, after);
  }

  /** What the pass did to `after` when it pruned the speakers before both
      `k` and `stop`, and touched no other. */
  predicate PrefixDone(db: Store, after: Store, prune: ListPruner, k: int, stop: int)
    requires Valid(db) && after.order == db.order && after.speakers.Keys == db.speakers.Keys
  {
    PrefixPruned(db, after, prune, k, stop) && PrefixSame(db, after, k, stop)
  }

  /** Every id in the iteration order has a record. */
  predicate Listed(db: Store) {
    forall i | 0 <= i < |db.order| :: db.order[i] in db.speakers
  }

  /** The speakers before both `k` and `stop` are pruned. */
  predicate PrefixPruned(db: Store, after: Store, prune: ListPruner, k: int, stop: int)
    requires Listed(db) && after.order == db.order && after.speakers.Keys == db.speakers.Keys
  {
    forall i | 0 <= i < |db.order| && i < k && i < stop :: PrunedAt(db, after, prune, i)
  }

  /** The speakers at or after `k` or `stop` are untouched. */
  predicate PrefixSame(db: Store, after: Store, k: int, stop: int)
    requires Listed(db) && after.order == db.order && after.speakers.Keys == db.speakers.Keys
  {
    forall i | 0 <= i < |db.order| && (k <= i || stop <= i) :: SameAt(db, after, i)
  }

  /** `after` differs from `before` at most in the speaker at position `j`. */
  predicate SameExcept(db: Store, before: Store, after: Store, j: int)
    requires Listed(db) && before.speakers.Keys == db.speakers.Keys && after.speakers.Keys == db.speakers.Keys
  {
    forall i | 0 <= i < |db.order| && i != j :: after.speakers[db.order[i]] == before.speakers[db.order[i]]
  }

  /** The `k`-th speaker is read as it is in the store, since earlier steps
      touched only earlier speakers. */
  lemma ReadUnpruned(db: Store, prune: ListPruner, k: nat, stop: nat, before: Store)
    requires Valid(db) && 0 < k <= |db.order|
    requires before.order == db.order && before.speakers.Keys == db.speakers.Keys
    requires PrefixDone(db, before, prune, k - 1, stop)
    ensures db.order[k - 1] in before.speakers
    ensures before.speakers[db.order[k - 1]] == db.speakers[db.order[k - 1]]
  {
    assert db.order[k - 1] in db.speakers;
    assert SameAt(db, before, k - 1);
  }

  /** Once the pass has stopped, one more step changes nothing. */
  lemma EffectAfterStop(db: Store, prune: ListPruner, k: nat, stop: nat, after: Store)
    requires Valid(db) && 0 < k && stop <= k - 1
    requires after.order == db.order && after.speakers.Keys == db.speakers.Keys
    requires PrefixDone(db, after, prune, k - 1, stop)
    ensures PrefixDone(db, after, prune, k, stop)
  {
  }

  /** The pruned part grows by the `k`-th speaker. */
  lemma StepPruned(db: Store, prune: ListPruner, k: nat, stop: nat, before: Store, after: Store)
    requires Listed(db) && 0 < k <= |db.order|
    requires before.order == db.order && before.speakers.Keys == db.speakers.Keys
    requires after.order == db.order && after.speakers.Keys == db.speakers.Keys
    requires PrefixPruned(db, before, prune, k - 1, stop)
    requires PrunedAt(db, after, prune, k - 1) && SameExcept(db, before, after, k - 1)
    ensures PrefixPruned(db, after, prune, k, stop)
  {
    forall i | 0 <= i < |db.order| && i < k && i < stop ensures PrunedAt(db, after, prune, i) {
      if i < k - 1 { assert PrunedAt(db, before, prune, i); }
    }
  }

  /** The untouched part loses only the `k`-th speaker. */
  lemma StepSame(db: Store, k: nat, stop: nat, before: Store, after: Store)
    requires Listed(db) && 0 < k <= |db.order| && k - 1 < stop
    requires before.order == db.order && before.speakers.Keys == db.speakers.Keys
    requires after.order == db.order && after.speakers.Keys == db.speakers.Keys
    requires PrefixSame(db, before, k - 1, stop) && SameExcept(db, before, after, k - 1)
    ensures PrefixSame(db, after, k, stop)
  {
    forall i | 0 <= i < |db.order| && (k <= i || stop <= i) ensures SameAt(db, after, i) {
      assert SameAt(db, before, i);
    }
  }

  /** Replacing the speaker at position `j` leaves the speakers at every other position alone. */
  lemma UpdateOthers(db: Store, before: Store, after: Store, j: nat, x: Speaker)
    requires Valid(db) && j < |db.order|
    requires before.order == db.order && before.speakers.Keys == db.speakers.Keys
    requires db.order[j] in before.speakers && after == Update(before, db.order[j], x)
    ensures Listed(db) && SameExcept(db, before, after, j)
  {
    forall i | 0 <= i < |db.order| && i != j
      ensures after.speakers[db.order[i]] == before.speakers[db.order[i]]
    {
      assert db.order[i] != db.order[j];
    }
  }

  /** `clean_speaker_database` over the whole store. */
  function Prune(db: Store, sim: Similarity): (p: Pruned)
    requires Valid(db)
    ensures Valid(p.db)
    ensures p.db.order == db.order && p.db.speakers.Keys == db.speakers.Keys
    // It runs to the end exactly when every record has an `embeddings` key ...
    ensures p.completed <==> forall id | id in db.speakers :: db.speakers[id].embeddings.Some?
    // ... and then every speaker's list is replaced by its pruned list, nothing else changing.
    ensures p.completed ==> forall id | id in db.speakers ::
      p.db.speakers[id] == db.speakers[id].(embeddings := Some(PruneEmbeddings(db.speakers[id].embeddings.value, sim)))
    // A speaker that had an embedding still has one.
    ensures forall id | id in db.speakers && db.speakers[id].embeddings.Some? && |db.speakers[id].embeddings.value| >= 1 ::
      p.db.speakers[id].embeddings.Some? && |p.db.speakers[id].embeddings.value| >= 1
    // Whether or not it completed, the speakers before the first record
    // without `embeddings` are pruned in memory, and the rest are untouched.
    ensures forall i | 0 <= i < |db.order| :: var id := db.order[i];
      && (i < FirstMissing(db, 0) ==>
            p.db.speakers[id] == db.speakers[id].(embeddings := Some(PruneEmbeddings(db.speakers[id].embeddings.value, sim))))
      && (FirstMissing(db, 0) <= i ==> p.db.speakers[id] == db.speakers[id])
  {
    var prune: ListPruner := es => PruneEmbeddings(es, sim);
    var p := PrunePrefix(db, prune, |db.order|);
    WholePass(db, prune, p, FirstMissing(db, 0));
    SimilarityPruner(db, sim, prune, p.db, FirstMissing(db, 0));
    p
  }

  /** The pass over all speakers, for any list pruner that leaves a
      non-empty list non-empty. */
  lemma WholePass(db: Store, prune: ListPruner, p: Pruned, stop: nat)
    requires Valid(db) && stop == FirstMissing(db, 0)
    requires forall es: seq<Emb> | |es| >= 1 :: |prune(es)| >= 1
    requires p.db.order == db.order && p.db.speakers.Keys == db.speakers.Keys
    requires (p.completed <==> |db.order| <= stop) && PrefixDone(db, p.db, prune, |db.order|, stop)
    ensures Valid(p.db)
    ensures p.completed <==> forall id | id in db.speakers :: db.speakers[id].embeddings.Some?
    ensures p.completed ==> forall id | id in db.speakers ::
      p.db.speakers[id] == db.speakers[id].(embeddings := Some(prune(db.speakers[id].embeddings.value)))
    ensures forall id | id in db.speakers && db.speakers[id].embeddings.Some? && |db.speakers[id].embeddings.value| >= 1 ::
      p.db.speakers[id].embeddings.Some? && |p.db.speakers[id].embeddings.value| >= 1
    ensures forall i | 0 <= i < |db.order| :: ByPosition(db, p.db, prune, stop, i)
  {
    AllByPosition(db, prune, p.db, stop);
    CompletedIffAllPresent(db, stop);
    if p.completed {
      AllPruned(db, prune, p.db);
    }
    NonEmptyStays(db, prune, p.db, stop);
  }

  /** The pass reaches the end exactly when every record has embeddings. */
  lemma CompletedIffAllPresent(db: Store, stop: nat)
    requires Valid(db) && stop == FirstMissing(db, 0)
    ensures |db.order| <= stop <==> forall id | id in db.speakers :: db.speakers[id].embeddings.Some?
  {
    if |db.order| <= stop {
      forall id | id in db.speakers ensures db.speakers[id].embeddings.Some? {
        var i :| 0 <= i < |db.order| && db.order[i] == id;
      }
    } else {
      assert db.order[stop] in db.speakers;
    }
  }

  /** A pass that pruned every position pruned every speaker. */
  lemma AllPruned(db: Store, prune: ListPruner, after: Store)
    requires Valid(db) && after.order == db.order && after.speakers.Keys == db.speakers.Keys
    requires forall id | id in db.speakers :: db.speakers[id].embeddings.Some?
    requires PrefixPruned(db, after, prune, |db.order|, |db.order|)
    ensures forall id | id in db.speakers ::
      after.speakers[id] == db.speakers[id].(embeddings := Some(prune(db.speakers[id].embeddings.value)))
  {
    forall id | id in db.speakers
      ensures after.speakers[id] == db.speakers[id].(embeddings := Some(prune(db.speakers[id].embeddings.value)))
    {
      var i :| 0 <= i < |db.order| && db.order[i] == id;
      assert PrunedAt(db, after, prune, i);
    }
  }

  /** No speaker with an embedding loses all of them. */
  lemma NonEmptyStays(db: Store, prune: ListPruner, after: Store, stop: nat)
    requires Valid(db) && after.order == db.order && after.speakers.Keys == db.speakers.Keys
    requires forall es: seq<Emb> | |es| >= 1 :: |prune(es)| >= 1
    requires PrefixDone(db, after, prune, |db.order|, stop)
    ensures forall id | id in db.speakers && db.speakers[id].embeddings.Some? && |db.speakers[id].embeddings.value| >= 1 ::
      after.speakers[id].embeddings.Some? && |after.speakers[id].embeddings.value| >= 1
  {
    forall id | id in db.speakers && db.speakers[id].embeddings.Some? && |db.speakers[id].embeddings.value| >= 1
      ensures after.speakers[id].embeddings.Some? && |after.speakers[id].embeddings.value| >= 1
    {
      var i :| 0 <= i < |db.order| && db.order[i] == id;
      if i < stop { assert PrunedAt(db, after, prune, i); } else { assert SameAt(db, after, i); }
    }
  }

  /** Whether the pass has left the speaker at position `i` as it should:
      pruned before `stop`, untouched from `stop` on. */
  predicate ByPosition(db: Store, after: Store, prune: ListPruner, stop: nat, i: int)
    requires Valid(db) && after.speakers.Keys == db.speakers.Keys && stop == FirstMissing(db, 0)
    requires 0 <= i < |db.order|
  {
    var id := db.order[i];
    && (i < stop ==> after.speakers[id] == db.speakers[id].(embeddings := Some(prune(db.speakers[id].embeddings.value))))
    && (stop <= i ==> after.speakers[id] == db.speakers[id])
  }

  /** The effect of the whole pass, position by position, whether or not it
      stopped early. */
  lemma AllByPosition(db: Store, prune: ListPruner, after: Store, stop: nat)
    requires Valid(db) && stop == FirstMissing(db, 0)
    requires after.order == db.order && after.speakers.Keys == db.speakers.Keys
    requires PrefixDone(db, after, prune, |db.order|, stop)
    ensures forall i | 0 <= i < |db.order| :: ByPosition(db, after, prune, stop, i)
  {
    forall i | 0 <= i < |db.order| ensures ByPosition(db, after, prune, stop, i) {
      if i < stop { assert PrunedAt(db, after, prune, i); } else { assert SameAt(db, after, i); }
    }
  }

  /** `ByPosition` for the pruner `PruneEmbeddings(_, sim)`, spelled out. */
  lemma SimilarityPruner(db: Store, sim: Similarity, prune: ListPruner, after: Store, stop: nat)
    requires Valid(db) && stop == FirstMissing(db, 0) && after.speakers.Keys == db.speakers.Keys
    requires forall es: seq<Emb> :: prune(es) == PruneEmbeddings(es, sim)
    requires forall i | 0 <= i < |db.order| :: ByPosition(db, after, prune, stop, i)
    ensures forall i | 0 <= i < |db.order| :: var id := db.order[i];
      && (i < stop ==> after.speakers[id] == db.speakers[id].(embeddings := Some(PruneEmbeddings(db.speakers[id].embeddings.value, sim))))
      && (stop <= i ==> after.speakers[id] == db.speakers[id])
  {
    forall i | 0 <= i < |db.order|
      ensures var id := db.order[i];
        && (i < stop ==> after.speakers[id] == db.speakers[id].(embeddings := Some(PruneEmbeddings(db.speakers[id].embeddings.value, sim))))
        && (stop <= i ==> after.speakers[id] == db.speakers[id])
    {
      assert ByPosition(db, after, prune, stop, i);
    }
  }
}
