/** `identify_speaker` and `create_new_speaker` of the recorder: match a new
    voice embedding against every speaker's centroid, then either add it to
    the best-matching speaker or enrol a new one. Similarity and centroid are
    parameters; the decision logic around them is what is modelled. */
module Identification {
  import opened Optional
  import opened SpeakerStore

  /** Element-wise mean of a non-empty list of embeddings. */
  type Centroid = seq<Emb> -> Emb

  /** The result of `identify_speaker` together with the store it leaves. */
  datatype Identified = Identified(db: Store, id: Id, confidence: real)

  /** The result of `create_new_speaker` together with the store it leaves. */
  datatype Created = Created(db: Store, id: Id)

  /** The running `(best_id, best_sim)` pair of the matching loop, with the
      best speaker given by its position in the iteration order. */
  datatype Choice = Choice(best: Option<nat>, bestSim: real)

  /** Id returned when no embedding could be extracted; `stamp` is the clock
      formatted as `%Y%m%d%H%M%S`. */
  function UnknownId(stamp: string): Id { "unknown_" + stamp }

  /** Id of a new speaker; `token` is the first eight characters of a uuid4. */
  function SpeakerId(token: string): Id { "speaker_" + token }

  /** A speaker with at least one embedding; only these are compared. */
  predicate Candidate(s: Speaker) {
    s.embeddings.Some? && |s.embeddings.value| > 0
  }

  /** The speaker at position `i` of the iteration order is compared. */
  predicate CandidateAt(db: Store, i: int) {
    0 <= i < |db.order| && db.order[i] in db.speakers && Candidate(db.speakers[db.order[i]])
  }

  /** Similarity of the probe to the centroid of that speaker's embeddings. */
  function ScoreAt(db: Store, i: int, probe: Emb, sim: Similarity, centroid: Centroid): real
    requires CandidateAt(db, i)
  {
    sim(probe, centroid(db.speakers[db.order[i]].embeddings.value))
  }

  /** Position `j` holds the first speaker, among the first `k`, whose
      similarity is positive and maximal. */
  predicate FirstBest(db: Store, probe: Emb, sim: Similarity, centroid: Centroid, k: int, j: int) {
    && 0 <= j < k <= |db.order|
    && CandidateAt(db, j)
    && ScoreAt(db, j, probe, sim, centroid) > 0.0
    && (forall i | 0 <= i < k && CandidateAt(db, i) ::
          ScoreAt(db, i, probe, sim, centroid) <= ScoreAt(db, j, probe, sim, centroid))
    && (forall i | 0 <= i < j && CandidateAt(db, i) ::
          ScoreAt(db, i, probe, sim, centroid) < ScoreAt(db, j, probe, sim, centroid))
  }

  /** There is at most one first best position. */
  lemma FirstBestUnique(db: Store, probe: Emb, sim: Similarity, centroid: Centroid, k: int, j1: int, j2: int)
    requires FirstBest(db, probe, sim, centroid, k, j1)
    requires FirstBest(db, probe, sim, centroid, k, j2)
    ensures j1 == j2
  {
  }

  /** The matching loop over the first `k` speakers in iteration order:
      `best_sim` starts at 0.0, speakers without embeddings are skipped, and
      a speaker replaces the current best only on a strictly greater
      similarity. The result is the first speaker with the largest positive
      similarity, or none when no similarity is positive. */
  function Pick(db: Store, probe: Emb, sim: Similarity, centroid: Centroid, k: nat): (c: Choice)
    requires k <= |db.order|
    ensures c.bestSim >= 0.0
    ensures c.best.None? ==> c.bestSim == 0.0
    ensures c.best.None? ==>
      forall i | 0 <= i < k && CandidateAt(db, i) :: ScoreAt(db, i, probe, sim, centroid) <= 0.0
    ensures c.best.Some? ==>
      && FirstBest(db, probe, sim, centroid, k, c.best.value)
      && c.bestSim == ScoreAt(db, c.best.value, probe, sim, centroid)
    decreases k
  {
    if k == 0 then Choice(None, 0.0)
    else
      var prev := Pick(db, probe, sim, centroid, k - 1);
      if CandidateAt(db, k - 1) && ScoreAt(db, k - 1, probe, sim, centroid) > prev.bestSim then
        Choice(Some(k - 1), ScoreAt(db, k - 1, probe, sim, centroid))
      else
        prev
  }

  /** Lines 239-241: a record without an `embeddings` key gets an empty list. */
  function FillEmbeddings(s: Speaker): (r: Speaker)
    ensures r.createdAt == s.createdAt && r.conversations == s.conversations
    ensures r.embeddings == Some(s.embeddings.GetOr([]))
  {
    if s.embeddings.None? then s.(embeddings := Some([])) else s
  }

  /** The fill applied to every speaker, as the matching loop does in passing. */
  function FillAll(db: Store): (r: Store)
    ensures Valid(db) ==> Valid(r)
    ensures r.order == db.order && r.speakers.Keys == db.speakers.Keys
    ensures forall id | id in db.speakers :: r.speakers[id] == FillEmbeddings(db.speakers[id])
  {
    Store(db.order, map id | id in db.speakers :: FillEmbeddings(db.speakers[id]))
  }

  /** Filling missing lists changes no comparison. */
  lemma FillAllKeepsScores(db: Store, probe: Emb, sim: Similarity, centroid: Centroid)
    ensures forall i :: CandidateAt(FillAll(db), i) <==> CandidateAt(db, i)
    ensures forall i | CandidateAt(db, i) ::
      ScoreAt(FillAll(db), i, probe, sim, centroid) == ScoreAt(db, i, probe, sim, centroid)
    ensures forall k, j :: FirstBest(FillAll(db), probe, sim, centroid, k, j) <==> FirstBest(db, probe, sim, centroid, k, j)
  {
  }

  /** A match: the first best speaker reaches the threshold. */
  predicate Matches(db: Store, probe: Emb, sim: Similarity, centroid: Centroid, threshold: real, j: int) {
    FirstBest(db, probe, sim, centroid, |db.order|, j) && ScoreAt(db, j, probe, sim, centroid) >= threshold
  }

  /** The loop's outcome decides a match exactly when the first best speaker
      reaches the threshold: `best_sim >= threshold and best_id is not None`. */
  lemma PickDecides(db: Store, probe: Emb, sim: Similarity, centroid: Centroid, threshold: real)
    ensures var c := Pick(db, probe, sim, centroid, |db.order|);
      (c.best.Some? && c.bestSim >= threshold) <==> exists j :: Matches(db, probe, sim, centroid, threshold, j)
    ensures var c := Pick(db, probe, sim, centroid, |db.order|);
      c.best.Some? && c.bestSim >= threshold ==> Matches(db, probe, sim, centroid, threshold, c.best.value)
  {
    var c := Pick(db, probe, sim, centroid, |db.order|);
    if c.best.Some? && c.bestSim >= threshold {
      assert Matches(db, probe, sim, centroid, threshold, c.best.value);
    }
    if j :| Matches(db, probe, sim, centroid, threshold, j) {
      assert CandidateAt(db, j);
      assert c.best.Some?;
      FirstBestUnique(db, probe, sim, centroid, |db.order|, j, c.best.value);
    }
  }

  /** The decision after the loop, on a non-empty store: append the probe to
      the matched speaker, or enrol a new one. */
  function MatchOrEnrol(db: Store, e: Emb, sim: Similarity, centroid: Centroid, threshold: real,
                        token: string, now: string): (r: Identified)
    requires Valid(db)
    requires SpeakerId(token) !in db.speakers
    ensures Valid(r.db)
    ensures r.id in db.speakers <==> exists j :: Matches(db, e, sim, centroid, threshold, j)
    ensures r.id in db.speakers ==>
      && (exists j :: Matches(db, e, sim, centroid, threshold, j) && db.order[j] == r.id
                      && r.confidence == ScoreAt(db, j, e, sim, centroid))
      && r.db.order == db.order && r.db.speakers.Keys == db.speakers.Keys
      && r.db.speakers[r.id] == db.speakers[r.id].(embeddings := Some(db.speakers[r.id].embeddings.value + [e]))
      && (forall k | k in db.speakers && k != r.id :: r.db.speakers[k] == FillEmbeddings(db.speakers[k]))
    ensures r.id !in db.speakers ==>
      && r.id == SpeakerId(token) && r.confidence == 0.0
      && r.db.order == db.order + [r.id] && r.db.speakers.Keys == db.speakers.Keys + {r.id}
      && r.db.speakers[r.id] == Enrolled(e, now)
      && (forall k | k in db.speakers :: r.db.speakers[k] == FillEmbeddings(db.speakers[k]))
  {
    var filled := FillAll(db);
    FillAllKeepsScores(db, e, sim, centroid);
    PickDecides(filled, e, sim, centroid, threshold);
    var c := Pick(filled, e, sim, centroid, |filled.order|);
    if c.bestSim >= threshold && c.best.Some? then
      var id := filled.order[c.best.value];
      var s := filled.speakers[id];
      assert Matches(db, e, sim, centroid, threshold, c.best.value);
      Identified(Update(filled, id, s.(embeddings := Some(s.embeddings.value + [e]))), id, c.bestSim)
    else
      var id := SpeakerId(token);
      Identified(Insert(filled, id, Enrolled(e, now)), id, 0.0)
  }

  /** `identify_speaker`, with the extractor's output given as `probe`
      (`None` when extraction failed). */
  function Identify(db: Store, probe: Option<Emb>, sim: Similarity, centroid: Centroid, threshold: real,
                    stamp: string, token: string, now: string): (r: Identified)
    requires Valid(db)
    requires SpeakerId(token) !in db.speakers
    // Extraction failed: an `unknown_` id, confidence 0.0, store untouched.
    ensures probe.None? ==> r.db == db && r.id == UnknownId(stamp) && r.confidence == 0.0
    ensures Valid(r.db)
    // Cold start: the only speaker is the new one, holding just the probe.
    ensures probe.Some? && db.speakers == map[] ==>
      && r.id == SpeakerId(token) && r.confidence == 1.0
      && r.db.order == [r.id] && r.db.speakers == map[r.id := Enrolled(probe.value, now)]
    // Otherwise the decision after the matching loop.
    ensures probe.Some? && db.speakers != map[] ==>
      r == MatchOrEnrol(db, probe.value, sim, centroid, threshold, token, now)
  {
    match probe
    case None => Identified(db, UnknownId(stamp), 0.0)
    case Some(e) =>
      if db.speakers == map[] then
        EmptyOrder(db);
        var id := SpeakerId(token);
        Identified(Insert(db, id, Enrolled(e, now)), id, 1.0)
      else
        MatchOrEnrol(db, e, sim, centroid, threshold, token, now)
  }

  /** `create_new_speaker`: enrol without comparing. */
  function CreateNewSpeaker(db: Store, probe: Option<Emb>, stamp: string, token: string, now: string): (r: Created)
    requires SpeakerId(token) !in db.speakers
    ensures Valid(db) ==> Valid(r.db)
    ensures probe.None? ==> r.db == db && r.id == UnknownId(stamp)
    ensures probe.Some? ==>
      && r.id == SpeakerId(token) && r.id !in db.speakers
      && r.db.order == db.order + [r.id] && r.db.speakers.Keys == db.speakers.Keys + {r.id}
      && r.db.speakers[r.id] == Enrolled(probe.value, now)
      && (forall k | k in db.speakers :: r.db.speakers[k] == db.speakers[k])
  {
    match probe
    case None => Created(db, UnknownId(stamp))
    case Some(e) => Created(Insert(db, SpeakerId(token), Enrolled(e, now)), SpeakerId(token))
  }
}
