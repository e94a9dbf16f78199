/** The speaker database shared by the recorder and the conversation log:
    a JSON object `{"speakers": {id: record}}` held in memory and written back
    to disk after each change. A record's keys may be missing (records come
    from disk or from the conversation log), so every field is optional. */
module SpeakerStore {
  import opened Optional

  type Id = string

  /** One voice embedding, a fixed-length vector of reals. */
  type Emb = seq<real>

  /** Cosine similarity of two embeddings, a parameter of the model. */
  type Similarity = (Emb, Emb) -> real

  /** One logged interaction. */
  datatype Conversation = Conversation(timestamp: string, query: string, response: string, commandType: string)

  /** A speaker record; `None` is a key absent from the record's dict. */
  datatype Speaker = Speaker(
    createdAt: Option<string>,
    embeddings: Option<seq<Emb>>,
    conversations: Option<seq<Conversation>>)

  /** The `speakers` dict: its entries, plus their insertion order, which
      Python's dict iteration follows. */
  datatype Store = Store(order: seq<Id>, speakers: map<Id, Speaker>)

  /** The order lists every id of the map exactly once. */
  predicate Valid(db: Store) {
    && (forall i, j | 0 <= i < j < |db.order| :: db.order[i] != db.order[j])
    && (forall i | 0 <= i < |db.order| :: db.order[i] in db.speakers)
    && (forall id | id in db.speakers :: id in db.order)
  }

  /** A valid store has no ids exactly when its map is empty. */
  lemma EmptyOrder(db: Store)
    requires Valid(db)
    ensures db.speakers == map[] <==> db.order == []
  {
    if db.order != [] {
      assert db.order[0] in db.speakers;
    }
    if db.speakers != map[] {
      var id :| id in db.speakers;
      assert id in db.order;
    }
  }

  /** `{"speakers": {}}` */
  const Empty := Store([], map[])

  /** The record the recorder writes for a newly enrolled voice. */
  function Enrolled(e: Emb, now: string): Speaker {
    Speaker(Some(now), Some([e]), Some([]))
  }

  /** The record the conversation log writes for an id it has not seen. */
  function Blank(now: string): Speaker {
    Speaker(Some(now), Some([]), Some([]))
  }

  /** Add a new key at the end of the dict. */
  function Insert(db: Store, id: Id, s: Speaker): (r: Store)
    requires id !in db.speakers
    ensures Valid(db) ==> Valid(r)
    ensures r.speakers.Keys == db.speakers.Keys + {id}
    ensures r.order == db.order + [id] && r.speakers[id] == s
    ensures forall k | k in db.speakers :: r.speakers[k] == db.speakers[k]
  {
    Store(db.order + [id], db.speakers[id := s])
  }

  /** Overwrite the record of an existing key; the dict keeps its order. */
  function Update(db: Store, id: Id, s: Speaker): (r: Store)
    requires id in db.speakers
    ensures Valid(db) ==> Valid(r)
    ensures r.order == db.order && r.speakers.Keys == db.speakers.Keys
    ensures r.speakers[id] == s
    ensures forall k | k in db.speakers && k != id :: r.speakers[k] == db.speakers[k]
  {
    Store(db.order, db.speakers[id := s])
  }

  /** The "create the record inline if the id is missing" step shared by
      save_conversation, _send_to_model, handle_query and handle_movement. */
  function CreateIfAbsent(db: Store, id: Id, now: string): (r: Store)
    ensures Valid(db) ==> Valid(r)
    ensures id in r.speakers
    ensures r.speakers.Keys == db.speakers.Keys + {id}
    ensures id in db.speakers ==> r == db
    ensures id !in db.speakers ==> r.order == db.order + [id] && r.speakers[id] == Blank(now)
    ensures forall k | k in db.speakers :: r.speakers[k] == db.speakers[k]
  {
    if id in db.speakers then db else Insert(db, id, Blank(now))
  }

  /** A record as `_save_speaker_db` writes it: `created_at` and
      `conversations` always present. */
  predicate Normalised(s: Speaker) {
    s.createdAt.Some? && s.conversations.Some?
  }

  /** One record of `_save_speaker_db`'s copy: `created_at` (defaulting to
      now), `conversations` (defaulting to `[]`), and `embeddings` only when
      the record has that key. */
  function SaveRecord(s: Speaker, now: string): (r: Speaker)
    ensures Normalised(r)
    ensures r.embeddings == s.embeddings
    ensures s.createdAt.Some? ==> r.createdAt == s.createdAt
    ensures s.createdAt.None? ==> r.createdAt == Some(now)
    ensures s.conversations.Some? ==> r.conversations == s.conversations
    ensures s.conversations.None? ==> r.conversations == Some([])
  {
    Speaker(Some(s.createdAt.GetOr(now)), s.embeddings, Some(s.conversations.GetOr([])))
  }

  /** The document `_save_speaker_db` writes. */
  function Save(db: Store, now: string): (doc: Store)
    ensures doc.order == db.order
    ensures doc.speakers.Keys == db.speakers.Keys
    ensures Valid(db) ==> Valid(doc)
    ensures forall id | id in doc.speakers :: Normalised(doc.speakers[id])
    ensures forall id | id in doc.speakers :: doc.speakers[id].embeddings == db.speakers[id].embeddings
    ensures forall id | id in db.speakers && Normalised(db.speakers[id]) :: doc.speakers[id] == db.speakers[id]
    // A field that is present is kept; a missing one gets its default.
    ensures forall id | id in db.speakers ::
      && (db.speakers[id].createdAt.Some? ==> doc.speakers[id].createdAt == db.speakers[id].createdAt)
      && (db.speakers[id].createdAt.None? ==> doc.speakers[id].createdAt == Some(now))
      && (db.speakers[id].conversations.Some? ==> doc.speakers[id].conversations == db.speakers[id].conversations)
      && (db.speakers[id].conversations.None? ==> doc.speakers[id].conversations == Some([]))
  {
    Store(db.order, map id | id in db.speakers :: SaveRecord(db.speakers[id], now))
  }

  /** `_load_speaker_db`: the parsed file, or an empty store when the file is
      missing or does not parse (`file == None`). */
  function Load(file: Option<Store>): (db: Store)
    ensures file.None? ==> db == Empty && Valid(db)
    ensures file.Some? ==> db == file.value
  {
    file.GetOr(Empty)
  }

  /** Saving an already normalised store writes it back unchanged. */
  lemma SaveKeepsNormalised(db: Store, now: string)
    requires forall id | id in db.speakers :: Normalised(db.speakers[id])
    ensures Save(db, now) == db
  {
    assert Save(db, now).speakers == db.speakers;
  }

  /** Saving is idempotent, whatever clock reading the second save sees. */
  lemma SaveIdempotent(db: Store, now: string, later: string)
    ensures Save(Save(db, now), later) == Save(db, now)
  {
    SaveKeepsNormalised(Save(db, now), later);
  }

  /** Persistence round trip: loading what was saved and saving again
      reproduces the saved document, with the same speakers in the same order,
      the same embeddings and the same conversations. */
  lemma SaveLoadRoundTrip(db: Store, now: string, later: string)
    ensures Load(Some(Save(db, now))) == Save(db, now)
    ensures Save(Load(Some(Save(db, now))), later) == Save(db, now)
  {
    SaveIdempotent(db, now, later);
  }
}
