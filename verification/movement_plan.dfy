/** `handle_movement` in the three classifiers: cut the JSON block out of the
    model's reply, accept it only if it has the two list fields a movement
    plan needs, and fall back to a fixed "no plan" answer otherwise. The
    Bedrock variant also logs the plan and has an early "no plan" branch. */
module MovementPlan {
  import opened Optional
  import opened Text
  import opened JsonValue
  import opened SpeakerStore
  import opened ReplyMapping
  import opened ConversationLog

  /** The opening fence of a JSON block, and the fence that closes it. */
  const Fence: string := "```json"
  const CloseFence: string := "```"

  /** `result.split("```json")[1].split("```")[0].strip()` when the reply has
      an opening fence, else the whole reply stripped. */
  function ExtractJson(reply: string): (candidate: string)
    ensures !Contains(reply, Fence) ==> candidate == Strip(reply)
    ensures |candidate| <= |reply|
  {
    if Contains(reply, Fence) then
      var parts := Split(reply, Fence);
      var inner := Split(parts[1], CloseFence)[0];
      assert |parts[1]| <= |reply| by {
        SplitSecond(reply, Fence);
        SplitFirst(reply[IndexOf(reply, Fence).value + |Fence|..], Fence);
      }
      assert |inner| <= |parts[1]| by {
        SplitFirst(parts[1], CloseFence);
      }
      Strip(inner)
    else Strip(reply)
  }

  lemma FencesHaveNoSpace()
    ensures NoSpace(Fence) && NoSpace(CloseFence)
  {
  }

  /** With an opening fence, the candidate is read from the text after it. */
  lemma ExtractAfterFence(s: string, rest: string)
    requires IndexOf(s, Fence).Some? && rest == s[IndexOf(s, Fence).value + |Fence|..]
    ensures ExtractJson(s) == Strip(Split(Split(rest, Fence)[0], CloseFence)[0])
  {
    SplitSecond(s, Fence);
  }

  /** Whitespace around the reply does not change the candidate, so the
      Bedrock variant, which extracts from the raw reply, and the other two,
      which strip the reply first, read the same JSON text. */
  lemma ExtractJsonIgnoresOuterSpace(reply: string)
    ensures ExtractJson(Strip(reply)) == ExtractJson(reply)
  {
    FencesHaveNoSpace();
    IndexOfUnderStrip(reply, Fence);
    if IndexOf(reply, Fence).None? {
      StripIdempotent(reply);
    } else {
      var cr, pad := StrippedRest(reply);
      ExtractPadded(reply, Strip(reply), cr, pad);
    }
  }

  /** The text after the opening fence in the reply is the text after it in
      the stripped reply, followed by the trailing whitespace. */
  lemma StrippedRest(reply: string) returns (cr: string, pad: string)
    requires IndexOf(reply, Fence).Some?
    ensures IndexOf(Strip(reply), Fence).Some?
    ensures cr == Strip(reply)[IndexOf(Strip(reply), Fence).value + |Fence|..]
    ensures reply[IndexOf(reply, Fence).value + |Fence|..] == cr + pad
    ensures forall k | 0 <= k < |pad| :: IsSpace(pad[k])
  {
    var c := Strip(reply);
    FencesHaveNoSpace();
    IndexOfUnderStrip(reply, Fence);
    var i' := IndexOf(c, Fence).value;
    var a, b := StripSplits(reply);
    cr := c[i' + |Fence|..];
    pad := b;
    SuffixOfConcat(a, c, b, i' + |Fence|);
  }

  /** Whitespace after the text that follows the opening fence does not change
      the candidate. */
  lemma ExtractPadded(reply: string, c: string, cr: string, pad: string)
    requires IndexOf(reply, Fence).Some? && IndexOf(c, Fence).Some?
    requires reply[IndexOf(reply, Fence).value + |Fence|..] == cr + pad
    requires cr == c[IndexOf(c, Fence).value + |Fence|..]
    requires forall k | 0 <= k < |pad| :: IsSpace(pad[k])
    ensures ExtractJson(reply) == ExtractJson(c)
  {
    FencesHaveNoSpace();
    ExtractAfterFence(reply, cr + pad);
    ExtractAfterFence(c, cr);
    var piece := Split(cr, Fence)[0];
    var w1 := SplitFirstPadded(cr, pad, Fence);
    var w2 := SplitFirstPadded(piece, w1, CloseFence);
    StripPadded(Split(piece, CloseFence)[0], w2);
  }

  /** An opening fence also starts with a closing fence. */
  lemma FenceOpensWithClose(s: string, k: int)
    requires OccursAt(s, Fence, k)
    ensures OccursAt(s, CloseFence, k)
  {
    assert s[k..k + 3] == s[k..k + 7][..3];
  }

  /** The part of `rest` before its first opening fence ends either where a
      closing fence starts at `J`, or at least a full closing fence later. */
  lemma FirstPieceEnd(rest: string, J: nat) returns (P: nat)
    requires J <= |rest|
    requires forall k | 0 <= k < J :: !OccursAt(rest, CloseFence, k)
    requires J == |rest| || OccursAt(rest, CloseFence, J)
    requires forall k | J < k < J + |CloseFence| :: !OccursAt(rest, Fence, k)
    ensures J <= P <= |rest| && Split(rest, Fence)[0] == rest[..P]
    ensures P == J || J + |CloseFence| <= P
  {
    SplitFirst(rest, Fence);
    if IndexOf(rest, Fence).Some? {
      P := IndexOf(rest, Fence).value;
      FenceOpensWithClose(rest, P);
    } else {
      P := |rest|;
    }
  }

  /** Cut at `P` no earlier than the first closing fence at `J`, the first
      piece of the closing split is everything before `J`. */
  lemma CloseSplitHead(rest: string, P: nat, J: nat)
    requires J <= P <= |rest|
    requires forall k | 0 <= k < J :: !OccursAt(rest, CloseFence, k)
    requires P == J || (J + |CloseFence| <= P && OccursAt(rest, CloseFence, J))
    ensures Split(rest[..P], CloseFence)[0] == rest[..J]
  {
    var piece := rest[..P];
    forall k | k < J ensures !OccursAt(piece, CloseFence, k) {
      OccursInPrefix(rest, CloseFence, P, k);
    }
    SplitFirst(piece, CloseFence);
    if P == J {
      forall k ensures !OccursAt(piece, CloseFence, k) {
        OccursInPrefix(rest, CloseFence, P, k);
      }
      assert !Contains(piece, CloseFence);
    } else {
      OccursInPrefix(rest, CloseFence, P, J);
      assert IndexOf(piece, CloseFence) == Some(J);
    }
  }

  /** The candidate is the text between the first opening fence (at `i`) and
      the next closing fence (at `j`, or the end of the reply), stripped.
      The last condition excludes an opening fence that starts inside that
      closing fence: the first split would then cut there first. */
  lemma ExtractJsonBetweenFences(reply: string, i: nat, j: nat)
    requires IndexOf(reply, Fence) == Some(i)
    requires i + |Fence| <= j <= |reply|
    requires forall k | i + |Fence| <= k < j :: !OccursAt(reply, CloseFence, k)
    requires j == |reply| || OccursAt(reply, CloseFence, j)
    requires forall k | j < k < j + |CloseFence| :: !OccursAt(reply, Fence, k)
    ensures ExtractJson(reply) == Strip(reply[i + |Fence|..j])
  {
    var a := i + |Fence|;
    var rest := reply[a..];
    assert Split(Split(rest, Fence)[0], CloseFence)[0] == rest[..j - a] by {
      ShiftFences(reply, a, j);
      BlockInRest(rest, j - a);
    }
    assert rest[..j - a] == reply[a..j];
    calc {
      ExtractJson(reply);
      { ExtractAfterFence(reply, rest); }
      Strip(Split(Split(rest, Fence)[0], CloseFence)[0]);
      Strip(rest[..j - a]);
      Strip(reply[a..j]);
    }
  }

  /** In the text after the opening fence, the two splits leave everything
      before the first closing fence at `J`. */
  lemma BlockInRest(rest: string, J: nat)
    requires J <= |rest|
    requires forall k | 0 <= k < J :: !OccursAt(rest, CloseFence, k)
    requires J == |rest| || OccursAt(rest, CloseFence, J)
    requires forall k | J < k < J + |CloseFence| :: !OccursAt(rest, Fence, k)
    ensures Split(Split(rest, Fence)[0], CloseFence)[0] == rest[..J]
  {
    var P := FirstPieceEnd(rest, J);
    CloseSplitHead(rest, P, J);
  }

  /** The fence facts about the reply, read in the text after position `a`. */
  lemma ShiftFences(reply: string, a: nat, j: nat)
    requires a <= j <= |reply|
    requires forall k | a <= k < j :: !OccursAt(reply, CloseFence, k)
    requires j == |reply| || OccursAt(reply, CloseFence, j)
    requires forall k | j < k < j + |CloseFence| :: !OccursAt(reply, Fence, k)
    ensures var rest := reply[a..]; var J := j - a;
      && J <= |rest|
      && (forall k | 0 <= k < J :: !OccursAt(rest, CloseFence, k))
      && (J == |rest| || OccursAt(rest, CloseFence, J))
      && (forall k | J < k < J + |CloseFence| :: !OccursAt(rest, Fence, k))
  {
    var rest := reply[a..];
    var J := j - a;
    forall k | 0 <= k < J ensures !OccursAt(rest, CloseFence, k) {
      OccursInSuffix(reply, CloseFence, a, k);
    }
    forall k | J < k < J + |CloseFence| ensures !OccursAt(rest, Fence, k) {
      OccursInSuffix(reply, Fence, a, k);
    }
    if J < |rest| {
      OccursInSuffix(reply, CloseFence, a, J);
    }
  }


  /** When no closing fence fits before the second opening fence, the
      candidate runs up to that second opening fence. */
  lemma ExtractUpToNextFence(reply: string, i: nat, rest: string, m: nat)
    requires IndexOf(reply, Fence) == Some(i)
    requires rest == reply[i + |Fence|..]
    requires IndexOf(rest, Fence) == Some(m)
    requires forall k | 0 <= k && k + |CloseFence| <= m :: !OccursAt(rest, CloseFence, k)
    ensures ExtractJson(reply) == Strip(rest[..m])
  {
    var piece := rest[..m];
    assert Split(rest, Fence)[0] == piece by {
      SplitFirst(rest, Fence);
    }
    assert Split(piece, CloseFence)[0] == piece by {
      forall k ensures !OccursAt(piece, CloseFence, k) {
        OccursInPrefix(rest, CloseFence, m, k);
      }
      SplitFirst(piece, CloseFence);
    }
    calc {
      ExtractJson(reply);
      { ExtractAfterFence(reply, rest); }
      Strip(Split(Split(rest, Fence)[0], CloseFence)[0]);
      Strip(Split(piece, CloseFence)[0]);
      Strip(piece);
    }
  }

  /** The example reply's first opening fence. */
  lemma BacktickRunFirstFence(s: string)
    requires s == "```json a````json b```"
    ensures IndexOf(s, Fence) == Some(0)
    ensures s[|Fence|..] == " a````json b```"
  {
    assert OccursAt(s, Fence, 0);
  }

  /** After it, the next opening fence starts on the second of four
      backticks, and no closing fence fits before it. */
  lemma BacktickRunSecondFence(rest: string)
    requires rest == " a````json b```"
    ensures IndexOf(rest, Fence) == Some(3)
    ensures forall k | 0 <= k && k + |CloseFence| <= 3 :: !OccursAt(rest, CloseFence, k)
    ensures rest[..3] == " a`"
  {
    assert rest[0] == ' ' && rest[1] == 'a' && rest[5] == '`' && Fence[3] == 'j';
    assert !OccursAt(rest, Fence, 0) && !OccursAt(rest, Fence, 1) && !OccursAt(rest, Fence, 2);
    assert OccursAt(rest, Fence, 3);
    assert CloseFence[0] == '`';
  }

  /** With an opening fence directly followed by a fence of four backticks,
      the block runs to the second opening fence, one backtick past the
      first closing fence. */
  lemma ExtractJsonBacktickRun(s: string)
    requires s == "```json a````json b```"
    ensures ExtractJson(s) == "a`"
  {
    BacktickRunFirstFence(s);
    var rest := s[|Fence|..];
    BacktickRunSecondFence(rest);
    ExtractUpToNextFence(s, 0, rest, 3);
    StripBacktickPiece(rest[..3]);
  }

  /** The example's block, stripped. */
  lemma StripBacktickPiece(x: string)
    requires x == " a`"
    ensures Strip(x) == "a`"
  {
    var stripped: string := "a`";
    assert x == [' '] + stripped + [];
    StripUnique(x, [' '], stripped, []);
  }

  const Steps: string := "動作順序"
  const Notes: string := "說明"
  const NoPlan: string := "無法生成有效的動作計劃"

  /** A movement plan: an object whose step and note fields are both lists. */
  predicate ValidPlan(j: Json) {
    && j.JObject?
    && Steps in j.fields && Notes in j.fields
    && j.fields[Steps].JArray? && j.fields[Notes].JArray?
  }

  /** The answer when no plan could be read: no steps, one explanatory note. */
  const FallbackPlan: Json := JObject(map[Steps := JArray([]), Notes := JArray([JString(NoPlan)])])

  lemma FallbackPlanValid()
    ensures ValidPlan(FallbackPlan)
  {
  }

  /** The `try` block: parse the candidate (`parse` returns `None` where
      `json.loads` raises) and keep it only when it is a valid plan. */
  function AcceptPlan(candidate: string, parse: string -> Option<Json>): (plan: Json)
    ensures ValidPlan(plan)
    ensures parse(candidate).Some? && ValidPlan(parse(candidate).value) ==> plan == parse(candidate).value
    ensures !(parse(candidate).Some? && ValidPlan(parse(candidate).value)) ==> plan == FallbackPlan
  {
    match parse(candidate)
    case Some(j) => if ValidPlan(j) then j else FallbackPlan
    case None => FallbackPlan
  }

  /** `handle_movement` of the Gemini-backed and the first Bedrock-backed
      classifier: the reply is stripped, its JSON block extracted and
      accepted or replaced by the fallback. */
  function PlanFromReply(reply: string, parse: string -> Option<Json>): (plan: Json)
    ensures ValidPlan(plan)
    ensures plan != FallbackPlan ==> parse(ExtractJson(Strip(reply))) == Some(plan)
    ensures var p := parse(ExtractJson(Strip(reply))); p.Some? && ValidPlan(p.value) ==> plan == p.value
    ensures var p := parse(ExtractJson(Strip(reply))); !(p.Some? && ValidPlan(p.value)) ==> plan == FallbackPlan
  {
    AcceptPlan(ExtractJson(Strip(reply)), parse)
  }

  /** `[str(x) for x in items]` when every item is a string, as
      `", ".join(items)` needs; `None` where it raises `TypeError`. */
  function Texts(items: seq<Json>): (r: Option<seq<string>>)
    ensures r.Some? <==> forall k | 0 <= k < |items| :: items[k].JString?
    ensures r.Some? ==> |r.value| == |items| && forall k | 0 <= k < |items| :: r.value[k] == items[k].s
    decreases |items|
  {
    if |items| == 0 then Some([])
    else if !items[0].JString? then None
    else match Texts(items[1..])
      case None => None
      case Some(rest) => Some([items[0].s] + rest)
  }

  /** How a plan is logged as the response of a conversation:
      `"動作順序: " + ", ".join(steps) + "\n說明: " + "\n- ".join(notes)`. */
  function PlanText(plan: Json): (text: Option<string>)
    requires ValidPlan(plan)
    ensures text.Some? <==>
      (forall k | 0 <= k < |plan.fields[Steps].items| :: plan.fields[Steps].items[k].JString?) &&
      (forall k | 0 <= k < |plan.fields[Notes].items| :: plan.fields[Notes].items[k].JString?)
  {
    match (Texts(plan.fields[Steps].items), Texts(plan.fields[Notes].items))
    case (Some(steps), Some(notes)) => Some("動作順序: " + Join(steps, ", ") + "\n說明: " + Join(notes, "\n- "))
    case _ => None
  }

  /** What the early "no plan" branch returns when there is no speaker. */
  function NoPlanRecord(text: string, stamp: string): Json {
    JObject(map[
      "timestamp" := JString(stamp),
      "command" := JString(text),
      "movement_plan" := FallbackPlan,
      "command_type" := JString(Action)])
  }

  /** The outcome of the Bedrock `handle_movement`: the in-memory store and
      the returned object, or `None` where an exception escapes. */
  datatype Movement = Movement(db: Store, plan: Option<Json>)

  /** The parsed reply, when it is a valid plan. */
  function Parsed(reply: string, parse: string -> Option<Json>): Option<Json> {
    var p := parse(ExtractJson(reply));
    if p.Some? && ValidPlan(p.value) then p else None
  }

  /** The Bedrock `handle_movement`, given the model's reply. The record is
      ensured by the create step and by `_send_to_model` with history. A
      reply containing the no-plan phrase short-circuits: without a speaker
      the wrapper object is returned; with one, line 468 indexes the steps
      key on the wrapper, which only has it under `movement_plan`, and the
      `KeyError` escapes. Otherwise the plan is parsed; a valid one is logged
      for a truthy id (a non-string step or note makes `join` raise
      `TypeError`, which is not caught) and returned, and anything else
      returns the fallback. */
  function HandleMovement(db: Store, speakerId: Option<Id>, text: string, reply: string,
                          parse: string -> Option<Json>, now: string, stamp: string): (r: Movement)
    ensures Valid(db) ==> Valid(r.db)
    ensures !Truthy(speakerId) ==> r.db == db
    // An exception escapes exactly on the no-plan phrase or an unloggable plan, with a speaker.
    ensures r.plan.None? <==> (Truthy(speakerId) &&
      (Contains(reply, NoPlan) || (Parsed(reply, parse).Some? && PlanText(Parsed(reply, parse).value).None?)))
    // Without the phrase, what is returned is a valid plan: the parsed one, or the fallback.
    ensures !Contains(reply, NoPlan) && r.plan.Some? ==>
      && ValidPlan(r.plan.value)
      && r.plan.value == (if Parsed(reply, parse).Some? then Parsed(reply, parse).value else FallbackPlan)
    ensures Contains(reply, NoPlan) && r.plan.Some? ==> r.plan.value == NoPlanRecord(text, stamp)
    // A speaker's log grows by one entry exactly when a valid plan is returned for it.
    ensures Truthy(speakerId) ==> var id := speakerId.value;
      if !Contains(reply, NoPlan) && r.plan.Some? && Parsed(reply, parse).Some? then
        History(r.db, id) == History(db, id) + [Conversation(now, text, PlanText(r.plan.value).value, Action)]
      else
        History(r.db, id) == History(db, id)
    // The record is created at the end if missing and always has a
    // `conversations` list; every other record, and this one's creation time
    // and embeddings, are kept.
    ensures Truthy(speakerId) ==> (var id := speakerId.value;
      && r.db.speakers.Keys == db.speakers.Keys + {id}
      && r.db.speakers[id].conversations.Some?
      && (forall k | k in db.speakers && k != id :: r.db.speakers[k] == db.speakers[k])
      && (id in db.speakers ==>
            && r.db.order == db.order
            && r.db.speakers[id].createdAt == db.speakers[id].createdAt
            && r.db.speakers[id].embeddings == db.speakers[id].embeddings)
      && (id !in db.speakers ==>
            && r.db.order == db.order + [id]
            && r.db.speakers[id].createdAt == Some(now)
            && r.db.speakers[id].embeddings == Some([])))
  {
    var db1 := if Truthy(speakerId) then CreateIfAbsent(db, speakerId.value, now) else db;
    var db2 := WithHistory(db1, text, speakerId, true, now).db;
    if Contains(reply, NoPlan) then
      if Truthy(speakerId) then Movement(db2, None)
      else Movement(db2, Some(NoPlanRecord(text, stamp)))
    else
      match Parsed(reply, parse)
      case None => Movement(db2, Some(FallbackPlan))
      case Some(plan) =>
        if !Truthy(speakerId) then Movement(db2, Some(plan))
        else match PlanText(plan)
          case None => Movement(db2, None)
          case Some(t) => Movement(SaveConversation(db2, speakerId, text, t, Action, now), Some(plan))
  }

  /** Without a speaker and without the no-plan phrase, the Bedrock variant
      returns the same plan as the other two. */
  lemma MovementVariantsAgree(db: Store, text: string, reply: string, parse: string -> Option<Json>,
                              now: string, stamp: string)
    requires !Contains(reply, NoPlan)
    ensures HandleMovement(db, None, text, reply, parse, now, stamp).plan == Some(PlanFromReply(reply, parse))
  {
    ExtractJsonIgnoresOuterSpace(reply);
  }
}
