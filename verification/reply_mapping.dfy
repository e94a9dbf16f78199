/** How the classifiers turn a model's free-text reply into one of the three
    command types, and how `handle_query` reads the model's yes/no answer to
    "can the history answer this?". */
module ReplyMapping {
  import opened Text

  const Chat: string := "聊天"
  const Query: string := "查詢"
  const Action: string := "行動"

  /** One of the three command types the rest of the program dispatches on. */
  predicate IsCommandType(t: string) {
    t == Chat || t == Query || t == Action
  }

  /** The command type of a reply by the characters it contains, as the
      Bedrock-backed classifiers do on the stripped reply: a query mark wins
      over an action mark, and a reply with neither is chat. */
  function ByCharacter(reply: string): (t: string)
    ensures IsCommandType(t)
    ensures t == Query <==> ('查' in reply || '詢' in reply)
    ensures t == Action <==> !('查' in reply || '詢' in reply) && ('行' in reply || '動' in reply)
    ensures t == Chat <==> !('查' in reply || '詢' in reply || '行' in reply || '動' in reply)
  {
    var r := Strip(reply);
    StripKeepsChar(reply, '查');
    StripKeepsChar(reply, '詢');
    StripKeepsChar(reply, '行');
    StripKeepsChar(reply, '動');
    if '查' in r || '詢' in r then Query
    else if '行' in r || '動' in r then Action
    else Chat
  }

  /** The command type of a reply by exact membership, as the Gemini-backed
      classifier does: the stripped reply itself when it is a command type,
      chat otherwise. */
  function ByExactMatch(reply: string): (t: string)
    ensures IsCommandType(t)
    ensures t == Strip(reply) <==> IsCommandType(Strip(reply))
    ensures !IsCommandType(Strip(reply)) ==> t == Chat
  {
    var r := Strip(reply);
    if IsCommandType(r) then r else Chat
  }

  /** Classifying a command type again gives the same type. */
  lemma ByCharacterIdempotent(reply: string)
    ensures ByCharacter(ByCharacter(reply)) == ByCharacter(reply)
  {
    var t := ByCharacter(reply);
    if t == Query {
      assert t[0] == '查';
    } else if t == Action {
      assert t == ['行', '動'];
      assert !('查' in t || '詢' in t) && t[0] == '行';
    } else {
      assert t == ['聊', '天'];
      assert !('查' in t || '詢' in t || '行' in t || '動' in t);
    }
  }

  /** Exact matching is idempotent too. */
  lemma ByExactMatchIdempotent(reply: string)
    ensures ByExactMatch(ByExactMatch(reply)) == ByExactMatch(reply)
  {
    var t := ByExactMatch(reply);
    StripCommandType(t);
  }

  /** A command type has no surrounding whitespace. */
  lemma StripCommandType(t: string)
    requires IsCommandType(t)
    ensures Strip(t) == t
  {
    assert |t| == 2 && !IsSpace(t[0]) && !IsSpace(t[1]);
    assert t == [] + t + [];
    StripUnique(t, [], t, []);
  }

  /** On a reply that is exactly a command type (up to surrounding
      whitespace), the two mappings agree. */
  lemma MappingsAgreeOnExactReplies(reply: string)
    requires IsCommandType(Strip(reply))
    ensures ByCharacter(reply) == ByExactMatch(reply)
  {
    var r := Strip(reply);
    assert Chat == ['聊', '天'] && Query == ['查', '詢'] && Action == ['行', '動'];
    StripKeepsChar(reply, '查');
    StripKeepsChar(reply, '詢');
    StripKeepsChar(reply, '行');
    StripKeepsChar(reply, '動');
  }

  /** They differ on a reply that only contains a command type: the
      character rule reads it as a query, exact matching falls back to chat. */
  lemma MappingsDifferOnLongerReplies()
    ensures ByCharacter("查詢結果") == Query
    ensures ByExactMatch("查詢結果") == Chat
  {
    var s := "查詢結果";
    assert s[0] == '查';
    assert Strip(s) == s by {
      assert s == [] + s + [];
      StripUnique(s, [], s, []);
    }
  }

  const Can: string := "可以"
  const Cannot: string := "不可以"

  /** `handle_query`'s reading of the check reply (stripped): it answers from
      history when the reply says "可以" and never "不可以". */
  function HistoryAnswerable(reply: string): (yes: bool)
    ensures yes <==> Contains(reply, Can) && !Contains(reply, Cannot)
  {
    var r := Strip(reply);
    StripKeepsNeedle(reply, Can);
    StripKeepsNeedle(reply, Cannot);
    Contains(r, Can) && !Contains(r, Cannot)
  }

  /** A reply that says "不可以" also says "可以", so any refusal wins. */
  lemma RefusalWins(reply: string)
    requires Contains(reply, Cannot)
    ensures Contains(reply, Can)
    ensures !HistoryAnswerable(reply)
  {
    var i :| 0 <= i <= |reply| - |Cannot| && OccursAt(reply, Cannot, i);
    assert reply[i + 1..i + 3] == reply[i..i + 3][1..];
    assert OccursAt(reply, Can, i + 1);
  }

  /** The two one-word answers the prompt asks for are read as intended. */
  lemma HistoryAnswerableOnAnswers()
    ensures HistoryAnswerable("可以")
    ensures !HistoryAnswerable("不可以")
  {
    assert OccursAt(Can, Can, 0);
    assert OccursAt(Cannot, Cannot, 0);
    RefusalWins(Cannot);
  }
}
