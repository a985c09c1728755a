/**
 * Deriving read-state from an ordered (oldest first) list of messages:
 * `ReadMarker::latest` and `latest_triggers_unread`, both a backwards
 * `find` over the messages.
 */
module Derivation {
  import opened MetadataTypes

  /** `i` is the position of the last element of `s` that satisfies `p`. */
  ghost predicate IsLastWhere<T>(s: seq<T>, p: T -> bool, i: int) {
    && 0 <= i < |s|
    && p(s[i])
    && forall j :: i < j < |s| ==> !p(s[j])
  }

  /**
   * `s.iter().rev().find(p)`, answering with the position found: it looks at
   * the newest element first and moves towards the oldest.
   */
  function RevFind<T>(s: seq<T>, p: T -> bool): (r: Option<nat>)
    ensures r.None? <==> forall i :: 0 <= i < |s| ==> !p(s[i])
    ensures r.Some? ==> IsLastWhere(s, p, r.value)
  {
    if s == [] then None
    else if p(s[|s| - 1]) then Some(|s| - 1)
    else RevFind(s[..|s| - 1], p)
  }

  /** A message whose source is not `Source::Internal(_)`. */
  predicate IsExternal(m: Message) {
    !m.internal
  }

  /** `Message::triggers_unread()`. */
  predicate TriggersUnread(m: Message) {
    m.triggersUnread
  }

  /**
   * `ReadMarker::latest`: the server time of the newest message that is not
   * internal, or nothing when there is no such message.
   */
  function Latest(messages: seq<Message>): (r: Option<ReadMarker>)
    ensures r.None? <==> forall i :: 0 <= i < |messages| ==> messages[i].internal
    ensures r.Some? ==>
      exists i :: IsLastWhere(messages, IsExternal, i) && r.value == ReadMarker(messages[i].serverTime)
  {
    match RevFind(messages, IsExternal)
    case None => None
    case Some(i) => Some(ReadMarker(messages[i].serverTime))
  }

  /**
   * `latest_triggers_unread`: the server time of the newest message that
   * triggers unread, or nothing when no message does.
   */
  function LatestTriggersUnread(messages: seq<Message>): (r: Option<Instant>)
    ensures r.None? <==> forall i :: 0 <= i < |messages| ==> !messages[i].triggersUnread
    ensures r.Some? ==>
      exists i :: IsLastWhere(messages, TriggersUnread, i) && r.value == messages[i].serverTime
  {
    match RevFind(messages, TriggersUnread)
    case None => None
    case Some(i) => Some(messages[i].serverTime)
  }

  /** Appending a message: `find` over the reversed list meets it first. */
  lemma RevFindAppend<T>(s: seq<T>, x: T, p: T -> bool)
    ensures RevFind(s + [x], p) == if p(x) then Some(|s|) else RevFind(s, p)
  {
    // explanatory: the scan of `s + [x]` looks at `x`, then continues on `s`
    assert (s + [x])[..|s|] == s;
  }

  /**
   * A message that arrives moves the read marker to its own time unless it is
   * internal, in which case the marker stays where it was.
   */
  lemma LatestAfterArrival(messages: seq<Message>, m: Message)
    ensures Latest(messages + [m]) == if m.internal then Latest(messages) else Some(ReadMarker(m.serverTime))
  {
    // explanatory: an instance of RevFindAppend
    RevFindAppend(messages, m, IsExternal);
  }

  /**
   * A message that arrives becomes the last unread trigger if it triggers
   * unread; otherwise the last trigger stays what it was.
   */
  lemma LatestTriggersUnreadAfterArrival(messages: seq<Message>, m: Message)
    ensures LatestTriggersUnread(messages + [m])
         == if m.triggersUnread then Some(m.serverTime) else LatestTriggersUnread(messages)
  {
    // explanatory: an instance of RevFindAppend
    RevFindAppend(messages, m, TriggersUnread);
  }

  /** Messages in order of server time, oldest first. */
  ghost predicate Chronological(messages: seq<Message>) {
    forall i, j :: 0 <= i < j < |messages| ==> messages[i].serverTime <= messages[j].serverTime
  }

  /**
   * On a chronological list the read marker is the newest time of any
   * non-internal message, and it is the time of one of them.
   */
  lemma LatestIsNewestExternal(messages: seq<Message>)
    requires Chronological(messages)
    ensures Latest(messages).Some? ==>
      && (forall i :: 0 <= i < |messages| && !messages[i].internal ==>
            messages[i].serverTime <= Latest(messages).value.dateTime)
      && (exists i :: 0 <= i < |messages| && !messages[i].internal &&
            messages[i].serverTime == Latest(messages).value.dateTime)
  {
    match RevFind(messages, IsExternal)
    case None =>
    case Some(k) =>
      // explanatory: k is the last non-internal position, so every later message is internal
      assert Latest(messages).value.dateTime == messages[k].serverTime;
      forall i | 0 <= i < |messages| && !messages[i].internal
        ensures messages[i].serverTime <= messages[k].serverTime
      {
        assert IsExternal(messages[i]);
      }
  }
}
