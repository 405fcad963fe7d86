/**
 * Trimming a window of chat history so that it can be sent to the model again: a tool message is
 * only allowed after the assistant message that called the tool.
 */
module ChatHistory {

  datatype Message =
    | User(text: string)
    | System(text: string)
    | Assistant(text: string, toolCalls: seq<string>)
    | Tool(toolCallId: string, text: string)

  predicate CallsTools(m: Message) { m.Assistant? && m.toolCalls != [] }

  function NonEmptyIds(m: Message): set<string> {
    if m.Assistant? then (set id | id in m.toolCalls) - {""} else {}
  }

  /** The non-empty call ids of the assistant messages. */
  function ClaimedIds(ms: seq<Message>): set<string> {
    if ms == [] then {} else
      ClaimedIds(ms[..|ms| - 1]) + NonEmptyIds(ms[|ms| - 1])
  }

  function DropOrphans(ms: seq<Message>, claimed: set<string>): seq<Message> {
    if ms != [] && ms[0].Tool? && ms[0].toolCallId !in claimed then DropOrphans(ms[1..], claimed) else ms
  }

  function DropTools(ms: seq<Message>): (r: seq<Message>)
    ensures |r| <= |ms|
  {
    if ms != [] && ms[0].Tool? then DropTools(ms[1..]) else ms
  }

  function DropGroups(ms: seq<Message>): seq<Message>
    decreases |ms|
  {
    if ms != [] && CallsTools(ms[0]) then DropGroups(DropTools(ms[1..])) else ms
  }

  function Sanitized(ms: seq<Message>): seq<Message> {
    DropGroups(DropOrphans(ms, ClaimedIds(ms)))
  }

  method SanitizeHistoryMessages(messages: seq<Message>) returns (sanitized: seq<Message>)
    ensures sanitized == Sanitized(messages)
  {
    var claimedIds: set<string> := {};
    var i := 0;
    while i < |messages|
      invariant 0 <= i <= |messages|
      invariant claimedIds == ClaimedIds(messages[..i])
    {
      assert messages[..i + 1][..i] == messages[..i];
      if messages[i].Assistant? {
        claimedIds := claimedIds + NonEmptyIds(messages[i]);
      }
      i := i + 1;
    }
    assert messages[..i] == messages;

    var start := 0;
    while start < |messages|
      invariant 0 <= start <= |messages|
      invariant DropOrphans(messages, claimedIds) == DropOrphans(messages[start..], claimedIds)
    {
      if messages[start].Tool? && messages[start].toolCallId !in claimedIds {
        assert messages[start..][1..] == messages[start + 1..];
        start := start + 1;
        continue;
      }
      break;
    }

    sanitized := messages[start..];
    while |sanitized| > 0
      invariant Sanitized(messages) == DropGroups(sanitized)
      decreases |sanitized|
    {
      if !CallsTools(sanitized[0]) { break; }
      ghost var group := sanitized;
      sanitized := sanitized[1..];
      while |sanitized| > 0 && sanitized[0].Tool?
        invariant |sanitized| < |group|
        invariant DropTools(group[1..]) == DropTools(sanitized)
      {
        sanitized := sanitized[1..];
      }
    }
  }

  // ---- For any window at all ----

  ghost predicate SuffixOf(s: seq<Message>, ms: seq<Message>) {
    |s| <= |ms| && s == ms[|ms| - |s|..]
  }

  lemma SuffixTransitive(a: seq<Message>, b: seq<Message>, c: seq<Message>)
    requires SuffixOf(a, b) && SuffixOf(b, c)
    ensures SuffixOf(a, c)
  {
  }

  lemma SuffixOfItself(ms: seq<Message>)
    ensures SuffixOf(ms, ms)
  {
  }

  lemma TailIsSuffix(ms: seq<Message>)
    requires ms != []
    ensures SuffixOf(ms[1..], ms)
  {
  }

  lemma {:induction false} DropOrphansSuffix(ms: seq<Message>, claimed: set<string>)
    ensures SuffixOf(DropOrphans(ms, claimed), ms)
  {
    hide SuffixOf;
    if ms != [] && ms[0].Tool? && ms[0].toolCallId !in claimed {
      DropOrphansSuffix(ms[1..], claimed);
      TailIsSuffix(ms);
      SuffixTransitive(DropOrphans(ms[1..], claimed), ms[1..], ms);
    } else {
      SuffixOfItself(ms);
    }
  }

  lemma {:induction false} DropToolsSuffix(ms: seq<Message>)
    ensures SuffixOf(DropTools(ms), ms) && (DropTools(ms) != [] ==> !DropTools(ms)[0].Tool?)
  {
    hide SuffixOf;
    if ms != [] && ms[0].Tool? {
      DropToolsSuffix(ms[1..]);
      TailIsSuffix(ms);
      SuffixTransitive(DropTools(ms[1..]), ms[1..], ms);
    } else {
      SuffixOfItself(ms);
    }
  }

  lemma {:induction false} DropGroupsSuffix(ms: seq<Message>)
    ensures SuffixOf(DropGroups(ms), ms)
    ensures DropGroups(ms) != [] ==> !CallsTools(DropGroups(ms)[0])
    ensures DropGroups(ms) != [] && DropGroups(ms)[0].Tool? ==> DropGroups(ms) == ms
    decreases |ms|
  {
    hide SuffixOf, DropTools;
    if ms != [] && CallsTools(ms[0]) {
      var rest := DropTools(ms[1..]);
      DropToolsSuffix(ms[1..]);
      DropGroupsSuffix(rest);
      TailIsSuffix(ms);
      SuffixTransitive(rest, ms[1..], ms);
      SuffixTransitive(DropGroups(rest), rest, ms);
    } else {
      SuffixOfItself(ms);
    }
  }

  ghost predicate StartsClean(ms: seq<Message>) {
    ms == [] || (!ms[0].Tool? && !CallsTools(ms[0]))
  }

  /** An assistant message of the window calls the tool under this id. */
  ghost predicate Claimed(ms: seq<Message>, id: string) {
    id != "" && exists m :: m in ms && m.Assistant? && id in m.toolCalls
  }

  ghost predicate Orphan(ms: seq<Message>, i: nat)
    requires i < |ms|
  {
    ms[i].Tool? && !Claimed(ms, ms[i].toolCallId)
  }

  /** A tool result that a call of the window claims, behind nothing but orphans. */
  ghost predicate ClaimedInFront(ms: seq<Message>, i: nat)
    requires i < |ms|
  {
    ms[i].Tool? && !Orphan(ms, i) && forall j :: 0 <= j < i ==> Orphan(ms, j)
  }

  lemma {:induction false} DropOrphansIs(ms: seq<Message>, claimed: set<string>)
    ensures var kept := DropOrphans(ms, claimed);
            && |kept| <= |ms| && kept == ms[|ms| - |kept|..]
            && (forall i :: 0 <= i < |ms| - |kept| ==> ms[i].Tool? && ms[i].toolCallId !in claimed)
            && (kept != [] ==> !(kept[0].Tool? && kept[0].toolCallId !in claimed))
  {
    if ms != [] && ms[0].Tool? && ms[0].toolCallId !in claimed {
      DropOrphansIs(ms[1..], claimed);
      assert forall i :: 0 < i < |ms| ==> ms[i] == ms[1..][i - 1];
    }
  }

  lemma KeptIsAfterOrphans(ms: seq<Message>) returns (start: nat)
    ensures start <= |ms| && DropOrphans(ms, ClaimedIds(ms)) == ms[start..]
    ensures forall i :: 0 <= i < start ==> Orphan(ms, i)
    ensures start < |ms| ==> !Orphan(ms, start)
  {
    var kept := DropOrphans(ms, ClaimedIds(ms));
    DropOrphansIs(ms, ClaimedIds(ms));
    start := |ms| - |kept|;
    forall i | 0 <= i < |ms| && ms[i].Tool?
      ensures Orphan(ms, i) <==> ms[i].toolCallId !in ClaimedIds(ms)
    {
      ClaimedIdsOf(ms, ms[i].toolCallId);
    }
    if start < |ms| { assert kept[0] == ms[start]; }
  }

  /**
   * The result is always a suffix of the window. It starts with neither a tool result nor a tool
   * call unless, after nothing but orphaned results, the window has a result that some call in it
   * claims.
   */
  lemma SanitizedStartsCleanIff(ms: seq<Message>)
    ensures SuffixOf(Sanitized(ms), ms)
    ensures StartsClean(Sanitized(ms)) <==>
            !exists i :: 0 <= i < |ms| && ClaimedInFront(ms, i)
  {
    var kept := DropOrphans(ms, ClaimedIds(ms));
    DropOrphansSuffix(ms, ClaimedIds(ms));
    DropGroupsSuffix(kept);
    var start := KeptIsAfterOrphans(ms);
    hide Orphan, DropOrphans, ClaimedIds;
    forall i | 0 <= i < |ms| && ClaimedInFront(ms, i)
      ensures i == start
    {
    }
    if start < |ms| {
      assert kept[0] == ms[start];
      assert ClaimedInFront(ms, start) <==> ms[start].Tool?;
    }
  }

  /** A tool message or an assistant message that calls tools. */
  ghost predicate OfGroup(m: Message) { m.Tool? || CallsTools(m) }

  lemma {:induction false} DropToolsIs(ms: seq<Message>)
    ensures var kept := DropTools(ms);
            && kept == ms[|ms| - |kept|..]
            && (forall i :: 0 <= i < |ms| - |kept| ==> ms[i].Tool?)
            && (kept != [] ==> !kept[0].Tool?)
  {
    if ms != [] && ms[0].Tool? {
      DropToolsIs(ms[1..]);
      assert forall i :: 0 < i < |ms| ==> ms[i] == ms[1..][i - 1];
    }
  }

  lemma {:induction false} DropGroupsIs(ms: seq<Message>)
    ensures var kept := DropGroups(ms);
            && |kept| <= |ms| && kept == ms[|ms| - |kept|..]
            && (forall i :: 0 <= i < |ms| - |kept| ==> OfGroup(ms[i]))
            && (|kept| < |ms| ==> CallsTools(ms[0]) && (kept != [] ==> !kept[0].Tool?))
            && (kept != [] ==> !CallsTools(kept[0]))
    decreases |ms|
  {
    if ms != [] && CallsTools(ms[0]) {
      var rest := DropTools(ms[1..]);
      DropToolsIs(ms[1..]);
      DropGroupsIs(rest);
      var kept := DropGroups(rest);
      hide DropTools, DropGroups, CallsTools;
      forall i | 0 <= i < |ms| - |kept| ensures OfGroup(ms[i]) {
        if 0 < i < |ms| - |rest| {
          assert ms[1..][i - 1] == ms[i];
        } else if i >= |ms| - |rest| {
          assert rest[i - (|ms| - |rest|)] == ms[i];
        }
      }
    }
  }

  /**
   * Of any window, nothing goes but the orphaned results in front, up to the first message that is
   * none, and from there the unbroken stretch of calls and results that a call begins, up to the
   * first message that is neither.
   */
  lemma SanitizedDropsExactly(ms: seq<Message>) returns (start: nat, end: nat)
    ensures start <= end <= |ms| && Sanitized(ms) == ms[end..]
    ensures (forall i :: 0 <= i < start ==> Orphan(ms, i)) && (start < |ms| ==> !Orphan(ms, start))
    ensures forall i :: start <= i < end ==> OfGroup(ms[i])
    ensures start < |ms| ==> (start < end <==> CallsTools(ms[start]))
    ensures start < end < |ms| ==> !OfGroup(ms[end])
  {
    start := KeptIsAfterOrphans(ms);
    var kept := ms[start..];
    DropGroupsIs(kept);
    end := |ms| - |DropGroups(kept)|;
    hide Orphan, DropGroups;
    assert forall i :: start <= i < |ms| ==> ms[i] == kept[i - start];
  }

  /** A tool result claimed by a later call is left at the front, against the stated strategy. */
  lemma ClaimedToolStaysInFront()
    ensures var ms := [Tool("a", ""), Assistant("", ["a"])]; Sanitized(ms) == ms && !StartsClean(ms)
  {
    var ms := [Tool("a", ""), Assistant("", ["a"])];
    assert ms[..1] == [Tool("a", "")] && ms[..1][..0] == [];
    assert ClaimedIds(ms[..1]) == {};
    assert "a" in ClaimedIds(ms);
  }

  // ---- Windows of a well-formed history ----

  /** A history is made of single messages and of tool-call groups, a call followed by its results. */
  datatype Block = Say(message: Message) | Group(text: string, calls: seq<string>, answers: seq<Message>)

  /** A single message is the user's or a plain assistant's; a group answers its own calls only, perhaps not all. */
  ghost predicate Complete(b: Block) {
    match b
    case Say(m) => m.User? || (m.Assistant? && m.toolCalls == [])
    case Group(_, calls, answers) =>
      && calls != [] && (forall id :: id in calls ==> id != "")
      && (forall m :: m in answers ==> m.Tool? && m.toolCallId in calls)
  }

  /** Every call of the block got its result. */
  ghost predicate Answered(b: Block) {
    b.Group? ==> forall id :: id in b.calls ==> exists m :: m in b.answers && m.Tool? && m.toolCallId == id
  }

  function CallsOf(b: Block): seq<string> { if b.Group? then b.calls else [] }

  ghost predicate History(bs: seq<Block>) {
    && (forall i :: 0 <= i < |bs| ==> Complete(bs[i]))
    && (forall i, j, id :: 0 <= i < j < |bs| && id in CallsOf(bs[i]) ==> id !in CallsOf(bs[j]))
  }

  function MessagesOf(b: Block): (r: seq<Message>)
    ensures |r| > 0
  {
    match b
    case Say(m) => [m]
    case Group(text, calls, answers) => [Assistant(text, calls)] + answers
  }

  function Flatten(bs: seq<Block>): seq<Message> {
    if bs == [] then [] else MessagesOf(bs[0]) + Flatten(bs[1..])
  }

  /** The blocks left of a window that starts at message k: from the first whole block that is no group. */
  function WholeBlocksFrom(bs: seq<Block>, k: nat): seq<Block> {
    if bs == [] then []
    else if k == 0 && bs[0].Say? then bs
    else if k >= |MessagesOf(bs[0])| then WholeBlocksFrom(bs[1..], k - |MessagesOf(bs[0])|)
    else WholeBlocksFrom(bs[1..], 0)
  }

  lemma HistoryTail(bs: seq<Block>)
    requires History(bs) && bs != []
    ensures History(bs[1..]) && Complete(bs[0]) && forall i :: 0 <= i < |bs[1..]| ==> Complete(bs[1..][i])
  {
  }

  lemma {:induction false} DropToolsOf(tools: seq<Message>, rest: seq<Message>)
    requires (forall m :: m in tools ==> m.Tool?) && (rest != [] ==> !rest[0].Tool?)
    ensures DropTools(tools + rest) == rest
  {
    if tools == [] {
      assert tools + rest == rest;
    } else {
      assert (tools + rest)[1..] == tools[1..] + rest;
      DropToolsOf(tools[1..], rest);
    }
  }

  lemma {:induction false} DropOrphansOf(tools: seq<Message>, rest: seq<Message>, claimed: set<string>)
    requires (forall m :: m in tools ==> m.Tool? && m.toolCallId !in claimed) && (rest != [] ==> !rest[0].Tool?)
    ensures DropOrphans(tools + rest, claimed) == rest
  {
    if tools == [] {
      assert tools + rest == rest;
    } else {
      assert (tools + rest)[1..] == tools[1..] + rest;
      DropOrphansOf(tools[1..], rest, claimed);
    }
  }

  lemma {:induction false} ClaimedIdsOf(ms: seq<Message>, id: string)
    ensures id in ClaimedIds(ms) <==> id != "" && exists m :: m in ms && m.Assistant? && id in m.toolCalls
  {
    if ms != [] {
      var init, last := ms[..|ms| - 1], ms[|ms| - 1];
      ClaimedIdsOf(init, id);
      assert ms == init + [last];
      assert forall m :: m in ms <==> m in init || m == last;
    }
  }

  lemma {:induction false} CallersInFlatten(bs: seq<Block>, m: Message)
    requires (forall i :: 0 <= i < |bs| ==> Complete(bs[i])) && m in Flatten(bs) && m.Assistant?
    ensures forall id :: id in m.toolCalls ==> exists i :: 0 <= i < |bs| && id in CallsOf(bs[i])
  {
    if m in MessagesOf(bs[0]) {
      assert forall id :: id in m.toolCalls ==> id in CallsOf(bs[0]);
    } else {
      CallersInFlatten(bs[1..], m);
      forall id | id in m.toolCalls
        ensures exists i :: 0 <= i < |bs| && id in CallsOf(bs[i])
      {
        var i :| 0 <= i < |bs[1..]| && id in CallsOf(bs[1..][i]);
        assert bs[i + 1] == bs[1..][i];
      }
    }
  }

  lemma FlattenStart(bs: seq<Block>)
    requires forall i :: 0 <= i < |bs| ==> Complete(bs[i])
    ensures Flatten(bs) != [] ==> !Flatten(bs)[0].Tool?
  {
  }

  lemma {:induction false} DropGroupsOfFlatten(bs: seq<Block>)
    requires History(bs)
    ensures DropGroups(Flatten(bs)) == Flatten(WholeBlocksFrom(bs, 0))
  {
    hide DropTools, History;
    if bs != [] {
      HistoryTail(bs);
      FlattenStart(bs[1..]);
      StartOfFlatten(bs);
      if bs[0].Group? {
        DropToolsOf(bs[0].answers, Flatten(bs[1..]));
        DropGroupsOfFlatten(bs[1..]);
      }
    }
  }

  lemma StartOfFlatten(bs: seq<Block>)
    requires bs != [] && Complete(bs[0])
    ensures var ms := Flatten(bs);
            match bs[0]
            case Say(m) => ms != [] && ms[0] == m && !CallsTools(m)
            case Group(text, calls, answers) =>
              ms != [] && ms[0] == Assistant(text, calls) && CallsTools(ms[0]) && ms[1..] == answers + Flatten(bs[1..])
  {
    var rest := Flatten(bs[1..]);
    assert Flatten(bs) == MessagesOf(bs[0]) + rest;
    if bs[0].Group? {
      assert bs[0].calls != [];
      hide Flatten, Complete;
      TailOfGroup(Assistant(bs[0].text, bs[0].calls), bs[0].answers, rest);
    }
  }

  lemma TailOfGroup(call: Message, answers: seq<Message>, rest: seq<Message>)
    ensures ([call] + answers + rest)[1..] == answers + rest
  {
  }

  /** A window cut inside a group starts with that group's results, which nothing in the window claims. */
  lemma CutGroup(bs: seq<Block>, k: nat)
    requires History(bs) && bs != [] && 0 < k < |MessagesOf(bs[0])| && k <= |Flatten(bs)|
    ensures Sanitized(Flatten(bs)[k..]) == Flatten(WholeBlocksFrom(bs, k))
  {
    var rest := Flatten(bs[1..]);
    var tools := bs[0].answers[k - 1..];
    var window := Flatten(bs)[k..];
    assert window == tools + rest;
    assert WholeBlocksFrom(bs, k) == WholeBlocksFrom(bs[1..], 0);
    HistoryTail(bs);
    assert forall m :: m in tools ==> m in bs[0].answers;
    FlattenStart(bs[1..]);
    hide Flatten, WholeBlocksFrom, History, MessagesOf, DropOrphans, DropGroups, ClaimedIds;
    forall m | m in tools
      ensures m.Tool? && m.toolCallId !in ClaimedIds(window)
    {
      NobodyElseClaims(bs, m.toolCallId, tools);
    }
    DropOrphansOf(tools, rest, ClaimedIds(window));
    DropGroupsOfFlatten(bs[1..]);
  }

  lemma NobodyElseClaims(bs: seq<Block>, id: string, tools: seq<Message>)
    requires History(bs) && bs != [] && id in CallsOf(bs[0]) && forall m :: m in tools ==> m.Tool?
    ensures id !in ClaimedIds(tools + Flatten(bs[1..]))
  {
    var window := tools + Flatten(bs[1..]);
    ClaimedIdsOf(window, id);
    HistoryTail(bs);
    forall m | m in window && m.Assistant?
      ensures id !in m.toolCalls
    {
      assert m in Flatten(bs[1..]);
      CallersInFlatten(bs[1..], m);
      assert forall i :: 0 <= i < |bs[1..]| ==> bs[1..][i] == bs[i + 1] && id !in CallsOf(bs[i + 1]);
    }
  }

  /** Whatever suffix of a well-formed history the window is, exactly the whole blocks after the cut and any leading groups survive. */
  lemma {:induction false} SanitizedWindow(bs: seq<Block>, k: nat)
    requires History(bs) && k <= |Flatten(bs)|
    ensures Sanitized(Flatten(bs)[k..]) == Flatten(WholeBlocksFrom(bs, k))
  {
    hide Sanitized, History, Flatten, MessagesOf, WholeBlocksFrom;
    if bs == [] || k == 0 {
      WindowAtStart(bs, k);
    } else if k >= |MessagesOf(bs[0])| {
      HistoryTail(bs);
      PastFirstBlock(bs, k);
      SanitizedWindow(bs[1..], k - |MessagesOf(bs[0])|);
    } else {
      CutGroup(bs, k);
    }
  }

  lemma WindowAtStart(bs: seq<Block>, k: nat)
    requires History(bs) && k <= |Flatten(bs)| && (bs == [] || k == 0)
    ensures Sanitized(Flatten(bs)[k..]) == Flatten(WholeBlocksFrom(bs, k))
  {
    hide Sanitized, History;
    if bs == [] {
      EmptyIsClean();
    } else {
      assert Flatten(bs)[k..] == Flatten(bs);
      UncutWindow(bs);
    }
  }

  lemma PastFirstBlock(bs: seq<Block>, k: nat)
    requires bs != [] && |MessagesOf(bs[0])| <= k <= |Flatten(bs)|
    ensures k - |MessagesOf(bs[0])| <= |Flatten(bs[1..])|
    ensures Flatten(bs)[k..] == Flatten(bs[1..])[k - |MessagesOf(bs[0])|..]
    ensures k > 0 && WholeBlocksFrom(bs, k) == WholeBlocksFrom(bs[1..], k - |MessagesOf(bs[0])|)
  {
    hide MessagesOf;
  }

  lemma EmptyIsClean()
    ensures Sanitized([]) == []
  {
  }

  lemma UncutWindow(bs: seq<Block>)
    requires History(bs)
    ensures Sanitized(Flatten(bs)) == Flatten(WholeBlocksFrom(bs, 0))
  {
    FlattenStart(bs);
    DropGroupsOfFlatten(bs);
  }

  lemma CleanStart(bs: seq<Block>)
    requires bs != [] && Complete(bs[0]) && bs[0].Say?
    ensures StartsClean(Flatten(bs))
  {
  }

  lemma {:induction false} WholeBlocksAreLast(bs: seq<Block>, k: nat)
    ensures var kept := WholeBlocksFrom(bs, k);
            && |kept| <= |bs| && kept == bs[|bs| - |kept|..]
            && (kept == [] || kept[0].Say?)
  {
    hide MessagesOf;
    if bs != [] && !(k == 0 && bs[0].Say?) {
      WholeBlocksAreLast(bs[1..], if k >= |MessagesOf(bs[0])| then k - |MessagesOf(bs[0])| else 0);
    }
  }

  lemma HistorySuffix(bs: seq<Block>, n: nat)
    requires History(bs) && n <= |bs|
    ensures History(bs[n..])
  {
  }

  /** The blocks kept are the last ones, whole, starting with the user's or a plain assistant message. */
  lemma WholeBlocksAreSuffix(bs: seq<Block>, k: nat)
    requires History(bs)
    ensures var kept := WholeBlocksFrom(bs, k);
            && |kept| <= |bs| && kept == bs[|bs| - |kept|..]
            && History(kept)
            && (kept == [] || kept[0].Say?)
            && StartsClean(Flatten(kept))
  {
    var kept := WholeBlocksFrom(bs, k);
    WholeBlocksAreLast(bs, k);
    HistorySuffix(bs, |bs| - |kept|);
    if kept != [] {
      HistoryTail(kept);
      CleanStart(kept);
    }
  }

  /** Every tool result comes after the assistant message that asked for it. */
  ghost predicate ToolsFollowCallers(ms: seq<Message>) {
    forall i :: 0 <= i < |ms| && ms[i].Tool? ==> CalledBefore(ms, i)
  }

  ghost predicate CalledBefore(ms: seq<Message>, i: nat)
    requires i < |ms| && ms[i].Tool?
  {
    exists j :: 0 <= j < i && ms[j].Assistant? && ms[i].toolCallId in ms[j].toolCalls
  }

  lemma {:induction false} HistoryIsAcceptable(bs: seq<Block>)
    requires forall i :: 0 <= i < |bs| ==> Complete(bs[i])
    ensures ToolsFollowCallers(Flatten(bs))
  {
    if bs != [] {
      HistoryIsAcceptable(bs[1..]);
      var ms, n := Flatten(bs), |MessagesOf(bs[0])|;
      forall i | 0 <= i < |ms| && ms[i].Tool?
        ensures CalledBefore(ms, i)
      {
        if i < n {
          assert ms[0] == Assistant(bs[0].text, bs[0].calls);
          assert ms[i] in bs[0].answers;
        } else {
          assert CalledBefore(Flatten(bs[1..]), i - n);
          var j :| 0 <= j < i - n && Flatten(bs[1..])[j].Assistant? && ms[i].toolCallId in Flatten(bs[1..])[j].toolCalls;
          assert ms[j + n] == Flatten(bs[1..])[j];
        }
      }
    }
  }

  /** So every window of a well-formed history becomes a sequence the model accepts. */
  lemma SanitizedWindowIsAcceptable(bs: seq<Block>, k: nat)
    requires History(bs) && k <= |Flatten(bs)|
    ensures ToolsFollowCallers(Sanitized(Flatten(bs)[k..])) && StartsClean(Sanitized(Flatten(bs)[k..]))
  {
    hide Sanitized, StartsClean, WholeBlocksFrom, ToolsFollowCallers;
    SanitizedWindow(bs, k);
    WholeBlocksAreSuffix(bs, k);
    HistoryIsAcceptable(WholeBlocksFrom(bs, k));
  }

  /** Every call in the sequence has its result after it. */
  ghost predicate CallsAnswered(ms: seq<Message>) {
    forall i, id :: 0 <= i < |ms| && ms[i].Assistant? && id in ms[i].toolCalls ==> AnsweredAfter(ms, i, id)
  }

  ghost predicate AnsweredAfter(ms: seq<Message>, i: nat, id: string) {
    exists j :: i < j < |ms| && ms[j].Tool? && ms[j].toolCallId == id
  }

  lemma CallerIsFirst(b: Block, i: nat, id: string)
    requires Complete(b) && i < |MessagesOf(b)|
    requires MessagesOf(b)[i].Assistant? && id in MessagesOf(b)[i].toolCalls
    ensures b.Group? && i == 0 && id in b.calls
  {
    assert b.Group? ==> forall k :: 0 < k < |MessagesOf(b)| ==> MessagesOf(b)[k] in b.answers;
  }

  lemma GroupIsAnswered(b: Block, rest: seq<Message>, id: string)
    requires b.Group? && Answered(b) && id in b.calls
    ensures AnsweredAfter(MessagesOf(b) + rest, 0, id)
  {
    var m :| m in b.answers && m.Tool? && m.toolCallId == id;
    var k :| 0 <= k < |b.answers| && b.answers[k] == m;
    assert (MessagesOf(b) + rest)[k + 1] == m;
  }

  lemma {:induction false} AnsweredBlocksAnswer(bs: seq<Block>)
    requires forall i :: 0 <= i < |bs| ==> Complete(bs[i]) && Answered(bs[i])
    ensures CallsAnswered(Flatten(bs))
  {
    if bs != [] {
      AnsweredBlocksAnswer(bs[1..]);
      var ms, n := Flatten(bs), |MessagesOf(bs[0])|;
      var rest := Flatten(bs[1..]);
      assert ms == MessagesOf(bs[0]) + rest;
      hide Flatten, Complete, Answered;
      forall i, id | 0 <= i < |ms| && ms[i].Assistant? && id in ms[i].toolCalls
        ensures AnsweredAfter(ms, i, id)
      {
        if i < n {
          CallerIsFirst(bs[0], i, id);
          GroupIsAnswered(bs[0], rest, id);
        } else {
          assert AnsweredAfter(rest, i - n, id);
          var j :| i - n < j < |rest| && rest[j].Tool? && rest[j].toolCallId == id;
          assert ms[j + n] == rest[j];
        }
      }
    }
  }

  /** When every call of the history was answered, the same is true of every sanitised window of it. */
  lemma SanitizedWindowIsAnswered(bs: seq<Block>, k: nat)
    requires History(bs) && k <= |Flatten(bs)| && forall i :: 0 <= i < |bs| ==> Answered(bs[i])
    ensures CallsAnswered(Sanitized(Flatten(bs)[k..]))
  {
    var kept := WholeBlocksFrom(bs, k);
    WholeBlocksAreSuffix(bs, k);
    assert forall i :: 0 <= i < |kept| ==> kept[i] == bs[|bs| - |kept| + i];
    hide Sanitized, CallsAnswered, Answered;
    SanitizedWindow(bs, k);
    AnsweredBlocksAnswer(kept);
  }
}
