/**
 The relay hub of server/app.js as a pure state machine. Its only state is
 the banned-word list; each inbound socket event yields the next state and
 the events broadcast to every connection (the sender included).
 */
module Hub {
  import opened Wrappers
  import opened JsValue
  import opened JsString

  /** A `send_comment` payload as received. Every field is kept so that the
      relay can be shown to forward it untouched. */
  datatype Payload = Payload(text: Value, color: Value, isFixed: Value, position: Value)

  /** The argument of `update_ng_words`: an array of strings, or anything else. */
  datatype NgArgument = StringArray(words: seq<string>) | NotAnArray

  /** Events a connection sends to the hub. `SendComment(None)` is a falsy
      payload (missing, null, false, 0 or the empty string). */
  datatype Inbound =
    | SendComment(data: Option<Payload>)
    | UpdateNgWords(arg: NgArgument)
    | ClearFixedComment

  /** Events the hub broadcasts with `io.emit`. */
  datatype Outbound = NewComment(data: Payload) | ClearFixedBroadcast

  datatype HubState = HubState(ngWords: seq<string>)

  /** The state right after `startServer`: no banned words. */
  function Init(): (s: HubState)
    ensures |s.ngWords| == 0
  {
    HubState([])
  }

  /** `ngWords.some(word => text.includes(word))`, scanning the list in order. */
  predicate AnyIncluded(words: seq<string>, text: string)
    decreases |words|
  {
    |words| > 0 && (Includes(text, words[0]) || AnyIncluded(words[1..], text))
  }

  /** Reference meaning of the moderation test: some banned word is a substring of the text. */
  ghost predicate ContainsBannedWord(words: seq<string>, text: string) {
    exists k :: 0 <= k < |words| && IsSubstring(words[k], text)
  }

  /** The scan of `some` answers exactly the reference question. */
  lemma {:induction false} AnyIncludedMeansBanned(words: seq<string>, text: string)
    ensures AnyIncluded(words, text) <==> ContainsBannedWord(words, text)
    decreases |words|
  {
    if |words| > 0 {
      IncludesIsSubstring(text, words[0]);
      AnyIncludedMeansBanned(words[1..], text);
      if ContainsBannedWord(words[1..], text) {
        var k :| 0 <= k < |words[1..]| && IsSubstring(words[1..][k], text);
        assert IsSubstring(words[k + 1], text);
      }
      if ContainsBannedWord(words, text) {
        var k :| 0 <= k < |words| && IsSubstring(words[k], text);
        if k > 0 {
          assert words[1..][k - 1] == words[k];
        }
      }
    }
  }

  /** Whether the moderation line drops a comment whose `text` is truthy.
      A string is scanned; any other truthy value has no `includes` method,
      so the scan throws as soon as the list is non-empty and nothing is
      broadcast, while an empty list never calls it. */
  function Dropped(words: seq<string>, text: Value): (b: bool)
    ensures text.Str? ==> (b <==> ContainsBannedWord(words, text.s))
    ensures !text.Str? ==> (b <==> |words| > 0)
    ensures |words| == 0 ==> !b
    ensures "" in words ==> b
  {
    match text
    case Str(t) =>
      AnyIncludedMeansBanned(words, t);
      assert OccursAt(t, "", 0);
      AnyIncluded(words, t)
    case _ => |words| > 0
  }

  /** One inbound event handled to completion. */
  function Step(s: HubState, e: Inbound): (r: (HubState, seq<Outbound>))
    ensures |r.1| <= 1
    ensures !e.UpdateNgWords? ==> r.0 == s
    ensures forall o :: o in r.1 && o.NewComment? ==> e == SendComment(Some(o.data))
  {
    match e
    case SendComment(data) =>
      if data.None? || !Truthy(data.value.text) then (s, [])
      else if Dropped(s.ngWords, data.value.text) then (s, [])
      else (s, [NewComment(data.value)])
    case UpdateNgWords(arg) =>
      if arg.StringArray? then (HubState(arg.words), []) else (s, [])
    case ClearFixedComment =>
      (s, [ClearFixedBroadcast])
  }

  /** A missing payload or a falsy text is dropped silently and changes nothing. */
  lemma FalsyTextIsDropped(s: HubState, data: Option<Payload>)
    requires data.None? || !Truthy(data.value.text)
    ensures Step(s, SendComment(data)) == (s, [])
  {
  }

  /** A non-empty string comment is broadcast, unchanged, exactly when no banned
      word is a case-sensitive substring of it; otherwise nothing is emitted. */
  lemma BroadcastIffNoBannedWord(s: HubState, p: Payload)
    requires p.text.Str? && p.text.s != ""
    ensures Step(s, SendComment(Some(p))).1 == [NewComment(p)] <==> !ContainsBannedWord(s.ngWords, p.text.s)
    ensures Step(s, SendComment(Some(p))).1 == [] <==> ContainsBannedWord(s.ngWords, p.text.s)
    ensures Step(s, SendComment(Some(p))).0 == s
  {
    AnyIncludedMeansBanned(s.ngWords, p.text.s);
  }

  /** With no banned words every comment with a truthy text is relayed. */
  lemma EmptyListRelaysEverything(p: Payload)
    requires Truthy(p.text)
    ensures Step(Init(), SendComment(Some(p))) == (Init(), [NewComment(p)])
  {
  }

  /** An empty string in the list blocks every comment, since every string
      includes the empty string; the hub does not filter such entries. */
  lemma EmptyWordBlocksEverything(s: HubState, p: Payload)
    requires "" in s.ngWords
    ensures Step(s, SendComment(Some(p))) == (s, [])
  {
    if p.text.Str? && Truthy(p.text) {
      var k :| 0 <= k < |s.ngWords| && s.ngWords[k] == "";
      EmptyIsIncludedEverywhere(p.text.s);
      AnyIncludedMeansBanned(s.ngWords, p.text.s);
      IncludesIsSubstring(p.text.s, "");
    }
  }

  /** `update_ng_words` replaces the list wholesale when given an array and is
      ignored otherwise; either way it emits nothing. */
  lemma UpdateReplacesOnlyArrays(s: HubState, arg: NgArgument)
    ensures Step(s, UpdateNgWords(arg)).1 == []
    ensures arg.StringArray? ==> Step(s, UpdateNgWords(arg)).0.ngWords == arg.words
    ensures !arg.StringArray? ==> Step(s, UpdateNgWords(arg)).0 == s
  {
  }

  /** `clear_fixed_comment` is relayed once, with no checks, and leaves the list alone. */
  lemma ClearIsRelayedOnce(s: HubState)
    ensures Step(s, ClearFixedComment) == (s, [ClearFixedBroadcast])
  {
  }

  // ------------------------------------------------------------------- runs

  /** An event that installs a new list: `update_ng_words` with an array. */
  predicate InstallsList(e: Inbound) {
    e.UpdateNgWords? && e.arg.StringArray?
  }

  /** A sequence of inbound events handled in arrival order. */
  function Run(s: HubState, es: seq<Inbound>): (HubState, seq<Outbound>)
    decreases |es|
  {
    if |es| == 0 then (s, [])
    else
      var (s1, out1) := Step(s, es[0]);
      var (s2, out2) := Run(s1, es[1..]);
      (s2, out1 + out2)
  }

  /** No event after position `k` installs a list. */
  predicate LastInstall(es: seq<Inbound>, k: nat) {
    forall m :: k < m < |es| ==> !InstallsList(es[m])
  }

  /** The list in force after a run is the one carried by the last array
      update in it, or the starting list when there was none. */
  lemma {:induction false} LastArrayUpdateWins(s: HubState, es: seq<Inbound>)
    ensures (forall k :: 0 <= k < |es| ==> !InstallsList(es[k])) ==> Run(s, es).0 == s
    ensures forall k :: 0 <= k < |es| && InstallsList(es[k]) && LastInstall(es, k) ==>
      Run(s, es).0.ngWords == es[k].arg.words
    decreases |es|
  {
    if |es| > 0 {
      var s1 := Step(s, es[0]).0;
      LastArrayUpdateWins(s1, es[1..]);
      assert forall m :: 0 < m < |es| ==> es[1..][m - 1] == es[m];
    }
  }

  /** The hub never invents a comment: each broadcast `new_comment` carries the
      payload of some `send_comment` in the run, and there are no more
      broadcasts than inbound events. */
  lemma {:induction false} RunRelaysOnlyReceived(s: HubState, es: seq<Inbound>)
    ensures |Run(s, es).1| <= |es|
    ensures forall o :: o in Run(s, es).1 && o.NewComment? ==> SendComment(Some(o.data)) in es
    decreases |es|
  {
    if |es| > 0 {
      var s1 := Step(s, es[0]).0;
      RunRelaysOnlyReceived(s1, es[1..]);
      assert forall e :: e in es[1..] ==> e in es;
    }
  }
}
