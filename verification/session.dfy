/**
 How the three programs fit together: the control panel's messages go
 through the hub, and what the hub broadcasts reaches the overlay and the
 panel's own history.
 */
module Session {
  import opened Wrappers
  import opened JsValue
  import opened JsString
  import opened Hub
  import Overlay
  import Control

  /** The overlay's reaction to one broadcast event. */
  function DeliverToOverlay(d: Overlay.Display, o: Outbound, env: Overlay.Env): (r: Overlay.Display)
    requires o.NewComment? ==> Overlay.ValidEnv(o.data, env)
    ensures o.ClearFixedBroadcast? ==> r.fixed == None && r.lanes == d.lanes
    ensures o.NewComment? && Truthy(o.data.isFixed) ==> r.fixed == Some(o.data) && r.lanes == d.lanes
  {
    match o
    case NewComment(data) => Overlay.OnNewComment(d, data, env)
    case ClearFixedBroadcast => Overlay.OnClearFixed(d)
  }

  /** A teacher's comment reaches every connection with its text exactly as
      typed (untrimmed, never truncated) precisely when no banned word occurs
      in it; otherwise nobody sees it. The hub's list is unchanged. */
  lemma TeacherCommentRelayedVerbatim(s: HubState, p: Control.Panel)
    requires p.input != ""
    ensures var msg := Control.SendTeacherComment(p).1.value;
            var (s2, out) := Step(s, msg);
            && s2 == s
            && (out == [NewComment(msg.data.value)] <==> !ContainsBannedWord(s.ngWords, p.input))
            && (out == [] <==> ContainsBannedWord(s.ngWords, p.input))
            && msg.data.value.text == Str(p.input)
  {
    var msg := Control.SendTeacherComment(p).1.value;
    BroadcastIffNoBannedWord(s, msg.data.value);
  }

  /** Pressing "update" installs on the hub exactly the parsed list, without
      any empty word, so from then on a comment is relayed iff none of the
      typed words occurs in it. */
  lemma PanelUpdateInstallsParsedList(s: HubState, ngInput: string, p: Payload)
    requires p.text.Str? && p.text.s != ""
    ensures Step(s, Control.UpdateNgWordsClick(ngInput)) == (HubState(Control.ParseNgWords(ngInput)), [])
    ensures var s2 := Step(s, Control.UpdateNgWordsClick(ngInput)).0;
            && "" !in s2.ngWords
            && (Step(s2, SendComment(Some(p))).1 == [NewComment(p)] <==>
                !ContainsBannedWord(Control.ParseNgWords(ngInput), p.text.s))
  {
    var s2 := Step(s, Control.UpdateNgWordsClick(ngInput)).0;
    BroadcastIffNoBannedWord(s2, p);
  }

  /** The "clear fixed" button empties the fixed slot of every overlay that
      receives the relay, leaving its lanes alone. */
  lemma ClearButtonEmptiesFixedSlot(s: HubState, d: Overlay.Display, env: Overlay.Env)
    ensures var (s2, out) := Step(s, Control.ClearFixedClick());
            && s2 == s
            && |out| == 1
            && DeliverToOverlay(d, out[0], env) == Overlay.Display(d.lanes, None)
  {
  }

  /** A relayed comment shows up at the top of the panel's history. */
  lemma RelayedCommentTopsHistory(s: HubState, e: Inbound, history: seq<Control.HistoryItem>)
    requires Step(s, e).1 != [] && Step(s, e).1[0].NewComment?
    ensures e.SendComment? && e.data.Some?
    ensures Control.OnNewComment(history, Step(s, e).1[0].data)[0] == Control.HistoryEntry(e.data.value)
  {
  }

  /** Moderation scenario, first half: with the list ["damn"], the comment
      "I had a damn good day" is not relayed. */
  lemma DamnIsDropped(p: Payload)
    requires p.text == Str("I had a damn good day")
    ensures Step(HubState(["damn"]), SendComment(Some(p))).1 == []
  {
    var bad := "I had a damn good day";
    assert OccursAt(bad, "damn", 8) by {
      assert bad[8..12] == "damn";
    }
    assert IsSubstring(HubState(["damn"]).ngWords[0], bad);
    BroadcastIffNoBannedWord(HubState(["damn"]), p);
  }

  /** Moderation scenario, second half: with the list ["damn"], the comment
      "I had a fine day" is relayed unchanged. */
  lemma FineDayIsRelayed(q: Payload)
    requires q.text == Str("I had a fine day")
    ensures Step(HubState(["damn"]), SendComment(Some(q))).1 == [NewComment(q)]
  {
    var good := "I had a fine day";
    assert 'm' !in good;
    MissingCharRulesOut(good, "damn", 2);
    BroadcastIffNoBannedWord(HubState(["damn"]), q);
  }
}
