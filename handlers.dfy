/** The two message handlers of the bot: `OnGroupMsgs`, which screens a group
    text, has it classified, reports it to the operator and may retract it;
    and `OnFriendMsgs`, which runs the operator's settings commands. Every
    awaited call is an input (its outcome) and an output (the call made), so
    each handler is one sequential step. */
module Handlers {
  import opened Wrappers
  import opened JsStrings
  import opened JsNumbers
  import opened OrderedSets
  import opened Commands
  import opened SettingsStore
  import opened Censor

  const TEXT_MSG: string := "TextMsg"
  /** The `Ret` of a RevokeMsg answer meaning "No message meets the requirements". */
  const NO_SUCH_MESSAGE: int := 1001

  /** The fields of a group message packet the handler reads. */
  datatype GroupPacket = GroupPacket(
    fromGroupId: int, fromGroupName: string, fromUserId: int, fromNickName: string,
    content: string, msgType: string, msgSeq: int, msgRandom: int)

  /** The fields of a private message packet the handler reads. */
  datatype FriendPacket = FriendPacket(fromUin: int, msgType: string, content: string)

  /** An outgoing call: to the classification service or to the chat web API. */
  datatype Call =
    | TextCensor(text: string)
    | SendMsg(toUser: int, groupId: int, content: string)
    | RevokeMsg(groupId: int, msgSeq: int, msgRandom: int)

  /** How an awaited web API call ended: it threw, or it answered with a `Ret`. */
  datatype ApiReply = Threw | Replied(ret: Option<int>)

  /** A group message reaches the classifier only when it is text, at least
      `minLength` UTF-16 units long, and `~~FromUserId` is not whitelisted. */
  predicate Screened(p: Policy, m: GroupPacket): (screened: bool)
    ensures IsInt32(m.fromUserId) && m.fromUserId in p.whitelist ==> !screened
    ensures p.minLength <= 0 ==> (screened <==> m.msgType == TEXT_MSG && Wrap32(m.fromUserId) !in p.whitelist)
    ensures (forall i :: 0 <= i < |m.content| ==> m.content[i] as int <= 0xFFFF) ==>
      (screened <==> m.msgType == TEXT_MSG && |m.content| >= p.minLength && Wrap32(m.fromUserId) !in p.whitelist)
  {
    m.msgType == TEXT_MSG && !(Utf16Length(m.content) < p.minLength) && Wrap32(m.fromUserId) !in p.whitelist
  }

  const DISPOSITION: string := "\n处理方式："
  const RETRACTED: string := "撤回"
  const NOT_RETRACTED: string := "无"

  /** The report sent to the operator; it ends with the chosen disposition. */
  function Notice(m: GroupPacket, v: Verdict, retract: bool): (text: string)
    ensures var tail := DISPOSITION + (if retract then RETRACTED else NOT_RETRACTED);
      |tail| <= |text| && text[|text| - |tail|..] == tail
  {
    var body := m.fromNickName + "(" + IntToString(m.fromUserId) + ")发表于" + m.fromGroupName +
      "(" + IntToString(m.fromGroupId) + ")的内容不合规。原因：" + ReasonText(v) + "；原文：\n" + m.content;
    body + DISPOSITION + (if retract then RETRACTED else NOT_RETRACTED)
  }

  /** The calls made, the policy afterwards, and how many saves happened. */
  datatype GroupResult = GroupResult(calls: seq<Call>, next: Policy, saves: nat)

  /** `OnGroupMsgs` on policy `p`, given how the awaited calls end: the
      service's answer (`None` when the SDK call threw), the outcome of the
      report to the operator and the outcome of the retraction. */
  function GroupMessage(p: Policy, cfg: Config, m: GroupPacket, censor: Option<CensorResponse>,
                        sent: ApiReply, revoked: ApiReply): (r: GroupResult)
    // screening: nothing is called and nothing changes for a screened-out message
    ensures r.calls == [] <==> !Screened(p, m)
    ensures Screened(p, m) ==> r.calls[0] == TextCensor(m.content)
    // at most one report, sent to the operator, always before any retraction
    ensures |r.calls| <= 3
    ensures forall i :: 0 <= i < |r.calls| ==> (r.calls[i].TextCensor? <==> i == 0)
    ensures forall i :: 0 <= i < |r.calls| ==> (r.calls[i].SendMsg? <==> i == 1)
    ensures |r.calls| >= 2 ==> r.calls[1].toUser == cfg.reportQQ && r.calls[1].groupId == m.fromGroupId
    ensures |r.calls| == 3 ==> r.calls[2] == RevokeMsg(m.fromGroupId, m.msgSeq, m.msgRandom)
    // a report is sent exactly for a classified message whose verdict is not 合规
    ensures |r.calls| >= 2 <==>
      Screened(p, m) && censor.Some? && censor.value.conclusion != Some(COMPLIANT)
    // the report names the disposition the rule chose, whether or not it is then carried out
    ensures |r.calls| >= 2 ==>
      var v := TextCensorResult(censor.value);
      r.calls[1].content == Notice(m, v, ShouldRetract(p, v))
    // a retraction is attempted exactly when the report went out and the rule says so
    ensures |r.calls| == 3 <==>
      |r.calls| >= 2 && !sent.Threw? && ShouldRetract(p, TextCensorResult(censor.value))
    // learning: only a retraction answered with Ret 1001 whitelists the sender, and saves once
    ensures r.saves <= 1
    ensures r.saves == 0 ==> r.next == p
    ensures r.saves == 1 <==> |r.calls| == 3 && revoked == Replied(Some(NO_SUCH_MESSAGE))
    ensures r.saves == 1 ==> r.next == p.(whitelist := Add(p.whitelist, m.fromUserId))
  {
    if !Screened(p, m) then GroupResult([], p, 0)
    else if censor.None? then GroupResult([TextCensor(m.content)], p, 0)
    else
      var v := TextCensorResult(censor.value);
      if v.conclusion == Some(COMPLIANT) then GroupResult([TextCensor(m.content)], p, 0)
      else
        var retract := ShouldRetract(p, v);
        var report := [TextCensor(m.content), SendMsg(cfg.reportQQ, m.fromGroupId, Notice(m, v, retract))];
        if sent.Threw? || !retract then GroupResult(report, p, 0)
        else
          var calls := report + [RevokeMsg(m.fromGroupId, m.msgSeq, m.msgRandom)];
          if revoked == Replied(Some(NO_SUCH_MESSAGE)) then
            GroupResult(calls, p.(whitelist := Add(p.whitelist, m.fromUserId)), 1)
          else GroupResult(calls, p, 0)
  }

  /** The group message handler on the live settings. */
  method OnGroupMsgs(s: Settings, cfg: Config, m: GroupPacket, censor: Option<CensorResponse>,
                     sent: ApiReply, revoked: ApiReply) returns (calls: seq<Call>)
    requires s.Valid()
    modifies s
    ensures s.Valid()
    ensures var r := GroupMessage(old(s.Value()), cfg, m, censor, sent, revoked);
      && calls == r.calls
      && s.Value() == r.next
      && s.saves == old(s.saves) + r.saves
      && s.file == (if r.saves == 0 then old(s.file) else Some(ToStored(r.next)))
  {
    calls := [];
    if m.msgType != TEXT_MSG { return; }
    if Utf16Length(m.content) < s.minLength { return; }
    if Wrap32(m.fromUserId) in s.whitelist { return; }
    calls := [TextCensor(m.content)];
    if censor.None? { return; }
    var result := TextCensorResult(censor.value);
    if result.conclusion != Some(COMPLIANT) {
      var retract := ShouldRetract(s.Value(), result);
      var msg := Notice(m, result, retract);
      calls := calls + [SendMsg(cfg.reportQQ, m.fromGroupId, msg)];
      if sent.Threw? { return; }
      if retract {
        calls := calls + [RevokeMsg(m.fromGroupId, m.msgSeq, m.msgRandom)];
        if revoked == Replied(Some(NO_SUCH_MESSAGE)) {
          s.AddToWhitelist(m.fromUserId);
          s.Save();
        }
      }
    }
  }

  /** The calls made, the policy afterwards, and how many saves happened. */
  datatype FriendResult = FriendResult(calls: seq<Call>, next: Policy, saves: nat)

  /** `OnFriendMsgs` on policy `p`: only text from the report QQ number is
      answered, with the command protocol's reply sent back to it. */
  function FriendMessage(p: Policy, cfg: Config, m: FriendPacket): (r: FriendResult)
    ensures m.fromUin != cfg.reportQQ || m.msgType != TEXT_MSG ==> r == FriendResult([], p, 0)
    ensures m.fromUin == cfg.reportQQ && m.msgType == TEXT_MSG ==>
      var c := RunCommand(p, m.content);
      r == FriendResult([SendMsg(m.fromUin, 0, c.reply)], c.next, c.saves)
  {
    if m.fromUin != cfg.reportQQ || m.msgType != TEXT_MSG then FriendResult([], p, 0)
    else
      var c := RunCommand(p, m.content);
      FriendResult([SendMsg(m.fromUin, 0, c.reply)], c.next, c.saves)
  }

  /** The private message handler on the live settings. */
  method OnFriendMsgs(s: Settings, cfg: Config, m: FriendPacket) returns (calls: seq<Call>)
    requires s.Valid()
    modifies s
    ensures s.Valid()
    ensures var r := FriendMessage(old(s.Value()), cfg, m);
      && calls == r.calls
      && s.Value() == r.next
      && s.saves == old(s.saves) + r.saves
      && s.file == (if r.saves == 0 then old(s.file) else Some(ToStored(r.next)))
  {
    calls := [];
    if m.fromUin != cfg.reportQQ || m.msgType != TEXT_MSG { return; }
    var reply := Execute(s, m.content);
    calls := [SendMsg(m.fromUin, 0, reply)];
  }

  /** The command part of `OnFriendMsgs`: split the text, look up `cmd[0]`,
      then set and save, or show the current value, or fall back to the help. */
  method Execute(s: Settings, content: string) returns (reply: string)
    requires s.Valid()
    modifies s
    ensures s.Valid()
    ensures var c := RunCommand(old(s.Value()), content);
      && reply == c.reply
      && s.Value() == c.next
      && s.saves == old(s.saves) + c.saves
      && s.file == (if c.saves == 0 then old(s.file) else Some(ToStored(c.next)))
  {
    ghost var p := s.Value();
    var cmd := SplitWhitespace(content);
    var found := Lookup(cmd[0]);
    reply := HelpText();
    if found.Some? {
      var k := found.value;
      if |cmd| >= 2 && cmd[1] != "" {
        assert ParseCommand(content) == Change(k, cmd[1]);
        s.Set(k, cmd[1]);
        reply := cmd[0] + CHANGED;
        s.Save();
      } else {
        assert ParseCommand(content) == Show(k);
        reply := cmd[0] + CURRENT + Render(Field(s.Value(), k));
      }
    } else {
      assert ParseCommand(content) == ShowHelp;
    }
  }

  /** A verdict of 疑似 with `moreSensitive` off is reported and never retracted. */
  lemma SuspectedIsOnlyReported(p: Policy, cfg: Config, m: GroupPacket, censor: Option<CensorResponse>,
                                sent: ApiReply, revoked: ApiReply)
    requires Screened(p, m) && !p.moreSensitive
    requires censor.Some? && censor.value.conclusion == Some(SUSPECTED)
    ensures var r := GroupMessage(p, cfg, m, censor, sent, revoked);
      |r.calls| == 2 && r.calls[1].SendMsg? && r.next == p && r.saves == 0
  {
  }

  /** A non-compliant text whose reason names malicious promotion is reported
      and retracted even with `censorAll` off. */
  lemma PromotionIsReportedAndRetracted(p: Policy, cfg: Config, m: GroupPacket, before: string, after: string,
                                        sent: ApiReply, revoked: ApiReply)
    requires Screened(p, m) && p.revoke && !p.censorAll && !sent.Threw?
    ensures var reason := before + PROMOTION + after;
      var censor := Some(CensorResponse(Some(NON_COMPLIANT), Some([CensorItem(Some(reason))])));
      var r := GroupMessage(p, cfg, m, censor, sent, revoked);
      && |r.calls| == 3
      && r.calls[1] == SendMsg(cfg.reportQQ, m.fromGroupId, Notice(m, Verdict(Some(NON_COMPLIANT), Some(reason)), true))
  {
    PromotionIsRetracted(p, before, after);
  }

  /** A non-compliant text of another category is reported only. */
  lemma OtherCategoryIsOnlyReported(p: Policy, cfg: Config, m: GroupPacket, reason: string,
                                    sent: ApiReply, revoked: ApiReply)
    requires Screened(p, m) && !p.censorAll && reason != "" && !Contains(reason, PROMOTION)
    ensures var censor := Some(CensorResponse(Some(NON_COMPLIANT), Some([CensorItem(Some(reason))])));
      var r := GroupMessage(p, cfg, m, censor, sent, revoked);
      |r.calls| == 2 && r.next == p && r.saves == 0
  {
  }

  /** A retraction answered with Ret 1001 whitelists the sender and saves once;
      for a number in the 32-bit range the sender is then exempt. */
  lemma LearnedSenderIsExempt(p: Policy, cfg: Config, m: GroupPacket, censor: Option<CensorResponse>, sent: ApiReply)
    requires IsInt32(m.fromUserId)
    requires GroupMessage(p, cfg, m, censor, sent, Replied(Some(NO_SUCH_MESSAGE))).saves == 1
    ensures var r := GroupMessage(p, cfg, m, censor, sent, Replied(Some(NO_SUCH_MESSAGE)));
      m.fromUserId in r.next.whitelist && !Screened(r.next, m)
  {
  }

  /** As written, the sender is learned under its raw number but looked up
      under `~~FromUserId`: a number outside the 32-bit range is whitelisted
      after a 1001 answer, and its next message is classified all the same. */
  lemma LearnedWideSenderIsStillScreened(p: Policy, cfg: Config, m: GroupPacket, censor: Option<CensorResponse>,
                                         sent: ApiReply)
    requires !IsInt32(m.fromUserId)
    requires GroupMessage(p, cfg, m, censor, sent, Replied(Some(NO_SUCH_MESSAGE))).saves == 1
    ensures var r := GroupMessage(p, cfg, m, censor, sent, Replied(Some(NO_SUCH_MESSAGE)));
      m.fromUserId in r.next.whitelist && Screened(r.next, m)
  {
    assert Wrap32(m.fromUserId) != m.fromUserId;
  }

  /** The same with numbers: QQ number 3000000000 is learned and screened again. */
  lemma WideSenderExample()
    ensures var p := Policy([], true, true, false, 0);
      var m := GroupPacket(1, "group", 3000000000, "nick", "text", TEXT_MSG, 7, 9);
      var censor := Some(CensorResponse(Some(NON_COMPLIANT), None));
      var r := GroupMessage(p, Config(10001, 10002), m, censor, Replied(Some(0)), Replied(Some(NO_SUCH_MESSAGE)));
      r.saves == 1 && r.next.whitelist == [3000000000] && Screened(r.next, m)
  {
    var p := Policy([], true, true, false, 0);
    var m := GroupPacket(1, "group", 3000000000, "nick", "text", TEXT_MSG, 7, 9);
    assert Wrap32(3000000000) == -1294967296;
    assert Screened(p, m);
  }

  /** The learning step as intended: whitelist `~~FromUserId`, the number the
      screen looks up, so that the sender's next message is exempt. */
  function LearnSender(p: Policy, userId: int): (q: Policy)
    ensures forall m: GroupPacket :: m.fromUserId == userId ==> !Screened(q, m)
    ensures q.(whitelist := p.whitelist) == p
    ensures forall x :: x in q.whitelist <==> x in p.whitelist || x == Wrap32(userId)
    ensures NoDuplicates(p.whitelist) ==> NoDuplicates(q.whitelist)
  {
    p.(whitelist := Add(p.whitelist, Wrap32(userId)))
  }

  /** For senders in the 32-bit range the intended step is what the code does. */
  lemma LearnSenderAgreesInRange(p: Policy, cfg: Config, m: GroupPacket, censor: Option<CensorResponse>, sent: ApiReply)
    requires IsInt32(m.fromUserId)
    requires GroupMessage(p, cfg, m, censor, sent, Replied(Some(NO_SUCH_MESSAGE))).saves == 1
    ensures GroupMessage(p, cfg, m, censor, sent, Replied(Some(NO_SUCH_MESSAGE))).next == LearnSender(p, m.fromUserId)
  {
  }

  /** A message from anyone but the report QQ number, or not text, is ignored. */
  lemma StrangersAreIgnored(p: Policy, cfg: Config, m: FriendPacket)
    requires m.fromUin != cfg.reportQQ || m.msgType != TEXT_MSG
    ensures FriendMessage(p, cfg, m) == FriendResult([], p, 0)
  {
  }
}
