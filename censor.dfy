/** The content-censor verdict: the projection `textCensor` makes of the
    classification service's answer, and the retraction rule applied to it. */
module Censor {
  import opened Wrappers
  import opened JsStrings
  import opened Commands

  const COMPLIANT: string := "合规"
  const SUSPECTED: string := "疑似"
  const NON_COMPLIANT: string := "不合规"
  /** The category that is retracted even when `censorAll` is off. */
  const PROMOTION: string := "恶意推广"

  /** One entry of the service's `data` array; only its `msg` is read. */
  datatype CensorItem = CensorItem(msg: Option<string>)

  /** The service's answer, reduced to the fields `textCensor` reads. */
  datatype CensorResponse = CensorResponse(conclusion: Option<string>, data: Option<seq<CensorItem>>)

  /** What `textCensor` returns: the conclusion, and a reason when there is one. */
  datatype Verdict = Verdict(conclusion: Option<string>, msg: Option<string>)

  /** `textCensor`'s projection: the conclusion is kept; the first entry's
      `msg` is attached only to a conclusion other than 合规, and only when
      `data[0].msg` exists and is a non-empty string. */
  function TextCensorResult(r: CensorResponse): (v: Verdict)
    ensures v.conclusion == r.conclusion
    ensures v.msg.Some? <==>
      && r.conclusion != Some(COMPLIANT)
      && r.data.Some? && |r.data.value| > 0
      && r.data.value[0].msg.Some? && r.data.value[0].msg.value != ""
    ensures v.msg.Some? ==> v.msg == r.data.value[0].msg
    ensures r.conclusion == Some(COMPLIANT) ==> v.msg.None?
  {
    var msg :=
      if r.conclusion != Some(COMPLIANT) && r.data.Some? && |r.data.value| > 0
         && r.data.value[0].msg.Some? && r.data.value[0].msg.value != ""
      then r.data.value[0].msg
      else None;
    Verdict(r.conclusion, msg)
  }

  /** `${result.msg}` and `String(result.msg)`: the reason, or "undefined". */
  function ReasonText(v: Verdict): (text: string)
    ensures v.msg.Some? ==> text == v.msg.value
    ensures Contains(text, PROMOTION) ==> v.msg.Some?
  {
    MissingReasonIsNotPromotion();
    if v.msg.Some? then v.msg.value else "undefined"
  }

  /** The retraction rule: retraction is on, the verdict is 不合规 (or 疑似
      with `moreSensitive` on), and either every category is censored or the
      reason mentions malicious promotion. */
  function ShouldRetract(p: Policy, v: Verdict): (retract: bool)
    ensures retract ==> p.revoke
    ensures retract ==> v.conclusion == Some(NON_COMPLIANT) || v.conclusion == Some(SUSPECTED)
    ensures retract && v.conclusion == Some(SUSPECTED) ==> p.moreSensitive
    ensures retract ==> p.censorAll || Contains(ReasonText(v), PROMOTION)
    ensures p.revoke && v.conclusion == Some(NON_COMPLIANT) && (p.censorAll || Contains(ReasonText(v), PROMOTION))
      ==> retract
    ensures p.revoke && p.moreSensitive && v.conclusion == Some(SUSPECTED) && (p.censorAll || Contains(ReasonText(v), PROMOTION))
      ==> retract
  {
    p.revoke
    && (v.conclusion == Some(NON_COMPLIANT) || (v.conclusion == Some(SUSPECTED) && p.moreSensitive))
    && (p.censorAll || Contains(ReasonText(v), PROMOTION))
  }

  /** A pattern occurs in any text that has it in the middle. */
  lemma {:induction false} ContainsInMiddle(before: string, pattern: string, after: string)
    ensures Contains(before + pattern + after, pattern)
  {
    if before != [] {
      assert (before + pattern + after)[1..] == before[1..] + pattern + after;
      ContainsInMiddle(before[1..], pattern, after);
    } else {
      assert before + pattern + after == pattern + after;
    }
  }

  /** A reason that names malicious promotion is retracted with `censorAll`
      off; a reason that does not is only reported. */
  lemma PromotionIsRetracted(p: Policy, before: string, after: string)
    requires p.revoke && !p.censorAll
    ensures ShouldRetract(p, Verdict(Some(NON_COMPLIANT), Some(before + PROMOTION + after)))
  {
    ContainsInMiddle(before, PROMOTION, after);
  }

  lemma OtherCategoryIsReported(p: Policy, reason: string)
    requires !p.censorAll && !Contains(reason, PROMOTION)
    ensures !ShouldRetract(p, Verdict(Some(NON_COMPLIANT), Some(reason)))
  {
  }

  /** A missing reason reads as "undefined", which never names promotion. */
  lemma MissingReasonIsNotPromotion()
    ensures !Contains("undefined", PROMOTION)
  {
    var u := "undefined";
    assert PROMOTION[0] !in u;
    assert forall i :: 0 <= i <= |u| ==> !(PROMOTION <= u[i..]);
    NotContainsSuffixes(u, PROMOTION);
  }

  lemma {:induction false} NotContainsSuffixes(s: string, pattern: string)
    requires forall i :: 0 <= i <= |s| ==> !(pattern <= s[i..])
    ensures !Contains(s, pattern)
  {
    if s != [] {
      assert s[0..] == s;
      forall i | 0 <= i <= |s[1..]| ensures !(pattern <= s[1..][i..]) {
        assert s[1..][i..] == s[i + 1..];
      }
      NotContainsSuffixes(s[1..], pattern);
    } else {
      assert s[0..] == s;
    }
  }
}
