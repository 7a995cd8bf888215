/**
 * The rebuttal endpoint: it validates the posted log, takes the last
 * finished judgment, and builds the prompt that asks the language model to
 * argue against that judgment. The model call itself is outside the model;
 * the response records the prompt it would be given.
 */
module RebuttalRoute {
  import opened Common
  import opened Strings
  import opened Messages
  import opened PairLines
  import ChatView

  /** The `messages` field of the posted body: missing, not an array, or a log. */
  datatype RouteRequest = NoMessages | NotAnArray | MessageArray(messages: seq<Message>)

  datatype RouteResponse =
    | BadRequest(status: int, body: string)
      /** The model is asked with this prompt; its text is the response. */
    | AskModel(prompt: string)

  const InvalidMessages := "Invalid messages"
  const NoJudgeResult := "No judge result"

  /** The fixed instructions that open every prompt, one per line, then a blank line. */
  const HeaderTask := "以下の判定に反論する文章を、日本語で短く書いてください。"
  const HeaderPremise := "前提: あなたは judgeIsSushi よりも高度な推論ができる" + "批評AIとして、創作寿司として成立する可能性を論理的に示す。"
  const HeaderPoints := "論点: 役割対応（ネタ/シャリの機能の妥当性）を軸に、" + "調理・提供の工夫や安全性/文化文脈のいずれかに触れる。"
  const HeaderNote := "補足: 非食材の場合は「寿司概念の拡張」を補助的な論拠として用いてよいが、必須ではない。"
  const HeaderForm := "形式: 3〜5文、断定しすぎず説得的に。"
  const PromptHeader :=
    HeaderTask + "\n" + HeaderPremise + "\n" + HeaderPoints + "\n" + HeaderNote + "\n" + HeaderForm + "\n\n"

  const ReasonLabel := "判定理由: "

  /** The last judgment part that finished with an output, accepting or not. */
  function LastJudge(ms: seq<Message>): (r: Option<Part>)
    ensures r.None? <==> !Any(AllParts(ms), IsCompletedJudgment)
    ensures r.Some? ==> exists k :: IsLast(AllParts(ms), IsCompletedJudgment, k) && AllParts(ms)[k] == r.value
  {
    LastOfFilter(AllParts(ms), IsCompletedJudgment);
    Last(Filter(AllParts(ms), IsCompletedJudgment))
  }

  lemma LastJudgeIsCompleted(ms: seq<Message>)
    requires LastJudge(ms).Some?
    ensures IsCompletedJudgment(LastJudge(ms).value)
  {
    var k :| IsLast(AllParts(ms), IsCompletedJudgment, k) && AllParts(ms)[k] == LastJudge(ms).value;
  }

  /** `${header}判定理由: ${reasoning}\nTopping: ${topping}\nBase: ${base}`. */
  function Prompt(reasoning: string, topping: string, base: string): (r: string)
    ensures StartsWith(r, PromptHeader + ReasonLabel)
    ensures r == PromptHeader + ReasonLabel + reasoning + "\nTopping: " + topping + "\nBase: " + base
  {
    PairTextStart(PromptHeader + ReasonLabel + reasoning, topping, base, []);
    var r := PairText(PromptHeader + ReasonLabel + reasoning, topping, base, []);
    assert StartsWith(PromptHeader + ReasonLabel + reasoning, PromptHeader + ReasonLabel);
    r
  }

  /**
   * `POST(request)`: 400 `Invalid messages` unless `messages` is a non-empty
   * array; 400 `No judge result` when no judgment finished with an output;
   * otherwise a prompt naming the last such judgment's reasoning, topping
   * and base, each empty when absent.
   */
  function Handle(req: RouteRequest): (r: RouteResponse)
    ensures r.BadRequest? ==> r.status == 400
    ensures r == BadRequest(400, InvalidMessages) <==> !req.MessageArray? || req.messages == []
    ensures r == BadRequest(400, NoJudgeResult) <==>
              req.MessageArray? && req.messages != [] && !Any(AllParts(req.messages), IsCompletedJudgment)
    ensures r.AskModel? ==> StartsWith(r.prompt, PromptHeader + ReasonLabel)
    ensures r.AskModel? ==>
              && req.MessageArray?
              && LastJudge(req.messages).Some?
              && IsCompletedJudgment(LastJudge(req.messages).value)
              && var p := LastJudge(req.messages).value;
                 r.prompt == Prompt(p.judgment.value.reasoning.GetOr([]), p.judgeInput.topping.GetOr([]), p.judgeInput.base.GetOr([]))
  {
    if !req.MessageArray? || req.messages == [] then BadRequest(400, InvalidMessages)
    else
      match LastJudge(req.messages)
      case None => BadRequest(400, NoJudgeResult)
      case Some(p) =>
        LastJudgeIsCompleted(req.messages);
        var reasoning := p.judgment.value.reasoning.GetOr([]);
        AskModel(Prompt(reasoning, p.judgeInput.topping.GetOr([]), p.judgeInput.base.GetOr([])))
  }

  /**
   * The prompt's topping line reads back to the judged topping, trimmed,
   * when the reasoning has no character folding to `t` and the topping is
   * one non-blank line.
   */
  lemma PromptNamesTopping(reasoning: string, topping: string, base: string)
    requires NoneLowersTo(reasoning, 't')
    requires !HasNewline(topping) && !Blank(topping)
    ensures ExtractField(Prompt(reasoning, topping, base), ToppingTag) == Some(Trim(topping))
  {
    var intro := PromptHeader + ReasonLabel + reasoning;
    HeaderHasNoLabelStart('t');
    NoneLowersToAppend(PromptHeader + ReasonLabel, reasoning, 't');
    ToppingReadsBack(intro, topping, base, []);
  }

  /**
   * The prompt's base line reads back to the judged base, trimmed, when the
   * reasoning has no character folding to `b`, the topping is one line
   * without a `Base:` label, and the base is one line.
   */
  lemma PromptNamesBase(reasoning: string, topping: string, base: string)
    requires NoneLowersTo(reasoning, 'b')
    requires !HasNewline(topping) && !ContainsLabel(topping, BaseTag)
    requires !HasNewline(base)
    ensures ExtractField(Prompt(reasoning, topping, base), BaseTag) == Some(Trim(base))
  {
    var intro := PromptHeader + ReasonLabel + reasoning;
    HeaderHasNoLabelStart('b');
    NoneLowersToAppend(PromptHeader + ReasonLabel, reasoning, 'b');
    BaseReadsBack(intro, topping, base, []);
  }

  /**
   * The endpoint answers with a prompt naming the pair of the judgment it
   * argues against: when the log's last finished judgment has a reasoning
   * without a character folding to `t` or `b`, a one-line non-blank topping
   * without a `Base:` label, and a one-line base, the prompt reads back to
   * that topping and base, trimmed.
   */
  lemma HandleNamesJudgedPair(ms: seq<Message>, p: Part)
    requires LastJudge(ms) == Some(p) && p.JudgeCall? && p.judgment.Some?
    requires NoneLowersTo(p.judgment.value.reasoning.GetOr([]), 't')
    requires NoneLowersTo(p.judgment.value.reasoning.GetOr([]), 'b')
    requires !HasNewline(p.judgeInput.topping.GetOr([])) && !Blank(p.judgeInput.topping.GetOr([]))
    requires !ContainsLabel(p.judgeInput.topping.GetOr([]), BaseTag)
    requires !HasNewline(p.judgeInput.base.GetOr([]))
    ensures Handle(MessageArray(ms)).AskModel?
    ensures ExtractField(Handle(MessageArray(ms)).prompt, ToppingTag) == Some(Trim(p.judgeInput.topping.GetOr([])))
    ensures ExtractField(Handle(MessageArray(ms)).prompt, BaseTag) == Some(Trim(p.judgeInput.base.GetOr([])))
  {
    var reasoning := p.judgment.value.reasoning.GetOr([]);
    var topping := p.judgeInput.topping.GetOr([]);
    var base := p.judgeInput.base.GetOr([]);
    PromptNamesTopping(reasoning, topping, base);
    PromptNamesBase(reasoning, topping, base);
  }

  /** No character of the header folds to the first letter of either label. */
  lemma HeaderHasNoLabelStart(ch: char)
    requires ch == 't' || ch == 'b'
    ensures NoneLowersTo(PromptHeader + ReasonLabel, ch)
  {
    HeaderLinesHaveNo(ch);
    NoneLowersToLines(HeaderTask, HeaderPremise, HeaderPoints, HeaderNote, HeaderForm, ch);
    NoneLowersToAppend(PromptHeader, ReasonLabel, ch);
  }

  lemma HeaderLinesHaveNo(ch: char)
    requires ch == 't' || ch == 'b'
    ensures NoneLowersTo(HeaderTask, ch) && NoneLowersTo(HeaderPremise, ch) && NoneLowersTo(HeaderPoints, ch)
    ensures NoneLowersTo(HeaderNote, ch) && NoneLowersTo(HeaderForm, ch) && NoneLowersTo(ReasonLabel, ch)
  {
    PremiseHasNo(ch);
    PointsHasNo(ch);
    ShortLinesHaveNo(ch);
  }

  lemma PremiseHasNo(ch: char)
    requires ch == 't' || ch == 'b'
    ensures NoneLowersTo(HeaderPremise, ch)
  {
    PremiseOpeningHasNo(ch);
    NoneLowersToAppend("前提: あなたは judgeIsSushi よりも高度な推論ができる", "批評AIとして、創作寿司として成立する可能性を論理的に示す。", ch);
  }

  lemma PremiseOpeningHasNo(ch: char)
    requires ch == 't' || ch == 'b'
    ensures NoneLowersTo("前提: あなたは judgeIsSushi よりも高度な推論ができる", ch)
  {
  }

  lemma PointsHasNo(ch: char)
    requires ch == 't' || ch == 'b'
    ensures NoneLowersTo(HeaderPoints, ch)
  {
    NoneLowersToAppend("論点: 役割対応（ネタ/シャリの機能の妥当性）を軸に、", "調理・提供の工夫や安全性/文化文脈のいずれかに触れる。", ch);
  }

  lemma ShortLinesHaveNo(ch: char)
    requires ch == 't' || ch == 'b'
    ensures NoneLowersTo(HeaderTask, ch) && NoneLowersTo(HeaderNote, ch)
    ensures NoneLowersTo(HeaderForm, ch) && NoneLowersTo(ReasonLabel, ch)
  {
    TaskLineHasNo(ch);
    NoteLineHasNo(ch);
  }

  lemma TaskLineHasNo(ch: char)
    requires ch == 't' || ch == 'b'
    ensures NoneLowersTo(HeaderTask, ch)
  {
  }

  lemma NoteLineHasNo(ch: char)
    requires ch == 't' || ch == 'b'
    ensures NoneLowersTo(HeaderNote, ch)
  {
  }

  lemma NoneLowersToLines(a: string, b: string, c: string, d: string, e: string, ch: char)
    requires ch != '\n'
    requires NoneLowersTo(a, ch) && NoneLowersTo(b, ch) && NoneLowersTo(c, ch)
    requires NoneLowersTo(d, ch) && NoneLowersTo(e, ch)
    ensures NoneLowersTo(a + "\n" + b + "\n" + c + "\n" + d + "\n" + e + "\n\n", ch)
  {
    var nl := "\n";
    assert NoneLowersTo(nl, ch) && NoneLowersTo(nl + nl, ch);
    NoneLowersToAppend(a, nl, ch);
    NoneLowersToAppend(a + nl, b, ch);
    NoneLowersToAppend(a + nl + b, nl, ch);
    NoneLowersToAppend(a + nl + b + nl, c, ch);
    NoneLowersToAppend(a + nl + b + nl + c, nl, ch);
    NoneLowersToAppend(a + nl + b + nl + c + nl, d, ch);
    NoneLowersToAppend(a + nl + b + nl + c + nl + d, nl, ch);
    NoneLowersToAppend(a + nl + b + nl + c + nl + d + nl, e, ch);
    NoneLowersToAppend(a + nl + b + nl + c + nl + d + nl + e, nl + nl, ch);
    assert a + nl + b + nl + c + nl + d + nl + e + (nl + nl) == a + "\n" + b + "\n" + c + "\n" + d + "\n" + e + "\n\n";
  }

  /**
   * The endpoint answers the last finished judgment, the view the last
   * accepting one: they agree exactly when the last finished judgment
   * accepted, and otherwise the endpoint argues against a rejection the
   * view never offers to rebut.
   */
  lemma RouteAndViewJudgeAgreement(ms: seq<Message>)
    ensures LastJudge(ms).None? ==> ChatView.LastPositiveJudge(ms).None?
    ensures LastJudge(ms).Some? && IsPositiveJudgment(LastJudge(ms).value) ==>
              ChatView.LastPositiveJudge(ms) == LastJudge(ms)
    ensures LastJudge(ms).Some? && !IsPositiveJudgment(LastJudge(ms).value) ==>
              ChatView.LastPositiveJudge(ms) != LastJudge(ms)
  {
    var all := AllParts(ms);
    if LastJudge(ms).Some? {
      var k :| IsLast(all, IsCompletedJudgment, k) && all[k] == LastJudge(ms).value;
      if IsPositiveJudgment(all[k]) {
        assert IsLast(all, IsPositiveJudgment, k);
        var j :| IsLast(all, IsPositiveJudgment, j) && all[j] == ChatView.LastPositiveJudge(ms).value;
        IsLastUnique(all, IsPositiveJudgment, j, k);
      } else if ChatView.LastPositiveJudge(ms).Some? {
        var j :| IsLast(all, IsPositiveJudgment, j) && all[j] == ChatView.LastPositiveJudge(ms).value;
        assert IsPositiveJudgment(all[j]);
      }
    }
  }
}
