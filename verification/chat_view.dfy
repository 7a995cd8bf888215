/**
 * The chat screen: what it derives from the log (judgment parts, the latest
 * positive judgment, whether a sushi was already created, whether to offer
 * generation), the texts its handlers compose, how it reads the rebuttal
 * reply out of a streamed response body, and what each part renders as.
 */
module ChatView {
  import opened Common
  import opened Strings
  import opened Messages
  import opened PairLines

  // ------------------------------------------------------------- transport

  /** The body posted to the chat endpoint: only the newest message, and the chat id. */
  datatype ChatRequest = ChatRequest(message: Option<Message>, id: Option<string>)

  /** `prepareSendMessagesRequest`: `messages[messages.length - 1]`, undefined for an empty log. */
  function RequestBody(ms: seq<Message>, id: Option<string>): (r: ChatRequest)
    ensures r.id == id
    ensures r.message.None? <==> ms == []
    ensures r.message.Some? ==> r.message.value == ms[|ms| - 1]
  {
    ChatRequest(Last(ms), id)
  }

  /** Sending a message posts exactly that message. */
  lemma RequestCarriesNewestMessage(ms: seq<Message>, m: Message, id: Option<string>)
    ensures RequestBody(ms + [m], id) == ChatRequest(Some(m), id)
  {
  }

  // ------------------------------------------------------ derived state

  /** `judgeParts`: every judgment invocation, in log order, whatever its state. */
  function JudgeParts(ms: seq<Message>): (r: seq<Part>)
    ensures forall i :: 0 <= i < |r| ==> r[i].JudgeCall?
    ensures forall k :: 0 <= k < |AllParts(ms)| && AllParts(ms)[k].JudgeCall? ==> AllParts(ms)[k] in r
    ensures forall x :: x in r ==> x in AllParts(ms)
    ensures forall x :: multiset(r)[x] == if x.JudgeCall? then multiset(AllParts(ms))[x] else 0
  {
    forall x {
      FilterMultiset(AllParts(ms), IsJudge, x);
    }
    Filter(AllParts(ms), IsJudge)
  }

  /**
   * The judgment parts keep log order: they sit at strictly increasing
   * positions `f` of the flattened log.
   */
  lemma JudgePartsInLogOrder(ms: seq<Message>) returns (f: seq<int>)
    ensures |f| == |JudgeParts(ms)|
    ensures forall a, b :: 0 <= a < b < |f| ==> f[a] < f[b]
    ensures forall k :: 0 <= k < |f| ==> 0 <= f[k] < |AllParts(ms)| && JudgeParts(ms)[k] == AllParts(ms)[f[k]]
  {
    f := FilterIndices(AllParts(ms), IsJudge);
  }

  /**
   * `lastPositiveJudge`: the last judgment part that finished with an
   * output accepting the pair; absent when there is none.
   */
  function LastPositiveJudge(ms: seq<Message>): (r: Option<Part>)
    ensures r.None? <==> !Any(AllParts(ms), IsPositiveJudgment)
    ensures r.Some? ==> exists k :: IsLast(AllParts(ms), IsPositiveJudgment, k) && AllParts(ms)[k] == r.value
  {
    LastPositiveIsLastOfAll(ms);
    Last(Filter(JudgeParts(ms), IsPositiveJudgment))
  }

  lemma LastPositiveIsLastOfAll(ms: seq<Message>)
    ensures Last(Filter(JudgeParts(ms), IsPositiveJudgment)) == Last(Filter(AllParts(ms), IsPositiveJudgment))
    ensures Last(Filter(AllParts(ms), IsPositiveJudgment)).None? <==> !Any(AllParts(ms), IsPositiveJudgment)
    ensures Last(Filter(AllParts(ms), IsPositiveJudgment)).Some? ==>
              exists k :: IsLast(AllParts(ms), IsPositiveJudgment, k)
                          && AllParts(ms)[k] == Last(Filter(AllParts(ms), IsPositiveJudgment)).value
  {
    FilterNarrow(AllParts(ms), IsJudge, IsPositiveJudgment);
    LastOfFilter(AllParts(ms), IsPositiveJudgment);
  }

  /** The accepted judgment is always a finished judgment part. */
  lemma PositiveJudgeIsPositive(ms: seq<Message>)
    requires Any(AllParts(ms), IsPositiveJudgment)
    ensures LastPositiveJudge(ms).Some? && IsPositiveJudgment(LastPositiveJudge(ms).value)
  {
    var r := LastPositiveJudge(ms);
    assert r.Some?;
    var k :| IsLast(AllParts(ms), IsPositiveJudgment, k) && AllParts(ms)[k] == LastPositiveJudge(ms).value;
  }

  /**
   * Later messages without an accepting judgment, a rejection included, do
   * not hide an earlier acceptance.
   */
  lemma PositiveJudgeSurvivesLaterParts(ms: seq<Message>, m: Message)
    requires !Any(m.parts, IsPositiveJudgment)
    ensures LastPositiveJudge(ms + [m]) == LastPositiveJudge(ms)
  {
    LastPositiveIsLastOfAll(ms);
    LastPositiveIsLastOfAll(ms + [m]);
    AllPartsAppend(ms, m);
    FilterAppend(AllParts(ms), m.parts, IsPositiveJudgment);
    FilterNone(m.parts, IsPositiveJudgment);
    assert Filter(AllParts(ms), IsPositiveJudgment) + [] == Filter(AllParts(ms), IsPositiveJudgment);
  }

  /** A message with an accepting judgment makes its last such part the current one. */
  lemma NewestPositiveJudgeWins(ms: seq<Message>, m: Message)
    requires Any(m.parts, IsPositiveJudgment)
    ensures LastPositiveJudge(ms + [m]) == Last(Filter(m.parts, IsPositiveJudgment))
    ensures LastPositiveJudge(ms + [m]).Some?
  {
    var before := Filter(AllParts(ms), IsPositiveJudgment);
    var mine := Filter(m.parts, IsPositiveJudgment);
    AllPartsAppend(ms, m);
    FilterAppend(AllParts(ms), m.parts, IsPositiveJudgment);
    FilterOfAnyIsNonEmpty(m.parts, IsPositiveJudgment);
    LastOfAppend(before, mine);
    LastPositiveIsLastOfAll(ms + [m]);
  }

  /** A message holds a finished creation. */
  predicate MessageHasSushi(m: Message) {
    Any(m.parts, IsFinishedCreation)
  }

  /** `hasSushiOutput`: some message has a creation part that finished with an output. */
  predicate HasSushiOutput(ms: seq<Message>): (r: bool)
    ensures r <==> Any(AllParts(ms), IsFinishedCreation)
  {
    HasSushiOutputOverAllParts(ms);
    Any(ms, MessageHasSushi)
  }

  /** The per-message test agrees with a test over the flattened log. */
  lemma {:induction false} HasSushiOutputOverAllParts(ms: seq<Message>)
    ensures Any(ms, MessageHasSushi) <==> Any(AllParts(ms), IsFinishedCreation)
  {
    if ms != [] {
      HasSushiOutputOverAllParts(ms[1..]);
      var all := AllParts(ms);
      assert all == ms[0].parts + AllParts(ms[1..]);
      if Any(ms, MessageHasSushi) {
        var i :| 0 <= i < |ms| && MessageHasSushi(ms[i]);
        if i == 0 {
          var j :| 0 <= j < |ms[0].parts| && IsFinishedCreation(ms[0].parts[j]);
          assert all[j] == ms[0].parts[j];
        } else {
          assert MessageHasSushi(ms[1..][i - 1]);
          var j :| 0 <= j < |AllParts(ms[1..])| && IsFinishedCreation(AllParts(ms[1..])[j]);
          assert all[|ms[0].parts| + j] == AllParts(ms[1..])[j];
        }
      }
      if Any(all, IsFinishedCreation) {
        var j :| 0 <= j < |all| && IsFinishedCreation(all[j]);
        if j < |ms[0].parts| {
          assert ms[0].parts[j] == all[j];
          assert MessageHasSushi(ms[0]);
        } else {
          assert AllParts(ms[1..])[j - |ms[0].parts|] == all[j];
          var i :| 0 <= i < |ms[1..]| && MessageHasSushi(ms[1..][i]);
          assert MessageHasSushi(ms[i + 1]);
        }
      }
    }
  }

  /** Once a sushi was created, later messages never undo it. */
  lemma HasSushiOutputPersists(ms: seq<Message>, more: seq<Message>)
    requires HasSushiOutput(ms)
    ensures HasSushiOutput(ms + more)
  {
    var i :| 0 <= i < |ms| && MessageHasSushi(ms[i]);
    assert (ms + more)[i] == ms[i];
  }

  /**
   * The generation offer shows after an acceptance, until a sushi was
   * created: some judgment accepted and no creation finished.
   */
  predicate ShowGenerateOffer(ms: seq<Message>): (r: bool)
    ensures r <==> Any(AllParts(ms), IsPositiveJudgment) && !Any(AllParts(ms), IsFinishedCreation)
  {
    !HasSushiOutput(ms) && LastPositiveJudge(ms).Some?
  }

  /** After a creation, the offer never comes back, whatever follows. */
  lemma OfferGoneAfterCreation(ms: seq<Message>, more: seq<Message>)
    requires HasSushiOutput(ms)
    ensures !ShowGenerateOffer(ms + more)
  {
    HasSushiOutputPersists(ms, more);
  }

  // -------------------------------------------------------------- handlers

  /** A user text message as `sendMessage({ text })` appends it; the id is generated. */
  function UserText(id: string, text: string): (m: Message)
    ensures m.role == User && m.parts == [Text(text)] && m.metadata == Metadata(None, None)
  {
    Message(id, User, [Text(text)], Metadata(None, None))
  }

  /** What a submit does: the text sent, if any, and the input box afterwards. */
  datatype SubmitOutcome = SubmitOutcome(sent: Option<string>, input: string)

  /** `handleSubmit`: a blank input is ignored; otherwise it is sent as is and cleared. */
  function HandleSubmit(input: string): (r: SubmitOutcome)
    ensures r.sent.None? <==> Trim(input) == []
    ensures r.sent.None? ==> r.input == input
    ensures r.sent.Some? ==> r.sent.value == input && r.input == []
  {
    if Trim(input) == [] then SubmitOutcome(None, input) else SubmitOutcome(Some(input), [])
  }

  /** Exactly the blank inputs are not sent. */
  lemma SubmitSendsNonBlank(input: string)
    ensures HandleSubmit(input).sent.None? <==> Blank(input)
  {
    TrimEmptyIffBlank(input);
  }

  const GenerateIntro := "judgeIsSushiでOKが出たので生成してください。"

  /** `input?.topping ?? ''` and `input?.base ?? ''` of a judgment part. */
  function JudgedTopping(p: Part): string requires p.JudgeCall? { p.judgeInput.topping.GetOr([]) }

  function JudgedBase(p: Part): string requires p.JudgeCall? { p.judgeInput.base.GetOr([]) }

  /**
   * `handleGenerateClick`: nothing without an accepting judgment; otherwise
   * the generation request naming its topping and base.
   */
  function HandleGenerateClick(ms: seq<Message>): (r: Option<string>)
    ensures r.Some? <==> Any(AllParts(ms), IsPositiveJudgment)
    ensures r.Some? ==> StartsWith(r.value, GenerateIntro + "\nTopping: ")
    ensures r.Some? ==> LastPositiveJudge(ms).Some? && LastPositiveJudge(ms).value.JudgeCall?
                        && r.value == GenerateIntro + "\nTopping: " + JudgedTopping(LastPositiveJudge(ms).value)
                                      + "\nBase: " + JudgedBase(LastPositiveJudge(ms).value)
  {
    match LastPositiveJudge(ms)
    case None => None
    case Some(p) =>
      PositiveJudgeIsPositive(ms);
      PairTextStart(GenerateIntro, JudgedTopping(p), JudgedBase(p), []);
      Some(PairText(GenerateIntro, JudgedTopping(p), JudgedBase(p), []))
  }

  lemma GenerateIntroHasNoLabelStart()
    ensures NoneLowersTo(GenerateIntro, 't') && NoneLowersTo(GenerateIntro, 'b')
  {
  }

  /**
   * The generation request reads back, through the summary pattern, to the
   * judged topping and base, trimmed: the topping when it is one non-blank
   * line, the base when it is one line and the topping holds no base label.
   */
  lemma GenerateRequestReadsBack(ms: seq<Message>)
    requires Any(AllParts(ms), IsPositiveJudgment)
    ensures var p := LastPositiveJudge(ms).value;
            var text := HandleGenerateClick(ms).value;
            p.JudgeCall?
            && (!HasNewline(JudgedTopping(p)) && !Blank(JudgedTopping(p)) ==>
                  ExtractField(text, ToppingTag) == Some(Trim(JudgedTopping(p))))
            && (!HasNewline(JudgedTopping(p)) && !ContainsLabel(JudgedTopping(p), BaseTag) && !HasNewline(JudgedBase(p)) ==>
                  ExtractField(text, BaseTag) == Some(Trim(JudgedBase(p))))
  {
    PositiveJudgeIsPositive(ms);
    var p := LastPositiveJudge(ms).value;
    GenerateIntroHasNoLabelStart();
    if !HasNewline(JudgedTopping(p)) && !Blank(JudgedTopping(p)) {
      ToppingReadsBack(GenerateIntro, JudgedTopping(p), JudgedBase(p), []);
    }
    if !HasNewline(JudgedTopping(p)) && !ContainsLabel(JudgedTopping(p), BaseTag) && !HasNewline(JudgedBase(p)) {
      BaseReadsBack(GenerateIntro, JudgedTopping(p), JudgedBase(p), []);
    }
  }

  /**
   * Without a judged topping, the request's topping line is empty and the
   * summary pattern reads the whole `Base:` line as the topping. Stated for
   * a log whose newest message holds one accepting judgment with no topping.
   */
  lemma GenerateWithoutToppingReadsBaseLine(ms: seq<Message>, m: Message, p: Part)
    requires p.JudgeCall? && IsPositiveJudgment(p) && m.parts == [p]
    requires p.judgeInput.topping.None? && !HasNewline(JudgedBase(p))
    ensures HandleGenerateClick(ms + [m]).Some?
    ensures ExtractField(HandleGenerateClick(ms + [m]).value, ToppingTag) == Some(Trim("Base: " + JudgedBase(p)))
  {
    assert m.parts[0] == p;
    NewestPositiveJudgeWins(ms, m);
    assert Filter(m.parts, IsPositiveJudgment) == [p];
    GenerateIntroHasNoLabelStart();
    BlankToppingReadsBaseLine(GenerateIntro, [], JudgedBase(p));
  }

  // ------------------------------------------------------------- rebuttal

  const RebuttalRequestIntro := "以下の判定に反論する文章を、創作寿司を肯定する立場で短く書いてください。"
  const RebuttalInputIntro := "AI判定に反論します。"
  const ArgumentsLine := "\nUser arguments: "
  const DefaultArgument :=
    "AI判定に反論します。創作寿司として成立するはずだと主張します。食用として安全で、創造的・融合的な寿司として成立すると説得します。"

  /**
   * The topping the rebuttal uses: that of the last accepting judgment,
   * empty when it has none or when no judgment accepted.
   */
  function RebuttalTopping(ms: seq<Message>): (r: string)
    ensures !Any(AllParts(ms), IsPositiveJudgment) ==> r == []
    ensures Any(AllParts(ms), IsPositiveJudgment) ==>
              LastPositiveJudge(ms).Some? && LastPositiveJudge(ms).value.JudgeCall?
              && r == LastPositiveJudge(ms).value.judgeInput.topping.GetOr([])
  {
    match LastPositiveJudge(ms)
    case None => []
    case Some(p) =>
      PositiveJudgeIsPositive(ms);
      JudgedTopping(p)
  }

  /** The base the rebuttal uses, as `RebuttalTopping` does for the topping. */
  function RebuttalBase(ms: seq<Message>): (r: string)
    ensures !Any(AllParts(ms), IsPositiveJudgment) ==> r == []
    ensures Any(AllParts(ms), IsPositiveJudgment) ==>
              LastPositiveJudge(ms).Some? && LastPositiveJudge(ms).value.JudgeCall?
              && r == LastPositiveJudge(ms).value.judgeInput.base.GetOr([])
  {
    match LastPositiveJudge(ms)
    case None => []
    case Some(p) =>
      PositiveJudgeIsPositive(ms);
      JudgedBase(p)
  }

  /** Generation and rebuttal name the same pair: the last accepted one. */
  lemma GenerateAndRebuttalNameSamePair(ms: seq<Message>)
    requires Any(AllParts(ms), IsPositiveJudgment)
    ensures HandleGenerateClick(ms) == Some(PairText(GenerateIntro, RebuttalTopping(ms), RebuttalBase(ms), []))
  {
    PositiveJudgeIsPositive(ms);
  }

  /** The text of the single-message request the rebuttal button posts. */
  function RebuttalRequestText(ms: seq<Message>): (r: string)
    ensures StartsWith(r, RebuttalRequestIntro + "\nTopping: ")
    ensures !Any(AllParts(ms), IsPositiveJudgment) ==> r == RebuttalRequestIntro + "\nTopping: \nBase: "
    ensures Any(AllParts(ms), IsPositiveJudgment) ==>
              LastPositiveJudge(ms).Some? && LastPositiveJudge(ms).value.JudgeCall?
              && r == RebuttalRequestIntro + "\nTopping: " + JudgedTopping(LastPositiveJudge(ms).value)
                      + "\nBase: " + JudgedBase(LastPositiveJudge(ms).value)
  {
    PairTextStart(RebuttalRequestIntro, RebuttalTopping(ms), RebuttalBase(ms), []);
    PairText(RebuttalRequestIntro, RebuttalTopping(ms), RebuttalBase(ms), [])
  }

  predicate IsDataLine(l: string) { StartsWith(l, "data:") }

  /**
   * The naive stream parse: the last line of the trimmed body that starts
   * with `data:`, with that prefix and the whitespace after it removed.
   */
  function ReplyLine(body: string): (r: Option<string>)
    ensures r.None? <==> !Any(Split(Trim(body), '\n'), IsDataLine)
    ensures r.Some? ==> |r.value| == 0 || !IsSpace(r.value[0])
    ensures r.Some? ==> !HasNewline(r.value)
    ensures r.Some? ==> exists k :: IsLast(Split(Trim(body), '\n'), IsDataLine, k)
                                   && var l := Split(Trim(body), '\n')[k]; r.value == l[SpanSpace(l, 5)..]
  {
    var lines := Split(Trim(body), '\n');
    SplitPiecesHaveNoSeparator(Trim(body), '\n');
    LastOfFilter(lines, IsDataLine);
    match Last(Filter(lines, IsDataLine))
    case None => None
    case Some(l) =>
      ghost var k :| IsLast(lines, IsDataLine, k) && lines[k] == l;
      assert IsDataLine(l) && l in lines;
      var r := l[SpanSpace(l, 5)..];
      assert forall i :: 0 <= i < |r| ==> r[i] == l[SpanSpace(l, 5) + i];
      Some(r)
  }

  /**
   * A body whose last frame is `data: <payload>` gives that payload, when
   * the body has no surrounding whitespace and the payload is one line that
   * starts with a non-space character.
   */
  lemma ReplyOfLastFrame(frames: seq<string>, payload: string)
    requires forall k, i :: 0 <= k < |frames| && 0 <= i < |frames[k]| ==> frames[k][i] != '\n'
    requires |payload| > 0 && !IsSpace(payload[0]) && !HasNewline(payload)
    requires Trim(Join(frames + ["data: " + payload], '\n')) == Join(frames + ["data: " + payload], '\n')
    ensures ReplyLine(Join(frames + ["data: " + payload], '\n')) == Some(payload)
  {
    var l := "data: " + payload;
    FramesSplitBack(frames, payload);
    LastFrameIsLastDataLine(frames, l);
    DataPrefixStripped(payload);
  }

  /** Splitting the joined frames gives the frames back. */
  lemma FramesSplitBack(frames: seq<string>, payload: string)
    requires forall k, i :: 0 <= k < |frames| && 0 <= i < |frames[k]| ==> frames[k][i] != '\n'
    requires !HasNewline(payload)
    ensures Split(Join(frames + ["data: " + payload], '\n'), '\n') == frames + ["data: " + payload]
  {
    var pieces := frames + ["data: " + payload];
    forall k, i | 0 <= k < |pieces| && 0 <= i < |pieces[k]| ensures pieces[k][i] != '\n' {
      if k < |frames| {
        assert pieces[k] == frames[k];
      } else if i >= 6 {
        assert pieces[k][i] == payload[i - 6];
      }
    }
    SplitJoin(pieces, '\n');
  }

  /** A final `data:` line is the last data line. */
  lemma LastFrameIsLastDataLine(frames: seq<string>, l: string)
    requires IsDataLine(l)
    ensures Last(Filter(frames + [l], IsDataLine)) == Some(l)
  {
    FilterAppend(frames, [l], IsDataLine);
    assert Filter([l], IsDataLine) == [l];
  }

  /** Removing `data:` and the blanks after it from `data: <payload>` leaves the payload. */
  lemma DataPrefixStripped(payload: string)
    requires |payload| > 0 && !IsSpace(payload[0])
    ensures var l := "data: " + payload; l[SpanSpace(l, 5)..] == payload
  {
    var l := "data: " + payload;
    assert l[5] == ' ' && l[6] == payload[0];
    SpanSpaceUnique(l, 5, 6);
    assert l[6..] == payload;
  }

  /**
   * The argument line: the text of the parsed reply when there is a
   * non-empty data line and it parses to a non-empty text, else the fixed
   * default argument. `parseReply` stands for `JSON.parse` followed by the
   * message's first text part; absence covers a parse error and a reply
   * without a text part.
   */
  function ComposedArgument(reply: Option<string>, parseReply: string -> Option<string>): (r: string)
    ensures |r| > 0
    ensures reply.Some? && reply.value != [] && parseReply(reply.value).Some? && parseReply(reply.value).value != []
            ==> r == parseReply(reply.value).value
    ensures reply.None? || reply.value == [] || parseReply(reply.value).GetOr([]) == [] ==> r == DefaultArgument
  {
    var rebuttal := if reply.Some? && reply.value != [] then parseReply(reply.value).GetOr([]) else [];
    if rebuttal == [] then DefaultArgument else rebuttal
  }

  /**
   * `handleRebuttal`: `response` is the body text of the request, absent
   * when the request or reading it failed, in which case the input is left
   * as it was. Otherwise the new input names the accepted topping and base
   * and carries the argument line.
   */
  function HandleRebuttal(ms: seq<Message>, response: Option<string>, parseReply: string -> Option<string>): (r: Option<string>)
    ensures r.Some? <==> response.Some?
    ensures r.Some? ==> StartsWith(r.value, RebuttalInputIntro + "\nTopping: ")
  {
    match response
    case None => None
    case Some(body) =>
      var tail := ArgumentsLine + ComposedArgument(ReplyLine(body), parseReply);
      PairTextStart(RebuttalInputIntro, RebuttalTopping(ms), RebuttalBase(ms), tail);
      Some(PairText(RebuttalInputIntro, RebuttalTopping(ms), RebuttalBase(ms), tail))
  }

  /** The argument line is the parsed reply when there is one, the default otherwise. */
  lemma RebuttalArgument(ms: seq<Message>, body: string, parseReply: string -> Option<string>)
    ensures var reply := ReplyLine(body);
            reply.Some? && reply.value != [] && parseReply(reply.value).Some? && parseReply(reply.value).value != [] ==>
              HandleRebuttal(ms, Some(body), parseReply).value
              == PairText(RebuttalInputIntro, RebuttalTopping(ms), RebuttalBase(ms), ArgumentsLine + parseReply(reply.value).value)
    ensures var reply := ReplyLine(body);
            reply.None? || reply.value == [] || parseReply(reply.value).GetOr([]) == [] ==>
              HandleRebuttal(ms, Some(body), parseReply).value
              == PairText(RebuttalInputIntro, RebuttalTopping(ms), RebuttalBase(ms), ArgumentsLine + DefaultArgument)
  {
  }

  lemma RebuttalIntroHasNoLabelStart()
    ensures NoneLowersTo(RebuttalInputIntro, 't') && NoneLowersTo(RebuttalInputIntro, 'b')
    ensures NoneLowersTo(RebuttalRequestIntro, 't') && NoneLowersTo(RebuttalRequestIntro, 'b')
  {
    RequestIntroHasNo('t');
    RequestIntroHasNo('b');
  }

  lemma RequestIntroHasNo(ch: char)
    requires ch == 't' || ch == 'b'
    ensures NoneLowersTo(RebuttalRequestIntro, ch)
  {
  }

  /**
   * The rebuttal input reads back to the accepted topping and base, trimmed,
   * when each is one non-blank line and the topping holds no base label.
   */
  lemma RebuttalInputReadsBack(ms: seq<Message>, body: string, parseReply: string -> Option<string>)
    ensures var text := HandleRebuttal(ms, Some(body), parseReply).value;
            var t := RebuttalTopping(ms);
            var b := RebuttalBase(ms);
            (!HasNewline(t) && !Blank(t) ==> ExtractField(text, ToppingTag) == Some(Trim(t)))
            && (!HasNewline(t) && !ContainsLabel(t, BaseTag) && !HasNewline(b) && !Blank(b)
                ==> ExtractField(text, BaseTag) == Some(Trim(b)))
  {
    var t := RebuttalTopping(ms);
    var b := RebuttalBase(ms);
    var tail := ArgumentsLine + ComposedArgument(ReplyLine(body), parseReply);
    RebuttalIntroHasNoLabelStart();
    if !HasNewline(t) && !Blank(t) {
      ToppingReadsBack(RebuttalInputIntro, t, b, tail);
    }
    if !HasNewline(t) && !ContainsLabel(t, BaseTag) && !HasNewline(b) && !Blank(b) {
      BaseReadsBack(RebuttalInputIntro, t, b, tail);
    }
  }

  /**
   * The rebuttal request reads back, through the summary pattern, to the
   * accepted topping and base, trimmed: the topping when it is one non-blank
   * line, the base when it is one line and the topping holds no base label.
   */
  lemma RebuttalRequestReadsBack(ms: seq<Message>)
    ensures var text := RebuttalRequestText(ms);
            var t := RebuttalTopping(ms);
            var b := RebuttalBase(ms);
            (!HasNewline(t) && !Blank(t) ==> ExtractField(text, ToppingTag) == Some(Trim(t)))
            && (!HasNewline(t) && !ContainsLabel(t, BaseTag) && !HasNewline(b)
                ==> ExtractField(text, BaseTag) == Some(Trim(b)))
  {
    var t := RebuttalTopping(ms);
    var b := RebuttalBase(ms);
    RequestIntroHasNo('t');
    RequestIntroHasNo('b');
    if !HasNewline(t) && !Blank(t) {
      ToppingReadsBack(RebuttalRequestIntro, t, b, []);
    }
    if !HasNewline(t) && !ContainsLabel(t, BaseTag) && !HasNewline(b) {
      BaseReadsBack(RebuttalRequestIntro, t, b, []);
    }
  }

  // ------------------------------------------------------------ rendering

  /** What one part renders as. */
  datatype PartView =
    | Paragraph(text: string)
    | Verdict(accepted: bool, reasoning: Option<string>)
    | JudgeFailed(errorText: Option<string>)
    | Judging
    | SushiCard(sushi: Sushi)
    | CreateFailed(errorText: Option<string>)
    | Creating
    | NothingShown

  /** The rendering branch of one part. */
  function RenderPart(p: Part): (r: PartView)
    ensures r.Verdict? <==> IsCompletedJudgment(p)
    ensures r.Verdict? ==> (r.accepted <==> IsPositiveJudgment(p)) && r.reasoning == p.judgment.value.reasoning
    ensures r.SushiCard? <==> IsFinishedCreation(p)
    ensures r.SushiCard? ==> r.sushi == p.sushi.value
    ensures r.NothingShown? <==> p.OtherPart?
    ensures r.Paragraph? <==> p.Text?
    ensures r.JudgeFailed? <==> p.JudgeCall? && !IsCompletedJudgment(p) && p.state == OutputError
    ensures r.Judging? <==> p.JudgeCall? && !IsCompletedJudgment(p) && p.state != OutputError
    ensures r.CreateFailed? <==> p.CreateCall? && !IsFinishedCreation(p) && p.state == OutputError
    ensures r.Creating? <==> p.CreateCall? && !IsFinishedCreation(p) && p.state != OutputError
    ensures r.JudgeFailed? || r.CreateFailed? ==> r.errorText == p.errorText
  {
    match p
    case Text(t) => Paragraph(t)
    case JudgeCall(state, _, judgment, errorText) =>
      if state == OutputAvailable && judgment.Some? then Verdict(judgment.value.isSushi, judgment.value.reasoning)
      else if state == OutputError then JudgeFailed(errorText)
      else Judging
    case CreateCall(state, _, sushi, errorText) =>
      if state == OutputAvailable && sushi.Some? then SushiCard(sushi.value)
      else if state == OutputError then CreateFailed(errorText)
      else Creating
    case OtherPart(_) => NothingShown
  }

  /** A rendered message: the role heading and the rendered parts. */
  datatype MessageView = MessageView(heading: string, parts: seq<PartView>)

  function RenderMessage(m: Message): (r: MessageView)
    ensures r.heading == (if m.role == User then "User" else "AI")
    ensures |r.parts| == |m.parts|
    ensures forall j :: 0 <= j < |m.parts| ==> r.parts[j] == RenderPart(m.parts[j])
  {
    MessageView(if m.role == User then "User" else "AI", seq(|m.parts|, j requires 0 <= j < |m.parts| => RenderPart(m.parts[j])))
  }

  function Render(ms: seq<Message>): (r: seq<MessageView>)
    ensures |r| == |ms|
    ensures forall i :: 0 <= i < |ms| ==> r[i] == RenderMessage(ms[i])
  {
    seq(|ms|, i requires 0 <= i < |ms| => RenderMessage(ms[i]))
  }

  /** The generation offer is hidden exactly when a sushi card is on screen, or nothing was accepted. */
  lemma OfferHiddenIffCardShown(ms: seq<Message>)
    ensures HasSushiOutput(ms) <==>
              exists i, j :: 0 <= i < |ms| && 0 <= j < |Render(ms)[i].parts| && Render(ms)[i].parts[j].SushiCard?
  {
    var v := Render(ms);
    if HasSushiOutput(ms) {
      var i :| 0 <= i < |ms| && MessageHasSushi(ms[i]);
      var j :| 0 <= j < |ms[i].parts| && IsFinishedCreation(ms[i].parts[j]);
      assert v[i].parts[j] == RenderPart(ms[i].parts[j]);
    }
    if exists i, j :: 0 <= i < |ms| && 0 <= j < |v[i].parts| && v[i].parts[j].SushiCard? {
      var i, j :| 0 <= i < |ms| && 0 <= j < |v[i].parts| && v[i].parts[j].SushiCard?;
      assert v[i].parts[j] == RenderPart(ms[i].parts[j]);
      assert MessageHasSushi(ms[i]);
    }
  }
}
