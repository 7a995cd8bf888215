/**
 * The conversation log: messages made of ordered parts, where a part is text or
 * a tool invocation with a lifecycle state. The two tools are `judgeIsSushi`
 * and `createSushi`; the created document mirrors the sushi schema.
 */
module Messages {
  import opened Common
  import opened Strings

  datatype Role = User | Assistant | System

  /** The lifecycle of a tool invocation part. */
  datatype ToolState = InputStreaming | InputAvailable | OutputAvailable | OutputError

  /** Message metadata; an absent sidecar has both fields absent. */
  datatype Metadata = Metadata(topping: Option<string>, base: Option<string>)

  /**
   * Arguments of a tool call. They may be partial while the call streams,
   * so every field may be absent; an absent input has every field absent.
   */
  datatype JudgeInput = JudgeInput(topping: Option<string>, base: Option<string>, userArguments: Option<string>)
  datatype CreateInput = CreateInput(topping: Option<string>, base: Option<string>)

  datatype Judgment = Judgment(isSushi: bool, reasoning: Option<string>)

  /** Each section of the document has a `label` heading, here `heading`. */
  datatype Etymology = Etymology(heading: string, description: string)
  datatype HistoryEvent = HistoryEvent(date: string, description: string)
  datatype History = History(heading: string, events: seq<HistoryEvent>)
  datatype ItemList = ItemList(heading: string, items: seq<string>)
  datatype Recipe = Recipe(heading: string, ingredients: ItemList, steps: ItemList)

  /** The created sushi document; `image` is a data URL or a stored-image path. */
  datatype Sushi = Sushi(
    topping: string,
    base: string,
    title: string,
    description: string,
    image: Option<string>,
    etymology: Etymology,
    history: History,
    recipe: Recipe)

  datatype Part =
    | Text(text: string)
    | JudgeCall(state: ToolState, judgeInput: JudgeInput, judgment: Option<Judgment>, errorText: Option<string>)
    | CreateCall(state: ToolState, createInput: CreateInput, sushi: Option<Sushi>, errorText: Option<string>)
      /** Any other part kind (reasoning, step markers, other tools), which the core ignores. */
    | OtherPart(kind: string)

  datatype Message = Message(id: string, role: Role, parts: seq<Part>, metadata: Metadata)

  /** `messages.flatMap(m => m.parts)`: every part, in message order then part order. */
  function AllParts(ms: seq<Message>): (r: seq<Part>)
    ensures ms == [] ==> r == []
  {
    if ms == [] then [] else ms[0].parts + AllParts(ms[1..])
  }

  lemma {:induction false} AllPartsAppend(ms: seq<Message>, m: Message)
    ensures AllParts(ms + [m]) == AllParts(ms) + m.parts
  {
    if ms != [] {
      assert (ms + [m])[1..] == ms[1..] + [m];
      AllPartsAppend(ms[1..], m);
    } else {
      assert [m][1..] == [];
    }
  }

  /** A part of any message is a part of the flattened log, and conversely. */
  lemma {:induction false} AllPartsMembership(ms: seq<Message>, p: Part)
    ensures p in AllParts(ms) <==> exists i :: 0 <= i < |ms| && p in ms[i].parts
  {
    if ms != [] {
      AllPartsMembership(ms[1..], p);
      if p in AllParts(ms[1..]) {
        var i :| 0 <= i < |ms[1..]| && p in ms[1..][i].parts;
        assert p in ms[i + 1].parts;
      }
      if exists i :: 0 <= i < |ms| && p in ms[i].parts {
        var i :| 0 <= i < |ms| && p in ms[i].parts;
        if i > 0 { assert p in ms[1..][i - 1].parts; }
      }
    }
  }

  // ------------------------------------------------- part classification

  predicate IsText(p: Part) { p.Text? }

  predicate IsJudge(p: Part) { p.JudgeCall? }

  /** A judgment that finished with an output. */
  predicate IsCompletedJudgment(p: Part) {
    p.JudgeCall? && p.state == OutputAvailable && p.judgment.Some?
  }

  /** A finished judgment that accepts the pair as sushi. */
  predicate IsPositiveJudgment(p: Part) {
    IsCompletedJudgment(p) && p.judgment.value.isSushi
  }

  /** A creation that finished with a document. */
  predicate IsFinishedCreation(p: Part) {
    p.CreateCall? && p.state == OutputAvailable && p.sushi.Some?
  }

  /** A finished creation whose document carries a non-empty image. */
  predicate HasImage(p: Part) {
    IsFinishedCreation(p) && p.sushi.value.image.Some? && p.sushi.value.image.value != []
  }

  // --------------------------------------------------------- the preview

  /** Longest preview kept in a summary. */
  const PreviewLength: nat := 60

  /** The text of the first text part of the log, if any. */
  function FirstText(ms: seq<Message>): (r: Option<string>)
    ensures r.None? <==> forall k :: 0 <= k < |AllParts(ms)| ==> !AllParts(ms)[k].Text?
    ensures r.Some? ==> exists k :: IsFirst(AllParts(ms), IsText, k) && AllParts(ms)[k] == Text(r.value)
  {
    match Find(AllParts(ms), IsText)
    case None => None
    case Some(p) => Some(p.text)
  }

  lemma FirstTextIsAText(ms: seq<Message>)
    requires FirstText(ms).Some?
    ensures exists k :: 0 <= k < |AllParts(ms)| && AllParts(ms)[k].Text?
  {
    var k :| IsFirst(AllParts(ms), IsText, k) && AllParts(ms)[k] == Text(FirstText(ms).value);
    assert AllParts(ms)[k].Text?;
  }

  /**
   * The preview of a log: the first text part cut to `PreviewLength`
   * characters, absent when the log has no text part.
   */
  function Preview(ms: seq<Message>): (r: Option<string>)
    ensures r.None? <==> forall k :: 0 <= k < |AllParts(ms)| ==> !AllParts(ms)[k].Text?
    ensures r.Some? ==> |r.value| <= PreviewLength
    ensures r.Some? ==>
              exists k :: IsFirst(AllParts(ms), IsText, k)
                          && StartsWith(AllParts(ms)[k].text, r.value)
                          && (|r.value| == PreviewLength || r.value == AllParts(ms)[k].text)
  {
    match FirstText(ms)
    case None => None
    case Some(t) =>
      FirstTextIsAText(ms);
      Some(Take(t, PreviewLength))
  }

  /** Messages appended after a text part never change the preview. */
  lemma PreviewStableUnderAppend(ms: seq<Message>, m: Message)
    requires Preview(ms).Some?
    ensures Preview(ms + [m]) == Preview(ms)
  {
    AllPartsAppend(ms, m);
    FindPrefixStable(AllParts(ms), m.parts, IsText);
  }
}
