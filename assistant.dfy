/**
 * The chat assistant: the context block built from the committed store, the two
 * prompt messages wrapped around it and around the user's text, and the call to
 * the remote language model, which is a parameter of the model (an oracle from
 * the list of messages to its reply).
 */
module Assistant {
  import opened Wrappers
  import opened Seqs
  import opened Strings
  import opened ProjectStore
  import opened ProjectQueries

  const ContextHeader: string := "Available projects data: \n\n"

  // The fixed pieces of a project block, in the order they appear.
  const NameOpen: string := "Project name: '"
  const NameClose: string := "':\n"
  const ShortLabel: string := "Short description: "
  const FullLabel: string := "Full description: "
  const StatusLabel: string := "Project status: "
  const UpdateLabel: string := "Last update: "
  const RewardLabel: string := "Reward amount: "
  const ApproximateLabel: string := ". Approximately "
  const DistributionLabel: string := "Reward distribution date: "
  const WebsiteLabel: string := "Project links: Website "
  const TwitterLabel: string := ", Twitter "
  const TelegramLabel: string := ", Telegram "
  const DiscordLabel: string := ", Discord "
  const RequirementsLabel: string := "Requirements with task title, difficulty, and deadline: "
  const RequirementSeparator: string := "; "
  const PartSeparator: string := " | "
  const LineEnd: string := "\n"
  const BlockEnd: string := "\n\n"

  /** How Python prints a missing value. */
  const NoneText: string := "None"

  /**
   * What the f-string placeholders `project_info.get(key)` print: the row's values, or
   * `None` for every key when the lookup found no row and yielded an empty dict.
   */
  function Printed(info: Option<ProjectInfo>): ProjectInfo
  {
    if info.Some? then info.value
    else ProjectInfo(NoneText, NoneText, NoneText, NoneText, NoneText, NoneText,
                     NoneText, NoneText, NoneText, NoneText, NoneText, NoneText)
  }

  /** One requirement as `task | difficulty | deadline`. */
  function RequirementText(r: Requirement): string
  {
    r.task + PartSeparator + r.difficulty + PartSeparator + r.deadline
  }

  function BlockHeader(name: string): string
  {
    NameOpen + name + NameClose
  }

  /** One line of a block: a label, the printed value, and the line break. */
  function FieldLine(caption: string, value: string): string
  {
    caption + value + LineEnd
  }

  /** The field lines of a block, in their fixed order. */
  function BlockFields(info: Option<ProjectInfo>): string
  {
    var p := Printed(info);
    FieldLine(ShortLabel, p.descriptionShort)
    + FieldLine(FullLabel, p.descriptionFull)
    + FieldLine(StatusLabel, p.status)
    + FieldLine(UpdateLabel, p.lastUpdated)
    + FieldLine(RewardLabel, p.rewardsAmount + ApproximateLabel + p.rewardsApproximateAmount)
    + FieldLine(DistributionLabel, p.rewardsDistributionDate)
    + FieldLine(WebsiteLabel, p.linksWebsite + TwitterLabel + p.linksTwitter
                              + TelegramLabel + p.linksTelegram + DiscordLabel + p.linksDiscord)
  }

  /** The last line of a block: the requirement renderings joined with "; ", then a blank line. */
  function RequirementsLine(reqs: seq<Requirement>): string
  {
    RequirementsLabel + Join(RequirementSeparator, Map(RequirementText, reqs)) + BlockEnd
  }

  function RenderBlock(name: string, info: Option<ProjectInfo>, reqs: seq<Requirement>): string
  {
    BlockHeader(name) + BlockFields(info) + RequirementsLine(reqs)
  }

  /** The block for one listed name, from the lookup and the join for that same name. */
  function ProjectBlock(t: Tables, name: string): string
  {
    RenderBlock(name, GetProjectInfo(t, name), GetRequirementsByProject(t, name))
  }

  /** The block renderer for one store. */
  function BlockOf(t: Tables): string -> string
  {
    (name: string) => ProjectBlock(t, name)
  }

  /** One block per name, in the order of `names`. */
  function ProjectBlocks(t: Tables, names: seq<string>): (blocks: seq<string>)
    ensures |blocks| == |names|
    ensures forall i :: 0 <= i < |names| ==> blocks[i] == ProjectBlock(t, names[i])
  {
    Map(BlockOf(t), names)
  }

  /** The context text: the header, then the block of every name the store lists. */
  function ContextText(t: Tables): (text: string)
    ensures |ContextHeader| <= |text| && text[..|ContextHeader|] == ContextHeader
    ensures t.projects == [] ==> text == ContextHeader
  {
    AppendParts(ContextHeader, Concat(ProjectBlocks(t, GetAllProjects(t))));
    ContextHeader + Concat(ProjectBlocks(t, GetAllProjects(t)))
  }

  /** The header and the blocks of the first `i` listed names: the text after `i` rounds of the loop. */
  function ContextSoFar(t: Tables, i: nat): string
    requires i <= |t.projects|
  {
    ContextHeader + Concat(ProjectBlocks(t, GetAllProjects(t))[..i])
  }

  /** One round of the loop appends the block of the next listed name. */
  lemma ContextSoFarStep(t: Tables, i: nat)
    requires i < |t.projects|
    ensures var name := GetAllProjects(t)[i];
      ContextSoFar(t, i) + RenderBlock(name, GetProjectInfo(t, name), GetRequirementsByProject(t, name))
        == ContextSoFar(t, i + 1)
  {
    ConcatPrefix(ContextHeader, ProjectBlocks(t, GetAllProjects(t)), i);
  }

  /** After a round per listed name the text is the whole context. */
  lemma ContextSoFarComplete(t: Tables)
    ensures ContextSoFar(t, |t.projects|) == ContextText(t)
  {
    ConcatWhole(ContextHeader, ProjectBlocks(t, GetAllProjects(t)));
  }

  /** _get_all_projects_data: the header, then a block appended for each listed name. */
  method BuildContext(t: Tables) returns (context: string)
    ensures context == ContextText(t)
  {
    context := ContextHeader;
    var names := GetAllProjects(t);
    for i := 0 to |names|
      invariant context == ContextSoFar(t, i)
    {
      var name := names[i];
      var info := GetProjectInfo(t, name);
      var reqs := GetRequirementsByProject(t, name);
      ContextSoFarStep(t, i);
      context := context + RenderBlock(name, info, reqs);
    }
    ContextSoFarComplete(t);
  }

  /** The header line quotes the project name after a fixed label. */
  lemma HeaderQuotesName(name: string)
    ensures var header := BlockHeader(name);
      var k := |NameOpen|;
      && |header| == k + |name| + |NameClose|
      && header[..k] == NameOpen && header[k..k + |name|] == name && header[k + |name|..] == NameClose
  {
    AppendParts(NameOpen, name);
    AppendParts(NameOpen + name, NameClose);
  }

  /**
   * The requirements line is its label, the joined renderings, and a blank line; with
   * no requirements the label is followed directly by the blank line.
   */
  lemma RequirementsLineFrame(reqs: seq<Requirement>)
    ensures var line := RequirementsLine(reqs);
      var joined := Join(RequirementSeparator, Map(RequirementText, reqs));
      && |line| == |RequirementsLabel| + |joined| + |BlockEnd|
      && line[..|RequirementsLabel|] == RequirementsLabel
      && line[|RequirementsLabel|..|RequirementsLabel| + |joined|] == joined
      && line[|line| - |BlockEnd|..] == BlockEnd
    ensures reqs == [] ==> RequirementsLine(reqs) == RequirementsLabel + BlockEnd
  {
    var joined := Join(RequirementSeparator, Map(RequirementText, reqs));
    AppendParts(RequirementsLabel, joined + BlockEnd);
    AppendParts(RequirementsLabel + joined, BlockEnd);
    AppendParts(joined, BlockEnd);
    JoinSnoc(RequirementSeparator, [], "");
  }

  /** Every block opens with its header line, which quotes the project name. */
  lemma BlockStartsWithHeader(name: string, info: Option<ProjectInfo>, reqs: seq<Requirement>)
    ensures var block := RenderBlock(name, info, reqs);
      |BlockHeader(name)| <= |block| && block[..|BlockHeader(name)|] == BlockHeader(name)
  {
    AppendThree(BlockHeader(name), BlockFields(info), RequirementsLine(reqs));
  }

  /**
   * Every block closes with its requirements line, so it ends in a blank line and the
   * next block starts on a line of its own.
   */
  lemma BlockEndsWithRequirements(name: string, info: Option<ProjectInfo>, reqs: seq<Requirement>)
    ensures var block := RenderBlock(name, info, reqs);
      var footer := RequirementsLine(reqs);
      && |footer| <= |block|
      && block[|block| - |footer|..] == footer
      && block[|block| - |BlockEnd|..] == BlockEnd
  {
    var block, footer := RenderBlock(name, info, reqs), RequirementsLine(reqs);
    AppendThree(BlockHeader(name), BlockFields(info), footer);
    RequirementsLineFrame(reqs);
    EndsWithEnd(block, footer, BlockEnd);
  }

  /**
   * The context is the header followed by exactly one block per listed name, in the
   * order of the name list: the i-th name's block stands between the blocks of the
   * names before it and those after it.
   */
  lemma ContextBlockAt(t: Tables, i: nat)
    requires i < |t.projects|
    ensures var blocks := ProjectBlocks(t, GetAllProjects(t));
      ContextText(t) == ContextHeader + (Concat(blocks[..i]) + ProjectBlock(t, GetAllProjects(t)[i]) + Concat(blocks[i + 1..]))
  {
    ConcatAround(ProjectBlocks(t, GetAllProjects(t)), i);
  }

  /**
   * Every listed name is the name of a row, so its lookup finds a row of that name and
   * no field of a listed block prints as `None`.
   */
  lemma ListedNameFound(t: Tables, i: nat)
    requires i < |t.projects|
    ensures var name := GetAllProjects(t)[i];
      GetProjectInfo(t, name).Some? && GetProjectInfo(t, name).value.projectName == name
  {
    assert t.projects[i].info.projectName == GetAllProjects(t)[i];
  }

  lemma ProjectBlocksSnoc(t: Tables, names: seq<string>, name: string)
    ensures ProjectBlocks(t, names + [name]) == ProjectBlocks(t, names) + [ProjectBlock(t, name)]
  {
    MapConcat(BlockOf(t), names, [name]);
    assert BlockOf(t)(name) == ProjectBlock(t, name);
    assert Map(BlockOf(t), [name]) == [ProjectBlock(t, name)];
  }

  /** A name no project row carries owns no requirement rows. */
  lemma AbsentNameHasNoRequirements(t: Tables, name: string)
    requires name !in GetAllProjects(t)
    ensures GetRequirementsByProject(t, name) == []
  {
    var names := GetAllProjects(t);
    var reqs := GetRequirementsByProject(t, name);
    forall j | 0 <= j < |t.projects|
      ensures t.projects[j].info.projectName != name
    {
      assert names[j] == t.projects[j].info.projectName;
    }
    FilterNone(OwnedByName(t.projects, name), t.requirements);
  }

  /** After the insert, a name other than the record's keeps its block. */
  lemma OtherBlockAfterInsert(t: Tables, doc: ProjectDoc, name: string)
    requires WellFormed(t) && Importable(doc)
    requires ExtractInfo(doc).value.projectName != name
    ensures ProjectBlock(InsertAttempt(t, doc).0, name) == ProjectBlock(t, name)
  {
    var u := InsertAttempt(t, doc).0;
    InsertThenProjectInfo(t, doc, name);
    InsertThenRequirements(t, doc, name);
    assert GetProjectInfo(u, name) == GetProjectInfo(t, name);
    assert GetRequirementsByProject(u, name) == GetRequirementsByProject(t, name);
  }

  /** After the insert, every name already listed keeps its block. */
  lemma OldBlocksAfterInsert(t: Tables, doc: ProjectDoc)
    requires WellFormed(t) && Importable(doc)
    requires ExtractInfo(doc).value.projectName !in GetAllProjects(t)
    ensures var u := InsertAttempt(t, doc).0;
      var names := GetAllProjects(t);
      ProjectBlocks(u, names) == ProjectBlocks(t, names)
  {
    var names := GetAllProjects(t);
    forall k | 0 <= k < |names|
      ensures ProjectBlock(InsertAttempt(t, doc).0, names[k]) == ProjectBlock(t, names[k])
    {
      OtherBlockAfterInsert(t, doc, names[k]);
    }
  }

  /**
   * Inserting a complete record under a name the store already holds: the lookup still
   * finds the earlier project, whose fields the block keeps, while the join by name now
   * also yields the record's requirements. Every block of that name shows them, the
   * earlier one in its place and the one appended for the new row alike.
   */
  lemma DuplicateNameAfterInsert(t: Tables, doc: ProjectDoc)
    requires WellFormed(t) && Importable(doc)
    requires ExtractInfo(doc).value.projectName in GetAllProjects(t)
    ensures var u := InsertAttempt(t, doc).0;
      var n := ExtractInfo(doc).value.projectName;
      && ProjectBlock(u, n) == RenderBlock(n, GetProjectInfo(t, n),
                                           GetRequirementsByProject(t, n) + ParsedRequirements(RequirementDocs(doc)))
      && ContextText(u) == ContextHeader + Concat(ProjectBlocks(u, GetAllProjects(t))) + ProjectBlock(u, n)
  {
    var u := InsertAttempt(t, doc).0;
    var n := ExtractInfo(doc).value.projectName;
    var names := GetAllProjects(t);
    var i :| 0 <= i < |names| && names[i] == n;
    ListedNameFound(t, i);
    InsertThenProjectInfo(t, doc, n);
    InsertThenRequirements(t, doc, n);
    assert GetProjectInfo(u, n) == GetProjectInfo(t, n);
    ProjectBlocksSnoc(u, names, n);
    ConcatSnoc(ContextHeader, ProjectBlocks(u, names), ProjectBlock(u, n));
  }

  /**
   * Inserting a complete record under a name the store does not hold yet leaves every
   * existing block as it was and appends one block for the record: its name, its
   * fields, and its requirements in document order.
   */
  lemma ContextAfterInsert(t: Tables, doc: ProjectDoc)
    requires WellFormed(t) && Importable(doc)
    requires ExtractInfo(doc).value.projectName !in GetAllProjects(t)
    ensures ContextText(InsertAttempt(t, doc).0) ==
              ContextText(t) + RenderBlock(ExtractInfo(doc).value.projectName, ExtractInfo(doc),
                                           ParsedRequirements(RequirementDocs(doc)))
  {
    var u := InsertAttempt(t, doc).0;
    var n := ExtractInfo(doc).value.projectName;
    var names := GetAllProjects(t);
    var block := RenderBlock(n, ExtractInfo(doc), ParsedRequirements(RequirementDocs(doc)));
    InsertThenProjectInfo(t, doc, n);
    assert GetAllProjects(u) == names + [n];
    InsertThenRequirements(t, doc, n);
    AbsentNameHasNoRequirements(t, n);
    assert GetProjectInfo(u, n) == ExtractInfo(doc);
    assert GetRequirementsByProject(u, n) == ParsedRequirements(RequirementDocs(doc));
    assert ProjectBlock(u, n) == block;
    OldBlocksAfterInsert(t, doc);
    ProjectBlocksSnoc(u, names, n);
    ConcatSnoc(ContextHeader, ProjectBlocks(t, names), block);
  }


  // ---------------------------------------------------------------------------
  // The prompt and the remote call.

  /** A chat message: its role tag and its text. */
  datatype Message = Message(role: string, content: string)

  /** The fixed instruction paragraph that precedes the context in the system message. */
  const Instructions: string :=
    "You are an assistant who gives recommendations on crypto projects and airdrops. "
    + "You should give relatively concise but informative answers in a conversational format."
    + "Depending on the user's question, you have to provide information about a specific project, "
    + "compare projects, evaluate the potential reward from the project, and make recommendations "
    + "based on the complexity of the requirements. You should only refer to the projects data provided here."
    + "You cannot write about other projects except those specified in the system prompt."
    + "When generating an answer, you should use only available data.\n"

  /** The system message around a context text: role `system`, the instructions immediately followed by the context. */
  function SystemMessage(context: string): (message: Message)
    ensures message.role == "system"
    ensures |message.content| == |Instructions| + |context|
    ensures message.content[..|Instructions|] == Instructions
    ensures message.content[|Instructions|..] == context
  {
    Message("system", Instructions + context)
  }

  /** _system_prompt: the system message around the context built from the store. */
  method SystemPrompt(t: Tables) returns (message: Message)
    ensures message == SystemMessage(ContextText(t))
  {
    var context := BuildContext(t);
    message := SystemMessage(context);
  }

  const UserInstruction: string := "Give the correct and understandable answer for the user based on the context:\n"

  /** user_prompt: role `user`, the fixed request line and then the user's text unchanged. */
  function UserPrompt(userInput: string): (message: Message)
    ensures message.role == "user"
    ensures |message.content| == |UserInstruction| + |userInput|
    ensures message.content[..|UserInstruction|] == UserInstruction
    ensures message.content[|UserInstruction|..] == userInput
  {
    Message("user", UserInstruction + userInput)
  }

  /** One choice of a completion; its message text may be absent. */
  datatype Choice = Choice(content: Option<string>)

  /** What the remote call gives back: an exception, or a completion with its choices. */
  datatype Completion = Raised | Returned(choices: seq<Choice>)

  const Unanswered: string := "Unable to answer."

  /** `response.choices[0].message.content` when that expression yields text. */
  function ReplyText(c: Completion): Option<string>
  {
    if c.Returned? && |c.choices| > 0 then c.choices[0].content else None
  }

  /**
   * _query_gpt: the first choice's text with its surrounding whitespace removed; any
   * failure on the way (the call raising, no choice, no text) gives the fixed sentinel.
   */
  function QueryGpt(oracle: seq<Message> -> Completion, prompt: seq<Message>): (answer: string)
    ensures ReplyText(oracle(prompt)).None? ==> answer == Unanswered
    ensures ReplyText(oracle(prompt)).Some? ==> StrippedOf(ReplyText(oracle(prompt)).value, answer)
  {
    match ReplyText(oracle(prompt))
    case None => Unanswered
    case Some(text) => Strip(text)
  }

  /**
   * process_query: exactly two messages go to the model, the system message first and
   * the user message second, and the answer is what _query_gpt makes of the reply.
   */
  method ProcessQuery(t: Tables, userInput: string, oracle: seq<Message> -> Completion) returns (answer: string)
    ensures answer == QueryGpt(oracle, [SystemMessage(ContextText(t)), UserPrompt(userInput)])
  {
    var systemMessage := SystemPrompt(t);
    var userMessage := UserPrompt(userInput);
    var prompt := [systemMessage, userMessage];
    answer := QueryGpt(oracle, prompt);
  }
}
