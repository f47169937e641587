/** The result record of a persona analysis: `build_output_json` of app/core/builder.py, and
    the same record as assembled inline by `persona_analyze_docs` in app/api/chunks_backup.py. */
module Builder {
  import opened Wrappers

  /** The persona as the caller passed it: a dict (only "role" is read) or anything else,
      shown by its `str()`. */
  datatype Persona = PersonaDict(role: Option<string>) | PersonaOther(repr: string)

  /** The job to be done: a dict (only "task" and "goal" are read) or anything else. */
  datatype Job = JobDict(task: Option<string>, goal: Option<string>) | JobOther(repr: string)

  /** A ranked chunk: the keys the builder reads. */
  datatype RankedChunk = RankedChunk(document: string, title: Option<string>, pageNumber: int)

  /** A refined text entry. */
  datatype RefinedChunk = RefinedChunk(document: string, refinedText: string, pageNumber: int)

  datatype Section = Section(document: string, sectionTitle: string, importanceRank: int, pageNumber: int)
  datatype Subsection = Subsection(document: string, refinedText: string, pageNumber: int)
  datatype Metadata = Metadata(inputDocuments: seq<string>, persona: string, jobToBeDone: string, processingTimestamp: string)
  datatype Output = Output(metadata: Metadata, extractedSections: seq<Section>, subsectionAnalysis: seq<Subsection>)

  const UnknownRole := "Unknown Role"
  const UnknownTask := "Unknown Task"
  const UntitledSection := "Untitled Section"

  /** `persona.get("role", "Unknown Role")` for a dict, `str(persona)` otherwise. */
  function PersonaString(p: Persona): (s: string)
    ensures p.PersonaDict? && p.role.Some? ==> s == p.role.value
    ensures p.PersonaDict? && p.role.None? ==> s == UnknownRole
    ensures p.PersonaOther? ==> s == p.repr
  {
    match p
    case PersonaDict(role) => role.GetOr(UnknownRole)
    case PersonaOther(repr) => repr
  }

  /** A goal is used when it is present and truthy (a non-empty string). */
  predicate HasGoal(j: Job) {
    j.JobDict? && j.goal.Some? && j.goal.value != ""
  }

  /** The job string: "task - goal" when a goal is given (with the task then defaulting to
      ""), else the task (defaulting to "Unknown Task"), else `str(job)`. */
  function JobString(j: Job): (s: string)
    ensures HasGoal(j) ==> s == j.task.GetOr("") + " - " + j.goal.value
    ensures j.JobDict? && !HasGoal(j) && j.task.Some? ==> s == j.task.value
    ensures j.JobDict? && !HasGoal(j) && j.task.None? ==> s == UnknownTask
    ensures j.JobOther? ==> s == j.repr
  {
    match j
    case JobDict(task, goal) =>
      if HasGoal(j) then task.GetOr("") + " - " + goal.value else task.GetOr(UnknownTask)
    case JobOther(repr) => repr
  }

  /** One entry of "extracted_sections"; a chunk without a title is "Untitled Section". */
  function MakeSection(c: RankedChunk, rank: int): (s: Section)
    ensures s.document == c.document && s.pageNumber == c.pageNumber && s.importanceRank == rank
    ensures s.sectionTitle == (if c.title.Some? then c.title.value else UntitledSection)
  {
    Section(c.document, c.title.GetOr(UntitledSection), rank, c.pageNumber)
  }

  /** The `enumerate` loop building "extracted_sections", the ranks continuing from `start`. */
  function SectionsFrom(ranked: seq<RankedChunk>, start: int): (r: seq<Section>)
    ensures |r| == |ranked|
    ensures forall i :: 0 <= i < |r| ==> r[i] == MakeSection(ranked[i], start + i + 1)
  {
    if ranked == [] then []
    else [MakeSection(ranked[0], start + 1)] + SectionsFrom(ranked[1..], start + 1)
  }

  function Subsections(refined: seq<RefinedChunk>): (r: seq<Subsection>)
    ensures |r| == |refined|
    ensures forall i :: 0 <= i < |r| ==>
      r[i] == Subsection(refined[i].document, refined[i].refinedText, refined[i].pageNumber)
  {
    if refined == [] then []
    else [Subsection(refined[0].document, refined[0].refinedText, refined[0].pageNumber)] + Subsections(refined[1..])
  }

  /** `build_output_json`; the timestamp is supplied by the caller. */
  function BuildOutputJson(inputDocuments: seq<string>, persona: Persona, job: Job,
                           ranked: seq<RankedChunk>, refined: seq<RefinedChunk>, timestamp: string): (r: Output)
    ensures r.metadata.inputDocuments == inputDocuments && r.metadata.processingTimestamp == timestamp
    ensures r.metadata.persona == PersonaString(persona) && r.metadata.jobToBeDone == JobString(job)
    ensures |r.extractedSections| == |ranked| && |r.subsectionAnalysis| == |refined|
    ensures forall i :: 0 <= i < |ranked| ==> r.extractedSections[i].importanceRank == i + 1
  {
    Output(Metadata(inputDocuments, PersonaString(persona), JobString(job), timestamp),
           SectionsFrom(ranked, 0), Subsections(refined))
  }

  /** The record assembled inline by `persona_analyze_docs`: persona and job are always
      dicts there, the goal is never consulted, and the timestamp is the time of the call. */
  function PersonaResponse(inputDocuments: seq<string>, role: Option<string>, task: Option<string>,
                           ranked: seq<RankedChunk>, refined: seq<RefinedChunk>, now: string): (r: Output)
    ensures r.metadata.persona == role.GetOr(UnknownRole)
    ensures r.metadata.jobToBeDone == task.GetOr(UnknownTask)
    ensures r.metadata.inputDocuments == inputDocuments && r.metadata.processingTimestamp == now
    ensures r.extractedSections == SectionsFrom(ranked, 0) && r.subsectionAnalysis == Subsections(refined)
    ensures |r.extractedSections| == |ranked| && |r.subsectionAnalysis| == |refined|
    ensures forall i :: 0 <= i < |ranked| ==>
      r.extractedSections[i].importanceRank == i + 1 && r.extractedSections[i].document == ranked[i].document
  {
    Output(Metadata(inputDocuments, role.GetOr(UnknownRole), task.GetOr(UnknownTask), now),
           SectionsFrom(ranked, 0), Subsections(refined))
  }

  // ---------------------------------------------------------------------------------
  // Properties.

  /** Ranks run from 1 to n and strictly increase with position, so no two sections share one. */
  lemma RanksAreDistinct(ranked: seq<RankedChunk>, i: nat, j: nat)
    requires i < j < |ranked|
    ensures SectionsFrom(ranked, 0)[i].importanceRank < SectionsFrom(ranked, 0)[j].importanceRank
    ensures 1 <= SectionsFrom(ranked, 0)[i].importanceRank && SectionsFrom(ranked, 0)[j].importanceRank <= |ranked|
  {
  }

  /** Building sections for a concatenation continues the numbering. */
  lemma {:induction false} SectionsAppend(a: seq<RankedChunk>, b: seq<RankedChunk>, start: int)
    ensures SectionsFrom(a + b, start) == SectionsFrom(a, start) + SectionsFrom(b, start + |a|)
  {
    var l := SectionsFrom(a + b, start);
    var r := SectionsFrom(a, start) + SectionsFrom(b, start + |a|);
    assert forall i :: |a| <= i < |a + b| ==> (a + b)[i] == b[i - |a|];
    assert forall i :: 0 <= i < |l| ==> l[i] == r[i];
  }

  /** The ranked chunks can be read back from the sections: document, page and any explicit
      title are copied unchanged. */
  lemma SectionsRecoverChunks(ranked: seq<RankedChunk>)
    requires forall i :: 0 <= i < |ranked| ==> ranked[i].title.Some?
    ensures forall i :: 0 <= i < |ranked| ==>
      var s := SectionsFrom(ranked, 0)[i];
      RankedChunk(s.document, Some(s.sectionTitle), s.pageNumber) == ranked[i]
  {
  }

  /** The inline record of the persona endpoint is `build_output_json` applied to dict
      arguments, as long as the job carries no truthy goal. */
  lemma PersonaResponseIsBuilderOutput(inputDocuments: seq<string>, role: Option<string>, task: Option<string>,
                                       goal: Option<string>, ranked: seq<RankedChunk>, refined: seq<RefinedChunk>, now: string)
    requires !HasGoal(JobDict(task, goal))
    ensures PersonaResponse(inputDocuments, role, task, ranked, refined, now)
         == BuildOutputJson(inputDocuments, PersonaDict(role), JobDict(task, goal), ranked, refined, now)
  {
  }

  /** With a goal the two disagree: the builder reports "task - goal". */
  lemma GoalChangesJobString(task: string, goal: string)
    requires goal != ""
    ensures JobString(JobDict(Some(task), Some(goal))) == task + " - " + goal
    ensures JobString(JobDict(None, Some(goal))) == " - " + goal
    ensures JobString(JobDict(None, Some(goal))) != JobString(JobDict(None, None))
    ensures JobString(JobDict(Some(task), Some(goal))) != JobString(JobDict(Some(task), None))
  {
    assert (" - " + goal)[0] != UnknownTask[0];
    assert |task + " - " + goal| > |task|;
  }
}
