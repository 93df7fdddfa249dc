/**
 * The text handed to the language model by `analyze_with_llm`: the input is
 * cut to its first 1000 characters before it is put into the prompt. The
 * model call itself is not part of this model.
 */
module Prompts {

  /** The longest input text put into a prompt unchanged. */
  const MaxPromptText: nat := 1000

  /** Summarization branch: the first 1000 characters, or the whole text when shorter. */
  function TruncateForSummary(text: string): (t: string)
    ensures |t| == if |text| > MaxPromptText then MaxPromptText else |text|
    ensures t == text[..|t|]
  {
    if |text| > MaxPromptText then text[..MaxPromptText] else text
  }

  /** Text-generation branch: the first 1000 characters followed by "..." when the text is longer. */
  function TruncateForGeneration(text: string): (t: string)
    ensures |text| <= MaxPromptText ==> t == text
    ensures |text| > MaxPromptText ==>
      |t| == MaxPromptText + 3 && t[..MaxPromptText] == text[..MaxPromptText] && t[MaxPromptText..] == "..."
    ensures |t| <= MaxPromptText + 3
  {
    if |text| > MaxPromptText then text[..MaxPromptText] + "..." else text
  }

  /** The two branches keep the same characters; only the generation branch marks the cut. */
  lemma TruncationsAgree(text: string)
    ensures TruncateForGeneration(text) ==
      TruncateForSummary(text) + (if |text| > MaxPromptText then "..." else "")
  {
  }

  const SummaryLead: string := "Extract key technical skills from: "
  const GenerationLead: string := "Job Description: "
  const GenerationTrail: string := "\n\nKey technical skills and requirements:"

  /**
   * The prompt `analyze_with_llm` builds for a task type: the fixed lead,
   * the truncated text and, for text generation, the fixed trailer.
   */
  function Prompt(text: string, taskType: string): (p: string)
    ensures taskType == "summarization" ==> p == SummaryLead + TruncateForSummary(text)
    ensures taskType != "summarization" ==> p == GenerationLead + TruncateForGeneration(text) + GenerationTrail
    ensures taskType == "summarization" ==> |p| <= |SummaryLead| + MaxPromptText
    ensures taskType != "summarization" ==> |p| <= |GenerationLead| + MaxPromptText + 3 + |GenerationTrail|
  {
    if taskType == "summarization" then SummaryLead + TruncateForSummary(text)
    else GenerationLead + TruncateForGeneration(text) + GenerationTrail
  }
}
