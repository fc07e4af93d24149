/** Prompt construction: a fixed instruction text, a blank line, and then the
    transcript text verbatim. Nothing in the transcript is escaped or
    delimited before it is embedded. */
module Prompt {
  import opened Wrappers

  /** The instruction the generation service receives before the transcript.
      It asks for five multiple-choice questions with four options each, as a
      bare JSON array of objects with `question`, `options` and
      `correctAnswer` fields and no code-fence markers. */
  const Instruction: string :=
    "Generate 5 multiple-choice quiz questions based on the following transcript. " +
    "Return the result as a valid JSON array of objects, where each object has the following structure: { \"question\": \"...\", \"options\": [\"...\", \"...\", \"...\", \"...\"], \"correctAnswer\": \"...\" }. " +
    "Ensure the output is a valid JSON array without any surrounding code block markers or additional text. " +
    "Here's the transcript:"

  /** Everything that precedes the transcript: the instruction and a blank
      line. */
  const Header: string := Instruction + "\n\n"

  /** The prompt sent to the generation service for a transcript. */
  function BuildPrompt(transcript: string): (prompt: string)
    ensures |prompt| == |Header| + |transcript|
    ensures prompt[..|Header|] == Header
    ensures prompt[|Header|..] == transcript
  {
    Header + transcript
  }

  /** The transcript embedded in a prompt, if the prompt has the shape the
      builder produces. This is the reference inverse of `BuildPrompt`. */
  function TranscriptOf(prompt: string): (t: Option<string>)
    ensures t.Some? <==> |Header| <= |prompt| && prompt[..|Header|] == Header
  {
    if |Header| <= |prompt| && prompt[..|Header|] == Header then Some(prompt[|Header|..])
    else None
  }

  /** The prompt builder and `TranscriptOf` are inverse to each other: a
      string is the prompt for a transcript exactly when the transcript is
      what `TranscriptOf` recovers from it. */
  lemma PromptRoundTrip(transcript: string, prompt: string)
    ensures BuildPrompt(transcript) == prompt <==> TranscriptOf(prompt) == Some(transcript)
  {
    if TranscriptOf(prompt) == Some(transcript) {
      assert prompt == prompt[..|Header|] + prompt[|Header|..];
    }
  }

  /** Different transcripts give different prompts, and every prompt starts
      with the same header whatever the transcript. */
  lemma PromptInjective(t1: string, t2: string)
    ensures BuildPrompt(t1) == BuildPrompt(t2) <==> t1 == t2
    ensures BuildPrompt(t1)[..|Header|] == BuildPrompt(t2)[..|Header|]
  {
  }
}
