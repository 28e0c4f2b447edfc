/** The placeholder pose analysis and the feedback text obtained for it from
    a chat-completion service. The service call is a parameter: given the
    prompt, it yields the reply's content or the text of the exception it
    raised. */
module Analysis {
  import opened Wrappers

  const CannedExercise := "squat"
  const CannedAnalysis :=
    "During the descent, the user's left knee deviated inward by 15 degrees. "
    + "The user's back started to round during the lower third of the movement."

  /** `process_video`: the same exercise and analysis whatever the video. */
  function ProcessVideo(videoPath: string): (r: (string, string))
    ensures r == (CannedExercise, CannedAnalysis)
  {
    (CannedExercise, CannedAnalysis)
  }

  const PromptHead := "A user performed a "
  const PromptMiddle := ". The analysis of their form indicates the following issues:\n"
  const PromptTail := "\n\nProvide a detailed, friendly explanation of these issues and offer suggestions to improve the form."

  /** The user message sent to the service. */
  function Prompt(exercise: string, analysis: string): (p: string)
    ensures |p| == |PromptHead| + |exercise| + |PromptMiddle| + |analysis| + |PromptTail|
    ensures p[..|PromptHead|] == PromptHead
    ensures p[|PromptHead|..|PromptHead| + |exercise|] == exercise
    ensures p[|PromptHead| + |exercise|..|PromptHead| + |exercise| + |PromptMiddle|] == PromptMiddle
    ensures p[|PromptHead| + |exercise| + |PromptMiddle|..|p| - |PromptTail|] == analysis
    ensures p[|p| - |PromptTail|..] == PromptTail
  {
    var p := PromptHead + exercise + PromptMiddle + analysis + PromptTail;
    assert p == (PromptHead + exercise) + (PromptMiddle + analysis + PromptTail);
    assert p[|PromptHead|..|PromptHead| + |exercise|] == (PromptHead + exercise)[|PromptHead|..];
    assert p == (PromptHead + exercise + PromptMiddle) + (analysis + PromptTail);
    assert p[|PromptHead| + |exercise|..|PromptHead| + |exercise| + |PromptMiddle|]
        == (PromptHead + exercise + PromptMiddle)[|PromptHead| + |exercise|..];
    assert p == (PromptHead + exercise + PromptMiddle + analysis) + PromptTail;
    p
  }

  const ErrorPrefix := "Error generating feedback: "

  /** `generate_feedback`: never fails; the reply's content on success, the
      error text behind a fixed prefix on failure. */
  function GenerateFeedback(exercise: string, analysis: string,
                            chat: string -> Result<string, string>): (feedback: string)
    ensures chat(Prompt(exercise, analysis)).Ok? ==> feedback == chat(Prompt(exercise, analysis)).value
    ensures chat(Prompt(exercise, analysis)).Err? ==>
      |ErrorPrefix| <= |feedback| && feedback[..|ErrorPrefix|] == ErrorPrefix
      && feedback[|ErrorPrefix|..] == chat(Prompt(exercise, analysis)).error
  {
    match chat(Prompt(exercise, analysis))
    case Ok(content) => content
    case Err(e) => ErrorPrefix + e
  }
}
