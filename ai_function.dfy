/**
  src/module/translator/ai-function.js: the instructions sent to a chat
  model. Each template takes a source and a target language, which default
  to Japanese and Chinese when not given.
 */
module AiFunction {
  import opened Optional

  /** A language argument with its default applied. */
  function OrDefault(language: Option<string>, default: string): (r: string)
    ensures language.Some? ==> r == language.value
    ensures language.None? ==> r == default
  {
    if language.Some? then language.value else default
  }

  /**
    A template with two slots: `lead`, the first language, `middle`, the
    second language, then `tail`. Each slot is found again at its place.
   */
  function Fill(lead: string, first: string, middle: string, second: string, tail: string): (r: string)
    ensures |r| == |lead| + |first| + |middle| + |second| + |tail|
    ensures r[..|lead|] == lead
    ensures r[|lead|..|lead| + |first|] == first
    ensures r[|lead| + |first|..|lead| + |first| + |middle|] == middle
    ensures r[|lead| + |first| + |middle|..|lead| + |first| + |middle| + |second|] == second
    ensures r[|r| - |tail|..] == tail
  {
    var r := lead + first + middle + second + tail;
    assert r == lead + (first + (middle + (second + tail)));
    r
  }

  /** When the slots keep their lengths, equal fillings hold equal languages. */
  lemma FillInjective(lead: string, middle: string, tail: string, s1: string, t1: string, s2: string, t2: string)
    requires |s1| == |s2|
    requires Fill(lead, s1, middle, t1, tail) == Fill(lead, s2, middle, t2, tail)
    ensures s1 == s2 && t1 == t2
  {
  }

  const SystemLead: string := "You are a professional translation machine, your job is to translate the "
  const SystemMiddle: string := " text provided by the user into "
  const SystemTail: string := " and do not include any explanation in response. Use homophonic translation if the text is not a word or phrase in "

  /**
    `createSystemContent(source = 'Japanese', target = 'Chinese')`: the
    fixed template with the source language in two places (the second one
    just before the closing full stop) and the target language in one.
   */
  function CreateSystemContent(source: Option<string>, target: Option<string>): (r: string)
    ensures var s := OrDefault(source, "Japanese"); var t := OrDefault(target, "Chinese");
      r == Fill(SystemLead, s, SystemMiddle, t, SystemTail + s + ".")
  {
    var s := OrDefault(source, "Japanese");
    var t := OrDefault(target, "Chinese");
    var tail := SystemTail + s + ".";
    SystemLead + s + SystemMiddle + t + tail
  }

  /** Languages of equal length are read back from the system content: different languages give different content. */
  lemma SystemContentInjective(s1: string, t1: string, s2: string, t2: string)
    requires |s1| == |s2|
    requires CreateSystemContent(Some(s1), Some(t1)) == CreateSystemContent(Some(s2), Some(t2))
    ensures s1 == s2 && t1 == t2
  {
    assert |t1| == |t2|;
    FillInjective(SystemLead, SystemMiddle, SystemTail + s1 + ".", s1, t1, s2, t2);
  }

  const PromptLead: string := "Translate the following text from "
  const PromptTail: string := " and do not include any explanation in response."

  /**
    `createPrompt(source = 'Japanese', target = 'Chinese')`: the request to
    translate from the source to the target language.
   */
  function CreatePrompt(source: Option<string>, target: Option<string>): (r: string)
    ensures var s := OrDefault(source, "Japanese"); var t := OrDefault(target, "Chinese");
      r == Fill(PromptLead, s, " to ", t, PromptTail)
  {
    var s := OrDefault(source, "Japanese");
    var t := OrDefault(target, "Chinese");
    PromptLead + s + " to " + t + PromptTail
  }

  /** With no arguments both templates speak of Japanese and Chinese. */
  lemma DefaultLanguages()
    ensures CreatePrompt(None, None) == CreatePrompt(Some("Japanese"), Some("Chinese"))
    ensures CreateSystemContent(None, None) == CreateSystemContent(Some("Japanese"), Some("Chinese"))
  {
  }

  /** Different language pairs give different prompts. */
  lemma PromptInjective(s1: string, t1: string, s2: string, t2: string)
    requires |s1| == |s2|
    requires CreatePrompt(Some(s1), Some(t1)) == CreatePrompt(Some(s2), Some(t2))
    ensures s1 == s2 && t1 == t2
  {
    FillInjective(PromptLead, " to ", PromptTail, s1, t1, s2, t2);
  }

  /** `createImagePrompt()`: the same request to transcribe an image on every call. */
  const ImagePrompt: string := "Copy the text from this image and do not include any explanation in response."

  function CreateImagePrompt(): (r: string)
    ensures r == ImagePrompt
  {
    ImagePrompt
  }
}
