/** The user message sent to the model (`analyze_with_cerebras`): a fixed
    instruction line followed by at most the first 25,000 characters of the
    extracted text. */
module Prompt {
  import opened Wrappers

  /** Largest number of characters of the document that reach the model. */
  const SubjectBudget: nat := 25000

  /** "Extract the data from this text:" and a line feed. */
  const UserPromptPrefix: string := "استخرج البيانات من هذا النص:\n"

  /** Python's `text[:25000]`: the whole text when it fits the budget,
      otherwise its first `SubjectBudget` characters. */
  function Subject(text: string): (r: string)
    ensures |r| == if |text| <= SubjectBudget then |text| else SubjectBudget
    ensures r <= text
  {
    if |text| <= SubjectBudget then text else text[..SubjectBudget]
  }

  /** The f-string `f"...:\n{text[:25000]}"`. */
  function UserPrompt(text: string): (r: string)
    ensures UserPromptPrefix <= r
    ensures |r| <= |UserPromptPrefix| + SubjectBudget
  {
    UserPromptPrefix + Subject(text)
  }

  /** Recovers the embedded subject from a prompt, if it carries the prefix. */
  function EmbeddedSubject(prompt: string): Option<string>
  {
    if UserPromptPrefix <= prompt then Some(prompt[|UserPromptPrefix|..]) else None
  }

  /** The prompt is the fixed prefix followed by exactly the first
      min(|text|, 25000) characters of the text, and nothing else. */
  lemma UserPromptShape(text: string)
    ensures UserPromptPrefix <= UserPrompt(text)
    ensures EmbeddedSubject(UserPrompt(text)) == Some(Subject(text))
    ensures |UserPrompt(text)| == |UserPromptPrefix| + (if |text| <= SubjectBudget then |text| else SubjectBudget)
    ensures |UserPrompt(text)| <= |UserPromptPrefix| + SubjectBudget
  {
    var p := UserPrompt(text);
    assert p[..|UserPromptPrefix|] == UserPromptPrefix;
    assert p[|UserPromptPrefix|..] == Subject(text);
  }

  /** A text within the budget is embedded whole. */
  lemma ShortTextEmbeddedWhole(text: string)
    requires |text| <= SubjectBudget
    ensures EmbeddedSubject(UserPrompt(text)) == Some(text)
  {
    UserPromptShape(text);
  }

  /** Characters past the budget never reach the model: two texts that agree
      on their first 25,000 characters give the same prompt. */
  lemma TailIgnored(a: string, b: string)
    requires |a| >= SubjectBudget && |b| >= SubjectBudget
    requires a[..SubjectBudget] == b[..SubjectBudget]
    ensures UserPrompt(a) == UserPrompt(b)
  {
  }

  /** Truncation is idempotent: the subject of a subject is itself. */
  lemma SubjectIdempotent(text: string)
    ensures Subject(Subject(text)) == Subject(text)
  {
  }

  /** Two prompts are equal exactly when the embedded subjects are. */
  lemma UserPromptInjective(a: string, b: string)
    ensures UserPrompt(a) == UserPrompt(b) <==> Subject(a) == Subject(b)
  {
    UserPromptShape(a);
    UserPromptShape(b);
  }
}
