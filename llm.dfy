/**
 * The completion gateway (`run_llm`) and the calls that the crawler and the
 * RAG pipeline make through it, each with its own fixed system prompt. The
 * service itself is an oracle: it maps a (system prompt, user prompt) pair to
 * a completion, or to `None` when the API call raises.
 */
module Llm {
  import opened Wrappers

  /** The four system prompts the program sends. */
  datatype SystemPrompt = Summarize | Translate | Keywords | Answer

  /**
   * `run_llm(system, user)` with the fixed model and temperature and no
   * seed. The four system prompts are fixed and pairwise different texts, so
   * the oracle is indexed by which of them is sent.
   */
  type Gateway = (SystemPrompt, string) -> Option<string>

  /** `summarize_text(text)`. */
  function SummarizeText(llm: Gateway, text: string): Option<string> {
    llm(Summarize, text)
  }

  /** `translate_text(text)`. */
  function TranslateText(llm: Gateway, text: string): Option<string> {
    llm(Translate, text)
  }

  /** `extract_keywords(text)`. */
  function ExtractKeywords(llm: Gateway, text: string): Option<string> {
    llm(Keywords, text)
  }
}
