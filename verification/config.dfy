/** Constants and lookups of the translator's configuration: the skip patterns as
    predicates, the supported model identifiers and the language-code table. Values read
    from the environment are parameters of the operations that use them. */
module Config {
  import opened Strings
  import opened CharClasses

  /** The model identifiers the command line accepts. */
  const SupportedModels: seq<string> := [
    "amazon.nova-micro-v1:0",
    "amazon.nova-lite-v1:0",
    "amazon.nova-pro-v1:0",
    "amazon.nova-premier-v1:0",
    "anthropic.claude-3-sonnet-20240229-v1:0",
    "anthropic.claude-3-haiku-20240307-v1:0",
    "anthropic.claude-3-5-sonnet-20240620-v1:0",
    "anthropic.claude-3-5-sonnet-20241022-v2:0",
    "anthropic.claude-3-5-haiku-20241022-v1:0",
    "us.anthropic.claude-3-5-sonnet-20240620-v1:0",
    "us.anthropic.claude-3-5-sonnet-20241022-v2:0",
    "us.anthropic.claude-3-5-haiku-20241022-v1:0",
    "us.anthropic.claude-3-7-sonnet-20250219-v1:0",
    "us.anthropic.claude-opus-4-20250514-v1:0",
    "us.anthropic.claude-sonnet-4-20250514-v1:0",
    "us.anthropic.claude-opus-4-1-20250805-v1:0",
    "meta.llama3-8b-instruct-v1:0",
    "meta.llama3-70b-instruct-v1:0",
    "us.meta.llama3-1-8b-instruct-v1:0",
    "us.meta.llama3-1-70b-instruct-v1:0",
    "us.meta.llama3-2-1b-instruct-v1:0",
    "us.meta.llama3-2-3b-instruct-v1:0",
    "us.meta.llama3-2-11b-instruct-v1:0",
    "us.meta.llama3-2-90b-instruct-v1:0",
    "us.meta.llama3-3-70b-instruct-v1:0",
    "us.meta.llama4-scout-17b-instruct-v1:0",
    "us.meta.llama4-maverick-17b-instruct-v1:0",
    "deepseek.r1-v1:0",
    "us.deepseek.r1-v1:0",
    "mistral.mistral-7b-instruct-v0:2",
    "mistral.mixtral-8x7b-instruct-v0:1",
    "mistral.mistral-large-2402-v1:0",
    "mistral.mistral-small-2402-v1:0",
    "mistral.pixtral-large-2502-v1:0",
    "cohere.command-r-v1:0",
    "cohere.command-r-plus-v1:0",
    "ai21.jamba-1-5-large-v1:0",
    "ai21.jamba-1-5-mini-v1:0",
    "ai21.jamba-instruct-v1:0"
  ]

  /** The model used when neither the environment nor the command line names one. */
  const DefaultModelId: string := "us.anthropic.claude-3-7-sonnet-20250219-v1:0"

  /** Language codes and their display names. */
  const LanguageMap: map<string, string> := map[
    "en" := "English",
    "ko" := "Korean",
    "ja" := "Japanese",
    "zh" := "Chinese (Simplified)",
    "zh-CN" := "Chinese (Simplified)",
    "zh-TW" := "Chinese (Traditional)",
    "fr" := "French",
    "de" := "German",
    "es" := "Spanish",
    "it" := "Italian",
    "pt" := "Portuguese",
    "ru" := "Russian",
    "nl" := "Dutch",
    "sv" := "Swedish",
    "no" := "Norwegian",
    "da" := "Danish",
    "fi" := "Finnish",
    "pl" := "Polish",
    "cs" := "Czech",
    "sk" := "Slovak",
    "hu" := "Hungarian",
    "ro" := "Romanian",
    "bg" := "Bulgarian",
    "hr" := "Croatian",
    "sr" := "Serbian",
    "sl" := "Slovenian",
    "et" := "Estonian",
    "lv" := "Latvian",
    "lt" := "Lithuanian",
    "el" := "Greek",
    "tr" := "Turkish",
    "uk" := "Ukrainian",
    "ar" := "Arabic",
    "he" := "Hebrew",
    "fa" := "Persian (Farsi)",
    "hi" := "Hindi",
    "bn" := "Bengali",
    "te" := "Telugu",
    "mr" := "Marathi",
    "ta" := "Tamil",
    "gu" := "Gujarati",
    "kn" := "Kannada",
    "ml" := "Malayalam",
    "pa" := "Punjabi",
    "th" := "Thai",
    "vi" := "Vietnamese",
    "id" := "Indonesian",
    "ms" := "Malay",
    "tl" := "Filipino (Tagalog)",
    "ur" := "Urdu",
    "sw" := "Swahili"
  ]

  /** The full language name for a code, or the code itself when it is unknown. */
  function GetLanguageName(code: string): (name: string)
    ensures code in LanguageMap ==> name == LanguageMap[code]
    ensures code !in LanguageMap ==> name == code
  {
    if code in LanguageMap then LanguageMap[code] else code
  }

  /** Whether a model identifier is one of the supported ones. */
  function ValidateModelId(modelId: string): (ok: bool)
    ensures ok <==> exists i :: 0 <= i < |SupportedModels| && SupportedModels[i] == modelId
  {
    modelId in SupportedModels
  }

  lemma DefaultModelIsSupported()
    ensures ValidateModelId(DefaultModelId)
  {
    assert SupportedModels[12] == DefaultModelId;
  }

  // The skip patterns, each applied with `re.match`, i.e. anchored at the start only.

  /** `^\d+$`: digits only. */
  predicate IsNumber(t: string) {
    t != [] && forall i :: 0 <= i < |t| ==> IsDigit(t[i])
  }

  /** `^https?://`: only the start is anchored, so whatever follows is irrelevant. */
  predicate IsUrl(t: string) {
    StartsWith(t, "http://") || StartsWith(t, "https://")
  }

  /** `\S+@\S+\.\S+` matched at the start: the whitespace-free run the text begins
      with has an `@` after at least one character, then later a `.` after at least one
      more character, and then at least one character. */
  predicate IsEmail(t: string) {
    var w := Token(t);
    exists i, k :: 1 <= i && i + 2 <= k && k + 1 < |w| && w[i] == '@' && w[k] == '.'
  }

  /** `^[A-Za-z_][A-Za-z0-9_]*$`. */
  predicate IsVariableName(t: string) {
    t != [] && IsIdentStart(t[0]) && forall i :: 1 <= i < |t| ==> IsIdentChar(t[i])
  }

  /** `^\$[A-Za-z_][A-Za-z0-9_]*$`. */
  predicate IsShellVariable(t: string) {
    |t| >= 2 && t[0] == '$' && IsVariableName(t[1..])
  }

  /** `^[A-Z_][A-Z0-9_]*$`. */
  predicate IsConstant(t: string) {
    && t != []
    && (IsAsciiUpper(t[0]) || t[0] == '_')
    && forall i :: 1 <= i < |t| ==> IsAsciiUpper(t[i]) || IsDigit(t[i]) || t[i] == '_'
  }

  /** Some skip pattern matches. The patterns are tried in list order but only the
      boolean outcome is used. */
  predicate MatchesSkipPattern(t: string) {
    || IsNumber(t)
    || IsUrl(t)
    || IsEmail(t)
    || IsVariableName(t)
    || IsShellVariable(t)
    || IsConstant(t)
  }

  /** Every constant-style text is also a variable name, so the constants pattern
      never changes whether a text is skipped. */
  lemma ConstantIsVariableName(t: string)
    ensures IsConstant(t) ==> IsVariableName(t)
    ensures MatchesSkipPattern(t) <==>
      IsNumber(t) || IsUrl(t) || IsEmail(t) || IsVariableName(t) || IsShellVariable(t)
  {
  }
}
