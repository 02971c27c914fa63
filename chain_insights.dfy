/**
 * Post-processing around the insights chain: the language argument is
 * normalised to one of two prompt labels before the chain is invoked, and a
 * markdown code-fence wrapper is stripped from the reply. The chain itself
 * is an opaque function from its input to a reply.
 */
module ChainInsights {
  import opened Wrappers
  import opened Text
  import opened Values

  // ---------------------------------------------------------------------
  // Language normalisation
  // ---------------------------------------------------------------------

  const English: string := "English"
  const Chinese: string := "Chinese (\U{4E2D}\U{6587})"

  const LanguageMap: map<string, string> :=
    map["en" := English, "zh" := Chinese, "english" := English, "chinese" := Chinese]

  predicate IsDigit(c: char) { '0' <= c <= '9' }

  /** `str(n)` for a natural number. */
  function Digits(n: nat): (r: string)
    ensures r != [] && forall i :: 0 <= i < |r| ==> IsDigit(r[i])
  {
    if n < 10 then [('0' as int + n) as char]
    else Digits(n / 10) + [('0' as int + n % 10) as char]
  }

  /** `str(n)` for an int. */
  function IntText(n: int): (r: string)
    ensures r != [] && (IsDigit(r[0]) || r[0] == '-')
  {
    if n < 0 then "-" + Digits(-n) else Digits(n)
  }

  /**
   * The key looked up: `(languages or "en")`, turned into text with `str()`
   * when it is not a string, then lower-cased. `shown` stands for `str()`
   * of a list or another object, which is not modelled.
   */
  function LanguageKey(languages: Value, shown: string): string {
    if !Truthy(languages) then "en"
    else if languages.Str? then Lower(languages.s)
    else if languages.Bool? then Lower("True")
    else if languages.Int? then Lower(IntText(languages.n))
    else Lower(shown)
  }

  /** `language_map.get(key, "English")`. */
  function NormalizeLanguage(languages: Value, shown: string): (r: string)
    ensures r == English || r == Chinese
    ensures r == Chinese <==> LanguageKey(languages, shown) in {"zh", "chinese"}
  {
    var key := LanguageKey(languages, shown);
    if key in LanguageMap then LanguageMap[key] else English
  }

  /** Any falsy argument (None, "", 0, False, []) selects English. */
  lemma FalsyLanguageIsEnglish(languages: Value, shown: string)
    requires !Truthy(languages)
    ensures NormalizeLanguage(languages, shown) == English
  {
  }

  /** The lookup ignores case. */
  lemma LanguageIgnoresCase(s: string, t: string, shown: string)
    requires Lower(s) == Lower(t)
    ensures NormalizeLanguage(Str(s), shown) == NormalizeLanguage(Str(t), shown)
  {
  }

  /** The four known spellings, in any case, select their label. */
  lemma KnownLanguages(s: string, shown: string)
    ensures Lower(s) == "en" || Lower(s) == "english" ==> NormalizeLanguage(Str(s), shown) == English
    ensures Lower(s) == "zh" || Lower(s) == "chinese" ==> NormalizeLanguage(Str(s), shown) == Chinese
  {
  }

  /** A bool or an int never names a language, so it selects English. */
  lemma NumberLanguageIsEnglish(languages: Value, shown: string)
    requires languages.Bool? || languages.Int?
    ensures NormalizeLanguage(languages, shown) == English
  {
    if languages.Int? && languages.n != 0 {
      var key := Lower(IntText(languages.n));
      assert key[0] == IntText(languages.n)[0];
      assert key !in LanguageMap by {
        assert key[0] !in "ezc";
      }
    }
  }

  // ---------------------------------------------------------------------
  // Fence stripping
  // ---------------------------------------------------------------------

  const MarkdownOpen: string := "```markdown\n"
  const FenceOpen: string := "```\n"
  const FenceClose: string := "\n```"

  /**
   * `content[12:-4]` after a "```markdown" opening line, else `content[4:-4]`
   * after a bare "```" opening line, in both cases only when the content
   * also ends with a closing fence line; anything else is kept as it is.
   */
  function StripFence(content: string): (r: string)
    ensures StartsWith(content, MarkdownOpen) && EndsWith(content, FenceClose) ==>
      if |content| >= 16 then content == MarkdownOpen + r + FenceClose else r == ""
    ensures !StartsWith(content, MarkdownOpen) && StartsWith(content, FenceOpen) && EndsWith(content, FenceClose) ==>
      if |content| >= 8 then content == FenceOpen + r + FenceClose else r == ""
    ensures !(StartsWith(content, MarkdownOpen) || StartsWith(content, FenceOpen)) || !EndsWith(content, FenceClose) ==>
      r == content
  {
    if StartsWith(content, MarkdownOpen) && EndsWith(content, FenceClose) then
      var r := PySlice(content, 12, -4);
      assert |content| >= 16 ==> content == content[..12] + r + content[|content| - 4..];
      r
    else if StartsWith(content, FenceOpen) && EndsWith(content, FenceClose) then
      var r := PySlice(content, 4, -4);
      assert |content| >= 8 ==> content == content[..4] + r + content[|content| - 4..];
      r
    else content
  }

  /** The two opening lines can never both match, so at most one branch applies. */
  lemma OpeningsExclusive(content: string)
    ensures !(StartsWith(content, MarkdownOpen) && StartsWith(content, FenceOpen))
  {
    if StartsWith(content, MarkdownOpen) {
      assert content[3] == content[..12][3] == 'm';
      assert content[..4][3] != FenceOpen[3];
    }
  }

  /** A markdown-fenced body comes back exactly. */
  lemma StripMarkdownFence(body: string)
    ensures StripFence(MarkdownOpen + body + FenceClose) == body
  {
    var c := MarkdownOpen + body + FenceClose;
    assert c[..12] == MarkdownOpen;
    assert c[|c| - 4..] == FenceClose;
  }

  /** A bare-fenced body comes back exactly: one layer is removed, even when the body is fenced too. */
  lemma StripBareFence(body: string)
    ensures StripFence(FenceOpen + body + FenceClose) == body
  {
    var c := FenceOpen + body + FenceClose;
    assert c[..4] == FenceOpen;
    assert c[|c| - 4..] == FenceClose;
    assert !StartsWith(c, MarkdownOpen) by {
      assert c[3] == '\n';
    }
  }

  /** When the opening and closing fences overlap, the slice bounds cross and nothing is left. */
  lemma OverlappingFences()
    ensures StripFence("```markdown\n```") == ""
    ensures StripFence("```\n```") == ""
  {
    var m := "```markdown\n```";
    assert m[..12] == MarkdownOpen && m[|m| - 4..] == FenceClose;
    var b := "```\n```";
    assert b[..4] == FenceOpen && b[|b| - 4..] == FenceClose;
  }

  // ---------------------------------------------------------------------
  // run_analysis
  // ---------------------------------------------------------------------

  /** What the chain is invoked with. */
  datatype ChainInput = ChainInput(data: Value, resumeText: string, language: string)

  /** A reply with a `content` attribute, or any other object as shown by `str()`. */
  datatype Reply = Message(content: string) | Plain(shown: string)

  function ReplyText(reply: Reply): string {
    if reply.Message? then reply.content else reply.shown
  }

  /** The chain input: a missing or empty resume is passed as "". */
  function AnalysisInput(data: Value, resumeText: Option<string>, languages: Value, shown: string): (r: ChainInput)
    ensures r.data == data
    ensures resumeText.None? ==> r.resumeText == ""
    ensures resumeText.Some? ==> r.resumeText == resumeText.value
    ensures r.language == NormalizeLanguage(languages, shown)
    ensures r.language == English || r.language == Chinese
  {
    ChainInput(data, if resumeText.Some? then resumeText.value else "", NormalizeLanguage(languages, shown))
  }

  /** The stripped text is a piece of the content: stripping adds nothing. */
  lemma StripFenceWithin(content: string)
    ensures Contains(content, StripFence(content))
  {
    var r := StripFence(content);
    if StartsWith(content, MarkdownOpen) && EndsWith(content, FenceClose) && |content| >= 16 {
      assert content[12..12 + |r|] == r;
      assert OccursAt(content, r, 12);
    } else if !StartsWith(content, MarkdownOpen) && StartsWith(content, FenceOpen) && EndsWith(content, FenceClose) && |content| >= 8 {
      assert content[4..4 + |r|] == r;
      assert OccursAt(content, r, 4);
    } else if r == content {
      assert OccursAt(content, r, 0);
    } else {
      assert r == "" && OccursAt(content, r, 0);
    }
  }

  /** `run_analysis`: invoke once, take the reply's text, strip a fence; the report is a piece of the reply. */
  function RunAnalysis(invoke: ChainInput -> Reply, data: Value, resumeText: Option<string>, languages: Value, shown: string): (r: string)
    ensures Contains(ReplyText(invoke(AnalysisInput(data, resumeText, languages, shown))), r)
  {
    StripFenceWithin(ReplyText(invoke(AnalysisInput(data, resumeText, languages, shown))));
    StripFence(ReplyText(invoke(AnalysisInput(data, resumeText, languages, shown))))
  }

  /** A report the chain wraps in a markdown fence is returned unwrapped. */
  lemma RunAnalysisUnwraps(invoke: ChainInput -> Reply, data: Value, resumeText: Option<string>, languages: Value, shown: string, report: string)
    requires invoke(AnalysisInput(data, resumeText, languages, shown)) == Message(MarkdownOpen + report + FenceClose)
    ensures RunAnalysis(invoke, data, resumeText, languages, shown) == report
  {
    StripMarkdownFence(report);
  }

  /** A reply without a fence is returned as its text. */
  lemma RunAnalysisPlain(invoke: ChainInput -> Reply, data: Value, resumeText: Option<string>, languages: Value, shown: string)
    requires !EndsWith(ReplyText(invoke(AnalysisInput(data, resumeText, languages, shown))), FenceClose)
    ensures RunAnalysis(invoke, data, resumeText, languages, shown) == ReplyText(invoke(AnalysisInput(data, resumeText, languages, shown)))
  {
  }
}
