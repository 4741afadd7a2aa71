/** Stable Diffusion prompt composition of backend/app/core/image_prompts.py:
    the model rewrites a scene description, and the style keywords are
    appended; when the model call fails the description itself is used. */
module ImagePrompts {
  import opened Wrappers
  import opened Text

  /** The keywords used when the caller passes none. */
  const DefaultStyleKeywords: seq<string> :=
    ["cinematic lighting", "concept art", "8k", "highly detailed", "dramatic atmosphere"]

  const KeywordSeparator := ", "

  /** `style_keywords`, replaced by the defaults only when it is None (an
      empty list stays empty). */
  function StyleKeywords(style: Option<seq<string>>): seq<string> {
    if style.None? then DefaultStyleKeywords else style.value
  }

  const EnhancerLead := "\nYou are an expert digital artist and prompt engineer for Stable Diffusion.\nConvert the following scene description into a high-quality image generation prompt.\nInclude specific style keywords (lighting, composition, art style).\nOutput ONLY the comma-separated prompt.\n\nDescription: "
  const EnhancerTail := "\n"

  /** The enhancer template with the description filled in. */
  function EnhancerPrompt(description: string): string {
    EnhancerLead + description + EnhancerTail
  }

  /** `generate_sd_prompt(client, description, style_keywords)`. The model
      call is `complete`: the text of its reply, or None when the call raises
      (including a reply without content). */
  function GenerateSdPrompt(description: string, style: Option<seq<string>>,
                            complete: string -> Option<string>): string {
    var keywords := Join(StyleKeywords(style), KeywordSeparator);
    match complete(EnhancerPrompt(description))
    case Some(reply) => Strip(reply) + KeywordSeparator + keywords
    case None => description + KeywordSeparator + keywords
  }

  /** The description reaches the model verbatim, between the fixed lead and
      tail of the template. */
  lemma EnhancerPromptCarries(description: string)
    ensures var p := EnhancerPrompt(description);
            && |p| == |EnhancerLead| + |description| + |EnhancerTail|
            && p[|EnhancerLead|..|p| - |EnhancerTail|] == description
  {
    var p := EnhancerPrompt(description);
    assert p == (EnhancerLead + description) + EnhancerTail;
    assert (EnhancerLead + description)[|EnhancerLead|..] == description;
  }

  /** On both paths the prompt ends with ", " and the joined keywords. Before
      that comes the model's reply with its surrounding whitespace cut off,
      or, when the call failed, the description. */
  lemma SdPromptParts(description: string, style: Option<seq<string>>, complete: string -> Option<string>)
    ensures var r := GenerateSdPrompt(description, style, complete);
            var tail := KeywordSeparator + Join(StyleKeywords(style), KeywordSeparator);
            && EndsWith(r, tail)
            && (complete(EnhancerPrompt(description)).None? ==> r[..|r| - |tail|] == description)
            && (complete(EnhancerPrompt(description)).Some? ==>
                  var reply, head := complete(EnhancerPrompt(description)).value, r[..|r| - |tail|];
                  && (exists lead, trail :: reply == lead + head + trail && AllSpace(lead) && AllSpace(trail))
                  && (|head| > 0 ==> !IsSpace(head[0]) && !IsSpace(head[|head| - 1])))
  {
    var r := GenerateSdPrompt(description, style, complete);
    var tail := KeywordSeparator + Join(StyleKeywords(style), KeywordSeparator);
    var head := if complete(EnhancerPrompt(description)).Some?
                then Strip(complete(EnhancerPrompt(description)).value) else description;
    assert r == head + tail;
    assert r[..|r| - |tail|] == head;
    assert r[|r| - |tail|..] == tail;
    if complete(EnhancerPrompt(description)).Some? {
      StripSplits(complete(EnhancerPrompt(description)).value);
    }
  }

  /** Without keywords given, the prompt ends with the five defaults in
      their listed order. */
  lemma DefaultKeywordsText()
    ensures Join(StyleKeywords(None), KeywordSeparator)
            == "cinematic lighting, concept art, 8k, highly detailed, dramatic atmosphere"
  {
    var ks, sep := DefaultStyleKeywords, KeywordSeparator;
    assert Join(ks[..1], sep) == "cinematic lighting";
    assert ks[..2][..1] == ks[..1];
    assert Join(ks[..2], sep) == "cinematic lighting, concept art";
    assert ks[..3][..2] == ks[..2];
    assert Join(ks[..3], sep) == "cinematic lighting, concept art, 8k";
    assert ks[..4][..3] == ks[..3];
    assert Join(ks[..4], sep) == "cinematic lighting, concept art, 8k, highly detailed";
    assert ks[..5][..4] == ks[..4];
    assert ks[..5] == ks;
  }
}
