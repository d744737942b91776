/**
 * The translation prompt a new `OllamaSettings` carries, and what
 * `BuildPrompt` makes of it. The template is spelled in short literal parts
 * so that the verifier can check each part for braces.
 */
module DefaultPrompt {
  import opened Text
  import opened Ollama

  const Head0: string := "Pretend you are a translator "
  const Head1: string := "for a Unity game. I need the "
  const Head2: string := "accurate translation in "
  const Middle: string := " for the sentences in "
  const Tail0: string := " after the next => , please be "
  const Tail1: string := "very carreful with the Smart "
  const Tail2: string := "String format that need to be "
  const Tail3: string := "preserved (they are based on "
  const Tail4: string := "SmartFormat library). "
  const Tail5: string := "Preserving the smart string "
  const Tail6: string := "formating must be your top "
  const Tail7: string := "priority. You should not change "
  const Tail8: string := "the structure of the sentence, "
  const Tail9: string := "or add any line break, quotes "
  const Tail10: string := "or any other special formating, "
  const Tail11: string := "the translation must be "
  const Tail12: string := "accurate and very close from "
  const Tail13: string := "the original. I don't want any "
  const Tail14: string := "introduction or explanation, "
  const Tail15: string := "just the translated result. =>"

  /** The instruction before the target language. */
  const DefaultPromptHead: string := Head0 + Head1 + Head2
  /** The instruction after the source language; it ends with the marker
      `=>` that the text follows. */
  const DefaultPromptTail: string :=
    Tail0 + Tail1 + Tail2 + Tail3
    + Tail4 + Tail5 + Tail6 + Tail7
    + Tail8 + Tail9 + Tail10 + Tail11
    + Tail12 + Tail13 + Tail14 + Tail15

  const TargetLanguagePlaceholder: string := "{{target_language}}"
  const SourceLanguagePlaceholder: string := "{{source_language}}"

  /** `OllamaSettings.translationPrompt` as first created: it names the
      languages as `{{target_language}}` and `{{source_language}}`, and ends
      with `=>{{text}}`. */
  const DefaultTranslationPrompt: string :=
    DefaultPromptHead + TargetLanguagePlaceholder + Middle + SourceLanguagePlaceholder
    + DefaultPromptTail + TextPlaceholder

  /** The instruction before the target language holds no brace. */
  lemma {:induction false} HeadBraceFree()
    ensures '{' !in DefaultPromptHead
  {
    assert '{' !in Head0 && '{' !in Head1 && '{' !in Head2;
  }

  /** The instruction before the text holds no brace and ends with `=>`. */
  lemma {:induction false} TailBraceFree()
    ensures '{' !in DefaultPromptTail
    ensures |DefaultPromptTail| >= |Arrow| && DefaultPromptTail[|DefaultPromptTail| - |Arrow|..] == Arrow
  {
    TailPartBraceFree0();
    TailPartBraceFree1();
    TailPartBraceFree2();
    TailPartBraceFree3();
    var t := DefaultPromptTail;
    assert t == (Tail0 + Tail1 + Tail2 + Tail3 + Tail4 + Tail5 + Tail6 + Tail7
                 + Tail8 + Tail9 + Tail10 + Tail11 + Tail12 + Tail13 + Tail14) + Tail15;
    assert Tail15[|Tail15| - 2..] == Arrow;
    assert t[|t| - 2..] == Tail15[|Tail15| - 2..];
  }

  lemma {:induction false} TailPartBraceFree0()
    ensures '{' !in Tail0 + Tail1 + Tail2 + Tail3
  {
    assert '{' !in Tail0 && '{' !in Tail1 && '{' !in Tail2 && '{' !in Tail3;
  }

  lemma {:induction false} TailPartBraceFree1()
    ensures '{' !in Tail4 + Tail5 + Tail6 + Tail7
  {
    assert '{' !in Tail4 && '{' !in Tail5 && '{' !in Tail6 && '{' !in Tail7;
  }

  lemma {:induction false} TailPartBraceFree2()
    ensures '{' !in Tail8 + Tail9 + Tail10 + Tail11
  {
    assert '{' !in Tail8 && '{' !in Tail9 && '{' !in Tail10 && '{' !in Tail11;
  }

  lemma {:induction false} TailPartBraceFree3()
    ensures '{' !in Tail12 + Tail13 + Tail14 + Tail15
  {
    assert '{' !in Tail12 && '{' !in Tail13 && '{' !in Tail14 && '{' !in Tail15;
  }

  /** What `BuildPrompt` makes of the default template: the target language
      is never inserted, since the template holds no `{{language}}`; both
      language placeholders reach the model as they are written; and the
      text follows the final `=>` verbatim. */
  lemma {:induction false} DefaultPromptFilled(language: string, text: string)
    ensures BuildPrompt(DefaultTranslationPrompt, language, text)
         == DefaultPromptHead + TargetLanguagePlaceholder + Middle + SourceLanguagePlaceholder
            + DefaultPromptTail + text
  {
    HeadBraceFree();
    TailBraceFree();
    assert '{' !in Middle;
    TwoLanguageTemplateFilled(DefaultPromptHead, Middle, DefaultPromptTail, language, text);
  }

  /** Hence the prompt still carries both language placeholders, right
      after the instruction parts before them. */
  lemma {:induction false} DefaultPromptKeepsLanguagePlaceholders(language: string, text: string)
    ensures var p := BuildPrompt(DefaultTranslationPrompt, language, text);
      && MatchAt(p, TargetLanguagePlaceholder, |DefaultPromptHead|)
      && MatchAt(p, SourceLanguagePlaceholder, |DefaultPromptHead + TargetLanguagePlaceholder + Middle|)
  {
    DefaultPromptFilled(language, text);
    var a, m := DefaultPromptHead, Middle;
    var target, source := TargetLanguagePlaceholder, SourceLanguagePlaceholder;
    var rest := DefaultPromptTail + text;
    LeftAssociate(a, target, m, source, DefaultPromptTail, text);
    OccursAfter(a, target, m + (source + rest));
    AppendAssoc(a + target + m, source, rest);
    OccursAfter(a + target + m, source, rest);
  }

  /** `pat` occurs in `a + pat + b` right after `a`. */
  lemma {:induction false} OccursAfter(a: string, pat: string, b: string)
    ensures MatchAt(a + pat + b, pat, |a|)
  {
    assert (a + pat + b)[|a|..|a| + |pat|] == pat;
  }

  /** A template shaped like the default one, with brace-free instruction
      parts: only the text is inserted. */
  lemma {:induction false} TwoLanguageTemplateFilled(head: string, middle: string, tail: string, language: string, text: string)
    requires '{' !in head && '{' !in middle && '{' !in tail
    ensures BuildPrompt(head + TargetLanguagePlaceholder + middle + SourceLanguagePlaceholder + tail + TextPlaceholder, language, text)
         == head + TargetLanguagePlaceholder + middle + SourceLanguagePlaceholder + tail + text
  {
    var target, source := TargetLanguagePlaceholder, SourceLanguagePlaceholder;
    var segs := [Literal(head), Hole("target_language"), Literal(middle), Hole("source_language"), Literal(tail), Hole("text")];
    assert WellFormed(segs) && Hole("language") !in segs by {
      assert BraceFree("target_language") && BraceFree("source_language") && BraceFree("text");
    }
    assert Join(segs) == head + (target + (middle + (source + (tail + TextPlaceholder)))) by {
      SixSegments(segs, language, text);
    }
    assert Instantiate(segs, language, text) == head + (target + (middle + (source + (tail + text)))) by {
      SixSegments(segs, language, text);
    }
    BuildPromptInstantiates(segs, language, text);
    LeftAssociate(head, target, middle, source, tail, TextPlaceholder);
    LeftAssociate(head, target, middle, source, tail, text);
  }

  /** `Join` and `Instantiate` of the default template's segments. */
  lemma {:induction false} SixSegments(segs: seq<Segment>, language: string, text: string)
    requires |segs| == 6 && segs[1] == Hole("target_language") && segs[3] == Hole("source_language") && segs[5] == Hole("text")
    requires segs[0].Literal? && segs[2].Literal? && segs[4].Literal?
    ensures Join(segs) == segs[0].text + (TargetLanguagePlaceholder + (segs[2].text
                          + (SourceLanguagePlaceholder + (segs[4].text + TextPlaceholder))))
    ensures Instantiate(segs, language, text) == segs[0].text + (TargetLanguagePlaceholder + (segs[2].text
                          + (SourceLanguagePlaceholder + (segs[4].text + text))))
  {
    assert Placeholder("target_language") == TargetLanguagePlaceholder;
    assert Placeholder("source_language") == SourceLanguagePlaceholder;
    assert Placeholder("text") == TextPlaceholder;
    var s5 := segs[5..];
    assert s5[1..] == [];
    assert Join(s5) == TextPlaceholder && Instantiate(s5, language, text) == text;
    var s4 := segs[4..];
    assert s4[1..] == s5;
    assert Join(s4) == segs[4].text + TextPlaceholder;
    assert Instantiate(s4, language, text) == segs[4].text + text;
    var s3 := segs[3..];
    assert s3[1..] == s4;
    assert Join(s3) == SourceLanguagePlaceholder + Join(s4);
    assert Instantiate(s3, language, text) == SourceLanguagePlaceholder + Instantiate(s4, language, text);
    var s2 := segs[2..];
    assert s2[1..] == s3;
    assert Join(s2) == segs[2].text + Join(s3);
    assert Instantiate(s2, language, text) == segs[2].text + Instantiate(s3, language, text);
    var s1 := segs[1..];
    assert s1[1..] == s2;
    assert Join(s1) == TargetLanguagePlaceholder + Join(s2);
    assert Instantiate(s1, language, text) == TargetLanguagePlaceholder + Instantiate(s2, language, text);
    assert segs[1..] == s1;
  }

  lemma {:induction false} LeftAssociate(a: string, b: string, c: string, d: string, e: string, f: string)
    ensures a + (b + (c + (d + (e + f)))) == a + b + c + d + e + f
  {
    AppendAssoc(a, b, c + (d + (e + f)));
    AppendAssoc(a + b, c, d + (e + f));
    AppendAssoc(a + b + c, d, e + f);
    AppendAssoc(a + b + c + d, e, f);
  }
}
