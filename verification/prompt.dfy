/** The prompt `translate` sends to the generation model: a fixed header,
    then either the translator's example translations, an instruction and
    the poem, or the poem alone, then a fixed closing line. */
module Prompt {
  import opened Wrappers
  import opened Seqs
  import opened Text
  import opened Records
  import opened Retriever
  import Normalizer

  /** The two headings every example text must contain. */
  const OriginalMarker: string := "Оригинальный текст:"
  const TranslationMarker: string := "Перевод:"

  /** The text placed between two examples, and between the last example
      and the instruction. */
  const Rule: string := "\n\n---\n\n"

  /** The fixed texts of the prompt. */
  datatype Template = Template(
    header: string,          // the instruction lines both prompts open with
    examplesHeading: string, // what precedes the translator's name
    examplesHeadingTail: string, // what follows it
    task: string,            // the instruction placed before the poem
    closing: string)         // the line both prompts end with

  /** The six instruction lines both prompts open with. */
  const HeaderLines: seq<string> := [
    "Ты профессиональный переводчик детских стихотворений с английского на русский.",
    "⚠️ Задача: перевести это стихотворение **полностью рифмованно** по всей длине.",
    "⚠️ Каждая пара строк должна строго рифмоваться (AABB или ABAB). ",
    "⚠️ Смысл можно слегка адаптировать ради рифмы, но смысл каждой строки должен быть понятен.",
    "⚠️ Сначала **определи все рифмы для всего стихотворения**, а потом составь строки.",
    "⚠️ Весь текст должен быть рифмованным, без исключений, без лишних слов."
  ]

  /** The texts `translate` uses. */
  const SourceTemplate: Template := Template(
    Join("\n", HeaderLines),
    "Примеры переводов ",
    " служат как вдохновение, не копируй их дословно:",
    "Переведи это стихотворение строго рифмованно, соблюдая схему рифмы, ритм и музыкальность. Сначала придумай рифмы для всего стихотворения, потом составь строки:",
    "Твой перевод (только текст, полностью рифмованно, без комментариев):")

  /** A text can serve as an example when it has both headings. */
  predicate IsExample(text: string) {
    Contains(text, OriginalMarker) && Contains(text, TranslationMarker)
  }

  /** The texts of the entries, "" for an entry without one (Python's
      `chunk.get("text", "")`). */
  function Texts<V>(found: seq<ChunkRecord<V>>): (texts: seq<string>)
    ensures |texts| == |found|
    ensures forall i :: 0 <= i < |found| ==>
      found[i].text == Some(texts[i]) || (found[i].text.None? && texts[i] == [])
  {
    seq(|found|, i requires 0 <= i < |found| => TextOf(found[i]))
  }

  /** The example texts among the entries, in order. */
  function Examples<V>(found: seq<ChunkRecord<V>>): (examples: seq<string>)
    ensures forall i :: 0 <= i < |examples| ==> IsExample(examples[i])
  {
    FilterSpec(IsExample, Texts(found));
    Filter(IsExample, Texts(found))
  }

  /** What comes before the examples: the heading naming the translator. */
  function ExamplesHead(t: Template, style: string): string {
    t.examplesHeading + style + t.examplesHeadingTail + "\n\n"
  }

  /** What comes after the examples: a rule and the instruction. */
  function ExamplesTail(t: Template): string {
    Rule + t.task + "\n\n"
  }

  /** The examples block of the full prompt. */
  function ExamplesBlock(t: Template, style: string, examples: seq<string>): string {
    ExamplesHead(t, style) + Join(Rule, examples) + ExamplesTail(t)
  }

  /** What precedes the poem: the header, a blank line and the middle part. */
  function Opening(t: Template, middle: string): string {
    t.header + "\n\n" + middle
  }

  /** What follows the poem: a blank line and the closing line. */
  function Ending(t: Template): string {
    "\n\n" + t.closing
  }

  /** The shape both prompts share. */
  function Frame(t: Template, middle: string, poem: string): string {
    Opening(t, middle) + poem + Ending(t)
  }

  /** The middle part: the examples block exactly when there are examples. */
  function Middle(t: Template, style: string, examples: seq<string>): string {
    if examples != [] then ExamplesBlock(t, style, examples) else []
  }

  /** The prompt for a poem, a translator name and the example texts. */
  function ComposePrompt(t: Template, poem: string, style: string, examples: seq<string>): (prompt: string)
    ensures |t.header| + 2 + |poem| + 2 + |t.closing| <= |prompt|
    ensures prompt[..|t.header|] == t.header
    ensures prompt[|prompt| - |poem| - 2 - |t.closing|..] == poem + "\n\n" + t.closing
  {
    Frame(t, Middle(t, style, examples), poem)
  }

  /** `translate`'s prompt: the examples are the example texts among the
      entries that mention the translator. */
  function BuildPrompt<V(==)>(poem: string, style: string, index: seq<ChunkRecord<V>>): string {
    ComposePrompt(SourceTemplate, poem, style, Examples(FindByTranslator(style, index)))
  }

  /** The examples are, in order, exactly the entry texts that carry both
      headings. */
  lemma ExamplesSpec<V>(found: seq<ChunkRecord<V>>)
    ensures IsSubsequence(Examples(found), Texts(found))
    ensures forall j :: 0 <= j < |Examples(found)| ==>
      exists i :: 0 <= i < |found| && Examples(found)[j] == TextOf(found[i])
    ensures forall i :: 0 <= i < |found| && IsExample(TextOf(found[i])) ==> TextOf(found[i]) in Examples(found)
  {
    FilterIsSubsequence(IsExample, Texts(found));
    FilterSpec(IsExample, Texts(found));
    forall j | 0 <= j < |Examples(found)|
      ensures exists i :: 0 <= i < |found| && Examples(found)[j] == TextOf(found[i])
    {
      var e := Examples(found)[j];
      assert e in Texts(found);
      var i :| 0 <= i < |Texts(found)| && Texts(found)[i] == e;
    }
  }

  /** Texts are read entry by entry, so reading two runs of entries one after
      the other gives the two runs of texts. */
  lemma TextsConcat<V>(a: seq<ChunkRecord<V>>, b: seq<ChunkRecord<V>>)
    ensures Texts(a + b) == Texts(a) + Texts(b)
  {
    assert |Texts(a + b)| == |Texts(a) + Texts(b)|;
    forall i | 0 <= i < |a + b| ensures Texts(a + b)[i] == (Texts(a) + Texts(b))[i] {
      if i >= |a| {
        assert (a + b)[i] == b[i - |a|];
      }
    }
  }

  /** Selecting examples from two runs of entries selects from each in turn,
      so every qualifying entry contributes its own copy, duplicates
      included. */
  lemma ExamplesConcat<V>(a: seq<ChunkRecord<V>>, b: seq<ChunkRecord<V>>)
    ensures Examples(a + b) == Examples(a) + Examples(b)
  {
    TextsConcat(a, b);
    FilterConcat(IsExample, Texts(a), Texts(b));
  }

  /** A single entry yields its text when that text has both headings, and
      nothing otherwise. */
  lemma ExamplesOne<V>(c: ChunkRecord<V>)
    ensures Examples([c]) == if IsExample(TextOf(c)) then [TextOf(c)] else []
  {
    var texts := Texts([c]);
    assert texts == [TextOf(c)];
    assert texts[1..] == [];
  }

  /** Every example `translate` uses carries both headings and mentions the
      translator's name, compared without letter case. */
  lemma BuildPromptExamplesMentionTranslator<V>(style: string, index: seq<ChunkRecord<V>>)
    ensures forall j :: 0 <= j < |Examples(FindByTranslator(style, index))| ==>
      IsExample(Examples(FindByTranslator(style, index))[j])
      && Contains(Lower(Examples(FindByTranslator(style, index))[j]), Lower(style))
  {
    var found := FindByTranslator(style, index);
    ExamplesSpec(found);
    forall j | 0 <= j < |Examples(found)|
      ensures Contains(Lower(Examples(found)[j]), Lower(style))
    {
      var i :| 0 <= i < |found| && Examples(found)[j] == TextOf(found[i]);
      assert Matches(style, found[i]);
    }
  }

  /** With examples, the prompt is the examples joined by rules, between
      the header and translator heading on one side and the instruction,
      poem and closing on the other. */
  lemma ComposeAroundExamples(t: Template, poem: string, style: string, examples: seq<string>)
    requires examples != []
    ensures ComposePrompt(t, poem, style, examples)
      == (t.header + "\n\n" + ExamplesHead(t, style)) + Join(Rule, examples) + (ExamplesTail(t) + poem + Ending(t))
  {
  }

  /** Without examples, the prompt is the header, the poem and the closing
      line, separated by blank lines. */
  lemma ComposeWithoutExamples(t: Template, poem: string, style: string)
    ensures ComposePrompt(t, poem, style, []) == t.header + "\n\n" + poem + "\n\n" + t.closing
  {
  }

  /** With examples, the prompt contains them joined by rules, and so each
      of them. */
  lemma ComposeContainsExamples(t: Template, poem: string, style: string, examples: seq<string>)
    requires examples != []
    ensures Contains(ComposePrompt(t, poem, style, examples), Join(Rule, examples))
    ensures forall j :: 0 <= j < |examples| ==> Contains(ComposePrompt(t, poem, style, examples), examples[j])
  {
    var joined := Join(Rule, examples);
    var prompt := ComposePrompt(t, poem, style, examples);
    ComposeAroundExamples(t, poem, style, examples);
    ContainsInfix(t.header + "\n\n" + ExamplesHead(t, style), joined, ExamplesTail(t) + poem + Ending(t));
    JoinContainsParts(Rule, examples);
    forall j | 0 <= j < |examples| ensures Contains(prompt, examples[j]) {
      ContainsTransitive(prompt, joined, examples[j]);
    }
  }

  /** With examples, the prompt names the translator. */
  lemma ComposeNamesTranslator(t: Template, poem: string, style: string, examples: seq<string>)
    requires examples != []
    ensures Contains(ComposePrompt(t, poem, style, examples), style)
  {
    var head := ExamplesHead(t, style);
    var opening := Opening(t, ExamplesBlock(t, style, examples));
    var prompt := ComposePrompt(t, poem, style, examples);
    ContainsInfix(t.examplesHeading, style, t.examplesHeadingTail + "\n\n");
    assert head == t.examplesHeading + style + (t.examplesHeadingTail + "\n\n");
    ContainsInfix(t.header + "\n\n", head, Join(Rule, examples) + ExamplesTail(t));
    assert opening == t.header + "\n\n" + head + (Join(Rule, examples) + ExamplesTail(t));
    ContainsInfix([], opening, poem + Ending(t));
    assert prompt == [] + opening + (poem + Ending(t));
    ContainsTransitive(opening, head, style);
    ContainsTransitive(prompt, opening, style);
  }

  /** Without examples the translator's name plays no part in the prompt. */
  lemma ComposeWithoutExamplesIgnoresStyle(t: Template, poem: string, s1: string, s2: string)
    ensures ComposePrompt(t, poem, s1, []) == ComposePrompt(t, poem, s2, [])
  {
    ComposeWithoutExamples(t, poem, s1);
    ComposeWithoutExamples(t, poem, s2);
  }

  /** The poem is written into the prompt verbatim: two different poems give
      two different prompts. */
  lemma ComposeKeepsPoem(t: Template, p1: string, p2: string, style: string, examples: seq<string>)
    requires ComposePrompt(t, p1, style, examples) == ComposePrompt(t, p2, style, examples)
    ensures p1 == p2
  {
    var opening := Opening(t, Middle(t, style, examples));
    var start := |opening|;
    assert |p1| == |p2|;
    assert p1 == ComposePrompt(t, p1, style, examples)[start..start + |p1|];
    assert p2 == ComposePrompt(t, p2, style, examples)[start..start + |p2|];
  }

  /** When no entry both mentions the translator and carries the two
      headings, `translate` falls back to the prompt without examples. */
  lemma BuildPromptFallsBack<V>(poem: string, style: string, index: seq<ChunkRecord<V>>)
    requires forall i :: 0 <= i < |index| ==> !(Matches(style, index[i]) && IsExample(TextOf(index[i])))
    ensures BuildPrompt(poem, style, index) == ComposePrompt(SourceTemplate, poem, style, [])
  {
    var found := FindByTranslator(style, index);
    forall i | 0 <= i < |found| ensures !IsExample(Texts(found)[i]) {
      assert found[i] in index;
      var k :| 0 <= k < |index| && index[k] == found[i];
    }
    FilterNone(IsExample, Texts(found));
  }

  /** When some entry mentions the translator and carries the two headings,
      its text appears in the prompt. */
  lemma BuildPromptUsesExample<V>(poem: string, style: string, index: seq<ChunkRecord<V>>, k: nat)
    requires k < |index| && Matches(style, index[k]) && IsExample(TextOf(index[k]))
    ensures Contains(BuildPrompt(poem, style, index), TextOf(index[k]))
  {
    var found := FindByTranslator(style, index);
    assert index[k] in found;
    var i :| 0 <= i < |found| && found[i] == index[k];
    ExamplesSpec(found);
    var examples := Examples(found);
    assert TextOf(index[k]) in examples;
    ComposeContainsExamples(SourceTemplate, poem, style, examples);
  }

  /** The original and translation headings of the document builder carry
      the two markers, each on a line of its own. */
  lemma HeadingsCarryMarkers()
    ensures Normalizer.Fields[4].key == "original"
    ensures Normalizer.Fields[4].heading == "\n" + OriginalMarker + "\n"
    ensures Normalizer.Fields[5].key == "translation"
    ensures Normalizer.Fields[5].heading == "\n" + TranslationMarker + "\n"
  {
  }

  /** A line whose heading holds a marker contains that marker. */
  lemma LineContainsMarker(doc: Normalizer.JsonObject, f: Normalizer.Field, marker: string)
    requires f.key in doc && f.heading == "\n" + marker + "\n"
    ensures Contains(Normalizer.Line(doc, f), marker)
  {
    var shown := Normalizer.Shown(f.key, doc[f.key]);
    assert Normalizer.Line(doc, f) == "\n" + marker + ("\n" + shown);
    ContainsInfix("\n", marker, "\n" + shown);
  }

  /** A poem document with both an original and a translation renders to a
      text that qualifies as an example. */
  lemma RenderedPoemIsExample(doc: Normalizer.JsonObject)
    requires "original" in doc && "translation" in doc
    ensures IsExample(Normalizer.Render(doc))
  {
    var text := Normalizer.Render(doc);
    var f4, f5 := Normalizer.Fields[4], Normalizer.Fields[5];
    HeadingsCarryMarkers();
    Normalizer.RenderContainsPresentFields(doc);
    assert Contains(text, Normalizer.Line(doc, f4)) && Contains(text, Normalizer.Line(doc, f5));
    LineContainsMarker(doc, f4, OriginalMarker);
    LineContainsMarker(doc, f5, TranslationMarker);
    ContainsTransitive(text, Normalizer.Line(doc, f4), OriginalMarker);
    ContainsTransitive(text, Normalizer.Line(doc, f5), TranslationMarker);
  }
}
