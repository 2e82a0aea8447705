/** The text `process_json_file` builds from one poem document: one line
    per known field, in a fixed order, joined with newlines, then split into
    chunks with the default chunk size and overlap. */
module Normalizer {
  import opened Wrappers
  import opened Seqs
  import opened Text
  import Chunker

  /** A parsed JSON value as the document builder sees it: `shown` is the
      value's `str()` text; a list of strings also keeps its items, which the
      `devices` field joins instead of showing the list. */
  datatype JsonValue = Scalar(shown: string) | StrList(items: seq<string>, shown: string)

  /** A parsed JSON document whose top level is an object. */
  type JsonObject = map<string, JsonValue>

  /** One known document field and the text written before its value. */
  datatype Field = Field(key: string, heading: string)

  const DevicesKey: string := "devices"

  /** The known fields in the order their lines are written. */
  const Fields: seq<Field> := [
    Field("title_original", "Название (оригинал): "),
    Field("title_translation", "Название (перевод): "),
    Field("author", "Автор: "),
    Field("translator", "Переводчик: "),
    Field("original", "\nОригинальный текст:\n"),
    Field("translation", "\nПеревод:\n"),
    Field("rhyme_scheme", "\nСхема рифмовки: "),
    Field("meter", "Размер: "),
    Field(DevicesKey, "Художественные приемы: "),
    Field("comment", "\nКомментарий: ")
  ]

  /** How a field's value is written: the devices list is joined with
      ", ", every other value is written as its `str()` text. */
  function Shown(key: string, v: JsonValue): string {
    if key == DevicesKey && v.StrList? then Join(", ", v.items) else v.shown
  }

  /** The line written for a field present in the document. */
  function Line(doc: JsonObject, f: Field): string
    requires f.key in doc
  {
    f.heading + Shown(f.key, doc[f.key])
  }

  /** Whether a field is present in the document. */
  function PresentIn(doc: JsonObject): Field -> bool {
    (f: Field) => f.key in doc
  }

  /** The known fields the document has, in writing order. */
  function PresentFields(doc: JsonObject): seq<Field> {
    Filter(PresentIn(doc), Fields)
  }

  /** The present fields are known fields the document has, and every known
      field the document has is among them. */
  lemma PresentFieldsSpec(doc: JsonObject)
    ensures forall j :: 0 <= j < |PresentFields(doc)| ==>
      PresentFields(doc)[j] in Fields && PresentFields(doc)[j].key in doc
    ensures forall i :: 0 <= i < |Fields| && Fields[i].key in doc ==> Fields[i] in PresentFields(doc)
  {
    FilterSpec(PresentIn(doc), Fields);
  }

  /** The lines for the fields of `fs` that the document has. */
  function PartsOf(doc: JsonObject, fs: seq<Field>): (parts: seq<string>)
    ensures |parts| <= |fs|
    decreases |fs|
  {
    if |fs| == 0 then []
    else (if fs[0].key in doc then [Line(doc, fs[0])] else []) + PartsOf(doc, fs[1..])
  }

  function Parts(doc: JsonObject): seq<string> {
    PartsOf(doc, Fields)
  }

  /** The full text of the document, ready to be split. */
  function Render(doc: JsonObject): string {
    Join("\n", Parts(doc))
  }

  /** The lines are exactly those of the present fields, one each, in the
      order of `fs`. */
  lemma {:induction false} PartsOfSpec(doc: JsonObject, fs: seq<Field>)
    ensures |PartsOf(doc, fs)| == |Filter(PresentIn(doc), fs)|
    ensures forall j :: 0 <= j < |PartsOf(doc, fs)| ==>
      Filter(PresentIn(doc), fs)[j].key in doc
      && PartsOf(doc, fs)[j] == Line(doc, Filter(PresentIn(doc), fs)[j])
    decreases |fs|
  {
    if |fs| > 0 {
      PartsOfSpec(doc, fs[1..]);
      var rest, parts := Filter(PresentIn(doc), fs[1..]), PartsOf(doc, fs[1..]);
      var all, allParts := Filter(PresentIn(doc), fs), PartsOf(doc, fs);
      if fs[0].key in doc {
        assert PresentIn(doc)(fs[0]);
        assert all == [fs[0]] + rest;
        assert allParts == [Line(doc, fs[0])] + parts;
        forall j | 1 <= j < |allParts|
          ensures all[j].key in doc && allParts[j] == Line(doc, all[j])
        {
          assert all[j] == rest[j - 1];
          assert allParts[j] == parts[j - 1];
        }
      } else {
        assert !PresentIn(doc)(fs[0]);
        assert all == rest;
        assert allParts == parts;
      }
    }
  }

  /** The document's lines are, in order, one per known field it has: the
      field's heading followed by its shown value. */
  lemma PartsSpec(doc: JsonObject)
    ensures |Parts(doc)| == |PresentFields(doc)|
    ensures forall j :: 0 <= j < |Parts(doc)| ==>
      PresentFields(doc)[j].key in doc
      && Parts(doc)[j] == Line(doc, PresentFields(doc)[j])
  {
    PartsOfSpec(doc, Fields);
  }

  /** Only the known fields matter: documents that agree on them, whatever
      else they hold, give the same lines. */
  lemma {:induction false} PartsOfAgree(d1: JsonObject, d2: JsonObject, fs: seq<Field>)
    requires forall i :: 0 <= i < |fs| ==> (fs[i].key in d1 <==> fs[i].key in d2)
    requires forall i :: 0 <= i < |fs| && fs[i].key in d1 ==> d1[fs[i].key] == d2[fs[i].key]
    ensures PartsOf(d1, fs) == PartsOf(d2, fs)
    decreases |fs|
  {
    if |fs| > 0 {
      PartsOfAgree(d1, d2, fs[1..]);
    }
  }

  /** Keys outside the known fields never reach the text, and the text does
      not depend on anything but the known fields' values. */
  lemma RenderIgnoresUnknownKeys(d1: JsonObject, d2: JsonObject)
    requires forall i :: 0 <= i < |Fields| ==> (Fields[i].key in d1 <==> Fields[i].key in d2)
    requires forall i :: 0 <= i < |Fields| && Fields[i].key in d1 ==> d1[Fields[i].key] == d2[Fields[i].key]
    ensures Render(d1) == Render(d2)
  {
    PartsOfAgree(d1, d2, Fields);
  }

  /** Every heading is non-empty. */
  lemma HeadingsNonEmpty()
    ensures forall i :: 0 <= i < |Fields| ==> Fields[i].heading != []
  {
  }

  /** When every heading of `fs` is non-empty, so is every line. */
  lemma {:induction false} PartsOfNonEmpty(doc: JsonObject, fs: seq<Field>)
    requires forall i :: 0 <= i < |fs| ==> fs[i].heading != []
    ensures forall j :: 0 <= j < |PartsOf(doc, fs)| ==> PartsOf(doc, fs)[j] != []
    decreases |fs|
  {
    if |fs| > 0 {
      PartsOfNonEmpty(doc, fs[1..]);
      var parts := PartsOf(doc, fs[1..]);
      if fs[0].key in doc {
        assert PartsOf(doc, fs) == [Line(doc, fs[0])] + parts;
        forall j | 1 <= j < |PartsOf(doc, fs)| ensures PartsOf(doc, fs)[j] != [] {
          assert PartsOf(doc, fs)[j] == parts[j - 1];
        }
      } else {
        assert PartsOf(doc, fs) == parts;
      }
    }
  }

  /** Every line is non-empty, because every heading is. */
  lemma LinesNonEmpty(doc: JsonObject)
    ensures forall j :: 0 <= j < |Parts(doc)| ==> Parts(doc)[j] != []
  {
    HeadingsNonEmpty();
    PartsOfNonEmpty(doc, Fields);
  }

  /** The text is empty exactly when the document has none of the known
      fields. */
  lemma RenderEmptyIff(doc: JsonObject)
    ensures Render(doc) == [] <==> forall i :: 0 <= i < |Fields| ==> Fields[i].key !in doc
  {
    PartsSpec(doc);
    PresentFieldsSpec(doc);
    LinesNonEmpty(doc);
    JoinEmpty("\n", Parts(doc));
    if |PresentFields(doc)| > 0 {
      var f := PresentFields(doc)[0];
      assert f in Fields;
      var i :| 0 <= i < |Fields| && Fields[i] == f;
      assert Fields[i].key in doc;
    }
    forall i | 0 <= i < |Fields| && Fields[i].key in doc
      ensures |PresentFields(doc)| > 0
    {
      assert Fields[i] in PresentFields(doc);
    }
  }

  /** Every known field the document has appears in the text as its heading
      followed by its shown value. */
  lemma RenderContainsPresentFields(doc: JsonObject)
    ensures forall i :: 0 <= i < |Fields| && Fields[i].key in doc ==>
      Contains(Render(doc), Line(doc, Fields[i]))
  {
    PartsSpec(doc);
    PresentFieldsSpec(doc);
    JoinContainsParts("\n", Parts(doc));
    forall i | 0 <= i < |Fields| && Fields[i].key in doc
      ensures Contains(Render(doc), Line(doc, Fields[i]))
    {
      var f := Fields[i];
      assert f in PresentFields(doc);
      var j :| 0 <= j < |PresentFields(doc)| && PresentFields(doc)[j] == f;
      assert Parts(doc)[j] == Line(doc, f);
    }
  }

  /** A devices list is written as its items joined with ", ". */
  lemma RenderJoinsDevices(doc: JsonObject, items: seq<string>, shown: string)
    requires DevicesKey in doc && doc[DevicesKey] == StrList(items, shown)
    ensures Contains(Render(doc), "Художественные приемы: " + Join(", ", items))
  {
    RenderContainsPresentFields(doc);
    assert Fields[8].key == DevicesKey;
  }

  /** A document with an author, an original and a translation, plus a key
      the builder does not know. */
  const ExampleDoc: JsonObject := map["author" := Scalar("X"), "original" := Scalar("line1"),
                                      "translation" := Scalar("строка1"), "likes" := Scalar("3")]

  /** Unfolding `PartsOf` at position `k` of a field list. */
  lemma PartsOfFrom(doc: JsonObject, fs: seq<Field>, k: nat)
    requires k < |fs|
    ensures PartsOf(doc, fs[k..])
      == (if fs[k].key in doc then [Line(doc, fs[k])] else []) + PartsOf(doc, fs[k + 1..])
  {
    assert fs[k..][1..] == fs[k + 1..];
  }

  /** The example document lacks the last four known fields. */
  lemma ExampleDocTail()
    ensures PartsOf(ExampleDoc, Fields[6..]) == []
  {
    var doc := ExampleDoc;
    assert Fields[10..] == [];
    assert Fields[9].key !in doc;
    PartsOfFrom(doc, Fields, 9);
    assert Fields[8].key !in doc;
    PartsOfFrom(doc, Fields, 8);
    assert Fields[7].key !in doc;
    PartsOfFrom(doc, Fields, 7);
    assert Fields[6].key !in doc;
    PartsOfFrom(doc, Fields, 6);
  }

  /** The example document's original and translation lines. */
  lemma ExampleDocMiddle()
    ensures PartsOf(ExampleDoc, Fields[4..]) == ["\nОригинальный текст:\nline1", "\nПеревод:\nстрока1"]
  {
    var doc := ExampleDoc;
    ExampleDocTail();
    assert Fields[5].key in doc;
    assert Line(doc, Fields[5]) == "\nПеревод:\nстрока1" by {
      assert Shown("translation", doc["translation"]) == "строка1";
    }
    PartsOfFrom(doc, Fields, 5);
    assert Fields[4].key in doc;
    assert Line(doc, Fields[4]) == "\nОригинальный текст:\nline1" by {
      assert Shown("original", doc["original"]) == "line1";
    }
    PartsOfFrom(doc, Fields, 4);
  }

  /** The example document's author line and what follows it. */
  lemma ExampleDocFromAuthor()
    ensures PartsOf(ExampleDoc, Fields[2..]) == ["Автор: X", "\nОригинальный текст:\nline1", "\nПеревод:\nстрока1"]
  {
    var doc := ExampleDoc;
    ExampleDocMiddle();
    assert Fields[3].key !in doc;
    PartsOfFrom(doc, Fields, 3);
    assert Fields[2].key in doc;
    assert Line(doc, Fields[2]) == "Автор: X" by {
      assert Shown("author", doc["author"]) == "X";
    }
    PartsOfFrom(doc, Fields, 2);
  }

  lemma ExampleParts()
    ensures Parts(ExampleDoc) == ["Автор: X", "\nОригинальный текст:\nline1", "\nПеревод:\nстрока1"]
  {
    var doc := ExampleDoc;
    ExampleDocFromAuthor();
    assert Fields[1].key !in doc;
    PartsOfFrom(doc, Fields, 1);
    assert Fields[0].key !in doc;
    PartsOfFrom(doc, Fields, 0);
    assert Fields[0..] == Fields;
  }

  /** A worked example: only the known fields are written, in the fixed
      order, each original and translation on a line after its heading. */
  lemma RenderScenario()
    ensures Render(ExampleDoc)
      == "Автор: X" + "\n" + "\nОригинальный текст:\nline1" + "\n" + "\nПеревод:\nстрока1"
  {
    ExampleParts();
    var l2, l4, l5 := "Автор: X", "\nОригинальный текст:\nline1", "\nПеревод:\nстрока1";
    assert Join("\n", [l5]) == l5;
    assert Join("\n", [l4, l5]) == l4 + "\n" + l5 by { assert [l4, l5][1..] == [l5]; }
    assert Join("\n", [l2, l4, l5]) == l2 + "\n" + (l4 + "\n" + l5) by { assert [l2, l4, l5][1..] == [l4, l5]; }
  }

  /** The chunks of a JSON file: none when it cannot be read or parsed,
      otherwise the split of its text with the default size and overlap. */
  function ProcessJson(doc: Option<JsonObject>): (chunks: seq<string>)
    ensures doc.None? ==> chunks == []
    ensures doc.Some? ==> (chunks == [] <==> Render(doc.value) == [])
  {
    match doc
    case None => []
    case Some(d) => Chunker.Split(Render(d), Chunker.ChunkSize, Chunker.ChunkOverlap)
  }

  /** A parsed document with none of the known fields gives no chunks; one
      with at least one gives at least one. */
  lemma ProcessJsonEmptyIff(doc: JsonObject)
    ensures ProcessJson(Some(doc)) == [] <==> forall i :: 0 <= i < |Fields| ==> Fields[i].key !in doc
  {
    RenderEmptyIff(doc);
  }

  /** A document whose text fits in one window becomes a single chunk: its
      stripped text. */
  lemma ProcessJsonShortDocument(doc: JsonObject)
    requires 0 < |Render(doc)| <= Chunker.ChunkSize - Chunker.ChunkOverlap
    ensures ProcessJson(Some(doc)) == [Strip(Render(doc))]
  {
    Chunker.SplitShortText(Render(doc), Chunker.ChunkSize, Chunker.ChunkOverlap);
  }
}
