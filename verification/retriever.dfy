/** `find_poems_by_translator`: the index entries whose text mentions a
    translator's name, compared without regard to letter case. */
module Retriever {
  import opened Wrappers
  import opened Seqs
  import opened Text
  import opened Records

  /** The entry's text, lower-cased, contains the lower-cased name; an entry
      without text is searched as "". */
  predicate Matches<V>(name: string, c: ChunkRecord<V>) {
    Contains(Lower(TextOf(c)), Lower(name))
  }

  function MatcherFor<V>(name: string): ChunkRecord<V> -> bool {
    c => Matches(name, c)
  }

  /** The matching entries, in index order. */
  function FindByTranslator<V(==)>(name: string, index: seq<ChunkRecord<V>>): (found: seq<ChunkRecord<V>>)
    ensures |found| <= |index|
    ensures forall i :: 0 <= i < |found| ==> found[i] in index && Matches(name, found[i])
    ensures forall i :: 0 <= i < |index| && Matches(name, index[i]) ==> index[i] in found
  {
    FilterSpec(MatcherFor(name), index);
    Filter(MatcherFor(name), index)
  }

  /** The result keeps the index order: it is a subsequence of the index. */
  lemma FindKeepsOrder<V>(name: string, index: seq<ChunkRecord<V>>)
    ensures IsSubsequence(FindByTranslator(name, index), index)
  {
    FilterIsSubsequence(MatcherFor(name), index);
  }

  /** The name matters only through its lower-cased form. */
  lemma FindDependsOnLoweredName<V>(n1: string, n2: string, index: seq<ChunkRecord<V>>)
    requires Lower(n1) == Lower(n2)
    ensures FindByTranslator(n1, index) == FindByTranslator(n2, index)
  {
    FilterCongruent(MatcherFor<V>(n1), MatcherFor<V>(n2), index);
  }

  /** Searching for a name or for its lower-cased form is the same. */
  lemma FindCaseInsensitive<V>(name: string, index: seq<ChunkRecord<V>>)
    ensures FindByTranslator(Lower(name), index) == FindByTranslator(name, index)
  {
    LowerIdempotent(name);
    FindDependsOnLoweredName(Lower(name), name, index);
  }

  /** The empty name is contained in every text, so it selects everything. */
  lemma FindEmptyNameSelectsAll<V>(index: seq<ChunkRecord<V>>)
    ensures FindByTranslator("", index) == index
  {
    forall i | 0 <= i < |index| ensures MatcherFor("")(index[i]) {
      ContainsEmpty(Lower(TextOf(index[i])));
    }
    FilterAll(MatcherFor(""), index);
  }

  /** Searching the result again finds the same entries. */
  lemma FindIdempotent<V>(name: string, index: seq<ChunkRecord<V>>)
    ensures FindByTranslator(name, FindByTranslator(name, index)) == FindByTranslator(name, index)
  {
    FilterIdempotent(MatcherFor(name), index);
  }

  /** Searching two indexes one after the other is searching their
      concatenation. */
  lemma FindConcat<V>(name: string, a: seq<ChunkRecord<V>>, b: seq<ChunkRecord<V>>)
    ensures FindByTranslator(name, a + b) == FindByTranslator(name, a) + FindByTranslator(name, b)
  {
    FilterConcat(MatcherFor(name), a, b);
  }

  /** An entry without text matches only the empty name. */
  lemma MissingTextMatchesOnlyEmptyName<V>(name: string, c: ChunkRecord<V>)
    requires c.text.None?
    ensures Matches(name, c) <==> name == []
  {
    assert TextOf(c) == [];
    assert Lower([]) == [];
    ContainedInEmpty(Lower(name));
  }

  /** A worked example: "Smith" finds a text that writes the name in
      capitals. */
  lemma MatchesIgnoringCase()
    ensures Matches("Smith", ChunkRecord(Some("by SMITH"), [0], map[]))
  {
    var c := ChunkRecord(Some("by SMITH"), [0], map[]);
    var hay := Lower(TextOf(c));
    var needle := Lower("Smith");
    assert needle == "smith" by {
      assert needle[0] == 's';
    }
    assert hay[3..8] == "smith" by {
      assert hay[3] == 's' && hay[4] == 'm' && hay[5] == 'i' && hay[6] == 't' && hay[7] == 'h';
    }
    assert OccursAt(hay, needle, 3);
  }
}
