/**
 Concrete inputs and what the reader and the diff engine make of them,
 derived from the general lemmas. They pin down the reader's behaviour
 where it departs from a conventional INI reader: a stored value keeps
 the `=` that separates it from its property.
 */
module Scenarios {
  import opened Text
  import opened Reader
  import opened DiffEngine

  /** The two halves of `k = v`, each trimmed. */
  lemma SpacedEntryHalves(line: string)
    requires line == "k = v"
    ensures Trim(line[..2]) == "k" && Trim(line[2..]) == "= v"
  {
    assert line[..2] == "" + "k" + " " && line[2..] == "= v";
    TrimPadded("", "k", " ");
    TrimTrimmed("= v");
  }

  /** `k = v` stores property `k` with value `= v`, not `v`. */
  lemma SpacedEntry(line: string)
    requires line == "k = v"
    ensures Classify(line) == Entry("k", "= v")
  {
    assert IsTrimmed(line) && ';' !in line;
    assert line[..2] == "k ";
    EntryLine(line, 2);
    SpacedEntryHalves(line);
  }

  /** `[a=b]` is a header named `a=b`, not an entry. */
  lemma BracketedAssignment(line: string)
    requires line == "[a=b]"
    ensures Classify(line) == Header("a=b")
  {
    HeaderLine(line);
    assert line[1..4] == "a=b";
  }

  /** An indented comment is blank. */
  lemma IndentedComment(line: string)
    requires line == "  ; comment"
    ensures Classify(line) == Blank
  {
    CommentLineIsBlank(line, 2);
  }

  /** Cutting `k=v ; comment` at its `;` and trimming leaves `k=v`. */
  lemma TrailingCommentStripped(line: string)
    requires line == "k=v ;c"
    ensures Trim(line[..4]) == "k=v" && StripComment(line) == "k=v"
  {
    assert line[..4] == "" + "k=v" + " ";
    CommentCut(line, 4);
    TrimPadded("", "k=v", " ");
  }

  /** A trailing comment is cut off, with the whitespace before it. */
  lemma TrailingComment(line: string)
    requires line == "k=v ;c"
    ensures Classify(line) == Entry("k", "=v")
  {
    CommentIgnored(line, 4);
    TrailingCommentStripped(line);
    CompactEntry(Trim(line[..4]));
  }

  /** `k=v` stores property `k` with value `=v`. */
  lemma CompactEntry(line: string)
    requires line == "k=v"
    ensures Classify(line) == Entry("k", "=v")
  {
    assert line == "k" + "=v";
    EntryRoundTrip("k", "=v");
  }

  /** `k=` stores the value `=`: an empty right-hand side still makes an entry. */
  lemma EmptyValue(line: string)
    requires line == "k="
    ensures Classify(line) == Entry("k", "=")
  {
    assert line == "k" + "=";
    EntryRoundTrip("k", "=");
  }

  /** A section header followed by an entry files the entry under that section. */
  lemma SectionThenEntry(lines: seq<string>)
    requires lines == ["[s]", "k = v"]
    ensures ReadSpec(lines) == map[Key("s", "k") := "= v"]
  {
    HeaderLine(lines[0]);
    assert lines[0][1..2] == "s";
    SpacedEntry(lines[1]);
    ReadSpecOfClassified(lines, [Header("s"), Entry("k", "= v")]);
  }

  /** An entry before any header is filed under `root`. */
  lemma EntryWithoutHeader(lines: seq<string>, p: string, v: string)
    requires Canonical(Entry(p, v)) && lines == [p + v]
    ensures ReadSpec(lines) == map[Key("root", p) := v]
  {
    var ls := [Entry(p, v)];
    assert lines == RenderAll(ls);
    ReadRendered(ls);
    assert ls[..0] == [];
  }

  /** Applying a header and then two entries for one property keeps the
      second value under that header's section. */
  lemma RunOverwrites(s: string, p: string, v1: string, v2: string)
    ensures Run(Initial, [Header(s), Entry(p, v1), Entry(p, v2)]).entries == map[Key(s, p) := v2]
  {
    var ls := [Header(s), Entry(p, v1), Entry(p, v2)];
    var k := Key(s, p);
    assert ls[..1] == [Header(s)] && ls[..1][..0] == [];
    assert Run(Initial, ls[..1]) == State(s, map[]);
    assert ls[..2][..1] == ls[..1];
    assert Run(Initial, ls[..2]) == State(s, map[k := v1]);
    assert ls[..2] == ls[..|ls| - 1];
    assert map[k := v1][k := v2] == map[k := v2];
  }

  /** The later of two entries for the same property in one section wins. */
  lemma LaterEntryWins(lines: seq<string>, s: string, p: string, v1: string, v2: string)
    requires Canonical(Header(s)) && Canonical(Entry(p, v1)) && Canonical(Entry(p, v2))
    requires lines == [Render(Header(s)), Render(Entry(p, v1)), Render(Entry(p, v2))]
    ensures ReadSpec(lines) == map[Key(s, p) := v2]
  {
    var ls := [Header(s), Entry(p, v1), Entry(p, v2)];
    assert lines == RenderAll(ls);
    ReadRendered(ls);
    RunOverwrites(s, p, v1, v2);
  }

  /** Keys on one side only are not reported, and neither are equal values. */
  lemma OneSidedKeysIgnored(left: ConfigMap, right: ConfigMap)
    requires left == map[Key("a", "x") := "1", Key("a", "y") := "2"]
    requires right == map[Key("a", "x") := "1", Key("a", "z") := "3"]
    ensures DiffSpec(left, right) == {}
  {
    DiffEmptyIffAgree(left, right);
  }

  /** A common key whose values differ is reported with both values. */
  lemma DriftReported(left: ConfigMap, right: ConfigMap)
    requires left == map[Key("a", "x") := "1"]
    requires right == map[Key("a", "x") := "2"]
    ensures DiffSpec(left, right) == {Difference(Key("a", "x"), "1", "2")}
  {
    var k := Key("a", "x");
    assert k in left && k in right && left[k] == "1" && right[k] == "2";
    assert Difference(k, "1", "2") in DiffSpec(left, right);
  }
}
