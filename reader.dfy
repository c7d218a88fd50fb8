/**
 The INI-subset reader (`read_to_map` in src/main.rs): each line is
 classified on its own, and a left-to-right pass keeps the current section
 and fills a map from (section, property) to value.

 Two layers: `Classify` is the per-line classification, as pure functions
 over strings; `Run` folds the classified lines into the reader's state.
 `ReadSpec` puts the two together, and the method `ReadToMap`, the
 source's loop, is proved equal to it.
 */
module Reader {
  import opened Text

  /** `Key`: a section name and a property. Equality compares both by content. */
  datatype Key = Key(section: string, property: string)

  type ConfigMap = map<Key, string>

  /** What one line of input means to the reader. */
  datatype Line =
    | Blank                                      // empty, whitespace, or only a comment
    | Header(name: string)                       // `[name]`
    | Entry(property: string, value: string)     // `property=value`; the value keeps its `=`
    | Unrecognized                               // anything else, ignored

  /** What holds of every property and value the reader stores. */
  predicate WellFormedEntry(property: string, value: string)
  {
    && ';' !in property && '=' !in property && ';' !in value
    && |value| > 0 && value[0] == '='
    && IsTrimmed(property) && IsTrimmed(value)
  }

  /** What holds of every classification: no header name holds a `;`, and
      every entry is well formed. */
  predicate Produced(l: Line)
  {
    && (l.Header? ==> ';' !in l.name)
    && (l.Entry? ==> WellFormedEntry(l.property, l.value))
  }

  /** The line cut at its first `;` and trimmed. */
  function StripComment(line: string): (r: string)
    ensures ';' !in r
    ensures IsTrimmed(r)
    ensures ';' !in line ==> r == Trim(line)
    ensures forall c :: c in r ==> c in line
  {
    match Find(line, ';')
    case Some(idx) =>
      TrimChars(line[..idx]);
      Trim(line[..idx])
    case None =>
      TrimChars(line);
      Trim(line)
  }

  /** `split_at` the first `=` of a trimmed line without comment: the property
      is the trimmed text before the `=`, the value the trimmed text from the
      `=` on, so the value starts with `=`. */
  function SplitEntry(t: string, idx: nat): (r: Line)
    requires idx < |t| && t[idx] == '=' && '=' !in t[..idx] && ';' !in t
    ensures r.Entry? && WellFormedEntry(r.property, r.value)
  {
    TrimChars(t[..idx]);
    TrimChars(t[idx..]);
    TrimKeepsEnds(t[idx..]);
    Entry(Trim(t[..idx]), Trim(t[idx..]))
  }

  /** How a line is read once its comment is cut and it is trimmed: nothing
      left is blank, a line bracketed on both ends is a header (whatever it
      contains), and otherwise the first `=` makes an entry. */
  function ClassifyStripped(t: string): (r: Line)
    requires ';' !in t
    ensures Produced(r)
  {
    if |t| == 0 then Blank
    else if t[0] == '[' && t[|t| - 1] == ']' then
      assert forall c :: c in t[1..|t| - 1] ==> c in t;
      Header(t[1..|t| - 1])
    else match Find(t, '=')
      case Some(idx) => SplitEntry(t, idx)
      case None => Unrecognized
  }

  /** The classification `read_to_map` applies to each line, in its order:
      empty and all-whitespace lines first, then the comment cut and trim,
      then headers, then the first `=`. */
  function Classify(line: string): (r: Line)
    ensures Produced(r)
  {
    if |line| == 0 || IsWhitespace(line) then Blank
    else ClassifyStripped(StripComment(line))
  }

  /** A non-empty trimmed line without comment skips the first two stages. */
  lemma ClassifyTrimmed(t: string)
    requires |t| > 0 && IsTrimmed(t) && ';' !in t
    ensures Classify(t) == ClassifyStripped(t)
  {
    TrimTrimmed(t);
  }

  /** The headers and entries that `Classify` gives back unchanged when they
      are written out by `Render`. */
  predicate Canonical(l: Line)
  {
    match l
    case Header(name) => ';' !in name
    case Entry(p, v) =>
      WellFormedEntry(p, v) && !(|p| > 0 && p[0] == '[' && v[|v| - 1] == ']')
    case _ => false
  }

  /** The shortest line that reads back as a given header or entry. */
  function Render(l: Line): string
    requires l.Header? || l.Entry?
  {
    match l
    case Header(name) => "[" + name + "]"
    case Entry(p, v) => p + v
  }

  /** Every header or entry the classifier produces is canonical. */
  lemma ClassifyCanonical(line: string)
    requires Classify(line).Header? || Classify(line).Entry?
    ensures Canonical(Classify(line))
  {
    if Classify(line).Entry? {
      StrippedEntryCanonical(StripComment(line));
    }
  }

  /** The entry made from a trimmed line that is not a header is canonical. */
  lemma StrippedEntryCanonical(t: string)
    requires ';' !in t && IsTrimmed(t) && ClassifyStripped(t).Entry?
    ensures Canonical(ClassifyStripped(t))
  {
    var idx := Find(t, '=').value;
    TrimKeepsEnds(t[idx..]);
    assert t[idx..][|t| - idx - 1] == t[|t| - 1];
    if idx > 0 {
      TrimKeepsEnds(t[..idx]);
      assert t[..idx][0] == t[0];
    }
  }

  /** Rendering a canonical header or entry and classifying the result gives
      it back: together with `ClassifyCanonical`, `Render` inverts `Classify`
      on every header and entry line. */
  lemma RenderRoundTrip(l: Line)
    requires Canonical(l)
    ensures Classify(Render(l)) == l
  {
    var line := Render(l);
    match l
    case Header(name) =>
      assert line[0] == '[' && line[|line| - 1] == ']';
      assert line[1..|line| - 1] == name;
      assert ';' !in line;
      ClassifyTrimmed(line);
    case Entry(p, v) =>
      EntryRoundTrip(p, v);
  }

  /** The entry half of `RenderRoundTrip`. */
  lemma EntryRoundTrip(p: string, v: string)
    requires Canonical(Entry(p, v))
    ensures Classify(p + v) == Entry(p, v)
  {
    var line := p + v;
    RenderedEntryShape(p, v);
    EntryLine(line, |p|);
    TrimTrimmed(p);
    TrimTrimmed(v);
  }

  /** The line `p + v` of a canonical entry is trimmed, has no comment, is
      not bracketed, and has its first `=` where `v` starts. */
  lemma RenderedEntryShape(p: string, v: string)
    requires Canonical(Entry(p, v))
    ensures var line := p + v;
      && ';' !in line && IsTrimmed(line)
      && line[|p|] == '=' && '=' !in line[..|p|]
      && !(line[0] == '[' && line[|line| - 1] == ']')
      && line[..|p|] == p && line[|p|..] == v
  {
    var line := p + v;
    assert line[..|p|] == p && line[|p|..] == v;
    if |p| > 0 {
      assert line[0] == p[0];
    }
    assert line[|line| - 1] == v[|v| - 1];
  }

  /** An empty or all-whitespace line is blank. */
  lemma WhitespaceLineIsBlank(line: string)
    requires AllSpace(line)
    ensures Classify(line) == Blank
  {
  }

  /** A line holding nothing but whitespace before a `;` is blank. */
  lemma CommentLineIsBlank(line: string, idx: nat)
    requires idx < |line| && line[idx] == ';'
    requires forall k :: 0 <= k < idx ==> IsSpace(line[k])
    ensures Classify(line) == Blank
  {
    var f := Find(line, ';').value;
    TrimEmpty(line[..f]);
  }

  /** Text from the first `;` on is a comment, and is cut off before trimming. */
  lemma CommentCut(line: string, idx: nat)
    requires idx < |line| && line[idx] == ';' && ';' !in line[..idx]
    ensures StripComment(line) == Trim(line[..idx])
  {
    assert Find(line, ';') == Some(idx);
  }

  /** Cutting the comment and trimming first changes nothing: every line
      reads as its stripped text. */
  lemma ClassifyStripFirst(line: string)
    ensures Classify(line) == Classify(StripComment(line))
  {
    var t := StripComment(line);
    if |t| > 0 {
      ClassifyTrimmed(t);
    }
  }

  /** A line reads as its text before the first `;`, trimmed: the comment
      does not change what the line is. */
  lemma CommentIgnored(line: string, idx: nat)
    requires idx < |line| && line[idx] == ';' && ';' !in line[..idx]
    ensures Classify(line) == Classify(Trim(line[..idx]))
  {
    ClassifyStripFirst(line);
    CommentCut(line, idx);
  }

  /** A trimmed line without comment that is bracketed on both ends is a
      header named by the text strictly inside the brackets, untrimmed and
      possibly empty; this holds even when that text contains an `=`. */
  lemma HeaderLine(line: string)
    requires ';' !in line && IsTrimmed(line)
    requires |line| >= 2 && line[0] == '[' && line[|line| - 1] == ']'
    ensures Classify(line) == Header(line[1..|line| - 1])
  {
    TrimTrimmed(line);
  }

  /** A trimmed line without comment that is not bracketed on both ends and
      has its first `=` at `idx` stores the trimmed text before the `=` as
      property and the trimmed text from the `=` on as value. */
  lemma EntryLine(line: string, idx: nat)
    requires ';' !in line && IsTrimmed(line)
    requires idx < |line| && line[idx] == '=' && '=' !in line[..idx]
    requires !(line[0] == '[' && line[|line| - 1] == ']')
    ensures Classify(line) == Entry(Trim(line[..idx]), Trim(line[idx..]))
  {
    ClassifyTrimmed(line);
    assert Find(line, '=') == Some(idx);
  }

  /** Only a line that contains `=` can store an entry. */
  lemma EntryNeedsEquals(line: string)
    requires '=' !in line
    ensures !Classify(line).Entry?
  {
  }

  /** The reader's state between lines: the current section and the map so far. */
  datatype State = State(section: string, entries: ConfigMap)

  /** Before any header, the section is `root` and the map is empty. */
  const Initial := State("root", map[])

  /** The effect of one classified line on the reader's state: a header
      switches the section, an entry is inserted under the current section,
      overwriting any earlier value, and anything else changes nothing. */
  function Apply(st: State, l: Line): (r: State)
    ensures l.Header? ==> r.section == l.name && r.entries == st.entries
    ensures l.Entry? ==> var k := Key(st.section, l.property);
      && r.section == st.section
      && r.entries.Keys == st.entries.Keys + {k} && r.entries[k] == l.value
      && forall k' :: k' in st.entries && k' != k ==> r.entries[k'] == st.entries[k']
    ensures !l.Header? && !l.Entry? ==> r == st
  {
    match l
    case Header(name) => State(name, st.entries)
    case Entry(p, v) => State(st.section, st.entries[Key(st.section, p) := v])
    case _ => st
  }

  /** No section name holds a `;`, and every stored entry is well formed. */
  ghost predicate Consistent(st: State)
  {
    && ';' !in st.section
    && forall k :: k in st.entries ==> ';' !in k.section && WellFormedEntry(k.property, st.entries[k])
  }

  /** The state after the classified lines `ls` have been applied, one by one,
      starting from `st`. */
  function Run(st: State, ls: seq<Line>): (r: State)
    ensures Consistent(st) && (forall i :: 0 <= i < |ls| ==> Produced(ls[i])) ==> Consistent(r)
    decreases |ls|
  {
    if |ls| == 0 then st
    else Apply(Run(st, ls[..|ls| - 1]), ls[|ls| - 1])
  }

  /** Each line classified. */
  function Classified(lines: seq<string>): (ls: seq<Line>)
    ensures |ls| == |lines|
    ensures forall i :: 0 <= i < |lines| ==> ls[i] == Classify(lines[i])
  {
    seq(|lines|, i requires 0 <= i < |lines| => Classify(lines[i]))
  }

  /** The map `read_to_map` returns for the given lines. */
  function ReadSpec(lines: seq<string>): ConfigMap
  {
    Run(Initial, Classified(lines)).entries
  }

  /** `ReadSpec` only depends on how each line is classified. */
  lemma ReadSpecOfClassified(lines: seq<string>, ls: seq<Line>)
    requires |ls| == |lines|
    requires forall i :: 0 <= i < |lines| ==> ls[i] == Classify(lines[i])
    ensures ReadSpec(lines) == Run(Initial, ls).entries
  {
    assert Classified(lines) == ls;
  }

  /** Each canonical line rendered. */
  function RenderAll(ls: seq<Line>): seq<string>
    requires forall i :: 0 <= i < |ls| ==> Canonical(ls[i])
  {
    seq(|ls|, i requires 0 <= i < |ls| && Canonical(ls[i]) => Render(ls[i]))
  }

  /** Reading rendered canonical lines applies exactly those lines. */
  lemma ReadRendered(ls: seq<Line>)
    requires forall i :: 0 <= i < |ls| ==> Canonical(ls[i])
    ensures ReadSpec(RenderAll(ls)) == Run(Initial, ls).entries
  {
    var lines := RenderAll(ls);
    forall i | 0 <= i < |ls| ensures ls[i] == Classify(lines[i]) {
      RenderRoundTrip(ls[i]);
    }
    ReadSpecOfClassified(lines, ls);
  }

  /** The section in force when line `i` is read. */
  function SectionAt(ls: seq<Line>, i: nat): string
    requires i <= |ls|
  {
    Run(Initial, ls[..i]).section
  }

  /** `read_to_map`: the source's loop over the lines, with its early `continue`s. */
  method ReadToMap(lines: seq<string>) returns (m: ConfigMap)
    ensures m == ReadSpec(lines)
  {
    ghost var ls := Classified(lines);
    var section := "root";
    m := map[];
    for i := 0 to |lines|
      invariant Run(Initial, ls[..i]) == State(section, m)
    {
      assert ls[..i + 1][..i] == ls[..i];
      assert Run(Initial, ls[..i + 1]) == Apply(State(section, m), ls[i]);
      var line := lines[i];
      if |line| == 0 || IsWhitespace(line) {
        assert ls[i] == Blank;
        continue;
      }
      var t := StripComment(line);
      assert ls[i] == ClassifyStripped(t);
      if |t| == 0 {
        continue;
      }
      if t[0] == '[' && t[|t| - 1] == ']' {
        section := t[1..|t| - 1];
        continue;
      }
      var eq := Find(t, '=');
      if eq.Some? {
        var idx := eq.value;
        m := m[Key(section, Trim(t[..idx])) := Trim(t[idx..])];
      }
    }
    assert ls[..|lines|] == ls;
  }

  /** Every stored entry is well formed, and no section name holds a `;`:
      no property or value contains `;`, no property contains `=`, and every
      value starts with `=`. */
  lemma StoredEntriesWellFormed(lines: seq<string>, k: Key)
    requires k in ReadSpec(lines)
    ensures ';' !in k.section && ';' !in k.property && '=' !in k.property
    ensures ';' !in ReadSpec(lines)[k] && |ReadSpec(lines)[k]| > 0 && ReadSpec(lines)[k][0] == '='
  {
    var ls := Classified(lines);
    assert forall i :: 0 <= i < |ls| ==> Produced(ls[i]);
    assert Consistent(Initial);
  }

  /** Applying `a` and then `b` is applying `a + b`. */
  lemma {:induction false} RunAppend(st: State, a: seq<Line>, b: seq<Line>)
    ensures Run(st, a + b) == Run(Run(st, a), b)
    decreases |b|
  {
    if |b| == 0 {
      assert a + b == a;
    } else {
      assert (a + b)[..|a + b| - 1] == a + b[..|b| - 1];
      RunAppend(st, a, b[..|b| - 1]);
    }
  }

  /** A blank, comment-only or unrecognized line, wherever it stands, adds no
      entry and leaves the section in force as it was: the state after all
      lines is the same as without it. */
  lemma SkippedLine(st: State, a: seq<Line>, l: Line, b: seq<Line>)
    requires l == Blank || l == Unrecognized
    ensures Run(st, a + [l] + b) == Run(st, a + b)
  {
    RunAppend(st, a + [l], b);
    RunAppend(st, a, b);
    RunAppend(st, a, [l]);
    assert [l][..0] == [];
  }

  /** Line `i` stores a value for property `k.property` while section
      `k.section` is in force. */
  predicate WritesAt(ls: seq<Line>, i: nat, k: Key)
    requires i < |ls|
  {
    ls[i].Entry? && ls[i].property == k.property && SectionAt(ls, i) == k.section
  }

  /** The section in force at a line does not depend on the lines after it. */
  lemma SectionAtPrefix(ls: seq<Line>, n: nat, i: nat)
    requires i <= n <= |ls|
    ensures SectionAt(ls[..n], i) == SectionAt(ls, i)
  {
    assert ls[..n][..i] == ls[..i];
  }

  /** A key is in the map exactly when some line writes it. */
  lemma {:induction false} KeyOrigin(ls: seq<Line>, k: Key)
    ensures k in Run(Initial, ls).entries <==> exists i :: 0 <= i < |ls| && WritesAt(ls, i, k)
    decreases |ls|
  {
    if |ls| > 0 {
      var n := |ls| - 1;
      var pre := ls[..n];
      KeyOrigin(pre, k);
      forall i | 0 <= i < n
        ensures WritesAt(pre, i, k) <==> WritesAt(ls, i, k)
      {
        SectionAtPrefix(ls, n, i);
      }
      if k in Run(Initial, ls).entries && !WritesAt(ls, n, k) {
        var i :| 0 <= i < n && WritesAt(pre, i, k);
        assert WritesAt(ls, i, k);
      }
      if exists i :: 0 <= i < |ls| && WritesAt(ls, i, k) {
        var i :| 0 <= i < |ls| && WritesAt(ls, i, k);
        if i < n {
          assert WritesAt(pre, i, k);
        }
      }
    }
  }

  /** Last write wins: the value stored for a key is the value of the last
      line that writes it. A reopened section merges with the earlier one,
      since keys compare section names by content. */
  lemma {:induction false} LastWriteWins(ls: seq<Line>, i: nat, k: Key)
    requires i < |ls| && WritesAt(ls, i, k)
    requires forall j :: i < j < |ls| ==> !WritesAt(ls, j, k)
    ensures k in Run(Initial, ls).entries && Run(Initial, ls).entries[k] == ls[i].value
    decreases |ls|
  {
    var n := |ls| - 1;
    var pre := ls[..n];
    assert Run(Initial, ls) == Apply(Run(Initial, pre), ls[n]);
    assert !WritesAt(ls, n, k) || i == n;
    if i < n {
      SectionAtPrefix(ls, n, i);
      forall j | i < j < n ensures !WritesAt(pre, j, k) {
        SectionAtPrefix(ls, n, j);
        assert !WritesAt(ls, j, k);
      }
      LastWriteWins(pre, i, k);
    }
  }

  /** Until the first header, the section in force is `root`. */
  lemma {:induction false} RootSection(ls: seq<Line>, i: nat)
    requires i <= |ls|
    requires forall j :: 0 <= j < i ==> !ls[j].Header?
    ensures SectionAt(ls, i) == "root"
    decreases i
  {
    if i > 0 {
      RootSection(ls, i - 1);
      assert ls[..i][..i - 1] == ls[..i - 1];
    }
  }

  /** After a header, and until the next one, the section in force is the
      header's name. */
  lemma {:induction false} SectionFromHeader(ls: seq<Line>, h: nat, i: nat)
    requires h < i <= |ls| && ls[h].Header?
    requires forall j :: h < j < i ==> !ls[j].Header?
    ensures SectionAt(ls, i) == ls[h].name
    decreases i
  {
    assert ls[..i][..i - 1] == ls[..i - 1];
    if i - 1 > h {
      SectionFromHeader(ls, h, i - 1);
    }
  }
}
