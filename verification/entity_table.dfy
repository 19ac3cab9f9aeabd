/** `ParseEntities`: the reverse entity table, definition to key, read from the
    text of the document type declaration. */
module Entities {
  import opened Wrappers
  import opened Lines
  import opened EntityRegex

  /** The lines the builder keeps: those starting with `<!ENTITY`. */
  predicate IsDeclaration(line: string)
  {
    "<!ENTITY" <= line
  }

  /** `match.Groups["key"].Value`: the key group, or the empty text when the
      line does not match. */
  function KeyGroup(line: string): (r: string)
    ensures r == [] <==> MatchEntity(line).None?
    ensures forall i :: 0 <= i < |r| ==> r[i] != '\n'
  {
    match MatchEntity(line)
    case Some(m) => Key(line, m)
    case None => ""
  }

  /** `match.Groups["definition"].Value`: the definition group, or the empty
      text when the line does not match. */
  function DefinitionGroup(line: string): (r: string)
    ensures r == [] <==> MatchEntity(line).None?
  {
    match MatchEntity(line)
    case Some(m) => Definition(line, m)
    case None => ""
  }

  /** What the loop reads from a line: its definition group and its key group. */
  function Groups(line: string): (string, string)
  {
    (DefinitionGroup(line), KeyGroup(line))
  }

  /** The table after the loop has seen `lines`: one write per declaration
      line, in order, of the definition read from it to the key read from it.
      `groups` is how the two are read from a line; the builder uses `Groups`. */
  function TableOf(lines: seq<string>, groups: string -> (string, string)): map<string, string>
  {
    if lines == [] then map[]
    else
      var before := TableOf(lines[..|lines| - 1], groups);
      var line := lines[|lines| - 1];
      if IsDeclaration(line) then before[groups(line).0 := groups(line).1] else before
  }

  /** The table built from the document type text. */
  function EntityTable(dtd: string): map<string, string>
  {
    TableOf(Split(dtd), Groups)
  }

  /** `ParseEntities(dtd)`: split the text on line feeds, keep the declaration
      lines, and write definition to key for each, a later write replacing an
      earlier one. */
  method ParseEntities(dtd: string) returns (entities: map<string, string>)
    ensures entities == EntityTable(dtd)
  {
    var lines := Split(dtd);
    entities := map[];
    for i := 0 to |lines|
      invariant entities == TableOf(lines[..i], Groups)
    {
      var line := lines[i];
      if IsDeclaration(line) {
        var key := KeyGroup(line);
        var definition := DefinitionGroup(line);
        entities := entities[definition := key];
      }
      assert lines[..i + 1][..i] == lines[..i];
    }
    assert lines[..|lines|] == lines;
  }

  /** Line `i` is a declaration line whose definition is `d`. */
  predicate Writes(lines: seq<string>, groups: string -> (string, string), i: int, d: string)
  {
    0 <= i < |lines| && IsDeclaration(lines[i]) && groups(lines[i]).0 == d
  }

  /** Line `i` is the last line that writes `d`. */
  ghost predicate LastWrite(lines: seq<string>, groups: string -> (string, string), i: int, d: string)
  {
    Writes(lines, groups, i, d) && forall j :: i < j ==> !Writes(lines, groups, j, d)
  }

  /** Only declaration lines write: a definition is in the table exactly when
      some declaration line has it as its definition. */
  lemma {:induction false} TableDomain(lines: seq<string>, groups: string -> (string, string), d: string)
    ensures d in TableOf(lines, groups) <==> exists i :: Writes(lines, groups, i, d)
  {
    if lines != [] {
      var n := |lines| - 1;
      var front := lines[..n];
      if Writes(lines, groups, n, d) {
        assert d in TableOf(lines, groups);
      } else {
        assert d in TableOf(lines, groups) <==> d in TableOf(front, groups);
        TableDomain(front, groups, d);
        if d in TableOf(front, groups) {
          var i :| Writes(front, groups, i, d);
          assert front[i] == lines[i];
          assert Writes(lines, groups, i, d);
        }
        if exists i :: Writes(lines, groups, i, d) {
          var i :| Writes(lines, groups, i, d);
          assert front[i] == lines[i];
          assert Writes(front, groups, i, d);
        }
      }
    }
  }

  /** Last write wins: the table maps `d` to the key of the last declaration
      line that writes `d`. */
  lemma {:induction false} LastWriteWins(lines: seq<string>, groups: string -> (string, string), i: int, d: string)
    requires LastWrite(lines, groups, i, d)
    ensures d in TableOf(lines, groups) && TableOf(lines, groups)[d] == groups(lines[i]).1
  {
    var n := |lines| - 1;
    if i < n {
      var front := lines[..n];
      assert !Writes(lines, groups, n, d);
      assert front[i] == lines[i];
      forall j | i < j
        ensures !Writes(front, groups, j, d)
      {
        if j < n {
          assert front[j] == lines[j];
          assert !Writes(lines, groups, j, d);
        }
      }
      LastWriteWins(front, groups, i, d);
    }
  }

  /** Every entry of the table comes from a last write by a declaration line. */
  lemma {:induction false} EntryHasLastWriter(lines: seq<string>, groups: string -> (string, string), d: string)
    requires d in TableOf(lines, groups)
    ensures exists i :: LastWrite(lines, groups, i, d) && TableOf(lines, groups)[d] == groups(lines[i]).1
  {
    var n := |lines| - 1;
    if Writes(lines, groups, n, d) {
      assert LastWrite(lines, groups, n, d);
    } else {
      var front := lines[..n];
      EntryHasLastWriter(front, groups, d);
      var i :| LastWrite(front, groups, i, d) && TableOf(front, groups)[d] == groups(front[i]).1;
      assert front[i] == lines[i];
      forall j | i < j
        ensures !Writes(lines, groups, j, d)
      {
        if j < n {
          assert front[j] == lines[j];
          assert !Writes(front, groups, j, d);
        }
      }
      assert LastWrite(lines, groups, i, d);
    }
  }

  /** A declaration line the pattern does not match is not skipped: it writes
      the empty definition with the empty key. The empty definition is in the
      table exactly when some declaration line fails to match, and then maps to
      the empty key. */
  lemma MalformedDeclarationWritesEmpty(lines: seq<string>)
    ensures "" in TableOf(lines, Groups) <==>
              exists i :: 0 <= i < |lines| && IsDeclaration(lines[i]) && MatchEntity(lines[i]).None?
    ensures "" in TableOf(lines, Groups) ==> TableOf(lines, Groups)[""] == ""
  {
    TableDomain(lines, Groups, "");
    if "" in TableOf(lines, Groups) {
      EntryHasLastWriter(lines, Groups, "");
      var i :| LastWrite(lines, Groups, i, "") && TableOf(lines, Groups)[""] == Groups(lines[i]).1;
      assert MatchEntity(lines[i]).None?;
    }
    if exists i :: 0 <= i < |lines| && IsDeclaration(lines[i]) && MatchEntity(lines[i]).None? {
      var i :| 0 <= i < |lines| && IsDeclaration(lines[i]) && MatchEntity(lines[i]).None?;
      assert Writes(lines, Groups, i, "");
    }
  }

  /** Round trip: the declaration `<!ENTITY key "definition">` puts
      definition -> key in the table unless a later line writes the same
      definition. */
  lemma DeclarationInTable(lines: seq<string>, i: int, key: string, definition: string)
    requires 0 <= i < |lines| && lines[i] == Declaration(key, definition)
    requires key != [] && definition != []
    requires '\n' !in key && '\n' !in definition
    requires !HasSeparator(definition)
    requires forall j :: i < j ==> !Writes(lines, Groups, j, definition)
    ensures definition in TableOf(lines, Groups) && TableOf(lines, Groups)[definition] == key
  {
    DeclarationRoundTrip(key, definition);
    assert Declaration(key, definition)[..8] == "<!ENTITY";
    assert Groups(lines[i]) == (definition, key);
    assert Writes(lines, Groups, i, definition);
    LastWriteWins(lines, Groups, i, definition);
  }

  /** The same round trip stated on the document type text: the lines are
      joined with line feeds and split again by the builder. */
  lemma DoctypeRoundTrip(lines: seq<string>, i: int, key: string, definition: string)
    requires forall line :: line in lines ==> '\n' !in line
    requires 0 <= i < |lines| && lines[i] == Declaration(key, definition)
    requires key != [] && definition != []
    requires !HasSeparator(definition)
    requires forall j :: i < j ==> !Writes(lines, Groups, j, definition)
    ensures definition in EntityTable(Join(lines)) && EntityTable(Join(lines))[definition] == key
  {
    SplitJoin(lines);
    assert '\n' !in Declaration(key, definition);
    assert forall c :: c in key ==> c in Declaration(key, definition);
    assert forall c :: c in definition ==> c in Declaration(key, definition);
    DeclarationInTable(lines, i, key, definition);
  }
}
