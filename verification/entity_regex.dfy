/** The entity declaration pattern `<!ENTITY (?<key>.+) "(?<definition>.+)">`,
    matched the way a backtracking regular expression engine does: the leftmost
    start, then the longest key that still admits a definition, then the longest
    definition. `.` matches every character but the line feed, and nothing is
    anchored: text may follow the closing `">`. */
module EntityRegex {
  import opened Wrappers

  /** Where a match lies in the line: it starts with `<!ENTITY ` (9 characters)
      at `start`, the key runs from `start + 9` to `keyEnd`, the separator ` "`
      follows, the definition runs from `keyEnd + 2` to `definitionEnd`, and
      `">` follows. */
  datatype Match = Match(start: int, keyEnd: int, definitionEnd: int)

  /** No line feed in `line[lo..hi]`: every character there is matched by `.`. */
  predicate Dots(line: string, lo: int, hi: int)
    requires 0 <= lo <= hi <= |line|
  {
    forall i :: lo <= i < hi ==> line[i] != '\n'
  }

  /** The pattern matches `line` with the given start, key end and definition end;
      both groups are non-empty (`.+`). */
  predicate MatchesAt(line: string, p: int, k: int, j: int)
  {
    0 <= p && p + 10 <= k && k + 3 <= j && j + 2 <= |line| &&
    line[p..p + 9] == "<!ENTITY " && line[k..k + 2] == " \"" && line[j..j + 2] == "\">" &&
    Dots(line, p + 9, k) && Dots(line, k + 2, j)
  }

  /** The match the engine reports: no match starts further left, no longer key
      works from this start, and no longer definition works after this key. */
  ghost predicate LeftmostGreedy(line: string, m: Match)
  {
    MatchesAt(line, m.start, m.keyEnd, m.definitionEnd) &&
    (forall p, k, j :: p < m.start ==> !MatchesAt(line, p, k, j)) &&
    (forall k, j :: m.keyEnd < k ==> !MatchesAt(line, m.start, k, j)) &&
    (forall j :: m.definitionEnd < j ==> !MatchesAt(line, m.start, m.keyEnd, j))
  }

  /** The longest definition ending at or before `j`, for a fixed start and key end. */
  function LastDefinitionEnd(line: string, p: int, k: int, j: int): (r: Option<int>)
    ensures r.Some? ==> r.value <= j && MatchesAt(line, p, k, r.value)
    ensures forall j' :: r.Some? && r.value < j' <= j ==> !MatchesAt(line, p, k, j')
    ensures forall j' :: r.None? && j' <= j ==> !MatchesAt(line, p, k, j')
    decreases j - k
  {
    if j < k + 3 then None
    else if MatchesAt(line, p, k, j) then Some(j)
    else LastDefinitionEnd(line, p, k, j - 1)
  }

  /** The longest key ending at or before `k` that admits a definition, for a fixed
      start, with the longest definition after it. */
  function LastKeyEnd(line: string, p: int, k: int): (r: Option<(int, int)>)
    ensures r.Some? ==> r.value.0 <= k && MatchesAt(line, p, r.value.0, r.value.1)
    ensures r.Some? ==> forall j :: r.value.1 < j ==> !MatchesAt(line, p, r.value.0, j)
    ensures forall k', j :: r.Some? && r.value.0 < k' <= k ==> !MatchesAt(line, p, k', j)
    ensures forall k', j :: r.None? && k' <= k ==> !MatchesAt(line, p, k', j)
    decreases k - p
  {
    if k < p + 10 then None
    else
      match LastDefinitionEnd(line, p, k, |line| - 2)
      case Some(j) => Some((k, j))
      case None => LastKeyEnd(line, p, k - 1)
  }

  /** The leftmost start at or after `p` where the pattern matches, with its
      greedy groups. */
  function FirstStart(line: string, p: nat): (r: Option<Match>)
    ensures r.Some? ==> p <= r.value.start && MatchesAt(line, r.value.start, r.value.keyEnd, r.value.definitionEnd)
    ensures r.Some? ==> forall k, j :: r.value.keyEnd < k ==> !MatchesAt(line, r.value.start, k, j)
    ensures r.Some? ==> forall j :: r.value.definitionEnd < j ==> !MatchesAt(line, r.value.start, r.value.keyEnd, j)
    ensures forall p', k, j :: p <= p' && (r.Some? ==> p' < r.value.start) ==> !MatchesAt(line, p', k, j)
    decreases |line| - p
  {
    if |line| < p + 9 then None
    else
      match LastKeyEnd(line, p, |line|)
      case Some((k, j)) => Some(Match(p, k, j))
      case None => FirstStart(line, p + 1)
  }

  /** `EntityRegex().Match(line)`: the match the engine finds, or none. */
  function MatchEntity(line: string): (r: Option<Match>)
    ensures r.Some? ==> LeftmostGreedy(line, r.value)
    ensures r.None? <==> forall p, k, j :: !MatchesAt(line, p, k, j)
  {
    FirstStart(line, 0)
  }

  /** The `key` group of a match. */
  function Key(line: string, m: Match): (r: string)
    requires MatchesAt(line, m.start, m.keyEnd, m.definitionEnd)
    ensures r != [] && forall i :: 0 <= i < |r| ==> r[i] != '\n'
  {
    line[m.start + 9..m.keyEnd]
  }

  /** The `definition` group of a match. */
  function Definition(line: string, m: Match): (r: string)
    requires MatchesAt(line, m.start, m.keyEnd, m.definitionEnd)
    ensures r != []
  {
    line[m.keyEnd + 2..m.definitionEnd]
  }

  /** The declaration line `<!ENTITY key "definition">`. */
  function Declaration(key: string, definition: string): string
  {
    "<!ENTITY " + key + " \"" + definition + "\">"
  }

  /** `s` contains the separator ` "`. */
  predicate HasSeparator(s: string)
  {
    exists i :: 0 <= i < |s| - 1 && s[i] == ' ' && s[i + 1] == '"'
  }

  /** Round trip: a well-formed declaration gives back its key and definition,
      provided the definition has no ` "` in it (the key is greedy and would
      otherwise run on into the definition). */
  lemma DeclarationRoundTrip(key: string, definition: string)
    requires key != [] && definition != []
    requires '\n' !in key && '\n' !in definition
    requires !HasSeparator(definition)
    ensures MatchEntity(Declaration(key, definition)).Some?
    ensures Key(Declaration(key, definition), MatchEntity(Declaration(key, definition)).value) == key
    ensures Definition(Declaration(key, definition), MatchEntity(Declaration(key, definition)).value) == definition
  {
    var line := Declaration(key, definition);
    var kEnd := 9 + |key|;
    var dEnd := kEnd + 2 + |definition|;
    assert |line| == dEnd + 2;
    assert line[..9] == "<!ENTITY ";
    assert line[9..kEnd] == key;
    assert line[kEnd..kEnd + 2] == " \"";
    assert line[kEnd + 2..dEnd] == definition;
    assert line[dEnd..dEnd + 2] == "\">";
    assert forall i :: 9 <= i < kEnd ==> line[i] == key[i - 9];
    assert forall i :: kEnd + 2 <= i < dEnd ==> line[i] == definition[i - kEnd - 2];
    assert MatchesAt(line, 0, kEnd, dEnd);
    var m := MatchEntity(line).value;
    assert m.start == 0;
    assert m.definitionEnd <= |line| - 2;
    forall k, j | kEnd < k
      ensures !MatchesAt(line, 0, k, j)
    {
      if k + 1 < |line| {
        NoSeparatorAfterKey(key, definition, k);
      }
    }
    assert m.keyEnd == kEnd;
    assert m.definitionEnd == dEnd;
  }

  /** In a declaration whose definition has no ` "`, the only ` "` followed by
      room for a definition and `">` is the one right after the key. */
  lemma NoSeparatorAfterKey(key: string, definition: string, k: int)
    requires !HasSeparator(definition)
    requires 9 + |key| < k && k + 1 < |Declaration(key, definition)|
    ensures k + 5 <= |Declaration(key, definition)| ==>
              !(Declaration(key, definition)[k] == ' ' && Declaration(key, definition)[k + 1] == '"')
  {
    var line := Declaration(key, definition);
    var kEnd := 9 + |key|;
    if k + 5 <= |line| {
      if k == kEnd + 1 {
        assert line[k] == '"';
      } else {
        var i := k - kEnd - 2;
        assert line[k] == definition[i] && line[k + 1] == definition[i + 1];
        assert !(definition[i] == ' ' && definition[i + 1] == '"');
      }
    }
  }

  /** A line with `"/>` in place of `">` and no other `>`: nowhere is `"` followed by `>`. */
  lemma NoClosingQuote(key: string, definition: string, j: int)
    requires '>' !in key && '>' !in definition
    requires 0 <= j && j + 1 < |"<!ENTITY " + key + " \"" + definition + "\"/>"|
    ensures var line := "<!ENTITY " + key + " \"" + definition + "\"/>";
            !(line[j] == '"' && line[j + 1] == '>')
  {
    var line := "<!ENTITY " + key + " \"" + definition + "\"/>";
    var kEnd := 9 + |key|;
    var dEnd := kEnd + 2 + |definition|;
    if j + 1 < 9 {
      assert line[j + 1] == "<!ENTITY "[j + 1];
    } else if j + 1 < kEnd {
      assert line[j + 1] == key[j + 1 - 9];
    } else if j + 1 < kEnd + 2 {
      assert line[j + 1] == " \""[j + 1 - kEnd];
    } else if j + 1 < dEnd {
      assert line[j + 1] == definition[j + 1 - kEnd - 2];
    } else if j + 1 < dEnd + 2 {
      assert line[j + 1] == "\"/>"[j + 1 - dEnd];
    } else {
      assert line[j] == '/';
    }
  }

  /** A declaration closed with `"/>` has no `">` and does not match. */
  lemma SelfClosingDeclarationFails(key: string, definition: string)
    requires '>' !in key && '>' !in definition
    ensures MatchEntity("<!ENTITY " + key + " \"" + definition + "\"/>").None?
  {
    var line := "<!ENTITY " + key + " \"" + definition + "\"/>";
    forall p, k, j
      ensures !MatchesAt(line, p, k, j)
    {
      if 0 <= j && j + 1 < |line| {
        NoClosingQuote(key, definition, j);
      }
    }
  }
}
