/** The script library (core/src/python_library/mod.rs): scripts found under a root
    directory, each described by `# @name` / `# @description` comment lines near its top,
    keyed by their path relative to the root and grouped by their directory. The directory
    walk and file reads are replaced by the entries they produce. */
module PythonLibrary {
  import opened Wrappers
  import opened LastWins
  import Graphs

  datatype PythonScript = PythonScript(name: string, description: string, relativePath: string, category: string)

  /** Rust's `char::is_whitespace`: the Unicode White_Space property. */
  predicate IsWhitespace(c: char) {
    || ('\U{0009}' <= c <= '\U{000D}') || c == ' ' || c == '\U{0085}' || c == '\U{00A0}'
    || c == '\U{1680}' || ('\U{2000}' <= c <= '\U{200A}') || c == '\U{2028}' || c == '\U{2029}'
    || c == '\U{202F}' || c == '\U{205F}' || c == '\U{3000}'
  }

  /** The number of white-space characters `s` starts with. */
  function LeadingSpace(s: string): (n: nat)
    ensures n <= |s|
  {
    if |s| > 0 && IsWhitespace(s[0]) then LeadingSpace(s[1..]) + 1 else 0
  }

  /** The number of white-space characters `s` ends with. */
  function TrailingSpace(s: string): (n: nat)
    ensures n <= |s|
  {
    if |s| > 0 && IsWhitespace(s[|s| - 1]) then TrailingSpace(s[..|s| - 1]) + 1 else 0
  }

  /** `LeadingSpace` counts the white space in front, up to the first other character. */
  lemma {:induction false} LeadingSpaceSpec(s: string)
    ensures var n := LeadingSpace(s);
      && (forall k | 0 <= k < n :: IsWhitespace(s[k]))
      && (n < |s| ==> !IsWhitespace(s[n]))
  {
    if |s| > 0 && IsWhitespace(s[0]) {
      LeadingSpaceSpec(s[1..]);
      assert forall k | 1 <= k < |s| :: s[k] == s[1..][k - 1];
    }
  }

  /** `TrailingSpace` counts the white space at the end, back to the last other
      character. */
  lemma {:induction false} TrailingSpaceSpec(s: string)
    ensures var n := TrailingSpace(s);
      && (forall k | |s| - n <= k < |s| :: IsWhitespace(s[k]))
      && (n < |s| ==> !IsWhitespace(s[|s| - n - 1]))
  {
    if |s| > 0 && IsWhitespace(s[|s| - 1]) {
      TrailingSpaceSpec(s[..|s| - 1]);
      assert forall k | 0 <= k < |s| - 1 :: s[k] == s[..|s| - 1][k];
    }
  }

  /** `trim`: `trim_start`, then `trim_end`. */
  function Trim(s: string): string {
    var front := s[LeadingSpace(s)..];
    front[..|front| - TrailingSpace(front)]
  }

  /** The trimmed line is the part of the line after its leading white space. */
  lemma TrimSlice(s: string)
    ensures var i, t := LeadingSpace(s), Trim(s); i + |t| <= |s| && s[i..i + |t|] == t
  {
  }

  /** What `trim` removes in front is white space, and the trimmed line does not start
      with white space. */
  lemma TrimFront(s: string)
    ensures var i, t := LeadingSpace(s), Trim(s);
      && (forall k | 0 <= k < i :: IsWhitespace(s[k]))
      && (|t| > 0 ==> !IsWhitespace(t[0]))
  {
    LeadingSpaceSpec(s);
    var t := Trim(s);
    if |t| > 0 {
      assert t[0] == s[LeadingSpace(s)];
    }
  }

  /** What `trim` removes at the end is white space, and the trimmed line does not end
      with white space. */
  lemma TrimBack(s: string)
    ensures var i, t := LeadingSpace(s), Trim(s);
      && (forall k | i + |t| <= k < |s| :: IsWhitespace(s[k]))
      && (|t| > 0 ==> !IsWhitespace(t[|t| - 1]))
  {
    var i := LeadingSpace(s);
    var front := s[i..];
    var n := TrailingSpace(front);
    var t := Trim(s);
    TrailingSpaceSpec(front);
    forall k | i + |t| <= k < |s|
      ensures IsWhitespace(s[k])
    {
      assert s[k] == front[k - i];
    }
    if |t| > 0 {
      assert t[|t| - 1] == front[|front| - n - 1];
    }
  }

  /** The trimmed line is the line with the white space on either side removed, and it
      neither starts nor ends with white space. */
  lemma TrimSpec(s: string)
    ensures var i, t := LeadingSpace(s), Trim(s);
      && i + |t| <= |s| && s[i..i + |t|] == t
      && (forall k | 0 <= k < i :: IsWhitespace(s[k]))
      && (forall k | i + |t| <= k < |s| :: IsWhitespace(s[k]))
      && (|t| > 0 ==> !IsWhitespace(t[0]) && !IsWhitespace(t[|t| - 1]))
  {
    TrimSlice(s);
    TrimFront(s);
    TrimBack(s);
  }

  /** `s` does not contain `c`. */
  predicate Free(s: string, c: char) {
    forall k | 0 <= k < |s| :: s[k] != c
  }

  /** The index of the first '\n' of `s`, or |s| when there is none. */
  function LineBreak(s: string): (i: nat)
    ensures i <= |s| && forall k | 0 <= k < i :: s[k] != '\n'
    ensures i < |s| ==> s[i] == '\n'
  {
    if |s| == 0 || s[0] == '\n' then 0 else LineBreak(s[1..]) + 1
  }

  /** The line without the '\r' of a "\r\n" ending. */
  function StripCr(line: string): string {
    if |line| > 0 && line[|line| - 1] == '\r' then line[..|line| - 1] else line
  }

  /** `str::lines`: the text split at each '\n', a '\r' just before the '\n' dropped, and
      no empty line after a final '\n'. */
  function Lines(s: string): seq<string>
    decreases |s|
  {
    if |s| == 0 then []
    else
      var i := LineBreak(s);
      if i == |s| then [s]
      else [StripCr(s[..i])] + Lines(s[i + 1..])
  }

  /** No line contains '\n'. */
  lemma {:induction false} LinesUnbroken(s: string)
    ensures forall j | 0 <= j < |Lines(s)| :: Free(Lines(s)[j], '\n')
    decreases |s|
  {
    if |s| > 0 && LineBreak(s) < |s| {
      var i := LineBreak(s);
      LinesUnbroken(s[i + 1..]);
      assert Free(StripCr(s[..i]), '\n');
      assert forall j | 1 <= j < |Lines(s)| :: Lines(s)[j] == Lines(s[i + 1..])[j - 1];
    }
  }

  /** The lines joined back, each followed by '\n'. */
  function Unlines(lines: seq<string>): string {
    if |lines| == 0 then "" else lines[0] + "\n" + Unlines(lines[1..])
  }

  /** Text without '\r' that has a '\n' splits into the line before it and the lines
      after it. */
  lemma LinesStep(s: string)
    requires Free(s, '\r') && LineBreak(s) < |s|
    ensures var i := LineBreak(s); Lines(s) == [s[..i]] + Lines(s[i + 1..])
  {
    var i := LineBreak(s);
    assert i > 0 ==> s[..i][i - 1] == s[i - 1];
  }

  /** Text with a final '\n' added unless it ends with one already (or is empty). */
  function Terminated(s: string): string {
    if |s| == 0 || s[|s| - 1] == '\n' then s else s + "\n"
  }

  /** Terminating the text after a line is terminating the text as a whole. */
  lemma TerminatedAfterLine(line: string, rest: string)
    ensures line + "\n" + Terminated(rest) == Terminated(line + "\n" + rest)
  {
    var s := line + "\n" + rest;
    if |rest| > 0 {
      assert s[|s| - 1] == rest[|rest| - 1];
      assert s + "\n" == line + "\n" + (rest + "\n");
    }
  }

  /** For text without '\r', joining the lines gives the text back, with a final '\n'
      added when it lacked one. */
  lemma {:induction false} LinesRoundTrip(s: string)
    requires Free(s, '\r')
    ensures Unlines(Lines(s)) == Terminated(s)
    decreases |s|
  {
    if |s| > 0 && LineBreak(s) < |s| {
      var i := LineBreak(s);
      var rest := s[i + 1..];
      assert Free(rest, '\r') by {
        assert forall k | 0 <= k < |rest| :: rest[k] == s[i + 1 + k];
      }
      LinesStep(s);
      LinesRoundTrip(rest);
      assert Unlines(Lines(s)) == s[..i] + "\n" + Terminated(rest);
      TerminatedAfterLine(s[..i], rest);
      assert s == s[..i] + "\n" + rest;
    }
  }

  /** The prefix of a metadata line for `key`. */
  function MetaPrefix(key: string): string {
    "# @" + key + " "
  }

  /** The line, trimmed, starts with the prefix. */
  predicate Tagged(line: string, prefix: string) {
    prefix <= Trim(line)
  }

  /** The index of the first tagged line, |lines| when no line is tagged. */
  function FirstTagged(lines: seq<string>, prefix: string): (i: nat)
    ensures i <= |lines| && (i < |lines| ==> Tagged(lines[i], prefix))
    ensures forall j | 0 <= j < i :: !Tagged(lines[j], prefix)
  {
    if |lines| == 0 || Tagged(lines[0], prefix) then 0
    else
      var i := FirstTagged(lines[1..], prefix);
      assert forall j | 1 <= j <= i :: lines[j] == lines[1..][j - 1];
      i + 1
  }

  /** `find_map` over trimmed lines: the remainder of the first line that starts with the
      prefix once trimmed. */
  function FindMeta(lines: seq<string>, prefix: string): Option<string> {
    if |lines| == 0 then None
    else
      var line := Trim(lines[0]);
      if prefix <= line then Some(line[|prefix|..]) else FindMeta(lines[1..], prefix)
  }

  /** The search finds the first tagged line, and nothing when no line is tagged. */
  lemma {:induction false} FindMetaFirst(lines: seq<string>, prefix: string)
    ensures var i := FirstTagged(lines, prefix);
      FindMeta(lines, prefix) == if i == |lines| then None else Some(Trim(lines[i])[|prefix|..])
  {
    if |lines| > 0 && !Tagged(lines[0], prefix) {
      FindMetaFirst(lines[1..], prefix);
      assert lines[1..][FirstTagged(lines[1..], prefix)..] == lines[FirstTagged(lines, prefix)..];
    }
  }

  /** `lines().take(30)`: the first 30 lines, or all of them when there are fewer. */
  function FirstLines(content: string): (first: seq<string>)
    ensures |first| == if |Lines(content)| < 30 then |Lines(content)| else 30
    ensures first == Lines(content)[..|first|]
  {
    var lines := Lines(content);
    if |lines| < 30 then lines else lines[..30]
  }

  /** `parse_meta`: the value of the first `# @<key> ` line among the first 30 lines of the
      content, None when those lines have none. */
  function ParseMeta(content: string, key: string): (r: Option<string>)
    ensures var first, prefix := FirstLines(content), MetaPrefix(key);
      var i := FirstTagged(first, prefix);
      && (r.None? <==> i == |first|)
      && (r.Some? ==> r.value == Trim(first[i])[|prefix|..])
  {
    FindMetaFirst(FirstLines(content), MetaPrefix(key));
    FindMeta(FirstLines(content), MetaPrefix(key))
  }

  /** `replace('\\', "/")`. */
  function Slashes(s: string): (t: string)
    ensures |t| == |s| && '\\' !in t
    ensures forall i | 0 <= i < |s| && s[i] != '\\' :: t[i] == s[i]
  {
    if |s| == 0 then ""
    else [if s[0] == '\\' then '/' else s[0]] + Slashes(s[1..])
  }

  /** What the walk reports about one file: its extension, its content (None when it
      cannot be read as text), its path relative to the root (None when the prefix cannot
      be stripped), the name of its parent directory and its stem. */
  datatype Entry = Entry(
    extension: Option<string>,
    content: Option<string>,
    relative: Option<string>,
    parentName: Option<string>,
    stem: Option<string>)

  /** `parse_script`: None when the file cannot be read, the root cannot be stripped or
      the path has no stem; otherwise the script with its metadata, its relative path with
      forward slashes and the parent directory (or "") as its category. */
  function ParseScript(e: Entry): (r: Option<PythonScript>)
    ensures r.Some? <==> e.content.Some? && e.relative.Some? && e.stem.Some?
    ensures r.Some? ==>
      && r.value.name == (if ParseMeta(e.content.value, "name").Some?
                          then ParseMeta(e.content.value, "name").value else e.stem.value)
      && r.value.description == (if ParseMeta(e.content.value, "description").Some?
                                 then ParseMeta(e.content.value, "description").value else "")
      && r.value.relativePath == Slashes(e.relative.value) && '\\' !in r.value.relativePath
      && r.value.category == (if e.parentName.Some? then e.parentName.value else "")
  {
    if e.content.None? || e.relative.None? || e.stem.None? then None
    else
      var content := e.content.value;
      var name := ParseMeta(content, "name");
      var description := ParseMeta(content, "description");
      Some(PythonScript(
        if name.Some? then name.value else e.stem.value,
        if description.Some? then description.value else "",
        Slashes(e.relative.value),
        if e.parentName.Some? then e.parentName.value else ""))
  }

  /** The scripts the walk yields, as (relative path, script) inserts in walk order:
      entries the walk failed on are skipped, so are files without the "py" extension and
      files that do not parse. */
  function Parsed(walk: seq<Option<Entry>>): (inserts: seq<(string, PythonScript)>)
    ensures forall i | 0 <= i < |inserts| :: inserts[i].0 == inserts[i].1.relativePath
  {
    if |walk| == 0 then []
    else
      var front := Parsed(walk[..|walk| - 1]);
      var last := walk[|walk| - 1];
      if last.Some? && last.value.extension == Some("py") && ParseScript(last.value).Some? then
        var s := ParseScript(last.value).value;
        front + [(s.relativePath, s)]
      else front
  }

  /** Whether the root directory exists, and if not whether creating it succeeds. */
  datatype Root = Present | Created | CreateFails

  /** Every script is keyed by its own relative path. */
  ghost predicate Keyed(scripts: map<string, PythonScript>) {
    forall p | p in scripts :: scripts[p].relativePath == p
  }

  class Library {
    const rootPath: string
    var scripts: map<string, PythonScript>

    /** `new`: no scripts. */
    constructor(rootPath: string)
      ensures this.rootPath == rootPath && scripts == map[]
    {
      this.rootPath := rootPath;
      scripts := map[];
    }

    /** `scan`: empties the table, then, when the root exists, inserts every script the
        walk yields under its relative path, a later one replacing an earlier one with the
        same path. A missing root is created and leaves the table empty; failing to create
        it is an I/O error. */
    method Scan(root: Root, walk: seq<Option<Entry>>) returns (r: Result<(), string>)
      modifies this
      ensures r.Err? <==> root == CreateFails
      ensures root != Present ==> scripts == map[]
      ensures root == Present ==> scripts == Fold(Parsed(walk))
      ensures Keyed(scripts)
    {
      scripts := map[];
      if root == CreateFails {
        return Err("I/O");
      }
      if root == Created {
        return Ok(());
      }
      for i := 0 to |walk|
        invariant scripts == Fold(Parsed(walk[..i]))
      {
        assert walk[..i + 1][..i] == walk[..i];
        var e := walk[i];
        if e.Some? && e.value.extension == Some("py") {
          var s := ParseScript(e.value);
          if s.Some? {
            FoldAppend(Parsed(walk[..i]), (s.value.relativePath, s.value));
            scripts := scripts[s.value.relativePath := s.value];
          }
        }
      }
      assert walk[..|walk|] == walk;
      ScanKeyed(Parsed(walk));
      r := Ok(());
    }

    /** `get_by_category`: the scripts grouped by category. The table is visited in its
        iteration order, which the model leaves open, so the order inside a group is too;
        every script appears exactly once, in its own category's group, and no group is
        empty. */
    method GetByCategory() returns (cat: map<string, seq<PythonScript>>)
      requires Keyed(scripts)
      ensures cat.Keys == set p | p in scripts :: scripts[p].category
      ensures forall c | c in cat :: |cat[c]| > 0 && Graphs.Distinct(cat[c])
      ensures forall c, i | c in cat && 0 <= i < |cat[c]| ::
        cat[c][i].category == c && cat[c][i].relativePath in scripts
        && scripts[cat[c][i].relativePath] == cat[c][i]
      ensures forall p | p in scripts :: scripts[p] in cat[scripts[p].category]
    {
      cat := map[];
      var done: set<string> := {};
      while done != scripts.Keys
        invariant done <= scripts.Keys
        invariant Grouped(scripts, done, cat)
        decreases scripts.Keys - done
      {
        assert scripts.Keys - done != {};
        var p :| p in scripts.Keys - done;
        PushGrouped(scripts, done, cat, p);
        cat := Push(scripts, cat, p);
        done := done + {p};
      }
    }
  }

  /** The inserts of a scan keep every script under its own path. */
  lemma ScanKeyed(inserts: seq<(string, PythonScript)>)
    requires forall i | 0 <= i < |inserts| :: inserts[i].0 == inserts[i].1.relativePath
    ensures Keyed(Fold(inserts))
  {
    forall p | p in Fold(inserts)
      ensures Fold(inserts)[p].relativePath == p
    {
      FoldLookup(inserts, p);
    }
  }

  /** The grouping of the scripts under `done`. */
  ghost predicate Grouped(scripts: map<string, PythonScript>, done: set<string>,
                          cat: map<string, seq<PythonScript>>)
  {
    && done <= scripts.Keys
    && cat.Keys == (set p | p in done :: scripts[p].category)
    && (forall c | c in cat :: |cat[c]| > 0 && Graphs.Distinct(cat[c]))
    && (forall c, i | c in cat && 0 <= i < |cat[c]| ::
          cat[c][i].category == c && cat[c][i].relativePath in done
          && scripts[cat[c][i].relativePath] == cat[c][i])
    && (forall p | p in done :: scripts[p] in cat[scripts[p].category])
  }

  /** The `entry(...).or_default().push(script)` step for the script under `p`. */
  function Push(scripts: map<string, PythonScript>, cat: map<string, seq<PythonScript>>, p: string)
    : (next: map<string, seq<PythonScript>>)
    requires p in scripts
    ensures next.Keys == cat.Keys + {scripts[p].category}
    ensures forall c | c in cat && c != scripts[p].category :: next[c] == cat[c]
    ensures var c := scripts[p].category;
      next[c] == (if c in cat then cat[c] else []) + [scripts[p]]
  {
    var s := scripts[p];
    cat[s.category := (if s.category in cat then cat[s.category] else []) + [s]]
  }

  /** Pushing a script not yet grouped keeps every group non-empty and free of
      duplicates. */
  lemma PushDistinct(scripts: map<string, PythonScript>, done: set<string>,
                     cat: map<string, seq<PythonScript>>, p: string)
    requires Keyed(scripts) && p in scripts && p !in done && Grouped(scripts, done, cat)
    ensures forall c | c in Push(scripts, cat, p) ::
      |Push(scripts, cat, p)[c]| > 0 && Graphs.Distinct(Push(scripts, cat, p)[c])
  {
    var s := scripts[p];
    var group := if s.category in cat then cat[s.category] else [];
    assert s !in group;
    Graphs.DistinctAppend(group, s);
  }

  /** After a push every grouped script sits in its own category's group under its own
      path. */
  lemma PushMembers(scripts: map<string, PythonScript>, done: set<string>,
                    cat: map<string, seq<PythonScript>>, p: string)
    requires Keyed(scripts) && p in scripts && p !in done && Grouped(scripts, done, cat)
    ensures var next := Push(scripts, cat, p);
      forall c, i | c in next && 0 <= i < |next[c]| ::
        next[c][i].category == c && next[c][i].relativePath in done + {p}
        && scripts[next[c][i].relativePath] == next[c][i]
  {
    var s := scripts[p];
    var group := if s.category in cat then cat[s.category] else [];
    assert forall i | 0 <= i < |group| :: (group + [s])[i] == group[i];
  }

  /** A push adds the script's category and finds every grouped script in its group. */
  lemma PushCovers(scripts: map<string, PythonScript>, done: set<string>,
                   cat: map<string, seq<PythonScript>>, p: string)
    requires Keyed(scripts) && p in scripts && p !in done && Grouped(scripts, done, cat)
    ensures var next := Push(scripts, cat, p);
      && next.Keys == (set q | q in done + {p} :: scripts[q].category)
      && forall q | q in done + {p} :: scripts[q] in next[scripts[q].category]
  {
    var next := Push(scripts, cat, p);
    forall q | q in done + {p}
      ensures scripts[q] in next[scripts[q].category]
    {
      if q != p && scripts[q].category == scripts[p].category {
        assert scripts[q] in cat[scripts[q].category];
      }
    }
  }

  /** Pushing the next script extends the grouping to it. */
  lemma PushGrouped(scripts: map<string, PythonScript>, done: set<string>,
                    cat: map<string, seq<PythonScript>>, p: string)
    requires Keyed(scripts) && p in scripts && p !in done && Grouped(scripts, done, cat)
    ensures Grouped(scripts, done + {p}, Push(scripts, cat, p))
  {
    PushDistinct(scripts, done, cat, p);
    PushMembers(scripts, done, cat, p);
    PushCovers(scripts, done, cat, p);
  }
}
