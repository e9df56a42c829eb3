/** Reading an analogy question file (`questions_reading`). The file arrives as
    its lines, each still carrying its line break. A line that starts with ':'
    opens a category; the category's key is the header's text before the first
    tab. Every header owns the lines after it up to the next header, the last
    header owns the lines to the end of the file, and every owned line becomes
    one question: its text before the first newline, split on tabs. A synthetic
    category ": all questions" collects every question of every category. */
module QuestionsReading {
  import opened Wrappers
  import opened PyStrings
  import opened OrderedDicts

  /** The key of the synthetic category that holds every question. */
  const AllQuestionsKey: string := ": all questions"

  /** A category header: its key and the index of its line in the file. */
  datatype Theme = Theme(key: string, line: nat)

  /** `line.startswith(":")` */
  predicate IsHeader(line: string)
  {
    |line| > 0 && line[0] == ':'
  }

  /** `line.split("\t")[0]`: a header keeps its trailing newline when it has no tab. */
  function HeaderKey(line: string): (key: string)
    ensures key <= line && '\t' !in key
    ensures |key| < |line| ==> line[|key|] == '\t'
    ensures |key| == |line| <==> '\t' !in line
  {
    SplitHead(line, '\t');
    Split(line, '\t')[0]
  }

  /** `line.split("\n")[0].split("\t")`: the fields of one question. */
  function ParseQuestion(line: string): (fields: seq<string>)
    ensures |fields| >= 1
    ensures forall i :: 0 <= i < |fields| ==> '\t' !in fields[i] && '\n' !in fields[i]
    ensures Join(fields, '\t') == Split(line, '\n')[0]
  {
    Split(Split(line, '\n')[0], '\t')
  }

  /** The lines of `themes` lie in the file and strictly increase. */
  ghost predicate InFileOrder(lines: seq<string>, themes: seq<Theme>)
  {
    && (forall t :: 0 <= t < |themes| ==> themes[t].line < |lines|)
    && (forall s, t :: 0 <= s < t < |themes| ==> themes[s].line < themes[t].line)
  }

  /** Every theme sits on a header line and carries that header's key. */
  ghost predicate OnHeaders(lines: seq<string>, themes: seq<Theme>)
    requires InFileOrder(lines, themes)
  {
    forall t :: 0 <= t < |themes| ==>
      IsHeader(lines[themes[t].line]) && themes[t].key == HeaderKey(lines[themes[t].line])
  }

  /** Every header line of the file has a theme. */
  ghost predicate CoversHeaders(lines: seq<string>, themes: seq<Theme>)
  {
    forall i :: 0 <= i < |lines| && IsHeader(lines[i]) ==>
      exists t :: 0 <= t < |themes| && themes[t].line == i
  }

  /** `themes` lists exactly the header lines of the file, in file order, each
      with its key. */
  ghost predicate IsThemeList(lines: seq<string>, themes: seq<Theme>)
  {
    InFileOrder(lines, themes) && OnHeaders(lines, themes) && CoversHeaders(lines, themes)
  }

  /** The header lines of the file, scanned from the first line to the last. */
  function HeaderThemes(lines: seq<string>): (themes: seq<Theme>)
  {
    if |lines| == 0 then []
    else
      var n := |lines| - 1;
      HeaderThemes(lines[..n]) + (if IsHeader(lines[n]) then [Theme(HeaderKey(lines[n]), n)] else [])
  }

  /** The scan finds every header line and nothing else, in file order. */
  lemma HeaderThemesExact(lines: seq<string>)
    ensures IsThemeList(lines, HeaderThemes(lines))
  {
    HeaderThemesOnHeaders(lines);
    HeaderThemesCover(lines);
  }

  /** The scan yields header lines with their keys, in file order. */
  lemma {:induction false} HeaderThemesOnHeaders(lines: seq<string>)
    ensures InFileOrder(lines, HeaderThemes(lines))
    ensures OnHeaders(lines, HeaderThemes(lines))
  {
    if |lines| > 0 {
      var n := |lines| - 1;
      HeaderThemesOnHeaders(lines[..n]);
      var last := if IsHeader(lines[n]) then [Theme(HeaderKey(lines[n]), n)] else [];
      OnHeadersStep(lines, HeaderThemes(lines[..n]), last);
    }
  }

  /** Header themes of all lines but the last, followed by at most a theme for
      the last line when it is a header, are header themes of all lines. */
  lemma OnHeadersStep(lines: seq<string>, earlier: seq<Theme>, last: seq<Theme>)
    requires |lines| > 0
    requires InFileOrder(lines[..|lines| - 1], earlier) && OnHeaders(lines[..|lines| - 1], earlier)
    requires |last| <= 1
    requires |last| == 1 ==> last[0] == Theme(HeaderKey(lines[|lines| - 1]), |lines| - 1)
    requires |last| == 1 ==> IsHeader(lines[|lines| - 1])
    ensures InFileOrder(lines, earlier + last)
    ensures OnHeaders(lines, earlier + last)
  {
    var n := |lines| - 1;
    var prefix := lines[..n];
    var themes := earlier + last;
    forall t | 0 <= t < |themes|
      ensures themes[t].line < |lines|
    {
      if t < |earlier| {
        assert themes[t] == earlier[t];
      }
    }
    forall s, t | 0 <= s < t < |themes|
      ensures themes[s].line < themes[t].line
    {
      assert themes[s] == earlier[s];
      if t < |earlier| {
        assert themes[t] == earlier[t];
      }
    }
    forall t | 0 <= t < |themes|
      ensures IsHeader(lines[themes[t].line]) && themes[t].key == HeaderKey(lines[themes[t].line])
    {
      if t < |earlier| {
        assert themes[t] == earlier[t];
        assert prefix[earlier[t].line] == lines[earlier[t].line];
      }
    }
  }

  /** The scan misses no header line. */
  lemma {:induction false} HeaderThemesCover(lines: seq<string>)
    ensures CoversHeaders(lines, HeaderThemes(lines))
  {
    if |lines| > 0 {
      var n := |lines| - 1;
      HeaderThemesCover(lines[..n]);
      var last := if IsHeader(lines[n]) then [Theme(HeaderKey(lines[n]), n)] else [];
      CoversHeadersStep(lines, HeaderThemes(lines[..n]), last);
    }
  }

  /** Covering the headers of all lines but the last, plus a theme for the last
      line when it is a header, covers every header. */
  lemma CoversHeadersStep(lines: seq<string>, earlier: seq<Theme>, last: seq<Theme>)
    requires |lines| > 0
    requires CoversHeaders(lines[..|lines| - 1], earlier)
    requires IsHeader(lines[|lines| - 1]) ==> |last| == 1 && last[0].line == |lines| - 1
    ensures CoversHeaders(lines, earlier + last)
  {
    var n := |lines| - 1;
    var themes := earlier + last;
    forall i | 0 <= i < |lines| && IsHeader(lines[i])
      ensures exists t :: 0 <= t < |themes| && themes[t].line == i
    {
      if i < n {
        assert lines[..n][i] == lines[i];
        var t :| 0 <= t < |earlier| && earlier[t].line == i;
        assert themes[t] == earlier[t];
      } else {
        assert themes[|earlier|] == last[0];
      }
    }
  }

  /** The first loop of `questions_reading`: collect the header lines. */
  method FindThemes(lines: seq<string>) returns (themes: seq<Theme>)
    ensures themes == HeaderThemes(lines)
    ensures IsThemeList(lines, themes)
  {
    themes := [];
    for i := 0 to |lines|
      invariant themes == HeaderThemes(lines[..i])
    {
      assert lines[..i + 1][..i] == lines[..i];
      if IsHeader(lines[i]) {
        themes := themes + [Theme(HeaderKey(lines[i]), i)];
      }
    }
    assert lines[..|lines|] == lines;
    HeaderThemesExact(lines);
  }

  function ThemeKeys(themes: seq<Theme>): (keys: seq<string>)
    ensures |keys| == |themes|
  {
    seq(|themes|, t requires 0 <= t < |themes| => themes[t].key)
  }

  /** The lines owned by header `t`: those after it up to the next header, or
      to the end of the file for the last header. */
  function Block(lines: seq<string>, themes: seq<Theme>, t: nat): (block: seq<string>)
    requires InFileOrder(lines, themes) && t < |themes|
  {
    if t + 1 < |themes| then lines[themes[t].line + 1 .. themes[t + 1].line]
    else lines[themes[t].line + 1 ..]
  }

  /** Each header's key paired with the lines it owns, in file order. */
  function ThemeBlocks(lines: seq<string>, themes: seq<Theme>): (blocks: seq<Entry<string, seq<string>>>)
    requires InFileOrder(lines, themes)
    ensures |blocks| == |themes|
    ensures Keys(blocks) == ThemeKeys(themes)
  {
    seq(|themes|, t requires 0 <= t < |themes| && InFileOrder(lines, themes) =>
      Entry(themes[t].key, Block(lines, themes, t)))
  }

  /** A header owns no other header: every line it owns is a question line,
      and its block ends right before the next header or at the end of the file. */
  lemma BlockHoldsNoHeader(lines: seq<string>, themes: seq<Theme>, t: nat)
    requires IsThemeList(lines, themes) && t < |themes|
    ensures forall j :: 0 <= j < |Block(lines, themes, t)| ==> !IsHeader(Block(lines, themes, t)[j])
    ensures themes[t].line + 1 + |Block(lines, themes, t)|
            == if t + 1 < |themes| then themes[t + 1].line else |lines|
  {
    var block := Block(lines, themes, t);
    var start := themes[t].line + 1;
    forall j | 0 <= j < |block|
      ensures !IsHeader(block[j])
    {
      assert block[j] == lines[start + j];
      if IsHeader(lines[start + j]) {
        assert false;
      }
    }
  }

  /** From header `t` on, the file is the header line, its block, and the same
      for every later header. */
  function Sections(lines: seq<string>, themes: seq<Theme>, t: nat): (section: seq<string>)
    requires InFileOrder(lines, themes) && t <= |themes|
    decreases |themes| - t
  {
    if t == |themes| then []
    else [lines[themes[t].line]] + Block(lines, themes, t) + Sections(lines, themes, t + 1)
  }

  lemma {:induction false} SectionsCover(lines: seq<string>, themes: seq<Theme>, t: nat)
    requires InFileOrder(lines, themes) && t < |themes|
    ensures Sections(lines, themes, t) == lines[themes[t].line..]
    decreases |themes| - t
  {
    var h := themes[t].line;
    var next := if t + 1 < |themes| then themes[t + 1].line else |lines|;
    if t + 1 < |themes| {
      SectionsCover(lines, themes, t + 1);
    }
    SliceAround(lines, h, next);
    calc {
      Sections(lines, themes, t);
      [lines[h]] + Block(lines, themes, t) + Sections(lines, themes, t + 1);
      [lines[h]] + lines[h + 1 .. next] + lines[next..];
      lines[h..];
    }
  }

  /** A suffix from `a` is its first element, the elements up to `b`, and the
      suffix from `b`. */
  lemma SliceAround<T>(s: seq<T>, a: nat, b: nat)
    requires a < b <= |s|
    ensures s[a..] == [s[a]] + s[a + 1 .. b] + s[b..]
  {
    assert s[a..] == [s[a]] + s[a + 1..];
    assert s[a + 1..] == s[a + 1 .. b] + s[b..];
  }

  /** The headers partition the file: the lines before the first header hold no
      header and belong to no block; from the first header on, the file is the
      sequence of headers each followed by exactly the lines it owns. A file
      without headers has an empty header list. */
  lemma ThemesPartitionFile(lines: seq<string>, themes: seq<Theme>)
    requires IsThemeList(lines, themes)
    ensures |themes| == 0 <==> forall i :: 0 <= i < |lines| ==> !IsHeader(lines[i])
    ensures |themes| > 0 ==> forall i :: 0 <= i < themes[0].line ==> !IsHeader(lines[i])
    ensures |themes| > 0 ==> lines == lines[..themes[0].line] + Sections(lines, themes, 0)
  {
    if |themes| > 0 {
      var h := themes[0].line;
      SectionsCover(lines, themes, 0);
      assert lines == lines[..h] + lines[h..];
      NoHeaderBefore(lines, themes, themes[0].line);
      assert IsHeader(lines[themes[0].line]);
    } else {
      NoHeaderBefore(lines, themes, |lines|);
    }
  }

  /** No line before the first header (or anywhere, without headers) is a header. */
  lemma NoHeaderBefore(lines: seq<string>, themes: seq<Theme>, bound: nat)
    requires IsThemeList(lines, themes)
    requires bound <= |lines|
    requires if |themes| > 0 then bound <= themes[0].line else true
    ensures forall i :: 0 <= i < bound ==> !IsHeader(lines[i])
  {
    forall i | 0 <= i < bound
      ensures !IsHeader(lines[i])
    {
      if IsHeader(lines[i]) {
        assert false;
      }
    }
  }

  /** The second loop of `questions_reading`: assign each header's block to its
      key. Reading `themes[t + 1]` past the last header raises, and the handler
      assigns the lines to the end of the file instead. */
  method SplitByThemes(lines: seq<string>, themes: seq<Theme>) returns (d: Dict<string, seq<string>>)
    requires InFileOrder(lines, themes)
    ensures d == AssignAll(ThemeBlocks(lines, themes))
    ensures DistinctKeys(d)
    ensures Keys(d) == Dedup(ThemeKeys(themes))
  {
    ghost var blocks := ThemeBlocks(lines, themes);
    d := [];
    for t := 0 to |themes|
      invariant d == AssignAll(blocks[..t])
    {
      var block;
      if t + 1 < |themes| {
        block := lines[themes[t].line + 1 .. themes[t + 1].line];
      } else {
        block := lines[themes[t].line + 1 ..];
      }
      assert blocks[t] == Entry(themes[t].key, block);
      assert blocks[..t + 1][..t] == blocks[..t];
      d := Assign(d, themes[t].key, block);
    }
    assert blocks[..|themes|] == blocks;
    AssignAllKeys(blocks);
    assert Keys(blocks) == ThemeKeys(themes);
  }

  /** `[words.split("\n")[0].split("\t") for words in v]` */
  function ParseBlock(block: seq<string>): (questions: seq<seq<string>>)
    ensures |questions| == |block|
  {
    seq(|block|, i requires 0 <= i < |block| => ParseQuestion(block[i]))
  }

  /** Every category's lines turned into questions; keys and order unchanged. */
  function ParseCategories(d: Dict<string, seq<string>>): (parsed: Dict<string, seq<seq<string>>>)
    ensures Keys(parsed) == Keys(d)
  {
    seq(|d|, i requires 0 <= i < |d| => Entry(d[i].key, ParseBlock(d[i].value)))
  }

  /** The questions of every category, concatenated in dictionary order. */
  function Concat(categories: Dict<string, seq<seq<string>>>): (all: seq<seq<string>>)
  {
    if |categories| == 0 then []
    else
      var n := |categories| - 1;
      Concat(categories[..n]) + categories[n].value
  }

  /** The number of questions in all categories together. */
  function TotalQuestions(categories: Dict<string, seq<seq<string>>>): (total: nat)
  {
    if |categories| == 0 then 0
    else
      var n := |categories| - 1;
      TotalQuestions(categories[..n]) + |categories[n].value|
  }

  /** The concatenation lays the categories end to end: category `i` starts
      after all questions of the categories before it. */
  lemma {:induction false} ConcatLayout(categories: Dict<string, seq<seq<string>>>, i: nat)
    requires i < |categories|
    ensures |Concat(categories)| == TotalQuestions(categories)
    ensures TotalQuestions(categories[..i]) + |categories[i].value| <= TotalQuestions(categories)
    ensures Concat(categories)[TotalQuestions(categories[..i])..][..|categories[i].value|]
            == categories[i].value
  {
    var n := |categories| - 1;
    var earlier := categories[..n];
    if i < n {
      ConcatLayout(earlier, i);
      assert earlier[..i] == categories[..i];
      assert earlier[i] == categories[i];
      var start := TotalQuestions(categories[..i]);
      assert Concat(categories)[start..][..|categories[i].value|]
             == Concat(earlier)[start..][..|categories[i].value|];
    } else {
      if n > 0 {
        ConcatLayout(earlier, 0);
      } else {
        assert earlier == [];
      }
      assert categories[..i] == earlier;
    }
  }

  /** The third loop of `questions_reading`: parse each category in dictionary
      order while collecting all questions, then store the collection under
      ": all questions". Replacing a value under an existing key leaves it in
      place, so the parsed dictionary keeps the keys and their order. */
  method Transform(d: Dict<string, seq<string>>) returns (cq: Dict<string, seq<seq<string>>>)
    ensures cq == Assign(ParseCategories(d), AllQuestionsKey, Concat(ParseCategories(d)))
  {
    var parsed: Dict<string, seq<seq<string>>> := [];
    var all: seq<seq<string>> := [];
    for i := 0 to |d|
      invariant parsed == ParseCategories(d[..i])
      invariant all == Concat(parsed)
    {
      var questions := ParseBlock(d[i].value);
      assert ParseCategories(d[..i + 1]) == parsed + [Entry(d[i].key, questions)];
      parsed := parsed + [Entry(d[i].key, questions)];
      assert parsed[..|parsed| - 1] == ParseCategories(d[..i]);
      all := all + questions;
    }
    assert d[..|d|] == d;
    cq := Assign(parsed, AllQuestionsKey, all);
  }

  /** The categories of a file before ": all questions" is added: one entry per
      distinct header key, each holding the questions of the last header with
      that key. */
  ghost function Categories(lines: seq<string>): (parsed: Dict<string, seq<seq<string>>>)
  {
    HeaderThemesExact(lines);
    ParseCategories(AssignAll(ThemeBlocks(lines, HeaderThemes(lines))))
  }

  /** What `questions_reading` returns for a file. */
  ghost function Categorize(lines: seq<string>): (cq: Dict<string, seq<seq<string>>>)
  {
    Assign(Categories(lines), AllQuestionsKey, Concat(Categories(lines)))
  }

  /** `questions_reading` on a file given as its lines. */
  method ReadQuestions(lines: seq<string>) returns (cq: Dict<string, seq<seq<string>>>)
    ensures cq == Categorize(lines)
    ensures DistinctKeys(cq)
    ensures Get(cq, AllQuestionsKey) == Some(Concat(Categories(lines)))
  {
    var themes := FindThemes(lines);
    var byTheme := SplitByThemes(lines, themes);
    cq := Transform(byTheme);
    var parsed := ParseCategories(byTheme);
    assert DistinctKeys(parsed) by {
      assert Keys(parsed) == Keys(byTheme);
      forall i, j | 0 <= i < j < |byTheme|
        ensures parsed[i].key != parsed[j].key
      {
        assert Keys(byTheme)[i] == byTheme[i].key;
      }
    }
    AssignDistinct(parsed, AllQuestionsKey, Concat(parsed));
    AssignGet(parsed, AllQuestionsKey, Concat(parsed), AllQuestionsKey);
  }

  lemma {:induction false} GetParsed(d: Dict<string, seq<string>>, k: string)
    ensures Get(ParseCategories(d), k) == if Get(d, k).Some? then Some(ParseBlock(Get(d, k).value)) else None
  {
    if |d| > 0 && d[0].key != k {
      GetParsed(d[1..], k);
      assert ParseCategories(d)[1..] == ParseCategories(d[1..]);
    }
  }

  /** The category of a header key holds the parsed lines owned by the LAST
      header with that key: an earlier header with the same key is overwritten. */
  lemma CategoryOfKey(lines: seq<string>, t: nat)
    requires t < |HeaderThemes(lines)|
    requires forall s :: t < s < |HeaderThemes(lines)| ==> HeaderThemes(lines)[s].key != HeaderThemes(lines)[t].key
    ensures IsThemeList(lines, HeaderThemes(lines))
    ensures Get(Categories(lines), HeaderThemes(lines)[t].key)
            == Some(ParseBlock(Block(lines, HeaderThemes(lines), t)))
  {
    var themes := HeaderThemes(lines);
    HeaderThemesExact(lines);
    var blocks := ThemeBlocks(lines, themes);
    var k := themes[t].key;
    LastValueAt(blocks, t);
    AssignAllGet(blocks, k);
    GetParsed(AssignAll(blocks), k);
  }

  /** The categories are keyed by the header keys, each once, in order of
      their first header. */
  lemma CategoryKeys(lines: seq<string>)
    ensures DistinctKeys(Categories(lines))
    ensures Keys(Categories(lines)) == Dedup(ThemeKeys(HeaderThemes(lines)))
  {
    HeaderThemesExact(lines);
    var blocks := ThemeBlocks(lines, HeaderThemes(lines));
    AssignAllKeys(blocks);
    var parsed := Categories(lines);
    forall i, j | 0 <= i < j < |parsed|
      ensures parsed[i].key != parsed[j].key
    {
      assert Keys(parsed)[i] == parsed[i].key;
    }
  }

  /** Every key appears once in the result. */
  lemma CategorizeDistinct(lines: seq<string>)
    ensures DistinctKeys(Categorize(lines))
  {
    CategoryKeys(lines);
    AssignDistinct(Categories(lines), AllQuestionsKey, Concat(Categories(lines)));
  }

  /** The keys of the result are the header keys and ": all questions". */
  lemma ResultKeys(lines: seq<string>, k: string)
    ensures k in Keys(Categorize(lines)) <==>
              k == AllQuestionsKey || exists i :: 0 <= i < |lines| && IsHeader(lines[i]) && HeaderKey(lines[i]) == k
  {
    var themes := HeaderThemes(lines);
    HeaderThemesExact(lines);
    CategoryKeys(lines);
    DedupMembers(ThemeKeys(themes));
    ThemeKeysAreHeaderKeys(lines, themes, k);
  }

  /** A key belongs to a theme list exactly when some header line has it. */
  lemma ThemeKeysAreHeaderKeys(lines: seq<string>, themes: seq<Theme>, k: string)
    requires IsThemeList(lines, themes)
    ensures k in ThemeKeys(themes) <==> exists i :: 0 <= i < |lines| && IsHeader(lines[i]) && HeaderKey(lines[i]) == k
  {
    if k in ThemeKeys(themes) {
      var t :| 0 <= t < |themes| && ThemeKeys(themes)[t] == k;
      assert IsHeader(lines[themes[t].line]) && HeaderKey(lines[themes[t].line]) == k;
    }
    if exists i :: 0 <= i < |lines| && IsHeader(lines[i]) && HeaderKey(lines[i]) == k {
      var i :| 0 <= i < |lines| && IsHeader(lines[i]) && HeaderKey(lines[i]) == k;
      var t :| 0 <= t < |themes| && themes[t].line == i;
      assert ThemeKeys(themes)[t] == k;
    }
  }

  /** ": all questions" holds every category's questions end to end in
      dictionary order, so its length is the sum of theirs. Every other key keeps
      its category. Unless a header already used that key, it is a new last
      entry. */
  lemma AllQuestionsEntry(lines: seq<string>)
    ensures Get(Categorize(lines), AllQuestionsKey) == Some(Concat(Categories(lines)))
    ensures |Concat(Categories(lines))| == TotalQuestions(Categories(lines))
    ensures forall k :: k != AllQuestionsKey ==> Get(Categorize(lines), k) == Get(Categories(lines), k)
    ensures AllQuestionsKey !in Keys(Categories(lines)) ==>
              Categorize(lines) == Categories(lines) + [Entry(AllQuestionsKey, Concat(Categories(lines)))]
    ensures |Categorize(lines)| == |Categories(lines)| + if AllQuestionsKey in Keys(Categories(lines)) then 0 else 1
  {
    var parsed := Categories(lines);
    if |parsed| > 0 {
      ConcatLayout(parsed, |parsed| - 1);
    }
    forall k
      ensures Get(Categorize(lines), k) == if k == AllQuestionsKey then Some(Concat(parsed)) else Get(parsed, k)
    {
      AssignGet(parsed, AllQuestionsKey, Concat(parsed), k);
    }
  }

  /** A file without any header line yields the single empty category
      ": all questions". */
  lemma NoHeaderOnlyAllQuestions(lines: seq<string>)
    requires forall i :: 0 <= i < |lines| ==> !IsHeader(lines[i])
    ensures Categorize(lines) == [Entry(AllQuestionsKey, [])]
  {
    HeaderThemesExact(lines);
    ThemesPartitionFile(lines, HeaderThemes(lines));
    assert HeaderThemes(lines) == [];
    assert ThemeBlocks(lines, []) == [];
  }
}
