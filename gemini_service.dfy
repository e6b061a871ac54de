/** The prompt the application sends to the language model: the
    repositories, most-starred first, one line each, inside a fixed
    template that asks for a Markdown summary with five `### ` sections.
    `buildPrompt` only computes a string, so it is modelled by functions. */
module GeminiService {
  import opened Wrappers
  import opened JsString
  import opened Types

  // ---------------------------------------------------------------------
  // Ordering: `repos.sort((a, b) => b.stargazers_count - a.stargazers_count)`.
  // JavaScript's sort is stable, so repositories with the same number of
  // stars keep their original order.
  // ---------------------------------------------------------------------

  /** Every repository has at least as many stars as the ones after it. */
  predicate ByStarsDescending(rs: seq<Repo>) {
    forall i, j :: 0 <= i < j < |rs| ==> rs[i].stargazersCount >= rs[j].stargazersCount
  }

  /** The repositories with exactly `v` stars, in the order they appear. */
  function WithStars(rs: seq<Repo>, v: int): seq<Repo>
    decreases |rs|
  {
    if rs == [] then []
    else (if rs[0].stargazersCount == v then [rs[0]] else []) + WithStars(rs[1..], v)
  }

  lemma {:induction false} WithStarsAppend(a: seq<Repo>, b: seq<Repo>, v: int)
    ensures WithStars(a + b, v) == WithStars(a, v) + WithStars(b, v)
    decreases |a|
  {
    if a != [] {
      assert (a + b)[1..] == a[1..] + b;
      WithStarsAppend(a[1..], b, v);
    } else {
      assert a + b == b;
    }
  }

  lemma {:induction false} WithStarsIn(rs: seq<Repo>, v: int, x: Repo)
    requires x in WithStars(rs, v)
    ensures x in rs && x.stargazersCount == v
    decreases |rs|
  {
    if rs[0] != x || rs[0].stargazersCount != v {
      WithStarsIn(rs[1..], v, x);
    }
  }

  /** A repository with at least as many stars as the first of a list in
      descending order can go in front of it. */
  lemma DescendingCons(x: Repo, rest: seq<Repo>)
    ensures ByStarsDescending(rest) && (rest == [] || x.stargazersCount >= rest[0].stargazersCount)
            ==> ByStarsDescending([x] + rest)
  {
    if ByStarsDescending(rest) && (rest == [] || x.stargazersCount >= rest[0].stargazersCount) {
      var s := [x] + rest;
      forall i, j | 0 <= i < j < |s| ensures s[i].stargazersCount >= s[j].stargazersCount {
        if i == 0 {
          assert s[j] == rest[j - 1];
          assert rest[0].stargazersCount >= rest[j - 1].stargazersCount;
        } else {
          assert s[i] == rest[i - 1] && s[j] == rest[j - 1];
        }
      }
    }
  }

  /** Places `r` into a list already in descending order, after every
      repository with at least as many stars: the step a stable sort
      takes for each element in turn. */
  function InsertByStars(r: Repo, sorted: seq<Repo>): (res: seq<Repo>)
    ensures |res| == |sorted| + 1
    ensures res[0] == r || (sorted != [] && res[0] == sorted[0])
    decreases |sorted|
  {
    if sorted == [] then [r]
    else if sorted[0].stargazersCount >= r.stargazersCount then
      [sorted[0]] + InsertByStars(r, sorted[1..])
    else
      [r] + sorted
  }

  /** Inserting adds exactly `r` and keeps the list in descending order. */
  lemma {:induction false} InsertByStarsOrdered(r: Repo, sorted: seq<Repo>)
    ensures multiset(InsertByStars(r, sorted)) == multiset(sorted) + multiset{r}
    ensures ByStarsDescending(sorted) ==> ByStarsDescending(InsertByStars(r, sorted))
    decreases |sorted|
  {
    if sorted == [] {
    } else if sorted[0].stargazersCount >= r.stargazersCount {
      var rest := InsertByStars(r, sorted[1..]);
      InsertByStarsOrdered(r, sorted[1..]);
      assert sorted == [sorted[0]] + sorted[1..];
      assert InsertByStars(r, sorted) == [sorted[0]] + rest;
      if ByStarsDescending(sorted) {
        assert ByStarsDescending(sorted[1..]);
        assert rest[0] == r || rest[0] == sorted[1];
        DescendingCons(sorted[0], rest);
      }
    } else {
      DescendingCons(r, sorted);
    }
  }

  /** The order `buildPrompt` lists the repositories in. */
  function SortByStars(rs: seq<Repo>): (res: seq<Repo>)
    ensures multiset(res) == multiset(rs)
    ensures |res| == |rs|
    ensures ByStarsDescending(res)
    decreases |rs|
  {
    if rs == [] then []
    else
      assert rs == rs[..|rs| - 1] + [rs[|rs| - 1]];
      InsertByStarsOrdered(rs[|rs| - 1], SortByStars(rs[..|rs| - 1]));
      InsertByStars(rs[|rs| - 1], SortByStars(rs[..|rs| - 1]))
  }

  /** Inserting keeps the repositories of each star count in the order
      they were inserted. */
  lemma {:induction false} InsertWithStars(r: Repo, sorted: seq<Repo>, v: int)
    requires ByStarsDescending(sorted)
    ensures WithStars(InsertByStars(r, sorted), v)
         == WithStars(sorted, v) + (if r.stargazersCount == v then [r] else [])
    decreases |sorted|
  {
    if sorted == [] {
    } else if sorted[0].stargazersCount >= r.stargazersCount {
      InsertWithStars(r, sorted[1..], v);
      InsertBehind(r, sorted, v, if r.stargazersCount == v then [r] else []);
    } else {
      InsertInFront(r, sorted, v);
    }
  }

  /** The step where `r` goes behind the first repository: whatever
      inserting into the rest appends to a star count, inserting into the
      whole list appends too. */
  lemma InsertBehind(r: Repo, sorted: seq<Repo>, v: int, tail: seq<Repo>)
    requires sorted != [] && sorted[0].stargazersCount >= r.stargazersCount
    requires WithStars(InsertByStars(r, sorted[1..]), v) == WithStars(sorted[1..], v) + tail
    ensures WithStars(InsertByStars(r, sorted), v) == WithStars(sorted, v) + tail
  {
    var head := [sorted[0]];
    var rest := InsertByStars(r, sorted[1..]);
    assert InsertByStars(r, sorted) == head + rest;
    WithStarsAppend(head, rest, v);
    WithStarsAppend(head, sorted[1..], v);
    assert head + sorted[1..] == sorted;
  }

  /** The step where `r` goes in front: nothing after it has its star
      count, so it is also the last of its star count. */
  lemma InsertInFront(r: Repo, sorted: seq<Repo>, v: int)
    requires ByStarsDescending(sorted)
    requires sorted != [] && sorted[0].stargazersCount < r.stargazersCount
    ensures WithStars(InsertByStars(r, sorted), v)
         == WithStars(sorted, v) + (if r.stargazersCount == v then [r] else [])
  {
    assert InsertByStars(r, sorted) == [r] + sorted;
    assert ([r] + sorted)[1..] == sorted;
    if r.stargazersCount == v {
      forall i | 0 <= i < |sorted| ensures sorted[i].stargazersCount < v {
        assert sorted[0].stargazersCount >= sorted[i].stargazersCount;
      }
      WithStarsNone(sorted, v);
      assert WithStars([r] + sorted, v) == [r] + WithStars(sorted, v);
    } else {
      assert WithStars([r] + sorted, v) == WithStars(sorted, v);
    }
  }

  lemma {:induction false} WithStarsNone(rs: seq<Repo>, v: int)
    requires forall i :: 0 <= i < |rs| ==> rs[i].stargazersCount < v
    ensures WithStars(rs, v) == []
    decreases |rs|
  {
    if rs != [] {
      WithStarsNone(rs[1..], v);
    }
  }

  /** The sort is stable: for every star count, the repositories with that
      count come out in the order they went in. */
  lemma {:induction false} SortByStarsStable(rs: seq<Repo>, v: int)
    ensures WithStars(SortByStars(rs), v) == WithStars(rs, v)
    decreases |rs|
  {
    if rs != [] {
      var init := rs[..|rs| - 1];
      var last := rs[|rs| - 1];
      assert rs == init + [last];
      SortByStarsStable(init, v);
      InsertWithStars(last, SortByStars(init), v);
      WithStarsAppend(init, [last], v);
      assert WithStars([last], v) == (if last.stargazersCount == v then [last] else []) by {
        assert [last][1..] == [];
      }
    }
  }

  /** Descending order together with the order within each star count
      fixes the list: there is exactly one stable descending arrangement. */
  lemma {:induction false} StableDescendingUnique(a: seq<Repo>, b: seq<Repo>)
    requires ByStarsDescending(a) && ByStarsDescending(b)
    requires forall v :: WithStars(a, v) == WithStars(b, v)
    ensures a == b
    decreases |a|
  {
    FirstOfItsStars(a);
    FirstOfItsStars(b);
    if a == [] {
      if b != [] {
        assert false;
      }
    } else if b == [] {
      assert false;
    } else {
      HeadsAgree(a, b);
      TailsAgree(a, b);
      StableDescendingUnique(a[1..], b[1..]);
      assert a == [a[0]] + a[1..];
      assert b == [b[0]] + b[1..];
    }
  }

  /** Two descending lists with the same repositories per star count
      start with the same repository. */
  lemma HeadsAgree(a: seq<Repo>, b: seq<Repo>)
    requires a != [] && b != []
    requires ByStarsDescending(a) && ByStarsDescending(b)
    requires forall v :: WithStars(a, v) == WithStars(b, v)
    ensures a[0] == b[0]
  {
    var m := a[0].stargazersCount;
    var n := b[0].stargazersCount;
    FirstOfItsStars(a);
    FirstOfItsStars(b);
    assert WithStars(a, n) == WithStars(b, n);
    assert WithStars(a, m) == WithStars(b, m);
    WithStarsIn(a, n, b[0]);
    WithStarsIn(b, m, a[0]);
    HeadIsMax(a, b[0]);
    HeadIsMax(b, a[0]);
  }

  /** The first repository is the first of those with its star count. */
  lemma FirstOfItsStars(rs: seq<Repo>)
    ensures rs != [] ==> WithStars(rs, rs[0].stargazersCount) != []
                         && WithStars(rs, rs[0].stargazersCount)[0] == rs[0]
  {
  }

  /** In descending order nothing has more stars than the first. */
  lemma HeadIsMax(rs: seq<Repo>, x: Repo)
    requires ByStarsDescending(rs) && x in rs
    ensures rs[0].stargazersCount >= x.stargazersCount
  {
    var i :| 0 <= i < |rs| && rs[i] == x;
    if i > 0 {
      assert rs[0].stargazersCount >= rs[i].stargazersCount;
    }
  }

  lemma TailsAgree(a: seq<Repo>, b: seq<Repo>)
    requires a != [] && b != [] && a[0] == b[0]
    requires forall v :: WithStars(a, v) == WithStars(b, v)
    ensures forall v :: WithStars(a[1..], v) == WithStars(b[1..], v)
  {
    forall v ensures WithStars(a[1..], v) == WithStars(b[1..], v) {
      var h := if a[0].stargazersCount == v then [a[0]] else [];
      assert WithStars(a, v) == h + WithStars(a[1..], v);
      assert WithStars(b, v) == h + WithStars(b[1..], v);
      assert WithStars(a[1..], v) == WithStars(a, v)[|h|..];
    }
  }

  /** `SortByStars` is the one stable descending arrangement of its input:
      any list in descending order that keeps the order within each star
      count is that result. */
  lemma SortByStarsCharacterised(rs: seq<Repo>, b: seq<Repo>)
    requires ByStarsDescending(b)
    requires forall v :: WithStars(b, v) == WithStars(rs, v)
    ensures b == SortByStars(rs)
  {
    forall v ensures WithStars(b, v) == WithStars(SortByStars(rs), v) {
      SortByStarsStable(rs, v);
    }
    StableDescendingUnique(b, SortByStars(rs));
  }

  // ---------------------------------------------------------------------
  // One line per repository.
  // ---------------------------------------------------------------------

  /** `language || 'N/A'`: a missing or empty language reads `N/A`. */
  function LanguageOrNA(language: Option<string>): string {
    match language
    case Some(l) => if l != "" then l else "N/A"
    case None => "N/A"
  }

  /** `description || ''`. */
  function DescriptionOrEmpty(description: Option<string>): string {
    match description
    case Some(d) => d
    case None => ""
  }

  /** No text field of the repository holds a line break. */
  predicate SingleLine(repo: Repo) {
    && '\n' !in repo.name
    && '\n' !in LanguageOrNA(repo.language)
    && '\n' !in DescriptionOrEmpty(repo.description)
  }

  /** The line describing one repository: its name in bold, then its
      language and star count in parentheses, then its description. */
  function RepoLine(repo: Repo): (r: string)
    ensures StartsWith(r, "- **" + repo.name + "**: (Language: ")
    ensures SingleLine(repo) ==> '\n' !in r
  {
    var lead := "- **" + repo.name + "**: (Language: ";
    var line := lead + LanguageOrNA(repo.language)
      + ", Stars: " + IntToString(repo.stargazersCount) + ") "
      + DescriptionOrEmpty(repo.description);
    assert line[..|lead|] == lead;
    line
  }

  /** Because `||` falls back on any falsy value, a missing language, an
      empty one and the text `N/A` give the same line, and so do a missing
      and an empty description. */
  lemma RepoLineFallbacks(repo: Repo)
    ensures RepoLine(repo.(language := None)) == RepoLine(repo.(language := Some("")))
    ensures RepoLine(repo.(language := None)) == RepoLine(repo.(language := Some("N/A")))
    ensures RepoLine(repo.(description := None)) == RepoLine(repo.(description := Some("")))
  {
  }

  function RepoLines(rs: seq<Repo>): (r: seq<string>)
    ensures |r| == |rs|
  {
    seq(|rs|, i requires 0 <= i < |rs| => RepoLine(rs[i]))
  }

  /** `repoDetails`: the repository lines, most-starred first, joined by
      line breaks. */
  function RepoDetails(repos: seq<Repo>): string {
    Join(RepoLines(SortByStars(repos)), "\n")
  }

  // ---------------------------------------------------------------------
  // The template, line by line. A template literal keeps the indentation
  // of the source, so each line below starts with the spaces it has
  // there; the first line is the empty rest of the opening line.
  // ---------------------------------------------------------------------

  /** The message asked for when the user has no public repositories. */
  function NoReposLines(username: string): seq<string> {
    [
      "",
      "      You are an expert tech recruiter.",
      "      The user with GitHub username \"" + username + "\" has no public repositories.",
      "      Please write a friendly message encouraging them to make some repositories public to be analyzed.",
      "    "
    ]
  }

  const IntroLines: seq<string> := [
      "",
      "    You are an expert tech recruiter and software engineering manager, skilled at analyzing developer profiles to understand their strengths.",
      "    ",
      "    Your task is to generate a professional summary of a developer's skills and qualifications based on their GitHub repositories."
    ]

  function UsernameLine(username: string): string {
    "    The developer's username is \"" + username + "\"."
  }

  const ListHeader: string := "    Here is a list of their repositories:"

  /** Everything before `${repoDetails}`: the introduction, the username,
      a blank line and the list header. */
  function HeadLines(username: string): seq<string> {
    IntroLines + [UsernameLine(username), "", ListHeader]
  }

  /** A section heading line of the template. */
  function SectionHeading(title: string): string {
    "    ### " + title
  }

  /** Everything after `${repoDetails}`: the request for a Markdown
      summary with five `### ` sections. */
  const TailLines: seq<string> := [
      "",
      "    Based on this information, generate a comprehensive summary. Structure your response with the following sections using Markdown formatting:",
      "",
      SectionHeading("Overall Summary"),
      "    A brief, one-paragraph overview of the developer's profile, highlighting their primary areas of expertise and estimated experience level (e.g., Junior, Mid-level, Senior).",
      "",
      SectionHeading("Key Technical Skills"),
      "    A bulleted list of the main programming languages, frameworks, and technologies demonstrated in the repositories. Group related skills (e.g., Frontend, Backend, etc.).",
      "    ",
      SectionHeading("Common Tools & Platforms"),
      "    A short paragraph identifying the most frequently used tools, libraries, and platforms across the projects (e.g., Node.js, React, MongoDB, Python data science stack).",
      "",
      SectionHeading("Project Breakdown"),
      "    Provide a detailed, bulleted list for the most significant repositories. For each repository, provide a more robust description that covers:",
      "    - The project's main purpose and key features.",
      "    - The specific skills and technologies the project demonstrates. Elaborate beyond just listing the language. For example, instead of just \"JavaScript\", you could say \"Advanced JavaScript (ES6+), including asynchronous programming and DOM manipulation\".",
      "    Example:",
      "    * " + ExampleEntry,
      "",
      SectionHeading("Estimated Skill Level"),
      "    Provide an estimated skill level (e.g., Mid-level, Senior) and a brief justification based on the project variety, technologies used, and code structure suggested by the repository descriptions.",
      "",
      "    Be positive, professional, and use strong action verbs. Do not invent skills not supported by the repository data.",
      "  "
    ]

  /** The example repository entry of the "Project Breakdown" section,
      written after `* ` on its line. */
  const ExampleEntry: string :=
    "**react-dashboard-pro**: This project is a professional dashboard template that demonstrates the developer's ability to build complex, data-driven user interfaces. It showcases strong skills in React for component-based architecture, TypeScript for building scalable and type-safe applications, and Recharts for creating interactive data visualizations. The project structure suggests a good understanding of modern frontend development practices."

  /** The five section titles the template asks for, in order. */
  const SectionTitles: seq<string> := [
    "Overall Summary", "Key Technical Skills", "Common Tools & Platforms",
    "Project Breakdown", "Estimated Skill Level"
  ]

  /** Where the example entry's line sits in `TailLines`. */
  const ExampleEntryIndex: nat := 17

  /** Where each section's heading sits in `TailLines`. */
  const SectionHeadingIndices: seq<nat> := [3, 6, 9, 12, 19]

  /** `buildPrompt(username, repos)`. The repository block is written
      after the four spaces that open its line in the template, so only
      the first repository line carries that indentation. */
  function BuildPrompt(username: string, repos: seq<Repo>): string {
    if |repos| == 0 then Join(NoReposLines(username), "\n")
    else
      Join(HeadLines(username), "\n") + "\n" + "    " + RepoDetails(repos)
      + "\n" + Join(TailLines, "\n")
  }

  // ---------------------------------------------------------------------
  // What the prompt holds, line by line.
  // ---------------------------------------------------------------------

  /** With repositories, the prompt is one sequence of lines joined by
      line breaks: the introduction, the username, the list header, one
      line per repository in the sorted order (only the first indented
      by the template), then the request for the five sections. */
  lemma PromptLayout(username: string, repos: seq<Repo>)
    requires repos != []
    ensures var sorted := SortByStars(repos);
      BuildPrompt(username, repos)
      == Join(HeadLines(username) + ["    " + RepoLine(sorted[0])] + RepoLines(sorted[1..]) + TailLines, "\n")
  {
    var sorted := SortByStars(repos);
    var lines := RepoLines(sorted);
    assert lines[1..] == RepoLines(sorted[1..]);
    assert lines[0] == RepoLine(sorted[0]);
    JoinSplice(HeadLines(username), "    ", lines, TailLines, "\n");
  }

  /** The repository block has exactly one line per repository, and its
      `i`-th line describes the `i`-th repository in the sorted order,
      as long as no name, language or description holds a line break. */
  lemma RepoDetailsLines(repos: seq<Repo>)
    requires repos != []
    requires forall i :: 0 <= i < |repos| ==> SingleLine(repos[i])
    ensures Split(RepoDetails(repos), "\n") == RepoLines(SortByStars(repos))
    ensures |Split(RepoDetails(repos), "\n")| == |repos|
  {
    var sorted := SortByStars(repos);
    SortedSingleLine(repos);
    forall i | 0 <= i < |sorted| ensures '\n' !in RepoLines(sorted)[i] {
      assert RepoLines(sorted)[i] == RepoLine(sorted[i]);
    }
    SplitJoin(RepoLines(sorted), '\n');
  }

  lemma SortedSingleLine(repos: seq<Repo>)
    requires forall i :: 0 <= i < |repos| ==> SingleLine(repos[i])
    ensures forall i :: 0 <= i < |SortByStars(repos)| ==> SingleLine(SortByStars(repos)[i])
  {
    var sorted := SortByStars(repos);
    forall i | 0 <= i < |sorted| ensures SingleLine(sorted[i]) {
      assert sorted[i] in multiset(repos);
    }
  }

  /** The template's section headings are `### ` lines naming the five
      sections, in order. */
  lemma SectionHeadingLines()
    ensures |SectionHeadingIndices| == |SectionTitles|
    ensures forall k :: 0 <= k < |SectionTitles| ==>
      SectionHeadingIndices[k] < |TailLines| &&
      TailLines[SectionHeadingIndices[k]] == SectionHeading(SectionTitles[k])
  {
  }

  lemma ExampleEntryLine()
    ensures ExampleEntryIndex < |TailLines| && TailLines[ExampleEntryIndex] == "    * " + ExampleEntry
  {
  }

  /** Both branches quote the username verbatim. */
  lemma PromptNamesUser(username: string, repos: seq<Repo>)
    ensures exists k :: OccursAt(BuildPrompt(username, repos), username, k)
  {
    if repos == [] {
      NoReposNamesUser(username);
    } else {
      ReposNamesUser(username, repos);
    }
  }

  lemma NoReposNamesUser(username: string)
    ensures exists k :: OccursAt(BuildPrompt(username, []), username, k)
  {
    var before := "      The user with GitHub username \"";
    var after := "\" has no public repositories.";
    var a := ["", "      You are an expert tech recruiter."];
    var b := ["      Please write a friendly message encouraging them to make some repositories public to be analyzed.", "    "];
    assert NoReposLines(username) == a + [before + username + after] + b;
    QuotedInJoin(a, before, username, after, b, "\n");
    var p := Join(a + [before + username + after] + b, "\n");
    assert OccursAt(p, username, |Join(a, "\n")| + 1 + |before|);
    assert BuildPrompt(username, []) == p;
  }

  lemma ReposNamesUser(username: string, repos: seq<Repo>)
    requires repos != []
    ensures exists k :: OccursAt(BuildPrompt(username, repos), username, k)
  {
    var before := "    The developer's username is \"";
    var b := ["", ListHeader];
    var head := Join(HeadLines(username), "\n");
    assert HeadLines(username) == IntroLines + [before + username + "\"."] + b;
    QuotedInJoin(IntroLines, before, username, "\".", b, "\n");
    assert HeadLines(username) == IntroLines + [before + username + "\"."] + b;
    var k := |Join(IntroLines, "\n")| + 1 + |before|;
    assert OccursAt(head, username, k);
    var details := RepoDetails(repos);
    OccursAtAppend(head, "\n", username, k);
    OccursAtAppend(head + "\n", "    ", username, k);
    OccursAtAppend(head + "\n" + "    ", details, username, k);
    OccursAtAppend(head + "\n" + "    " + details, "\n", username, k);
    OccursAtAppend(head + "\n" + "    " + details + "\n", Join(TailLines, "\n"), username, k);
    assert OccursAt(BuildPrompt(username, repos), username, k);
  }
}
