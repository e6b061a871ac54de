/** How the renderer reads the Markdown conventions the prompt itself
    uses: the template asks for `### ` section headings and `* ` bullet
    items, and writes each repository name between `**`. */
module PromptRendering {
  import opened Wrappers
  import opened JsString
  import opened Types
  import opened SummaryDisplay
  import opened GeminiService

  /** A section heading of the template is a heading line for the
      renderer, whose text is the section title. */
  lemma SectionHeadingClassified(title: string)
    requires title != [] && !IsTrimmable(title[0]) && !IsTrimmable(title[|title| - 1])
    ensures Classify(SectionHeading(title)) == HeadingLine(title)
  {
    var marked := "### " + title;
    assert SectionHeading(title) == "    " + marked;
    TrimPadded("    ", marked);
    ClassifyCases(SectionHeading(title));
    assert marked[..4] == "### ";
    assert marked[4..] == title;
  }

  /** All five sections the prompt asks for render as headings titled as
      in the template. */
  lemma TemplateSectionsRender()
    ensures forall k :: 0 <= k < |SectionTitles| ==>
      Classify(TailLines[SectionHeadingIndices[k]]) == HeadingLine(SectionTitles[k])
  {
    SectionHeadingLines();
    forall k | 0 <= k < |SectionTitles|
      ensures Classify(TailLines[SectionHeadingIndices[k]]) == HeadingLine(SectionTitles[k])
    {
      SectionHeadingClassified(SectionTitles[k]);
    }
  }

  /** An indented `* ` line whose entry does not end in white space is a
      bullet line whose item is made from the entry. */
  lemma IndentedBulletClassified(pad: string, entry: string)
    requires forall k :: 0 <= k < |pad| ==> IsTrimmable(pad[k])
    requires entry != [] && !IsTrimmable(entry[|entry| - 1])
    ensures Classify(pad + "* " + entry) == BulletLine(BulletItem(entry))
  {
    var e := "* " + entry;
    assert e[|e| - 1] == entry[|entry| - 1];
    TrimPadded(pad, e);
    assert pad + "* " + entry == pad + e;
    assert e[..2] == "* " && e[2..] == entry;
    assert !StartsWith(e, "### ") by {
      assert |e| >= 4 ==> e[..4][0] == e[0] == '*';
    }
  }

  /** The template's example repository entry is a bullet line for the
      renderer: its item is made from the entry's text. */
  lemma ExampleEntryRenders()
    ensures Classify(TailLines[ExampleEntryIndex]) == BulletLine(BulletItem(ExampleEntry))
  {
    ExampleEntryLine();
    assert ExampleEntry[|ExampleEntry| - 1] == '.';
    IndentedBulletClassified("    ", ExampleEntry);
    assert "    " + "* " == "    * ";
  }

  /** The lazy search for a closing `**` stops at the first one when no
      line terminator comes before it. */
  lemma {:induction false} CloseFromFirst(s: string, j: nat, k: nat)
    requires j <= k && PairAt(s, k)
    requires forall m :: j <= m < k ==> !PairAt(s, m) && !IsLineTerminator(s[m])
    ensures CloseFrom(s, j) == Some(k)
    decreases k - j
  {
    if j < k {
      CloseFromFirst(s, j + 1, k);
    }
  }

  /** A name free of `*` and of line terminators, written between `**`
      after `- `, is read back as that bold name. */
  lemma BoldLead(t: string, name: string)
    requires StartsWith(t, "- **" + name + "**")
    requires forall i :: 0 <= i < |name| ==> name[i] != '*' && !IsLineTerminator(name[i])
    ensures |ParseBold(t)| >= 2
    ensures ParseBold(t)[0] == Plain("- ") && ParseBold(t)[1] == Bold(name)
  {
    var n := |name|;
    var lead := "- **" + name + "**";
    assert t[..|lead|] == lead;
    assert t[0] == '-' && t[1] == ' ' && t[2] == '*' && t[3] == '*';
    assert t[4 + n] == '*' && t[5 + n] == '*';
    forall m | 4 <= m < 4 + n ensures !PairAt(t, m) && !IsLineTerminator(t[m]) {
      assert t[m] == name[m - 4];
    }
    CloseFromFirst(t, 4, 4 + n);
    assert t[4..4 + n] == name;
    assert t[0..2] == "- ";
    assert ScanBold(t, 2, 0) == [Plain("- ")] + [Bold(name)] + ScanBold(t, 6 + n, 6 + n);
    assert ScanBold(t, 0, 0) == ScanBold(t, 1, 0) == ScanBold(t, 2, 0);
  }

  /** Trimming a repository line keeps its `- **name**` opening. */
  lemma RepoLineTrimmedLead(repo: Repo)
    ensures StartsWith(Trim(RepoLine(repo)), "- **" + repo.name + "**")
  {
    var s := RepoLine(repo);
    var lead := "- **" + repo.name + "**: (Language: ";
    var bold := "- **" + repo.name + "**:";
    assert s[..|lead|] == lead;
    assert lead[..|bold|] == bold;
    assert s[..|bold|] == bold;
    TrimKeepsPrefix(s, bold);
    var t := Trim(s);
    assert t[..|bold| - 1] == "- **" + repo.name + "**";
  }

  /** A line whose trimmed text opens with `- **name**` is a paragraph
      starting with `- ` and the name in bold. */
  lemma BoldLeadParagraph(s: string, name: string)
    requires StartsWith(Trim(s), "- **" + name + "**")
    requires forall i :: 0 <= i < |name| ==> name[i] != '*' && !IsLineTerminator(name[i])
    ensures Classify(s).ParagraphLine?
    ensures |Classify(s).spans| >= 2
    ensures Classify(s).spans[0] == Plain("- ") && Classify(s).spans[1] == Bold(name)
  {
    var t := Trim(s);
    assert t[0] == '-';
    assert t[..4][0] == '-' && t[..2][0] == '-';
    assert !StartsWith(t, "### ") && !StartsWith(t, "* ");
    assert Classify(s) == ParagraphLine(ParseBold(t));
    BoldLead(t, name);
  }

  /** Were a repository line of the prompt given to the renderer, it
      would be a paragraph opening with `- ` and the repository's name in
      bold, provided the name holds no `*` and no line terminator. */
  lemma RepoLineRendersBoldName(repo: Repo)
    requires forall i :: 0 <= i < |repo.name| ==> repo.name[i] != '*' && !IsLineTerminator(repo.name[i])
    ensures Classify(RepoLine(repo)).ParagraphLine?
    ensures |Classify(RepoLine(repo)).spans| >= 2
    ensures Classify(RepoLine(repo)).spans[0] == Plain("- ")
    ensures Classify(RepoLine(repo)).spans[1] == Bold(repo.name)
  {
    RepoLineTrimmedLead(repo);
    BoldLeadParagraph(RepoLine(repo), repo.name);
  }
}
