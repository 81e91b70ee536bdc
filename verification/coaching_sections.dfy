/** The coaching text produced for a career transition is markdown; the
    results view cuts it into sections at every line that starts with "## ",
    takes the first line of each piece as the section's title and the rest as
    its body, and falls back to showing the raw text when no section comes
    out. */
module CoachingSections {
  import opened JsText

  datatype Section = Section(title: string, body: string)

  /** What the results view shows for a coaching text. */
  datatype CoachingView = RawText(text: string) | SectionCards(sections: seq<Section>)

  /** The separator "## " occurs at `q` and `q` starts a line: the places
      where the pattern /^## /m (multiline, so `^` also matches after any
      line terminator) matches. */
  predicate HeadingAt(s: string, q: int) {
    0 <= q && q + 3 <= |s| && s[q] == '#' && s[q + 1] == '#' && s[q + 2] == ' '
    && (q == 0 || IsLineTerminator(s[q - 1]))
  }

  /** The number of heading positions at or after `q`. */
  function HeadingCount(s: string, q: nat): nat
    decreases |s| - q
  {
    if q >= |s| then 0 else (if HeadingAt(s, q) then 1 else 0) + HeadingCount(s, q + 1)
  }

  /** The split loop of `String.prototype.split` with a regular expression:
      the current piece starts at `p`, the pattern is tried at `q`; on a match
      the piece ends at `q` and the next one starts after the separator. */
  function SplitFrom(s: string, p: nat, q: nat): (parts: seq<string>)
    requires p <= q <= |s|
    ensures |parts| >= 1
    decreases |s| - q
  {
    if q >= |s| then [s[p..]]
    else if HeadingAt(s, q) then [s[p..q]] + SplitFrom(s, q + 3, q + 3)
    else SplitFrom(s, p, q + 1)
  }

  /** `coaching.split(/^## /m)` */
  function Split(s: string): (parts: seq<string>)
    ensures |parts| >= 1
    ensures s == [] ==> parts == [[]]
  {
    SplitFrom(s, 0, 0)
  }

  /** The pieces put back together with the separator between them. */
  function Join(parts: seq<string>): string
    requires |parts| >= 1
  {
    if |parts| == 1 then parts[0] else parts[0] + "## " + Join(parts[1..])
  }

  /** A heading inside one piece, judged on the piece alone; only the first
      piece starts at the start of a line. */
  predicate HeadingInPiece(piece: string, j: int, first: bool) {
    0 <= j && j + 3 <= |piece| && piece[j] == '#' && piece[j + 1] == '#' && piece[j + 2] == ' '
    && ((j == 0 && first) || (j > 0 && IsLineTerminator(piece[j - 1])))
  }

  ghost predicate NoHeadingInPiece(piece: string, first: bool) {
    forall j :: !HeadingInPiece(piece, j, first)
  }

  /** Splitting loses nothing: the pieces joined with "## " give back the text. */
  lemma {:induction false} SplitFromJoin(s: string, p: nat, q: nat)
    requires p <= q <= |s|
    ensures Join(SplitFrom(s, p, q)) == s[p..]
    decreases |s| - q
  {
    if q >= |s| {
    } else if HeadingAt(s, q) {
      SplitFromJoin(s, q + 3, q + 3);
      var rest := SplitFrom(s, q + 3, q + 3);
      assert ([s[p..q]] + rest)[1..] == rest;
      assert s[q..q + 3] == "## ";
      assert s[p..] == s[p..q] + s[q..q + 3] + s[q + 3..];
    } else {
      SplitFromJoin(s, p, q + 1);
    }
  }

  lemma SplitJoin(s: string)
    ensures Join(Split(s)) == s
  {
    SplitFromJoin(s, 0, 0);
  }

  /** A heading at `q` rules out headings at the next two positions, which
      hold '#' and so do not end a line. */
  lemma HeadingsApart(s: string, q: nat)
    requires HeadingAt(s, q)
    ensures HeadingCount(s, q) == 1 + HeadingCount(s, q + 3)
  {
    assert !HeadingAt(s, q + 1) && !HeadingAt(s, q + 2);
    if q + 1 < |s| {
      if q + 2 < |s| {
        assert HeadingCount(s, q + 2) == HeadingCount(s, q + 3);
      }
    }
  }

  /** One piece per heading, plus one. */
  lemma {:induction false} SplitFromCount(s: string, p: nat, q: nat)
    requires p <= q <= |s|
    ensures |SplitFrom(s, p, q)| == HeadingCount(s, q) + 1
    decreases |s| - q
  {
    if q >= |s| {
    } else if HeadingAt(s, q) {
      SplitFromCount(s, q + 3, q + 3);
      HeadingsApart(s, q);
    } else {
      SplitFromCount(s, p, q + 1);
    }
  }

  lemma SplitCount(s: string)
    ensures |Split(s)| == HeadingCount(s, 0) + 1
  {
    SplitFromCount(s, 0, 0);
  }

  /** No piece holds a line-start "## " of its own: the text is cut at every
      heading and nowhere else. */
  lemma {:induction false} SplitFromNoHeadingInside(s: string, p: nat, q: nat)
    requires p <= q <= |s|
    requires p > 0 ==> s[p - 1] == ' '
    requires forall k :: p <= k < q ==> !HeadingAt(s, k)
    ensures var parts := SplitFrom(s, p, q);
      NoHeadingInPiece(parts[0], p == 0)
      && forall i :: 0 < i < |parts| ==> NoHeadingInPiece(parts[i], false)
    decreases |s| - q
  {
    var parts := SplitFrom(s, p, q);
    if q >= |s| {
      PieceHasNoHeading(s, p, |s|);
      assert s[p..|s|] == s[p..];
    } else if HeadingAt(s, q) {
      PieceHasNoHeading(s, p, q);
      SplitFromNoHeadingInside(s, q + 3, q + 3);
      var rest := SplitFrom(s, q + 3, q + 3);
      assert parts == [s[p..q]] + rest;
      forall i | 0 < i < |parts| ensures NoHeadingInPiece(parts[i], false) {
        assert parts[i] == rest[i - 1];
      }
    } else {
      SplitFromNoHeadingInside(s, p, q + 1);
    }
  }

  /** A piece `s[p..r]` with no heading between `p` and `r` has no heading of
      its own. */
  lemma PieceHasNoHeading(s: string, p: nat, r: nat)
    requires p <= r <= |s|
    requires p > 0 ==> s[p - 1] == ' '
    requires forall k :: p <= k < r ==> !HeadingAt(s, k)
    ensures NoHeadingInPiece(s[p..r], p == 0)
  {
    var piece, first := s[p..r], p == 0;
    forall j ensures !HeadingInPiece(piece, j, first) {
      if 0 <= j && j + 3 <= r - p {
        assert !HeadingAt(s, p + j);
      }
    }
  }

  lemma SplitNoHeadingInside(s: string)
    ensures var parts := Split(s);
      NoHeadingInPiece(parts[0], true)
      && forall i :: 0 < i < |parts| ==> NoHeadingInPiece(parts[i], false)
  {
    SplitFromNoHeadingInside(s, 0, 0);
  }

  /** The section made from one trimmed, non-blank piece: its first line is
      the title, the rest the body, both trimmed. */
  function SectionOf(trimmed: string): (r: Section)
    requires trimmed != [] && IsTrimmed(trimmed)
    ensures r.title != [] && IsTrimmed(r.title) && IsTrimmed(r.body)
    ensures '\n' !in r.title
    ensures '\n' !in trimmed ==> r == Section(trimmed, "")
    ensures |r.title| + |r.body| < |trimmed| || r == Section(trimmed, "")
    ensures '\n' in trimmed ==>
      exists k :: (0 < k < |trimmed| && trimmed[k] == '\n' && '\n' !in trimmed[..k]
        && r.title == Trim(trimmed[..k]) && r.body == Trim(trimmed[k + 1..]))
  {
    var newlineIdx := IndexOf(trimmed, '\n');
    if newlineIdx == -1 then
      Section(trimmed, "")
    else
      assert newlineIdx > 0 by { assert IsTrimmable('\n'); }
      var head := trimmed[..newlineIdx];
      assert !IsBlank(head) by { assert head[0] == trimmed[0]; }
      var title := Trim(head);
      assert '\n' !in title by {
        forall k | 0 <= k < |title| ensures title[k] != '\n' {
          assert title[k] in head;
        }
      }
      Section(title, Trim(trimmed[newlineIdx + 1..]))
  }

  /** The sections the loop collects from the pieces, in order: blank pieces
      are skipped, every other piece gives one section. */
  function SectionsOf(parts: seq<string>): (r: seq<Section>)
    ensures |r| <= |parts|
    ensures forall i :: 0 <= i < |r| ==> r[i].title != [] && IsTrimmed(r[i].title) && IsTrimmed(r[i].body)
    ensures r == [] <==> forall i :: 0 <= i < |parts| ==> IsBlank(parts[i])
  {
    if parts == [] then []
    else
      var last := Trim(parts[|parts| - 1]);
      var init := SectionsOf(parts[..|parts| - 1]);
      assert forall i :: 0 <= i < |parts| - 1 ==> parts[..|parts| - 1][i] == parts[i];
      if last == [] then init else init + [SectionOf(last)]
  }

  /** `parseSections(coaching)`: at most one section per piece of the split,
      every title non-empty and trimmed, and none at all exactly when every
      piece is blank. */
  function Sections(coaching: string): (r: seq<Section>)
    ensures |r| <= HeadingCount(coaching, 0) + 1
    ensures forall i :: 0 <= i < |r| ==> r[i].title != [] && IsTrimmed(r[i].title) && IsTrimmed(r[i].body)
    ensures r == [] <==> forall i :: 0 <= i < |Split(coaching)| ==> IsBlank(Split(coaching)[i])
  {
    SplitCount(coaching);
    SectionsOf(Split(coaching))
  }

  /** One more piece adds its section, unless it is blank. */
  lemma SectionsOfStep(parts: seq<string>, k: nat)
    requires k < |parts|
    ensures var trimmed := Trim(parts[k]);
      SectionsOf(parts[..k + 1])
        == if trimmed == [] then SectionsOf(parts[..k]) else SectionsOf(parts[..k]) + [SectionOf(trimmed)]
  {
    assert parts[..k + 1][..k] == parts[..k];
  }

  /** parseSections: walks the pieces of the split, skips blank ones and
      pushes one section for every other piece. */
  method ParseSections(coaching: string) returns (sections: seq<Section>)
    ensures sections == Sections(coaching)
    ensures |sections| <= HeadingCount(coaching, 0) + 1
    ensures forall i :: 0 <= i < |sections| ==> sections[i].title != []
  {
    var parts := Split(coaching);
    sections := [];
    for k := 0 to |parts|
      invariant sections == SectionsOf(parts[..k])
    {
      SectionsOfStep(parts, k);
      var trimmed := Trim(parts[k]);
      if trimmed == [] {
        continue;
      }
      var newlineIdx := IndexOf(trimmed, '\n');
      var section;
      if newlineIdx == -1 {
        section := Section(trimmed, "");
      } else {
        section := Section(Trim(trimmed[..newlineIdx]), Trim(trimmed[newlineIdx + 1..]));
      }
      assert section == SectionOf(trimmed);
      sections := sections + [section];
    }
    assert parts[..|parts|] == parts;
  }

  /** Sections keep the order of the pieces they come from: collecting over
      two runs of pieces one after the other gives the two results one after
      the other. */
  lemma {:induction false} SectionsOfConcat(a: seq<string>, b: seq<string>)
    ensures SectionsOf(a + b) == SectionsOf(a) + SectionsOf(b)
    decreases |b|
  {
    if b == [] {
      assert a + b == a;
    } else {
      var b' := b[..|b| - 1];
      assert (a + b)[..|a + b| - 1] == a + b';
      assert (a + b)[|a + b| - 1] == b[|b| - 1];
      SectionsOfConcat(a, b');
    }
  }

  /** A blank coaching text has no heading, so it is one blank piece and
      gives no section. */
  lemma BlankHasNoSections(coaching: string)
    ensures IsBlank(coaching) ==> Sections(coaching) == []
  {
    if IsBlank(coaching) {
      NoHashNoHeadings(coaching, 0);
      SplitCount(coaching);
      SplitJoin(coaching);
      assert Split(coaching) == [coaching];
    }
  }

  lemma {:induction false} NoHashNoHeadings(s: string, q: nat)
    requires IsBlank(s)
    ensures HeadingCount(s, q) == 0
    decreases |s| - q
  {
    if q < |s| {
      assert !IsTrimmable('#');
      assert !HeadingAt(s, q);
      NoHashNoHeadings(s, q + 1);
    }
  }

  /** Non-blank text before the first heading becomes the first section. */
  lemma LeadingSection(coaching: string)
    ensures var lead := Split(coaching)[0];
      |lead| <= |coaching| && lead == coaching[..|lead|]
      && (!IsBlank(lead) ==> Sections(coaching)[0] == SectionOf(Trim(lead)))
  {
    var parts := Split(coaching);
    SplitJoin(coaching);
    if |parts| > 1 {
      assert Join(parts) == parts[0] + ("## " + Join(parts[1..]));
    }
    SectionsOfConcat([parts[0]], parts[1..]);
    assert [parts[0]] + parts[1..] == parts;
    assert [parts[0]][..0] == [];
  }

  /** The results view: section cards, or the raw text when parsing gives no
      section. */
  function Render(coaching: string): (v: CoachingView)
    ensures v.RawText? <==> forall i :: 0 <= i < |Split(coaching)| ==> IsBlank(Split(coaching)[i])
    ensures v.RawText? ==> v.text == coaching
    ensures v.SectionCards? ==> v.sections != [] && v.sections == Sections(coaching)
    ensures IsBlank(coaching) ==> v == RawText(coaching)
  {
    BlankHasNoSections(coaching);
    var sections := Sections(coaching);
    if |sections| == 0 then RawText(coaching) else SectionCards(sections)
  }

  /** A text made of a bare separator is not blank, yet gives no section and
      is shown raw. */
  lemma BareSeparatorShownRaw()
    ensures Render("## ") == RawText("## ")
  {
    assert HeadingAt("## ", 0);
    assert "## "[3..] == [];
    assert SplitFrom("## ", 3, 3) == [""];
    assert Split("## ") == ["", ""];
    assert IsBlank("");
  }
}
