/**
 * The script's only logic: take the text of CHANGELOG.md, find the first
 * second-level heading that starts a line, and keep the stripped text before it.
 */
module LastChangelog {
  import opened PyStr

  /** The boundary between two entries: a newline followed by a `## ` heading. */
  const Separator: string := "\n## "

  /**
   * `changelog[:changelog.find("\n## ")].strip()`. When the separator is
   * missing, `find` gives -1 and the slice drops the final character.
   */
  function LastEntry(changelog: string): (log: string)
    ensures NoOuterSpace(log)
  {
    var index := Find(changelog, Separator);
    Strip(PySliceTo(changelog, index))
  }

  /** `log` is the piece of `changelog` at offset `lo`, ending at or before every separator. */
  ghost predicate LiesBeforeSeparators(changelog: string, log: string, lo: int) {
    0 <= lo && lo + |log| <= |changelog| && changelog[lo..lo + |log|] == log
    && forall p :: Occurs(changelog, Separator, p) ==> lo + |log| <= p
  }

  /** With a separator present, the entry is the stripped text before its first occurrence. */
  lemma CutAtFirstSeparator(changelog: string, p: int)
    requires Occurs(changelog, Separator, p)
    requires forall j :: 0 <= j < p ==> !Occurs(changelog, Separator, j)
    ensures LastEntry(changelog) == Strip(changelog[..p])
  {
    FindIsFirstOccurrence(changelog, Separator, p);
  }

  /**
   * With no separator anywhere, `find` gives -1 and `[:-1]` drops the last
   * character: the entry is the stripped text minus its final character.
   */
  lemma WithoutSeparatorDropsFinalChar(changelog: string)
    requires forall j :: !Occurs(changelog, Separator, j)
    ensures changelog == [] ==> LastEntry(changelog) == []
    ensures changelog != [] ==> LastEntry(changelog) == Strip(changelog[..|changelog| - 1])
  {
    var index := Find(changelog, Separator);
    assert !Occurs(changelog, Separator, index);
    assert index == -1;
    if changelog != [] {
      NegativeStopCountsFromEnd(changelog, |changelog| - 1);
    }
  }

  /**
   * Dropping a trailing whitespace character before stripping changes nothing,
   * since `Strip` would remove it anyway.
   */
  lemma StripDropsTrailingSpace(c: string)
    requires c != [] && IsSpace(c[|c| - 1])
    ensures Strip(c[..|c| - 1]) == Strip(c)
  {
    var d := c[..|c| - 1];
    var r := Strip(d);
    var lo :| IsStripOf(d, r, lo);
    assert c == d + [c[|c| - 1]];
    StripOfAppendSpace(d, c[|c| - 1], r, lo);
    var lo' :| IsStripOf(c, Strip(c), lo');
    StripIsUnique(c, r, lo, Strip(c), lo');
  }

  /**
   * A changelog with no separator that is empty or ends in whitespace (a final
   * newline, say) yields its whole text, stripped: the character `[:-1]` drops
   * is one `Strip` would remove.
   */
  lemma EndsInSpaceUnaffected(c: string)
    requires forall j :: !Occurs(c, Separator, j)
    requires c == [] || IsSpace(c[|c| - 1])
    ensures LastEntry(c) == Strip(c)
  {
    WithoutSeparatorDropsFinalChar(c);
    if c != [] {
      StripDropsTrailingSpace(c);
    }
  }

  /** The entry has no whitespace at either end, so stripping it again changes nothing. */
  lemma LastEntryIsTrimmed(changelog: string)
    ensures NoOuterSpace(LastEntry(changelog))
    ensures Strip(LastEntry(changelog)) == LastEntry(changelog)
  {
    StripKeepsTrimmed(LastEntry(changelog));
  }

  /** The entry is a contiguous piece of the changelog that ends before the first separator. */
  lemma LastEntryLiesBeforeSeparators(changelog: string)
    ensures exists lo :: LiesBeforeSeparators(changelog, LastEntry(changelog), lo)
  {
    var index := Find(changelog, Separator);
    var head := PySliceTo(changelog, index);
    var log := LastEntry(changelog);
    var lo :| IsStripOf(head, log, lo);
    SliceOfPrefix(changelog, |head|, lo, lo + |log|);
    forall p | Occurs(changelog, Separator, p)
      ensures lo + |log| <= p
    {
      assert 0 <= index <= p && head == changelog[..index];
    }
    assert LiesBeforeSeparators(changelog, log, lo);
  }

  /** The entry never contains the separator. */
  lemma LastEntryHasNoSeparator(changelog: string)
    ensures forall j :: !Occurs(LastEntry(changelog), Separator, j)
  {
    var log := LastEntry(changelog);
    LastEntryLiesBeforeSeparators(changelog);
    var lo :| LiesBeforeSeparators(changelog, log, lo);
    forall j | Occurs(log, Separator, j)
      ensures false
    {
      OccursInPiece(changelog, log, lo, Separator, j);
    }
  }

  /**
   * A `## ` heading at the very start of the text is not a boundary, since it
   * has no newline before it: the entry keeps that heading's `##`.
   */
  lemma LeadingHeadingIsNotABoundary(changelog: string)
    requires |changelog| >= 3 && changelog[..3] == "## "
    ensures Find(changelog, Separator) != 0
    ensures |LastEntry(changelog)| >= 2 && LastEntry(changelog)[..2] == "##"
  {
    var index := Find(changelog, Separator);
    if index >= 0 {
      assert changelog[index] == Separator[0] == '\n';
      assert changelog[0] == '#' && changelog[1] == '#' && changelog[2] == ' ';
      assert index >= 3;
    }
    var head := PySliceTo(changelog, index);
    assert |head| >= 2 && head[0] == '#' && head[1] == '#';
    var log := LastEntry(changelog);
    var lo :| IsStripOf(head, log, lo);
    assert lo == 0 && log != [];
    assert head[1] == log[1];
  }

  /**
   * A changelog without a separator loses its final character, as the slice
   * `[:-1]` does, so the entry differs from the whole text stripped.
   */
  lemma NoSeparatorExample()
    ensures LastEntry("abc") == "ab"
    ensures LastEntry("") == ""
    ensures LastEntry("abc") != Strip("abc")
  {
    WithoutSeparatorDropsFinalChar("abc");
    StripKeepsTrimmed("ab");
    StripKeepsTrimmed("abc");
  }

  /**
   * When the text before a separator has no newline except possibly as its
   * last character, that separator is the first one and the entry is that
   * text, stripped.
   */
  lemma EntryBeforeFirstHeading(title: string, rest: string)
    requires forall k :: 0 <= k < |title| - 1 ==> title[k] != '\n'
    ensures LastEntry(title + Separator + rest) == Strip(title)
  {
    var c := title + Separator + rest;
    assert c[..|title|] == title;
    assert c[|title|..|title| + |Separator|] == Separator;
    forall j | 0 <= j < |title| && Occurs(c, Separator, j)
      ensures false
    {
      OccursCharAt(c, Separator, j, 0);
      if j == |title| - 1 {
        OccursCharAt(c, Separator, j, 1);
      }
    }
    CutAtFirstSeparator(c, |title|);
  }

  /** `# MyProj` followed by a newline: no newline before its end, and it strips to `# MyProj`. */
  lemma TitleLine()
    ensures forall k :: 0 <= k < |"# MyProj\n"| - 1 ==> "# MyProj\n"[k] != '\n'
    ensures Strip("# MyProj\n") == "# MyProj"
  {
    assert IsStripOf("# MyProj\n", "# MyProj", 0);
    StripIsUnique("# MyProj\n", "# MyProj", 0, Strip("# MyProj\n"), LeadingSpace("# MyProj\n"));
  }

  /** A title, then two entries: the title is what is kept. */
  lemma TitleBeforeFirstHeadingExample(rest: string)
    ensures LastEntry("# MyProj\n" + Separator + rest) == "# MyProj"
  {
    TitleLine();
    EntryBeforeFirstHeading("# MyProj\n", rest);
  }
}
