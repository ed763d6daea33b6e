/**
 * The description excerpt on a job card: `description.substring(0, description.indexOf("."))`
 * rendered with a `.` after it.
 */
module JobCard {
  import opened JsText

  /**
   * The part of the description before its first `.`. When there is no `.`, `indexOf`
   * gives -1, which `substring` clamps to 0, so the excerpt is empty.
   */
  function Excerpt(description: string): (r: string)
    ensures |r| <= |description| && r == description[..|r|]
    ensures '.' !in r
    ensures '.' in description ==> |r| < |description| && description[|r|] == '.'
    ensures '.' !in description ==> r == []
  {
    var dot := IndexOf(description, ".");
    assert dot >= 0 ==> description[dot] == '.' by {
      if dot >= 0 { assert description[dot..dot + 1] == "."; }
    }
    assert '.' in description ==> dot >= 0 by {
      if '.' in description {
        var k :| 0 <= k < |description| && description[k] == '.';
        assert MatchesAt(description, k, ".");
      }
    }
    assert dot >= 0 ==> '.' !in description[..dot] by {
      if dot >= 0 {
        forall k | 0 <= k < dot ensures description[k] != '.' {
          assert !MatchesAt(description, k, ".");
        }
      }
    }
    Substring(description, 0, dot)
  }

  /** The text the card shows: the excerpt followed by one `.`. */
  function RenderedExcerpt(description: string): string
  {
    Excerpt(description) + "."
  }

  /** A description with a `.` shows exactly its first sentence, up to and including that `.`. */
  lemma RenderedIsFirstSentence(description: string)
    requires '.' in description
    ensures var r := RenderedExcerpt(description);
            |r| <= |description| && r == description[..|r|] && '.' !in r[..|r| - 1]
  {
    PrefixThenDot(description, Excerpt(description));
  }

  /** A dot-free prefix that the text continues with a `.` extends, with that `.`, to a longer prefix. */
  lemma PrefixThenDot(d: string, e: string)
    requires |e| < |d| && e == d[..|e|] && d[|e|] == '.' && '.' !in e
    ensures var r := e + "."; |r| <= |d| && r == d[..|r|] && '.' !in r[..|r| - 1]
  {
    assert d[..|e| + 1] == e + ".";
    assert (e + ".")[..|e|] == e;
  }

  /** A description without a `.` shows only the `.`. */
  lemma RenderedWithoutDot(description: string)
    requires '.' !in description
    ensures RenderedExcerpt(description) == "."
  {
  }

  /** A description that starts with `.` has an empty excerpt. */
  lemma ExcerptOfLeadingDot(description: string)
    requires description != [] && description[0] == '.'
    ensures Excerpt(description) == []
  {
    assert '.' in description;
  }

  /** A concrete description without a `.` whose card shows nothing but the `.`. */
  lemma ExcerptDropsDotlessDescription()
    ensures RenderedExcerpt("Remote role") == "."
  {
    RenderedWithoutDot("Remote role");
  }

  /**
   * The first sentence as evidently intended: the text before the first `.`, or the whole
   * description when it has none.
   */
  function FirstSentence(description: string): (r: string)
    ensures |r| <= |description| && r == description[..|r|]
    ensures '.' !in r
    ensures r == description || description[|r|] == '.'
  {
    if '.' in description then Excerpt(description) else description
  }

  /** The intended first sentence is empty only when the description is empty or starts with `.`. */
  lemma FirstSentenceNonEmpty(description: string)
    ensures FirstSentence(description) == [] <==> description == [] || description[0] == '.'
  {
    if description != [] && description[0] != '.' && '.' in description {
      assert Excerpt(description) != [];
    }
  }
}
