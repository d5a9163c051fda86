/**
  Worked examples of the query path on concrete values: a small history
  filtered for "apple", the label of a two-line entry, and the two status
  messages.
 */
module Scenarios {
  import opened Text
  import opened Formatter
  import opened Query

  /** Filtering a three-entry history for "apple" keeps the two entries that
      contain it, in history order. */
  lemma AppleHistoryMatches()
    ensures Matches(["apple\npie", "banana", "apple tart"], "apple", 20) == ["apple\npie", "apple tart"]
  {
    var h := ["apple\npie", "banana", "apple tart"];
    assert EntryMatches("apple", h[0]) by {
      assert Lower("apple\npie") == "apple\npie";
      assert OccursAt("apple\npie", "apple", 0);
    }
    BananaLacksApple();
    assert EntryMatches("apple", h[2]) by {
      assert Lower("apple tart") == "apple tart";
      assert OccursAt("apple tart", "apple", 0);
    }
    assert h[2..][1..] == [];
    assert AllMatches(h[2..], "apple") == ["apple tart"];
    assert h[1..][1..] == h[2..];
    assert AllMatches(h[1..], "apple") == ["apple tart"];
    assert AllMatches(h, "apple") == ["apple\npie", "apple tart"];
  }

  /** "banana" does not contain "apple": it has no `p` where one would be needed. */
  lemma BananaLacksApple()
    ensures !EntryMatches("apple", "banana")
  {
    assert Lower("banana") == "banana";
    forall i | 0 <= i <= 1 ensures !OccursAt("banana", "apple", i) {
      assert "banana"[i + 1] != 'p';
    }
  }

  /** A string with no whitespace at either end is its own `strip()`. */
  lemma StripPlain(s: string)
    requires |s| > 0 && !IsSpace(s[0]) && !IsSpace(s[|s| - 1])
    ensures Strip(s) == s
  {
  }

  /** A two-line entry splits into its two lines. */
  lemma AppleEntryLines()
    ensures EntryLines("apple\npie") == ["apple", "pie"]
  {
    var e := "apple\npie";
    StripPlain(e);
    SplitNoSep("pie", NL);
    assert e == "apple" + [NL] + "pie";
    SplitAtSep("apple", "pie", NL);
  }

  /** The query "apple" anchors on the first line. */
  lemma AppleEntryAnchor()
    ensures SomeLineMatches("apple", ["apple", "pie"]) && AnchorIndex("apple", ["apple", "pie"]) == 0
  {
    var lines := ["apple", "pie"];
    assert Lower("apple") == "apple";
    assert OccursAt("apple", "apple", 0);
    assert LineMatches("apple", lines[0]);
  }

  /** The window around the first line shows the second line as trailing context. */
  lemma AppleEntryWindow()
    ensures Window(["apple", "pie"], 0) == ["apple", "pie..."]
  {
    var lines := ["apple", "pie"];
    StripPlain("pie");
    assert !ShowsBefore(lines, 0);
    assert ShowsAfter(lines, 0);
    assert Strip(lines[1]) + Ellipsis == "pie...";
  }

  /** The joined window, spelled out as a string literal. */
  lemma AppleLabelText()
    ensures "apple" + [NL] + "pie..." == "apple\npie..."
  {
    var a := "apple" + [NL] + "pie...";
    assert |a| == 12;
    forall i | 0 <= i < 12 ensures a[i] == "apple\npie..."[i] {
    }
  }

  /** `format_entry` for query "apple" on "apple\npie" labels the row
      "apple\npie...". */
  lemma AppleEntryLabel()
    ensures Formattable("apple", "apple\npie") && FormatEntry("apple", "apple\npie").name == "apple\npie..."
  {
    var e := "apple\npie";
    var lines := EntryLines(e);
    AppleEntryLines();
    AppleEntryAnchor();
    assert Formattable("apple", e);
    AppleEntryWindow();
    var w := Window(lines, AnchorIndex("apple", lines));
    assert w == ["apple", "pie..."];
    assert FormatEntry("apple", e).name == Join(w, NL);
    assert Join(w, NL) == "apple" + [NL] + Join(w[1..], NL);
    assert w[1..] == ["pie..."];
    assert Join(w[1..], NL) == "pie...";
    AppleLabelText();
  }

  /** An empty query over an empty history reports an empty history. */
  lemma EmptyHistoryStatus()
    ensures Respond([], "", 20) == Status(EmptyHistoryMessage)
  {
  }

  /** A query that no entry contains reports that nothing matched. */
  lemma NoMatchStatus()
    ensures Matches(["apple\npie", "banana"], "zzz", 20) == []
    ensures Respond(["apple\npie", "banana"], "zzz", 20) == Status(NoMatchesMessage)
  {
    assert !EntryMatches("zzz", "apple\npie") by {
      assert Lower("apple\npie") == "apple\npie";
      forall i | 0 <= i <= 6 ensures !OccursAt("apple\npie", "zzz", i) {
        assert "apple\npie"[i] != 'z';
      }
    }
    assert !EntryMatches("zzz", "banana") by {
      assert Lower("banana") == "banana";
      forall i | 0 <= i <= 3 ensures !OccursAt("banana", "zzz", i) {
        assert "banana"[i] != 'z';
      }
    }
  }
}
