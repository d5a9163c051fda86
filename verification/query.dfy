/**
  The query path of `Clipboard.on_query_change` once a backend has been
  chosen and its history fetched: filtering the history by the query, spending
  the display budget on the formatted matches, and choosing between the result
  list and a status message.

  The budget is kept in twentieths of a line, so that the per-entry cost
  `max(1, lines * 0.85)` becomes the integer `max(20, 17 * lines)` and the
  limit `max_lines` becomes `20 * max_lines`.
 */
module Query {
  import opened Text
  import opened Formatter

  datatype Option<T> = None | Some(value: T)

  /** What the launcher gets back: result rows, or a single status message. */
  datatype Response = Results(items: seq<DisplayResult>) | Status(message: string)

  const NoMatchesMessage: string := "No matches in clipboard history"
  const EmptyHistoryMessage: string := "Clipboard history is empty"

  /** `(event.get_argument() or '').lower()`: a missing argument is the empty
      query; otherwise every upper-case letter is lowered and nothing else
      changes, so the query is already in lower case. */
  function NormalizeQuery(argument: Option<string>): (query: string)
    ensures argument.None? ==> query == ""
    ensures argument.Some? ==> |query| == |argument.value|
    ensures argument.Some? ==> forall i :: 0 <= i < |query| ==>
      if IsUpper(argument.value[i]) then query[i] as int == argument.value[i] as int + 32
      else query[i] == argument.value[i]
    ensures Lower(query) == query
  {
    LowerIdempotent(if argument.Some? then argument.value else "");
    match argument
    case None => ""
    case Some(text) => Lower(text)
  }

  /** `query in entry.lower()`. */
  predicate EntryMatches(query: string, entry: string) {
    Contains(Lower(entry), query)
  }

  /** `a` can be obtained from `b` by deleting elements, keeping the order. */
  predicate IsSubsequence(a: seq<string>, b: seq<string>)
    decreases |b|
  {
    if |a| == 0 then true
    else if |b| == 0 then false
    else if a[0] == b[0] then IsSubsequence(a[1..], b[1..])
    else IsSubsequence(a, b[1..])
  }

  /** Every prefix of a subsequence is a subsequence. */
  lemma {:induction false} PrefixOfSubsequence(a: seq<string>, b: seq<string>, n: nat)
    requires IsSubsequence(a, b) && n <= |a|
    ensures IsSubsequence(a[..n], b)
    decreases |b|
  {
    if n == 0 || |a| == 0 {
    } else if a[0] == b[0] {
      PrefixOfSubsequence(a[1..], b[1..], n - 1);
      assert a[..n][1..] == a[1..][..n - 1];
    } else {
      PrefixOfSubsequence(a, b[1..], n);
    }
  }

  /** Every element of a subsequence occurs in the larger sequence. */
  lemma {:induction false} SubsequenceMembers(a: seq<string>, b: seq<string>)
    requires IsSubsequence(a, b)
    ensures forall e :: e in a ==> e in b
    decreases |b|
  {
    if |a| > 0 {
      if a[0] == b[0] {
        SubsequenceMembers(a[1..], b[1..]);
        assert a == [a[0]] + a[1..];
      } else {
        SubsequenceMembers(a, b[1..]);
      }
      assert b == [b[0]] + b[1..];
    }
  }

  /** `[entry for entry in history if query in entry.lower()]`: the reference
      filter, with no limit on the number of matches. */
  function AllMatches(history: seq<string>, query: string): (m: seq<string>)
    ensures |m| <= |history|
    ensures forall k :: 0 <= k < |m| ==> EntryMatches(query, m[k])
    ensures forall e :: e in history && EntryMatches(query, e) ==> e in m
    ensures IsSubsequence(m, history)
  {
    if |history| == 0 then []
    else
      var rest := AllMatches(history[1..], query);
      assert history == [history[0]] + history[1..];
      if EntryMatches(query, history[0]) then
        var m := [history[0]] + rest;
        assert m[1..] == rest;
        m
      else rest
  }

  /** The reference filter keeps every copy of a matching entry and no copy of
      any other: together with the subsequence property this determines it. */
  lemma {:induction false} AllMatchesMultiplicity(history: seq<string>, query: string)
    ensures var m := AllMatches(history, query);
      forall e :: multiset(m)[e] == if EntryMatches(query, e) then multiset(history)[e] else 0
  {
    if |history| > 0 {
      var h := history[0];
      var m := AllMatches(history, query);
      var rest := AllMatches(history[1..], query);
      AllMatchesMultiplicity(history[1..], query);
      assert history == [h] + history[1..];
      var kept := if EntryMatches(query, h) then [h] else [];
      assert m == kept + rest;
      forall e ensures multiset(m)[e] == if EntryMatches(query, e) then multiset(history)[e] else 0 {
        assert multiset(history)[e] == multiset([h])[e] + multiset(history[1..])[e];
        assert multiset(m)[e] == multiset(kept)[e] + multiset(rest)[e];
      }
    }
  }

  function Min(a: int, b: int): int {
    if a <= b then a else b
  }

  /** `history[:n]` with Python's slice rules: a negative `n` counts back from
      the end, and an `n` past either end is clamped. */
  function Head(history: seq<string>, n: int): (h: seq<string>)
    ensures |h| <= |history| && h == history[..|h|]
    ensures n >= 0 ==> |h| == Min(n, |history|)
    ensures n < 0 ==> |h| == if |history| + n > 0 then |history| + n else 0
  {
    if n >= 0 then (if n < |history| then history[..n] else history)
    else if |history| + n > 0 then history[..|history| + n]
    else []
  }

  /** The `for entry in history` loop of the non-empty-query branch, with
      `acc` the matches collected so far: stop once `max_lines` matches are
      collected, otherwise keep the entry if it contains the query. */
  function CollectMatches(history: seq<string>, query: string, maxLines: int, acc: seq<string>): (r: seq<string>)
    ensures |acc| <= |r| && r[..|acc|] == acc
    ensures forall k :: |acc| <= k < |r| ==> EntryMatches(query, r[k])
    ensures |acc| <= maxLines ==> |r| <= maxLines
    decreases |history|
  {
    if |history| == 0 then acc
    else if |acc| == maxLines then acc
    else CollectMatches(history[1..], query, maxLines,
                        if EntryMatches(query, history[0]) then acc + [history[0]] else acc)
  }

  /** While the limit can still be reached, the loop collects the first
      `maxLines - |acc|` matches of the reference filter. */
  lemma {:induction false} CollectMatchesUpToLimit(history: seq<string>, query: string, maxLines: int, acc: seq<string>)
    requires |acc| <= maxLines
    ensures var all := AllMatches(history, query);
      CollectMatches(history, query, maxLines, acc) == acc + all[..Min(maxLines - |acc|, |all|)]
    decreases |history|
  {
    var all := AllMatches(history, query);
    if |history| == 0 || |acc| == maxLines {
      assert all[..0] == [];
    } else if EntryMatches(query, history[0]) {
      var rest := AllMatches(history[1..], query);
      CollectMatchesUpToLimit(history[1..], query, maxLines, acc + [history[0]]);
      var n := Min(maxLines - |acc|, |all|);
      assert all == [history[0]] + rest;
      assert all[..n] == [history[0]] + rest[..n - 1];
    } else {
      CollectMatchesUpToLimit(history[1..], query, maxLines, acc);
    }
  }

  /** Once more than `maxLines` are collected (from the start, when `maxLines`
      is negative) the limit test never fires and the loop collects every
      match. */
  lemma {:induction false} CollectMatchesPastLimit(history: seq<string>, query: string, maxLines: int, acc: seq<string>)
    requires maxLines < |acc|
    ensures CollectMatches(history, query, maxLines, acc) == acc + AllMatches(history, query)
    decreases |history|
  {
    if |history| > 0 {
      var acc' := if EntryMatches(query, history[0]) then acc + [history[0]] else acc;
      CollectMatchesPastLimit(history[1..], query, maxLines, acc');
    }
  }

  /** `matches` of `on_query_change`: `history[:max_lines]` for an empty
      query, otherwise the loop above. With an empty query the matches are the
      first `maxLines` entries, or all but the last `-maxLines` when `maxLines`
      is negative; with a non-empty query they are the first `maxLines`
      entries that contain it (all of them when `maxLines` is negative), in
      history order. */
  function Matches(history: seq<string>, query: string, maxLines: int): (m: seq<string>)
    ensures query == "" && maxLines >= 0 ==> m == history[..Min(maxLines, |history|)]
    ensures query == "" && maxLines < 0 ==>
      m == history[..if |history| + maxLines > 0 then |history| + maxLines else 0]
    ensures query != "" && maxLines >= 0 ==>
      var all := AllMatches(history, query);
      m == all[..Min(maxLines, |all|)]
    ensures query != "" && maxLines < 0 ==> m == AllMatches(history, query)
  {
    if query == "" then Head(history, maxLines)
    else if maxLines >= 0 then
      CollectMatchesUpToLimit(history, query, maxLines, []);
      CollectMatches(history, query, maxLines, [])
    else
      CollectMatchesPastLimit(history, query, maxLines, []);
      CollectMatches(history, query, maxLines, [])
  }

  /** The matches of a non-empty query keep the history order, all contain the
      query, number at most `maxLines`, and skip no matching entry: when fewer
      than `maxLines` were collected, every matching entry was. */
  lemma {:induction false} QueryMatchesProperties(history: seq<string>, query: string, maxLines: int)
    requires query != "" && maxLines >= 0
    ensures var m := Matches(history, query, maxLines);
      && |m| <= maxLines
      && IsSubsequence(m, history)
      && (forall k :: 0 <= k < |m| ==> EntryMatches(query, m[k]))
      && (|m| < maxLines ==> m == AllMatches(history, query))
  {
    var all := AllMatches(history, query);
    var m := Matches(history, query, maxLines);
    PrefixOfSubsequence(all, history, Min(maxLines, |all|));
    if |m| < maxLines {
      assert m == all;
    }
  }

  /** `max(1, lines * 0.85)` in twentieths of a line, where `lines` is the
      number of lines of the label (`count('\n') + 1`). */
  function Cost(item: DisplayResult): (c: nat)
    ensures c >= 20
    ensures c == 20 <==> CountChar(item.name, NL) == 0
  {
    var lines := CountChar(item.name, NL) + 1;
    if 17 * lines > 20 then 17 * lines else 20
  }

  /** A formatted entry has a one-, two- or three-line label, so it costs one
      line, 1.7 lines or 2.55 lines. */
  lemma FormattedCost(query: string, entry: string)
    requires Formattable(query, entry)
    ensures Cost(FormatEntry(query, entry)) in {20, 34, 51}
  {
    var l := Label(query, entry);
    var breaks := CountChar(l, NL);
    assert breaks == 0 || breaks == 1 || breaks == 2;
  }

  /** The sum of the costs: at least one line per item. */
  function TotalCost(items: seq<DisplayResult>): (t: nat)
    ensures t >= 20 * |items|
  {
    if |items| == 0 then 0 else Cost(items[0]) + TotalCost(items[1..])
  }

  /** The budget loop of `on_query_change`, having already spent `spent`:
      every item is charged, and an item is kept when the running total is
      still within `budget`. There is no early exit. */
  function KeepWithin(items: seq<DisplayResult>, budget: int, spent: int): (kept: seq<DisplayResult>)
    ensures |kept| <= |items|
    decreases |items|
  {
    if |items| == 0 then []
    else
      var spent' := spent + Cost(items[0]);
      (if spent' <= budget then [items[0]] else []) + KeepWithin(items[1..], budget, spent')
  }

  /** Once the budget is overspent nothing more is kept, because every item
      costs something. */
  lemma {:induction false} OverspentKeepsNothing(items: seq<DisplayResult>, budget: int, spent: int)
    requires spent > budget
    ensures KeepWithin(items, budget, spent) == []
    decreases |items|
  {
    if |items| > 0 {
      OverspentKeepsNothing(items[1..], budget, spent + Cost(items[0]));
    }
  }

  /** The items the budget loop keeps are a prefix of the items. */
  lemma {:induction false} KeptIsPrefix(items: seq<DisplayResult>, budget: int, spent: int)
    ensures var kept := KeepWithin(items, budget, spent);
      kept == items[..|kept|]
    decreases |items|
  {
    if |items| > 0 {
      var spent' := spent + Cost(items[0]);
      var rest := KeepWithin(items[1..], budget, spent');
      KeptIsPrefix(items[1..], budget, spent');
      if spent' <= budget {
        assert items[..|rest| + 1] == [items[0]] + items[1..][..|rest|];
      } else {
        OverspentKeepsNothing(items[1..], budget, spent');
      }
    }
  }

  /** The kept items fit in what is left of the budget. */
  lemma {:induction false} KeptFits(items: seq<DisplayResult>, budget: int, spent: int)
    ensures var kept := KeepWithin(items, budget, spent);
      kept != [] ==> spent + TotalCost(kept) <= budget
    decreases |items|
  {
    if |items| > 0 {
      var spent' := spent + Cost(items[0]);
      var rest := KeepWithin(items[1..], budget, spent');
      KeptFits(items[1..], budget, spent');
      if spent' <= budget {
        assert ([items[0]] + rest)[1..] == rest;
      } else {
        OverspentKeepsNothing(items[1..], budget, spent');
      }
    }
  }

  /** When the loop leaves items out, the first of them does not fit. */
  lemma {:induction false} NextDoesNotFit(items: seq<DisplayResult>, budget: int, spent: int)
    ensures var kept := KeepWithin(items, budget, spent);
      |kept| < |items| ==> spent + TotalCost(items[..|kept| + 1]) > budget
    decreases |items|
  {
    if |items| > 0 {
      var spent' := spent + Cost(items[0]);
      var rest := KeepWithin(items[1..], budget, spent');
      NextDoesNotFit(items[1..], budget, spent');
      if spent' <= budget {
        assert KeepWithin(items, budget, spent) == [items[0]] + rest;
        if |rest| < |items| - 1 {
          var next := items[..|rest| + 2];
          assert next[1..] == items[1..][..|rest| + 1];
          assert TotalCost(next) == Cost(items[0]) + TotalCost(next[1..]);
        }
      } else {
        OverspentKeepsNothing(items[1..], budget, spent');
        assert items[..1][1..] == [];
      }
    }
  }

  /** The budget loop keeps the longest prefix of the items whose total cost
      fits: the kept items are a prefix, they fit, and one more would not.
      Once one item is refused, no later item is kept. */
  lemma KeepWithinIsLongestFittingPrefix(items: seq<DisplayResult>, budget: int, spent: int)
    ensures var kept := KeepWithin(items, budget, spent);
      && kept == items[..|kept|]
      && (kept != [] ==> spent + TotalCost(kept) <= budget)
      && (|kept| < |items| ==> spent + TotalCost(items[..|kept| + 1]) > budget)
  {
    KeptIsPrefix(items, budget, spent);
    KeptFits(items, budget, spent);
    NextDoesNotFit(items, budget, spent);
  }

  /** Every match formatted in order: `format_entry(icon, query, entry)` for
      each `entry in matches`. */
  function FormatAll(query: string, matches: seq<string>): (r: seq<DisplayResult>)
    requires forall e :: e in matches ==> Formattable(query, e)
    ensures |r| == |matches|
    ensures forall k :: 0 <= k < |r| ==> r[k] == FormatEntry(query, matches[k])
    ensures forall k :: 0 <= k < |r| ==> r[k].payload == matches[k]
  {
    seq(|matches|, k requires 0 <= k < |matches| => FormatEntry(query, matches[k]))
  }

  /** Every formatted match costs one line, 1.7 lines or 2.55 lines. */
  lemma FormatAllCosts(query: string, matches: seq<string>)
    requires forall e :: e in matches ==> Formattable(query, e)
    ensures forall k :: 0 <= k < |matches| ==> Cost(FormatAll(query, matches)[k]) in {20, 34, 51}
  {
    forall k | 0 <= k < |matches| ensures Cost(FormatAll(query, matches)[k]) in {20, 34, 51} {
      FormattedCost(query, matches[k]);
    }
  }

  /** The filter, budget and status part of `on_query_change` for a history
      that was fetched successfully and a query already normalised. The source
      demands that every match can be formatted (see `Formattable`). */
  function Respond(history: seq<string>, query: string, maxLines: int): (r: Response)
    requires forall e :: e in Matches(history, query, maxLines) ==> Formattable(query, e)
    ensures var m := Matches(history, query, maxLines);
      && (r.Results? <==> |m| > 0)
      && (r.Status? ==> r.message == if |query| > 0 then NoMatchesMessage else EmptyHistoryMessage)
    ensures r.Results? ==>
      var m := Matches(history, query, maxLines);
      var all := FormatAll(query, m);
      && |r.items| <= |all|
      && r.items == all[..|r.items|]
      && (r.items != [] ==> TotalCost(r.items) <= 20 * maxLines)
      && (|r.items| < |all| ==> TotalCost(all[..|r.items| + 1]) > 20 * maxLines)
  {
    var m := Matches(history, query, maxLines);
    if |m| > 0 then
      KeepWithinIsLongestFittingPrefix(FormatAll(query, m), 20 * maxLines, 0);
      Results(KeepWithin(FormatAll(query, m), 20 * maxLines, 0))
    else
      Status(if |query| > 0 then NoMatchesMessage else EmptyHistoryMessage)
  }

  /** The reference filter finds nothing exactly when no entry contains the query. */
  lemma NoMatchesIff(history: seq<string>, query: string)
    ensures AllMatches(history, query) == [] <==> forall e :: e in history ==> !EntryMatches(query, e)
  {
    var all := AllMatches(history, query);
    if all != [] {
      assert all[0] in history by {
        SubsequenceMembers(all, history);
      }
    }
  }

  /** Which status message appears, in terms of the history: for a positive
      budget, "history is empty" exactly when the query is empty and so is the
      history, and "no matches" exactly when the query is non-empty and no entry
      contains it. */
  lemma {:induction false} StatusMessages(history: seq<string>, query: string, maxLines: int)
    requires maxLines >= 1
    requires forall e :: e in Matches(history, query, maxLines) ==> Formattable(query, e)
    ensures Respond(history, query, maxLines) == Status(EmptyHistoryMessage) <==> query == "" && history == []
    ensures Respond(history, query, maxLines) == Status(NoMatchesMessage) <==>
      query != "" && forall e :: e in history ==> !EntryMatches(query, e)
  {
    var m := Matches(history, query, maxLines);
    var r := Respond(history, query, maxLines);
    assert r.Status? <==> m == [];
    if query == "" {
      assert m == [] <==> history == [];
    } else {
      NoMatchesIff(history, query);
      var all := AllMatches(history, query);
      assert m == [] <==> all == [];
    }
  }

  /** Every row returned for a non-empty query carries an entry of the history
      that contains the query, and the rows keep the history order. */
  lemma {:induction false} ResultsMatchQuery(history: seq<string>, query: string, maxLines: int)
    requires query != "" && maxLines >= 0
    requires forall e :: e in Matches(history, query, maxLines) ==> Formattable(query, e)
    ensures var r := Respond(history, query, maxLines);
      r.Results? ==> forall k :: 0 <= k < |r.items| ==>
        EntryMatches(query, r.items[k].payload) && r.items[k].payload in history
  {
    var r := Respond(history, query, maxLines);
    var m := Matches(history, query, maxLines);
    QueryMatchesProperties(history, query, maxLines);
    SubsequenceMembers(m, history);
    if r.Results? {
      var all := FormatAll(query, m);
      forall k | 0 <= k < |r.items|
        ensures EntryMatches(query, r.items[k].payload) && r.items[k].payload in history
      {
        assert r.items[k] == all[k];
        assert m[k] in m;
      }
    }
  }
}
